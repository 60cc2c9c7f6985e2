/** Order-preserving filtering of a sequence, the shape of every
    "copy the elements that pass a test into the next free slot" loop in
    the engine. */
module Seqs {

  /** The elements of `s` that satisfy `keep`, in their original order
      (see `FilterCount` and `FilterMembers` for what is kept). */
  function Filter<T>(keep: T -> bool, s: seq<T>): (r: seq<T>)
    ensures |r| <= |s|
    decreases |s|
  {
    if s == [] then []
    else
      var init, last := s[..|s| - 1], s[|s| - 1];
      assert s == init + [last];
      Filter(keep, init) + (if keep(last) then [last] else [])
  }

  /** A kept element occurs in the result exactly as often as in the
      input; any other element does not occur. */
  lemma {:induction false} FilterCount<T(!new)>(keep: T -> bool, s: seq<T>, x: T)
    ensures multiset(Filter(keep, s))[x] == if keep(x) then multiset(s)[x] else 0
    decreases |s|
  {
    if s != [] {
      var init, last := s[..|s| - 1], s[|s| - 1];
      assert s == init + [last];
      FilterCount(keep, init, x);
    }
  }

  /** An element is kept exactly when it occurs in the input and passes
      the test. */
  lemma FilterMembers<T(!new)>(keep: T -> bool, s: seq<T>, x: T)
    ensures x in Filter(keep, s) <==> x in s && keep(x)
  {
    FilterCount(keep, s, x);
    assert x in Filter(keep, s) <==> x in multiset(Filter(keep, s));
    assert x in s <==> x in multiset(s);
  }

  /** One more step of a left-to-right filtering loop. */
  lemma FilterStep<T(!new)>(keep: T -> bool, s: seq<T>, i: int)
    requires 0 <= i < |s|
    ensures Filter(keep, s[..i + 1]) == Filter(keep, s[..i]) + (if keep(s[i]) then [s[i]] else [])
  {
    assert s[..i + 1][..i] == s[..i];
  }

  /** `f` applied to every element, in order. */
  function Map<A, B>(f: A -> B, s: seq<A>): (r: seq<B>)
    ensures |r| == |s|
    ensures forall i :: 0 <= i < |s| ==> r[i] == f(s[i])
  {
    seq(|s|, i requires 0 <= i < |s| => f(s[i]))
  }

  /** The "transform each element, keep it if it passes, store it in the
      next free slot" loop: the slots filled are the kept images, in
      order, and their number never exceeds the input's length. */
  method MapFilter<A, B(!new)>(f: A -> B, keep: B -> bool, s: seq<A>) returns (r: seq<B>, count: int)
    ensures 0 <= count == |r| <= |s|
    ensures r == Filter(keep, Map(f, s))
  {
    ghost var mapped := Map(f, s);
    r := [];
    count := 0;
    var i := 0;
    while i < |s|
      invariant 0 <= i <= |s|
      invariant count == |r|
      invariant r == Filter(keep, mapped[..i])
    {
      var y := f(s[i]);
      FilterStep(keep, mapped, i);
      if keep(y) {
        r := r + [y];
        count := count + 1;
      }
      i := i + 1;
    }
    assert mapped[..|s|] == mapped;
  }
}
