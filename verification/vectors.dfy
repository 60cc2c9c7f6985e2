/** Vector algebra over exact reals (3dEngine.c:9-37). Every operation is
    a polynomial in the coordinates, so the identities below hold exactly. */
module Vectors {
  import opened Types

  function Add(a: Vec3, b: Vec3): Vec3
  {
    Vec3(a.x + b.x, a.y + b.y, a.z + b.z)
  }

  /** Subtraction undoes addition. */
  function Sub(a: Vec3, b: Vec3): (r: Vec3)
    ensures Add(r, b) == a
  {
    Vec3(a.x - b.x, a.y - b.y, a.z - b.z)
  }

  /** The negation is the additive inverse. */
  function Negate(a: Vec3): (r: Vec3)
    ensures Add(a, r) == Origin
    ensures Sub(Origin, a) == r
  {
    Vec3(-a.x, -a.y, -a.z)
  }

  /** Scaling gives a vector parallel to `a`; a positive factor keeps the
      sign of every coordinate (this is all `normalize` needs to be
      transparent to the sign tests of `renderMesh`). */
  function Scale(a: Vec3, k: real): (r: Vec3)
    ensures Cross(r, a) == Origin
    ensures k > 0.0 ==> (r.x > 0.0 <==> a.x > 0.0)
    ensures k > 0.0 ==> (r.y > 0.0 <==> a.y > 0.0)
    ensures k > 0.0 ==> (r.z > 0.0 <==> a.z > 0.0)
  {
    Vec3(k * a.x, k * a.y, k * a.z)
  }

  /** The dot product; the squared length is never negative. */
  function Dot(a: Vec3, b: Vec3): (r: real)
    ensures a == b ==> r >= 0.0
  {
    a.x * b.x + a.y * b.y + a.z * b.z
  }

  function Cross(a: Vec3, b: Vec3): Vec3
  {
    Vec3(a.y * b.z - a.z * b.y, a.z * b.x - a.x * b.z, a.x * b.y - a.y * b.x)
  }

  /** The cross product is orthogonal to both operands. */
  lemma CrossOrthogonal(a: Vec3, b: Vec3)
    ensures Dot(Cross(a, b), a) == 0.0
    ensures Dot(Cross(a, b), b) == 0.0
  {
  }

  lemma AddSubCancel(a: Vec3, b: Vec3)
    ensures Sub(Add(a, b), b) == a
  {
  }

  lemma SubIsAddNegate(a: Vec3, b: Vec3)
    ensures Sub(a, b) == Add(a, Negate(b))
  {
  }

  lemma DotSymmetric(a: Vec3, b: Vec3)
    ensures Dot(a, b) == Dot(b, a)
  {
  }

  /** Swapping the operands of the cross product negates it; in
      particular a vector crossed with itself is zero. */
  lemma CrossAntiCommutative(a: Vec3, b: Vec3)
    ensures Cross(a, b) == Negate(Cross(b, a))
    ensures Cross(a, a) == Origin
  {
  }
}
