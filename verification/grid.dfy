/** The loop shared by both mesh builders of 3dGraph.c (lines 16-21 and
    71-76): walk a `rows` by `cols` grid row by row, let every cell emit
    either nothing or a pair of triangles into the next two free slots of
    the buffer, and give up as soon as fewer than two slots remain. */
module Grid {
  import opened Types

  /** What a cell produces: nothing, or two triangles. */
  type Cell = Option<(Tri, Tri)>

  /** `n` rounded down to an even number. */
  function EvenFloor(n: nat): (r: nat)
    ensures r % 2 == 0
    ensures r <= n < r + 2
  {
    n - n % 2
  }

  function Emit(cell: Cell): seq<Tri>
  {
    match cell
    case None => []
    case Some(p) => [p.0, p.1]
  }

  /** The triangles of cells `(i, 0)` up to `(i, j - 1)`, in order. */
  function RowTris(cell: (int, int) -> Cell, i: int, j: int): seq<Tri>
    decreases j
  {
    if j <= 0 then []
    else RowTris(cell, i, j - 1) + Emit(cell(i, j - 1))
  }

  /** The triangles of the first `rows` rows of `cols` cells, row by
      row. */
  function GridTris(cell: (int, int) -> Cell, rows: int, cols: int): seq<Tri>
    decreases rows
  {
    if rows <= 0 then []
    else GridTris(cell, rows - 1, cols) + RowTris(cell, rows - 1, cols)
  }

  /** A row yields an even number of triangles, at most two per cell. */
  lemma {:induction false} RowTrisShape(cell: (int, int) -> Cell, i: int, j: int)
    requires j >= 0
    ensures |RowTris(cell, i, j)| % 2 == 0
    ensures |RowTris(cell, i, j)| <= 2 * j
    decreases j
  {
    if j > 0 {
      RowTrisShape(cell, i, j - 1);
    }
  }

  /** The grid yields an even number of triangles, at most two per cell,
      and none at all when either dimension is not positive. */
  lemma {:induction false} GridTrisShape(cell: (int, int) -> Cell, rows: int, cols: int)
    ensures |GridTris(cell, rows, cols)| % 2 == 0
    ensures rows >= 0 && cols >= 0 ==> |GridTris(cell, rows, cols)| <= 2 * rows * cols
    ensures rows <= 0 || cols <= 0 ==> GridTris(cell, rows, cols) == []
    decreases rows
  {
    if rows > 0 {
      GridTrisShape(cell, rows - 1, cols);
      if cols >= 0 {
        RowTrisShape(cell, rows - 1, cols);
        assert 2 * (rows - 1) * cols + 2 * cols == 2 * rows * cols;
      }
    }
  }

  lemma {:induction false} RowTrisPrefix(cell: (int, int) -> Cell, i: int, j: int, j': int)
    requires 0 <= j <= j'
    ensures RowTris(cell, i, j) <= RowTris(cell, i, j')
    decreases j'
  {
    if j < j' {
      RowTrisPrefix(cell, i, j, j' - 1);
    }
  }

  lemma {:induction false} GridTrisPrefix(cell: (int, int) -> Cell, i: int, rows: int, cols: int)
    requires 0 <= i <= rows
    ensures GridTris(cell, i, cols) <= GridTris(cell, rows, cols)
    decreases rows
  {
    if i < rows {
      GridTrisPrefix(cell, i, rows - 1, cols);
    }
  }

  /** Every state of the walk, cell `(i, j)` about to be visited, has
      produced a prefix of the complete output. */
  lemma WalkIsPrefix(cell: (int, int) -> Cell, i: int, j: int, rows: int, cols: int)
    requires 0 <= i < rows && 0 <= j <= cols
    ensures GridTris(cell, i, cols) + RowTris(cell, i, j) <= GridTris(cell, rows, cols)
  {
    RowTrisPrefix(cell, i, j, cols);
    GridTrisPrefix(cell, i + 1, rows, cols);
    var done, row, full := GridTris(cell, i, cols), RowTris(cell, i, j), RowTris(cell, i, cols);
    assert GridTris(cell, i + 1, cols) == done + full;
    assert done + row == (done + full)[..|done + row|];
  }

  /** When no cell is empty, the grid yields exactly two triangles per cell. */
  lemma {:induction false} FullGridLength(cell: (int, int) -> Cell, rows: int, cols: int)
    requires rows >= 0 && cols >= 0
    requires forall i, j :: 0 <= i < rows && 0 <= j < cols ==> cell(i, j).Some?
    ensures |GridTris(cell, rows, cols)| == 2 * rows * cols
    decreases rows
  {
    if rows > 0 {
      FullGridLength(cell, rows - 1, cols);
      FullRowLength(cell, rows - 1, cols);
      assert 2 * (rows - 1) * cols + 2 * cols == 2 * rows * cols;
    }
  }

  lemma {:induction false} FullRowLength(cell: (int, int) -> Cell, i: int, j: int)
    requires j >= 0
    requires forall j' :: 0 <= j' < j ==> cell(i, j').Some?
    ensures |RowTris(cell, i, j)| == 2 * j
    decreases j
  {
    if j > 0 {
      FullRowLength(cell, i, j - 1);
    }
  }

  /** Every triangle of the grid comes from one of its cells. */
  lemma {:induction false} GridTrisFromCells(cell: (int, int) -> Cell, rows: int, cols: int, t: Tri)
    requires t in GridTris(cell, rows, cols)
    ensures exists i, j :: 0 <= i < rows && 0 <= j < cols && t in Emit(cell(i, j))
    decreases rows
  {
    var done, row := GridTris(cell, rows - 1, cols), RowTris(cell, rows - 1, cols);
    assert GridTris(cell, rows, cols) == done + row;
    if t in done {
      GridTrisFromCells(cell, rows - 1, cols, t);
      var i, j :| 0 <= i < rows - 1 && 0 <= j < cols && t in Emit(cell(i, j));
      assert 0 <= i < rows && 0 <= j < cols && t in Emit(cell(i, j));
    } else {
      RowTrisFromCells(cell, rows - 1, cols, t);
      var j :| 0 <= j < cols && t in Emit(cell(rows - 1, j));
      assert 0 <= rows - 1 < rows && 0 <= j < cols && t in Emit(cell(rows - 1, j));
    }
  }

  lemma {:induction false} RowTrisFromCells(cell: (int, int) -> Cell, i: int, j: int, t: Tri)
    requires t in RowTris(cell, i, j)
    ensures exists j' :: 0 <= j' < j && t in Emit(cell(i, j'))
    decreases j
  {
    var init := RowTris(cell, i, j - 1);
    assert RowTris(cell, i, j) == init + Emit(cell(i, j - 1));
    if t in init {
      RowTrisFromCells(cell, i, j - 1, t);
      var j' :| 0 <= j' < j - 1 && t in Emit(cell(i, j'));
      assert 0 <= j' < j && t in Emit(cell(i, j'));
    } else {
      assert t in Emit(cell(i, j - 1));
    }
  }

  /** When the walk stops early, at cell `(i, j)` with the buffer full up
      to its largest even size, what it wrote is the grid's output cut at
      that size. */
  lemma StopIsTruncation(cell: (int, int) -> Cell, rows: int, cols: int, i: int, j: int, written: seq<Tri>, n: nat)
    requires 0 <= i < rows && 0 <= j < cols
    requires written == GridTris(cell, i, cols) + RowTris(cell, i, j)
    requires n - 2 < |written| <= EvenFloor(n) && |written| % 2 == 0
    ensures |written| == Min(|GridTris(cell, rows, cols)|, EvenFloor(n))
    ensures written == GridTris(cell, rows, cols)[..|written|]
  {
    WalkIsPrefix(cell, i, j, rows, cols);
    FullBuffer(|written|, n);
  }

  /** An even count that leaves fewer than two of `n` slots free has
      filled the largest even number of them. */
  lemma FullBuffer(count: nat, n: nat)
    requires n - 2 < count <= EvenFloor(n) && count % 2 == 0
    ensures count == EvenFloor(n)
  {
  }

  /** When the walk completes, what it wrote is the whole output, which
      fits. */
  lemma CompleteIsTruncation(full: seq<Tri>, written: seq<Tri>, n: nat)
    requires written == full
    requires |written| <= EvenFloor(n)
    ensures |written| == Min(|full|, EvenFloor(n))
    ensures written == full[..|written|]
  {
  }

  /** The inner loop over one row of cells, after `written0` has been
      written. It returns the number `j` of cells it visited; it stops
      before visiting all `cols` of them exactly when fewer than two of
      the `n` slots are left. Each emitting cell fills the next two slots,
      so what is written is always a prefix of the buffer. */
  method FillRow(n: nat, written0: seq<Tri>, i: int, cols: int, cell: (int, int) -> Cell)
    returns (written: seq<Tri>, j: int)
    requires |written0| <= EvenFloor(n) && |written0| % 2 == 0
    ensures |written0| <= |written| <= EvenFloor(n) && |written| % 2 == 0
    ensures 0 <= j <= (if cols < 0 then 0 else cols)
    ensures j < cols ==> |written| > n - 2
    ensures written == written0 + RowTris(cell, i, j)
    ensures j >= cols ==> written == written0 + RowTris(cell, i, cols)
  {
    written := written0;
    var count := |written0|;
    j := 0;
    while j < cols
      invariant 0 <= j <= (if cols < 0 then 0 else cols)
      invariant count == |written|
      invariant |written0| <= count <= EvenFloor(n) && count % 2 == 0
      invariant written == written0 + RowTris(cell, i, j)
    {
      if count > n - 2 {
        return;
      }
      match cell(i, j) {
        case None =>
        case Some(p) =>
          written := written + [p.0, p.1];
          count := count + 2;
      }
      j := j + 1;
    }
  }

  lemma NextRow(cell: (int, int) -> Cell, i: int, cols: int)
    requires i >= 0
    ensures GridTris(cell, i + 1, cols) == GridTris(cell, i, cols) + RowTris(cell, i, cols)
  {
  }

  lemma AllRows(cell: (int, int) -> Cell, i: int, rows: int, cols: int)
    requires i == (if rows < 0 then 0 else rows)
    ensures GridTris(cell, i, cols) == GridTris(cell, rows, cols)
  {
  }

  /** The nested capacity-checked loop over `n` slots: what it writes is
      the grid's output cut at the largest even number of slots available. */
  method Walk(n: nat, rows: int, cols: int, cell: (int, int) -> Cell) returns (written: seq<Tri>)
    ensures |written| == Min(|GridTris(cell, rows, cols)|, EvenFloor(n))
    ensures written == GridTris(cell, rows, cols)[..|written|]
  {
    written := [];
    var i := 0;
    while i < rows
      invariant 0 <= i <= (if rows < 0 then 0 else rows)
      invariant |written| <= EvenFloor(n) && |written| % 2 == 0
      invariant written == GridTris(cell, i, cols)
    {
      var j;
      written, j := FillRow(n, written, i, cols, cell);
      if j < cols {
        StopIsTruncation(cell, rows, cols, i, j, written, n);
        return;
      }
      NextRow(cell, i, cols);
      i := i + 1;
    }
    AllRows(cell, i, rows, cols);
    CompleteIsTruncation(GridTris(cell, rows, cols), written, n);
  }

  /** The walk writing into the buffer `mesh`: only the first `count`
      slots change. */
  method FillGrid(mesh: seq<Tri>, rows: int, cols: int, cell: (int, int) -> Cell)
    returns (out: seq<Tri>, count: int)
    ensures |out| == |mesh|
    ensures 0 <= count <= |mesh| && count % 2 == 0
    ensures count == Min(|GridTris(cell, rows, cols)|, EvenFloor(|mesh|))
    ensures out[..count] == GridTris(cell, rows, cols)[..count]
    ensures out[count..] == mesh[count..]
  {
    var written := Walk(|mesh|, rows, cols, cell);
    GridTrisShape(cell, rows, cols);
    count := |written|;
    out := written + mesh[count..];
    assert out[..count] == written;
  }
}
