/**
 * The Game of Life scene: a 0/1 lattice indexed [col][row] with toroidal
 * adjacency, painted around the pointer and advanced by Conway's B3/S23 rule
 * into a second buffer that is then swapped with the first.
 *
 * The specification is stated over lattice values (`Board`, a sequence of
 * columns); the scene itself keeps two mutable 2-D arrays, and `Snapshot`
 * reads an array as a `Board`.
 */
module Life {
  import opened Common

  /** `this.cellSize`: side of one cell in pixels. */
  const CellSize: real := 10.0

  /** `Math.ceil(extent / this.cellSize)`: the number of cells covering an extent. */
  function CellCount(extent: real): (n: int)
    ensures extent >= 0.0 ==> n >= 0
    ensures (n - 1) as real * CellSize < extent <= n as real * CellSize
  {
    -((-extent / CellSize).Floor)
  }

  /** `Math.floor(coord / this.cellSize)`: the cell a pointer coordinate lies in. */
  function PointerCell(coord: real): (k: int)
    ensures k as real * CellSize <= coord < (k + 1) as real * CellSize
    ensures coord >= 0.0 ==> k >= 0
  {
    (coord / CellSize).Floor
  }

  /**
   * `(v + n) % n`. The left operand is never negative where the scene uses
   * it, and there the truncating JavaScript `%` agrees with Dafny's.
   */
  function WrapIndex(v: int, n: int): (r: int)
    requires n >= 1 && v + n >= 0
    ensures 0 <= r < n
    ensures 0 <= v < n ==> r == v
    ensures v == -1 ==> r == n - 1
  {
    (v + n) % n
  }

  /**
   * The torus seen from the right or bottom edge: the index one past the
   * last wraps to 0, and in general the wrapped index differs from `v` by a
   * multiple of `n`.
   */
  lemma WrapIndexCongruent(v: int, n: int)
    requires n >= 1 && v + n >= 0
    ensures v == n ==> WrapIndex(v, n) == 0
    ensures (v - WrapIndex(v, n)) % n == 0
  {
    var r := WrapIndex(v, n);
    var q := (v + n) / n;
    assert v - r == (q - 1) * n by {
      assert (q - 1) * n == q * n - n;
    }
    ModUnique(v - r, n, q - 1, 0);
    if v == n {
      ModUnique(v + n, n, 2, 0);
    }
  }

  /** A lattice: a sequence of `cols` columns of `rows` cells each. */
  type Board = seq<seq<int>>

  ghost predicate IsGrid(b: Board, cols: nat, rows: nat) {
    |b| == cols && forall c | 0 <= c < |b| :: |b[c]| == rows
  }

  /** Every cell is dead (0) or alive (1). */
  ghost predicate Binary(b: Board) {
    forall c, r | 0 <= c < |b| && 0 <= r < |b[c]| :: b[c][r] == 0 || b[c][r] == 1
  }

  /** The cell at offset (i, j) from (x, y), both indices wrapped around the torus. */
  ghost function At(b: Board, cols: nat, rows: nat, x: int, y: int, i: int, j: int): (v: int)
    requires IsGrid(b, cols, rows) && cols >= 1 && rows >= 1
    requires 0 <= x < cols && 0 <= y < rows && -1 <= i <= 1 && -1 <= j <= 1
  {
    b[WrapIndex(x + i, cols)][WrapIndex(y + j, rows)]
  }

  /** The eight wrapped neighbours of (x, y), summed. */
  ghost function NeighborCount(b: Board, cols: nat, rows: nat, x: int, y: int): (n: int)
    requires IsGrid(b, cols, rows) && cols >= 1 && rows >= 1
    requires 0 <= x < cols && 0 <= y < rows
    ensures Binary(b) ==> 0 <= n <= 8
  {
    At(b, cols, rows, x, y, -1, -1) + At(b, cols, rows, x, y, -1, 0) + At(b, cols, rows, x, y, -1, 1)
    + At(b, cols, rows, x, y, 0, -1) + At(b, cols, rows, x, y, 0, 1)
    + At(b, cols, rows, x, y, 1, -1) + At(b, cols, rows, x, y, 1, 0) + At(b, cols, rows, x, y, 1, 1)
  }

  /**
   * The generation rule as the scene writes it: a dead cell with three
   * neighbours becomes alive, a live cell with fewer than two or more than
   * three dies, and every other cell keeps its state.
   */
  function Rule(state: int, neighbors: int): (next: int)
    ensures state == 0 || state == 1 ==> next == 0 || next == 1
    ensures state == 0 || state == 1 ==>
      (next == 1 <==> neighbors == 3 || (state == 1 && neighbors == 2))
  {
    if state == 0 && neighbors == 3 then 1
    else if state == 1 && (neighbors < 2 || neighbors > 3) then 0
    else state
  }

  /** The next state of cell (c, r), from its state and its neighbours in `b`. */
  ghost function NextCell(b: Board, cols: nat, rows: nat, c: int, r: int): (v: int)
    requires IsGrid(b, cols, rows) && 0 <= c < cols && 0 <= r < rows
  {
    Rule(b[c][r], NeighborCount(b, cols, rows, c, r))
  }

  /** The next generation of every cell, each computed from `b` alone. */
  ghost function Successor(b: Board, cols: nat, rows: nat): (s: Board)
    requires IsGrid(b, cols, rows)
    ensures IsGrid(s, cols, rows)
    ensures forall c, r | 0 <= c < cols && 0 <= r < rows :: s[c][r] == NextCell(b, cols, rows, c, r)
  {
    seq(cols, c requires 0 <= c < cols =>
      seq(rows, r requires 0 <= r < rows => NextCell(b, cols, rows, c, r)))
  }

  /**
   * Conway's B3/S23 rule for a whole 0/1 lattice: a cell is alive in the next
   * generation exactly when it is dead with three neighbours (birth) or alive
   * with two or three (survival); the lattice stays 0/1.
   */
  lemma SuccessorIsB3S23(b: Board, cols: nat, rows: nat)
    requires IsGrid(b, cols, rows) && Binary(b)
    ensures Binary(Successor(b, cols, rows))
    ensures forall c, r | 0 <= c < cols && 0 <= r < rows ::
      var n := NeighborCount(b, cols, rows, c, r);
      Successor(b, cols, rows)[c][r] == 1 <==> (b[c][r] == 0 && n == 3) || (b[c][r] == 1 && (n == 2 || n == 3))
  {
    var s := Successor(b, cols, rows);
    forall c, r | 0 <= c < |s| && 0 <= r < |s[c]| ensures s[c][r] == 0 || s[c][r] == 1 {
      assert s[c][r] == NextCell(b, cols, rows, c, r);
    }
  }

  /** The three wrapped indices `(m + i + n) % n` for i in -1, 0, 1. */
  function Near(m: int, n: int): (s: seq<int>)
    requires n >= 1 && m >= 0
    ensures |s| == 3
    ensures forall k | 0 <= k < 3 :: 0 <= s[k] < n
  {
    [WrapIndex(m - 1, n), WrapIndex(m, n), WrapIndex(m + 1, n)]
  }

  /** The lattice after the pointer at cell (mx, my) paints its wrapped 3x3 block alive. */
  ghost function Painted(b: Board, cols: nat, rows: nat, mx: int, my: int): (p: Board)
    requires IsGrid(b, cols, rows) && cols >= 1 && rows >= 1 && mx >= 0 && my >= 0
    ensures IsGrid(p, cols, rows)
    ensures forall c, r | 0 <= c < cols && 0 <= r < rows ::
      p[c][r] == if c in Near(mx, cols) && r in Near(my, rows) then 1 else b[c][r]
    ensures Binary(b) ==> Binary(p)
  {
    seq(cols, c requires 0 <= c < cols =>
      seq(rows, r requires 0 <= r < rows =>
        if c in Near(mx, cols) && r in Near(my, rows) then 1 else b[c][r]))
  }

  /** Whether the pointer's cell can be painted: it lies on a non-empty lattice. */
  predicate CanPaint(pointer: Option<Point>, cols: nat, rows: nat) {
    pointer.Some? ==> pointer.value.x >= 0.0 && pointer.value.y >= 0.0 && cols >= 1 && rows >= 1
  }

  /** The lattice a tick computes the generation from: painted when a pointer is present. */
  ghost function Prepared(b: Board, cols: nat, rows: nat, pointer: Option<Point>): (p: Board)
    requires IsGrid(b, cols, rows) && CanPaint(pointer, cols, rows)
    ensures IsGrid(p, cols, rows)
    ensures pointer.None? ==> p == b
    ensures Binary(b) ==> Binary(p)
  {
    match pointer
    case None => b
    case Some(pt) => Painted(b, cols, rows, PointerCell(pt.x), PointerCell(pt.y))
  }

  /** Painting the same block twice is the same as painting it once. */
  lemma {:induction false} PaintIdempotent(b: Board, cols: nat, rows: nat, mx: int, my: int)
    requires IsGrid(b, cols, rows) && cols >= 1 && rows >= 1 && mx >= 0 && my >= 0
    ensures Painted(Painted(b, cols, rows, mx, my), cols, rows, mx, my) == Painted(b, cols, rows, mx, my)
  {
    var p := Painted(b, cols, rows, mx, my);
    var pp := Painted(p, cols, rows, mx, my);
    forall c | 0 <= c < cols ensures pp[c] == p[c] {
      assert |pp[c]| == |p[c]| == rows;
    }
  }

  /** Wrapping an index that is already wrapped, after a step of at most one, is the same as wrapping once. */
  lemma WrapTwice(v: int, n: int, i: int)
    requires n >= 1 && v >= 0 && -1 <= i <= 1
    ensures WrapIndex(WrapIndex(v, n) + i, n) == WrapIndex(v + i, n)
  {
    var w := WrapIndex(v, n);
    var q := (v + n) / n;
    assert v + n == q * n + w;
    var r := WrapIndex(w + i, n);
    var q2 := (w + i + n) / n;
    assert w + i + n == q2 * n + r;
    assert v + i + n == (q + q2 - 1) * n + r by {
      assert (q + q2 - 1) * n == q * n + q2 * n - n;
    }
    ModUnique(v + i + n, n, q + q2 - 1, r);
  }

  /** The remainder is the only value in [0, n) that differs from `a` by a multiple of n. */
  lemma ModUnique(a: int, n: int, q: int, r: int)
    requires n >= 1 && 0 <= r < n && a == q * n + r
    ensures a % n == r
  {
    var q0, r0 := a / n, a % n;
    assert a == q0 * n + r0;
    assert (q - q0) * n == r0 - r by {
      assert (q - q0) * n == q * n - q0 * n;
    }
    if q > q0 {
      MulAtLeast(q - q0, n);
    } else if q < q0 {
      MulAtLeast(q0 - q, n);
    }
  }

  lemma MulAtLeast(k: int, n: int)
    requires k >= 1 && n >= 1
    ensures k * n >= n
  {
    assert k * n == (k - 1) * n + n;
  }

  /**
   * Painting happens before the generation is computed, so the cell under
   * the pointer, whose eight wrapped neighbours were all just painted alive,
   * always dies in the same tick.
   */
  lemma {:induction false} PointerCellDies(b: Board, cols: nat, rows: nat, mx: int, my: int)
    requires IsGrid(b, cols, rows) && cols >= 1 && rows >= 1 && mx >= 0 && my >= 0
    ensures Successor(Painted(b, cols, rows, mx, my), cols, rows)[WrapIndex(mx, cols)][WrapIndex(my, rows)] == 0
  {
    var p := Painted(b, cols, rows, mx, my);
    var x, y := WrapIndex(mx, cols), WrapIndex(my, rows);
    forall i, j | -1 <= i <= 1 && -1 <= j <= 1 ensures At(p, cols, rows, x, y, i, j) == 1 {
      WrapTwice(mx, cols, i);
      WrapTwice(my, rows, j);
      assert WrapIndex(x + i, cols) == Near(mx, cols)[i + 1];
      assert WrapIndex(y + j, rows) == Near(my, rows)[j + 1];
    }
    assert NeighborCount(p, cols, rows, x, y) == 8;
    assert p[x][y] == 1 by {
      assert At(p, cols, rows, x, y, 0, 0) == 1;
    }
  }

  /** Two lattices of one shape that agree cell by cell are equal. */
  lemma SameBoard(b1: Board, b2: Board, cols: nat, rows: nat)
    requires IsGrid(b1, cols, rows) && IsGrid(b2, cols, rows)
    requires forall c, r | 0 <= c < cols && 0 <= r < rows :: b1[c][r] == b2[c][r]
    ensures b1 == b2
  {
    forall c | 0 <= c < cols ensures b1[c] == b2[c] {
      assert |b1[c]| == |b2[c]| == rows;
    }
  }

  /** The lattice held by a 2-D array indexed [col, row]. */
  ghost function Snapshot(g: array2<int>): (b: Board)
    reads g
    ensures IsGrid(b, g.Length0, g.Length1)
    ensures forall c, r | 0 <= c < g.Length0 && 0 <= r < g.Length1 :: b[c][r] == g[c, r]
  {
    seq(g.Length0, c requires 0 <= c < g.Length0 reads g =>
      seq(g.Length1, r requires 0 <= r < g.Length1 reads g => g[c, r]))
  }

  /** The Game of Life scene: two lattice buffers of `cols` x `rows` cells. */
  class LifeScene {
    var cols: nat
    var rows: nat
    var grid: array2<int>
    var nextGrid: array2<int>

    /** Both buffers have the lattice's shape, are distinct objects, and hold only 0 and 1. */
    ghost predicate Valid()
      reads this, grid, nextGrid
    {
      && grid.Length0 == cols && grid.Length1 == rows
      && nextGrid.Length0 == cols && nextGrid.Length1 == rows
      && grid != nextGrid
      && Binary(Snapshot(grid)) && Binary(Snapshot(nextGrid))
    }

    /** The lattice currently shown. */
    ghost function Board(): (b: Board)
      reads this, grid
    {
      Snapshot(grid)
    }

    /** The scene before its first `init`: an empty lattice. */
    constructor ()
      ensures Valid() && cols == 0 && rows == 0
    {
      cols, rows := 0, 0;
      grid := new int[0, 0];
      nextGrid := new int[0, 0];
    }

    /** `createGrid`: a fresh all-dead buffer of the lattice's shape. */
    method CreateGrid() returns (g: array2<int>)
      ensures fresh(g) && g.Length0 == cols && g.Length1 == rows
      ensures forall c, r | 0 <= c < cols && 0 <= r < rows :: g[c, r] == 0
    {
      g := new int[cols, rows]((c, r) => 0);
    }

    /**
     * `init` without its random fill: size the lattice to the viewport and
     * allocate two fresh, all-dead buffers.
     */
    method Init(width: real, height: real)
      requires width >= 0.0 && height >= 0.0
      modifies this
      ensures Valid() && fresh(grid) && fresh(nextGrid)
      ensures cols == CellCount(width) && rows == CellCount(height)
      ensures forall c, r | 0 <= c < cols && 0 <= r < rows :: grid[c, r] == 0
    {
      cols := CellCount(width);
      rows := CellCount(height);
      grid := CreateGrid();
      nextGrid := CreateGrid();
    }

    /**
     * `countNeighbors(grid, x, y)`: sum the wrapped 3x3 block around (x, y),
     * then subtract the centre.
     */
    method CountNeighbors(g: array2<int>, x: int, y: int) returns (sum: int)
      requires g.Length0 == cols && g.Length1 == rows
      requires 0 <= x < cols && 0 <= y < rows
      ensures sum == NeighborCount(Snapshot(g), cols, rows, x, y)
      ensures Binary(Snapshot(g)) ==> 0 <= sum <= 8
    {
      ghost var b := Snapshot(g);
      sum := 0;
      var i := -1;
      while i < 2
        invariant -1 <= i <= 2
        invariant sum == ColumnsSum(b, x, y, i)
      {
        var j := -1;
        while j < 2
          invariant -1 <= j <= 2
          invariant sum == ColumnsSum(b, x, y, i) + PartialColumn(b, x, y, i, j)
        {
          var col := (x + i + cols) % cols;
          var row := (y + j + rows) % rows;
          assert col == WrapIndex(x + i, cols) && row == WrapIndex(y + j, rows);
          sum := sum + g[col, row];
          j := j + 1;
        }
        i := i + 1;
      }
      assert At(b, cols, rows, x, y, 0, 0) == b[x][y];
      sum := sum - g[x, y];
    }

    /** The wrapped cells (x + i, y + j') for -1 <= j' < j. */
    ghost function PartialColumn(b: Board, x: int, y: int, i: int, j: int): (s: int)
      requires IsGrid(b, cols, rows) && 0 <= x < cols && 0 <= y < rows
      requires -1 <= i <= 1 && -1 <= j <= 2
      reads this
    {
      (if j > -1 then At(b, cols, rows, x, y, i, -1) else 0)
      + (if j > 0 then At(b, cols, rows, x, y, i, 0) else 0)
      + (if j > 1 then At(b, cols, rows, x, y, i, 1) else 0)
    }

    /** The wrapped columns x + i' for -1 <= i' < i, three cells each. */
    ghost function ColumnsSum(b: Board, x: int, y: int, i: int): (s: int)
      requires IsGrid(b, cols, rows) && 0 <= x < cols && 0 <= y < rows
      requires -1 <= i <= 2
      reads this
    {
      (if i > -1 then PartialColumn(b, x, y, -1, 2) else 0)
      + (if i > 0 then PartialColumn(b, x, y, 0, 2) else 0)
      + (if i > 1 then PartialColumn(b, x, y, 1, 2) else 0)
    }

    /**
     * The pointer paints the wrapped 3x3 block around cell (mx, my) alive
     * and leaves every other cell as it was.
     */
    method Paint(mx: int, my: int)
      requires Valid() && cols >= 1 && rows >= 1 && mx >= 0 && my >= 0
      modifies grid
      ensures Valid()
      ensures Board() == Painted(old(Board()), cols, rows, mx, my)
    {
      ghost var b := Board();
      ghost var nc, nr := Near(mx, cols), Near(my, rows);
      var i := -1;
      while i <= 1
        invariant -1 <= i <= 2
        invariant forall c, r | 0 <= c < cols && 0 <= r < rows ::
          grid[c, r] == if c in nc[..i + 1] && r in nr then 1 else b[c][r]
      {
        var j := -1;
        while j <= 1
          invariant -1 <= j <= 2
          invariant forall c, r | 0 <= c < cols && 0 <= r < rows ::
            grid[c, r] == if (c in nc[..i + 1] && r in nr) || (c == nc[i + 1] && r in nr[..j + 1]) then 1 else b[c][r]
        {
          var col := (mx + i + cols) % cols;
          var row := (my + j + rows) % rows;
          assert col == nc[i + 1] && row == nr[j + 1];
          grid[col, row] := 1;
          assert nr[..j + 2] == nr[..j + 1] + [row];
          j := j + 1;
        }
        assert nc[..i + 2] == nc[..i + 1] + [nc[i + 1]];
        assert nr[..3] == nr;
        i := i + 1;
      }
      assert nc[..3] == nc;
      SameBoard(Board(), Painted(b, cols, rows, mx, my), cols, rows);
    }

    /**
     * Compute the next generation of `grid` into `nextGrid`, reading only the
     * unmodified `grid`, then swap the two buffers.
     */
    method Step()
      requires Valid()
      modifies this, nextGrid
      ensures Valid()
      ensures grid == old(nextGrid) && nextGrid == old(grid)
      ensures cols == old(cols) && rows == old(rows)
      ensures Board() == Successor(old(Board()), cols, rows)
      ensures Snapshot(nextGrid) == old(Board())
    {
      ghost var b := Board();
      var i := 0;
      while i < cols
        invariant 0 <= i <= cols
        invariant forall c, r | 0 <= c < i && 0 <= r < rows :: nextGrid[c, r] == NextCell(b, cols, rows, c, r)
        modifies nextGrid
      {
        ComputeColumn(i, b);
        i := i + 1;
      }
      SameBoard(Snapshot(nextGrid), Successor(b, cols, rows), cols, rows);
      SuccessorIsB3S23(b, cols, rows);
      grid, nextGrid := nextGrid, grid;
    }

    /** The inner loop of the generation step: column `i` of `nextGrid` from `grid`. */
    method ComputeColumn(i: int, ghost b: Board)
      requires grid.Length0 == cols && grid.Length1 == rows
      requires nextGrid.Length0 == cols && nextGrid.Length1 == rows
      requires grid != nextGrid && 0 <= i < cols && b == Snapshot(grid)
      modifies nextGrid
      ensures forall r | 0 <= r < rows :: nextGrid[i, r] == NextCell(b, cols, rows, i, r)
      ensures forall c, r | 0 <= c < cols && c != i && 0 <= r < rows :: nextGrid[c, r] == old(nextGrid[c, r])
    {
      var j := 0;
      while j < rows
        invariant 0 <= j <= rows
        invariant forall r | 0 <= r < j :: nextGrid[i, r] == NextCell(b, cols, rows, i, r)
        invariant forall c, r | 0 <= c < cols && c != i && 0 <= r < rows :: nextGrid[c, r] == old(nextGrid[c, r])
      {
        var state := grid[i, j];
        var neighbors := CountNeighbors(grid, i, j);
        if state == 0 && neighbors == 3 {
          nextGrid[i, j] := 1;
        } else if state == 1 && (neighbors < 2 || neighbors > 3) {
          nextGrid[i, j] := 0;
        } else {
          nextGrid[i, j] := state;
        }
        j := j + 1;
      }
    }

    /**
     * `update`: paint around the pointer when one is present, then advance
     * one generation and swap the buffers.
     */
    method Update(pointer: Option<Point>)
      requires Valid() && CanPaint(pointer, cols, rows)
      modifies this, grid, nextGrid
      ensures Valid()
      ensures grid == old(nextGrid) && nextGrid == old(grid)
      ensures cols == old(cols) && rows == old(rows)
      ensures Board() == Successor(Prepared(old(Board()), cols, rows, pointer), cols, rows)
      ensures Snapshot(nextGrid) == Prepared(old(Board()), cols, rows, pointer)
    {
      if pointer.Some? {
        var mx := PointerCell(pointer.value.x);
        var my := PointerCell(pointer.value.y);
        Paint(mx, my);
      }
      Step();
    }
  }
}
