/** The render loop of the background grid: the flat cell index `i` in
    `[0, rows * cols)` is split into a (row, column) pair, and a cell is
    drawn opaque only when it is the hovered cell. */
module GridRender {
  import opened GridTypes

  /** For a non-negative `i` and positive `n`, flooring the real quotient
      (the JavaScript `Math.floor(i / n)`) gives the integer quotient. */
  lemma FloorOfQuotient(i: int, n: int)
    requires i >= 0 && n > 0
    ensures (i as real / n as real).Floor == i / n
  {
    var q, r := i / n, i % n;
    assert i as real == q as real * n as real + r as real;
    assert i as real / n as real == q as real + r as real / n as real;
    assert 0.0 <= r as real / n as real < 1.0;
  }

  /** The (row, column) that the render loop draws at flat index `i` of a
      grid with `cols` columns. The ensures clauses are Euclid's division:
      the column is in `[0, cols)` and `row * cols + col` gives `i` back. */
  function CellAt(i: nat, cols: int): (cell: Cell)
    requires cols > 0
    ensures 0 <= cell.row && 0 <= cell.col < cols
    ensures cell.row * cols + cell.col == i
  {
    FloorOfQuotient(i, cols);
    Cell((i as real / cols as real).Floor, i % cols)
  }

  /** The flat index of a cell in row-major order. */
  function IndexOf(cell: Cell, cols: int): int {
    cell.row * cols + cell.col
  }

  /** The cell lies in `[0, rows) x [0, cols)`. */
  predicate InGrid(cell: Cell, rows: int, cols: int) {
    0 <= cell.row < rows && 0 <= cell.col < cols
  }

  /** Every index the render loop visits decomposes into a cell of the grid. */
  lemma CellAtInGrid(i: nat, rows: int, cols: int)
    requires cols > 0 && i < rows * cols
    ensures InGrid(CellAt(i, cols), rows, cols)
  {
    var cell := CellAt(i, cols);
    ScaledSign(cell.row - rows, cols);
  }

  /** The render loop visits each cell of the grid exactly once: the only
      index in `[0, rows * cols)` that decomposes into `cell` is its
      row-major index, and that index is in range. */
  lemma EachCellVisitedOnce(cell: Cell, rows: int, cols: int)
    requires cols > 0 && InGrid(cell, rows, cols)
    ensures 0 <= IndexOf(cell, cols) < rows * cols
    ensures forall i: nat :: i < rows * cols ==> (CellAt(i, cols) == cell <==> i == IndexOf(cell, cols))
  {
    ScaledSign(rows - cell.row - 1, cols);
    forall i: nat | i < rows * cols && i == IndexOf(cell, cols)
      ensures CellAt(i, cols) == cell
    {
      var other := CellAt(i, cols);
      SameIndexSameCell(other, cell, cols);
    }
  }

  /** Row-major indexing is injective on cells whose column is in range. */
  lemma SameIndexSameCell(a: Cell, b: Cell, cols: int)
    requires cols > 0 && 0 <= a.col < cols && 0 <= b.col < cols
    requires IndexOf(a, cols) == IndexOf(b, cols)
    ensures a == b
  {
    ScaledSign(a.row - b.row, cols);
  }

  /** The sign of `d * n` for a positive `n`, with `|d * n| >= n` unless `d`
      is zero. */
  lemma ScaledSign(d: int, n: int)
    requires n > 0
    ensures d >= 0 ==> d * n >= 0
    ensures d >= 1 ==> d * n >= n
    ensures d <= -1 ==> d * n <= -n
  {
    if d >= 1 {
      assert d * n == (d - 1) * n + n;
    }
    if d <= -1 {
      assert d * n == (d + 1) * n - n;
    }
  }

  /** The `isActive` rule: a cell is active only when a hovered cell is
      recorded and it has the same row and the same column. */
  predicate IsActive(hovered: Option<Cell>, cell: Cell)
    ensures IsActive(hovered, cell) <==> hovered == Some(cell)
  {
    hovered.Some? && hovered.value.row == cell.row && hovered.value.col == cell.col
  }

  /** One flag per rendered cell, in render order: true for an opaque
      (active) cell, false for a transparent one. */
  function Render(rows: nat, cols: nat, hovered: Option<Cell>): (cells: seq<bool>)
    ensures |cells| == rows * cols
    ensures forall i :: 0 <= i < |cells| ==> (cells[i] <==> hovered == Some(CellAt(i, cols)))
  {
    seq(rows * cols, i requires 0 <= i < rows * cols => IsActive(hovered, CellAt(i, cols)))
  }

  /** Number of active cells in a rendering. */
  function ActiveCount(cells: seq<bool>): nat {
    if cells == [] then 0 else (if cells[0] then 1 else 0) + ActiveCount(cells[1..])
  }

  /** A rendering with no active cell counts zero. */
  lemma {:induction false} CountNone(cells: seq<bool>)
    requires forall i :: 0 <= i < |cells| ==> !cells[i]
    ensures ActiveCount(cells) == 0
  {
    if cells != [] {
      CountNone(cells[1..]);
    }
  }

  /** A rendering whose only active cell is at `k` counts one. */
  lemma {:induction false} CountSingle(cells: seq<bool>, k: nat)
    requires k < |cells|
    requires forall i :: 0 <= i < |cells| ==> (cells[i] <==> i == k)
    ensures ActiveCount(cells) == 1
  {
    if k == 0 {
      CountNone(cells[1..]);
    } else {
      CountSingle(cells[1..], k - 1);
    }
  }

  /** No two distinct rendered cells are both active. */
  lemma AtMostOneActive(rows: nat, cols: nat, hovered: Option<Cell>)
    ensures var cells := Render(rows, cols, hovered);
            forall i, j :: 0 <= i < |cells| && 0 <= j < |cells| && cells[i] && cells[j] ==> i == j
  {
    var cells := Render(rows, cols, hovered);
    forall i, j | 0 <= i < |cells| && 0 <= j < |cells| && cells[i] && cells[j]
      ensures i == j
    {
      SameIndexSameCell(CellAt(i, cols), CellAt(j, cols), cols);
    }
  }

  /** When the hovered cell lies in the grid, the rendering has exactly one
      active cell, the one at the hovered cell's row-major index. */
  lemma OneActiveWhenInGrid(rows: nat, cols: nat, cell: Cell)
    requires InGrid(cell, rows, cols)
    ensures 0 <= IndexOf(cell, cols) < rows * cols
    ensures Render(rows, cols, Some(cell))[IndexOf(cell, cols)]
    ensures ActiveCount(Render(rows, cols, Some(cell))) == 1
  {
    var cells := Render(rows, cols, Some(cell));
    var k := IndexOf(cell, cols);
    EachCellVisitedOnce(cell, rows, cols);
    forall i | 0 <= i < |cells|
      ensures cells[i] <==> i == k
    {
      assert cells[i] == IsActive(Some(cell), CellAt(i, cols));
    }
    CountSingle(cells, k);
  }

  /** When no cell is hovered, or the hovered cell lies outside the grid,
      no rendered cell is active. */
  lemma NoneActiveOutsideGrid(rows: nat, cols: nat, hovered: Option<Cell>)
    requires hovered.None? || !InGrid(hovered.value, rows, cols)
    ensures forall i :: 0 <= i < rows * cols ==> !Render(rows, cols, hovered)[i]
    ensures ActiveCount(Render(rows, cols, hovered)) == 0
  {
    var cells := Render(rows, cols, hovered);
    forall i | 0 <= i < |cells|
      ensures !cells[i]
    {
      ScaledSign(rows, cols);
      CellAtInGrid(i, rows, cols);
      assert cells[i] == IsActive(hovered, CellAt(i, cols));
    }
    CountNone(cells);
  }

  /** The active-cell rule as a count: exactly one active cell if and only if
      the hovered cell lies in `[0, rows) x [0, cols)`, otherwise none. */
  lemma ActiveCountRule(rows: nat, cols: nat, hovered: Option<Cell>)
    ensures ActiveCount(Render(rows, cols, hovered)) ==
            if hovered.Some? && InGrid(hovered.value, rows, cols) then 1 else 0
  {
    if hovered.Some? && InGrid(hovered.value, rows, cols) {
      OneActiveWhenInGrid(rows, cols, hovered.value);
    } else {
      NoneActiveOutsideGrid(rows, cols, hovered);
    }
  }
}
