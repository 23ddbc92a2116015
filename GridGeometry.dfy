/** The pixel arithmetic of the background grid: how many cells fit in the
    container, and which cell a pointer position falls in. Pixel quantities
    are real numbers; IEEE-754 rounding is not modelled. */
module GridGeometry {
  import opened GridTypes

  /** Side of one grid cell in pixels (CELL_PX). */
  const CellPx: int := 32

  /** The grid never has fewer than this many rows or columns. */
  const MinCells: int := 4

  /** Number of cells along one axis for a container extent of `px` pixels:
      as many whole 32-pixel cells as fit, but at least four. The ensures
      clauses pin the result down without mentioning `Floor`: below 160
      pixels it is exactly four, and from 128 pixels on it is the unique `n`
      with `32 * n <= px < 32 * (n + 1)`. */
  function CellCount(px: real): (n: int)
    ensures n >= MinCells
    ensures px < ((MinCells + 1) * CellPx) as real ==> n == MinCells
    ensures px >= (MinCells * CellPx) as real ==>
              (n * CellPx) as real <= px < ((n + 1) * CellPx) as real
  {
    var fit := (px / CellPx as real).Floor;
    if fit < MinCells then MinCells else fit
  }

  /** From 128 pixels on, the dimension is the number of whole 32-pixel
      cells that fit, with no lower bound taking effect. */
  lemma CellCountClosedForm(px: real)
    requires px >= (MinCells * CellPx) as real
    ensures CellCount(px) == (px / CellPx as real).Floor
  {
  }

  /** Index of the cell band containing coordinate `p` along one axis, for a
      container starting at `origin` with extent `extent` split into `n`
      equal bands: `floor((p - origin) / (extent / n))`. The result is not
      clamped; the ensures clause says that the band it names contains `p`. */
  function BandIndex(p: real, origin: real, extent: real, n: int): (k: int)
    requires extent > 0.0 && n > 0
    ensures origin + k as real * (extent / n as real) <= p
    ensures p < origin + (k + 1) as real * (extent / n as real)
  {
    var size := extent / n as real;
    var q := (p - origin) / size;
    assert q * size == p - origin;
    var k := q.Floor;
    assert k as real <= q < (k + 1) as real;
    ScaleByPositive(k as real, q, size);
    ScaleByPositive(q, (k + 1) as real, size);
    assert p - origin < (k + 1) as real * size;
    k
  }

  /** Multiplying by a positive size preserves strict and non-strict order. */
  lemma ScaleByPositive(a: real, b: real, size: real)
    requires size > 0.0
    ensures a < b <==> a * size < b * size
    ensures a <= b <==> a * size <= b * size
  {
    if a < b {
      assert b * size - a * size == (b - a) * size;
    }
    if b < a {
      assert a * size - b * size == (a - b) * size;
    }
  }

  /** The band index lies in `[0, n)` exactly when the coordinate lies inside
      the container along that axis. */
  lemma BandIndexInRange(p: real, origin: real, extent: real, n: int)
    requires extent > 0.0 && n > 0
    ensures 0 <= BandIndex(p, origin, extent, n) < n <==> origin <= p < origin + extent
  {
    var k := BandIndex(p, origin, extent, n);
    var size := extent / n as real;
    BandBounds(p - origin, size, k as real, n as real);
  }

  /** The arithmetic behind BandIndexInRange, over reals only: an offset `d`
      in band `kr` of `nr` bands of width `size` lies in `[0, nr * size)`
      exactly when the band is one of the first `nr`. */
  lemma BandBounds(d: real, size: real, kr: real, nr: real)
    requires size > 0.0
    requires kr * size <= d < (kr + 1.0) * size
    ensures 0.0 <= kr && kr + 1.0 <= nr ==> 0.0 <= d < nr * size
    ensures 0.0 <= d < nr * size ==> -1.0 < kr < nr
  {
    if 0.0 <= kr && kr + 1.0 <= nr {
      ScaleByPositive(0.0, kr, size);
      ScaleByPositive(kr + 1.0, nr, size);
    }
    if 0.0 <= d < nr * size {
      ScaleByPositive(-1.0, kr, size);
      ScaleByPositive(kr, nr, size);
    }
  }

  /** True when the pointer lies inside the container rectangle (left and top
      edges included, right and bottom edges excluded). */
  predicate Inside(x: real, y: real, rect: Rect) {
    rect.left <= x < rect.left + rect.width && rect.top <= y < rect.top + rect.height
  }

  /** The cell under the pointer at `(x, y)`, for the container `rect` split
      into a `rows` by `cols` grid: the column from the horizontal offset
      divided by the cell width `width / cols`, the row from the vertical
      offset divided by the cell height `height / rows`. The result is the
      cell whose pixel box contains the pointer, wherever the pointer is. */
  function PointerCell(x: real, y: real, rect: Rect, rows: int, cols: int): (cell: Cell)
    requires rect.width > 0.0 && rect.height > 0.0 && rows > 0 && cols > 0
    ensures rect.left + cell.col as real * (rect.width / cols as real) <= x
    ensures x < rect.left + (cell.col + 1) as real * (rect.width / cols as real)
    ensures rect.top + cell.row as real * (rect.height / rows as real) <= y
    ensures y < rect.top + (cell.row + 1) as real * (rect.height / rows as real)
  {
    Cell(BandIndex(y, rect.top, rect.height, rows), BandIndex(x, rect.left, rect.width, cols))
  }

  /** The mapped cell lies in `[0, rows) x [0, cols)` if and only if the
      pointer lies inside the container; a pointer outside yields an
      out-of-range cell. */
  lemma PointerCellInGrid(x: real, y: real, rect: Rect, rows: int, cols: int)
    requires rect.width > 0.0 && rect.height > 0.0 && rows > 0 && cols > 0
    ensures var cell := PointerCell(x, y, rect, rows, cols);
            (0 <= cell.row < rows && 0 <= cell.col < cols) <==> Inside(x, y, rect)
  {
    BandIndexInRange(y, rect.top, rect.height, rows);
    BandIndexInRange(x, rect.left, rect.width, cols);
  }

  /** Worked example: a 320 by 320 container at the origin is a 10 by 10
      grid, and the pointer at (35, 70) falls in row 2, column 1. */
  lemma PointerCellExample()
    ensures CellCount(320.0) == 10
    ensures PointerCell(35.0, 70.0, Rect(0.0, 0.0, 320.0, 320.0), 10, 10) == Cell(2, 1)
  {
  }
}
