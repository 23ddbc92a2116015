/** The background-grid component's state and its two event handlers. The
    component keeps a grid size and a hovered cell; a container resize
    overwrites the size, a pointer move overwrites the hovered cell, and the
    rendering is a function of the three fields. */
module Component {
  import opened GridTypes
  import opened GridGeometry
  import opened GridRender

  /** Grid size before the first resize. */
  const InitialRows: int := 10
  const InitialCols: int := 10

  class BackgroundGrid {
    var rows: int
    var cols: int
    var hovered: Option<Cell>

    /** Both grid dimensions stay at or above the minimum. */
    ghost predicate Valid()
      reads this
    {
      rows >= MinCells && cols >= MinCells
    }

    /** The rendered cells in render order, true where a cell is opaque. At
        most one cell is ever active. */
    function Cells(): (cells: seq<bool>)
      reads this
      requires Valid()
      ensures |cells| == rows * cols
      ensures forall i, j :: 0 <= i < |cells| && 0 <= j < |cells| && cells[i] && cells[j] ==> i == j
    {
      AtMostOneActive(rows, cols, hovered);
      Render(rows, cols, hovered)
    }

    /** The initial state: a 10 by 10 grid and no hovered cell, so no cell
        is active before the first pointer movement. */
    constructor ()
      ensures Valid()
      ensures rows == InitialRows && cols == InitialCols && hovered == None
      ensures ActiveCount(Cells()) == 0
    {
      rows := InitialRows;
      cols := InitialCols;
      hovered := None;
      new;
      NoneActiveOutsideGrid(rows, cols, hovered);
    }

    /** The resize handler: recompute the grid from the container's pixel
        size. The hovered cell is left as it was, even when it now lies
        outside the smaller grid. */
    method Resize(width: real, height: real)
      modifies this
      ensures Valid()
      ensures rows == CellCount(height) && cols == CellCount(width)
      ensures hovered == old(hovered)
    {
      rows := CellCount(height);
      cols := CellCount(width);
    }

    /** The pointer-move handler: record the cell under the pointer for the
        current container rectangle and grid size, without clamping. Exactly
        one cell is then active when the pointer is inside the container and
        none is active when it is outside. */
    method Move(x: real, y: real, rect: Rect)
      requires Valid()
      requires rect.width > 0.0 && rect.height > 0.0
      modifies this
      ensures Valid()
      ensures rows == old(rows) && cols == old(cols)
      ensures hovered == Some(PointerCell(x, y, rect, rows, cols))
      ensures ActiveCount(Cells()) == if Inside(x, y, rect) then 1 else 0
      ensures Inside(x, y, rect) ==>
                0 <= IndexOf(hovered.value, cols) < |Cells()| && Cells()[IndexOf(hovered.value, cols)]
    {
      var cell := PointerCell(x, y, rect, rows, cols);
      hovered := Some(cell);
      PointerCellInGrid(x, y, rect, rows, cols);
      if Inside(x, y, rect) {
        OneActiveWhenInGrid(rows, cols, cell);
      } else {
        NoneActiveOutsideGrid(rows, cols, hovered);
      }
    }
  }

  /** A session on a 320 by 320 container at the origin: mount, the first
      resize, then a pointer move to (35, 70) lights row 2, column 1. */
  method ExampleSession() returns (grid: BackgroundGrid)
    ensures grid.Valid() && grid.hovered == Some(Cell(2, 1))
    ensures ActiveCount(grid.Cells()) == 1
  {
    grid := new BackgroundGrid();
    grid.Resize(320.0, 320.0);
    PointerCellExample();
    grid.Move(35.0, 70.0, Rect(0.0, 0.0, 320.0, 320.0));
  }
}
