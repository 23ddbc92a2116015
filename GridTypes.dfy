/** Value types shared by the background-grid model: the optional hovered
    cell, a (row, column) cell coordinate and a container rectangle. */
module GridTypes {

  /** The conventional Some/None datatype; the component's "no hovered cell"
      state (`{ row: null, col: null }`) is `None`. */
  datatype Option<+T> = None | Some(value: T)

  /** A grid coordinate as the component stores it. Coordinates are unbounded
      integers: a pointer outside the container yields negative or too-large
      values, which are kept as they are. */
  datatype Cell = Cell(row: int, col: int)

  /** The container's bounding rectangle in viewport pixels. */
  datatype Rect = Rect(left: real, top: real, width: real, height: real)
}
