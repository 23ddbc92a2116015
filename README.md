# Background grid of the portfolio site, modelled in Dafny

The portfolio site draws a decorative grid behind its content
(`src/assets/BackgroundGrid.jsx`). The grid is sized to its container in
32-pixel cells, with at least four rows and four columns. The cell under the
mouse pointer is drawn opaque and every other cell is transparent. This
project models that component's arithmetic and state:

- `GridTypes.dfy`: the optional hovered cell, the `(row, col)` cell and the
  container rectangle.
- `GridGeometry.dfy`: the size formula `max(4, floor(px / 32))` and the
  pointer-to-cell mapping `floor((x - left) / (width / cols))`, with the
  same mapping for rows. The mapping is not clamped.
- `GridRender.dfy`: the render loop's split of a flat index `i` into
  `(floor(i / cols), i % cols)`, the `isActive` rule, the rendered sequence
  of opaque/transparent flags, and a count of the active cells.
- `BackgroundGrid.dfy`: the component as a class. The fields `rows`, `cols`
  and `hovered` start at 10, 10 and none. `Resize` stands for the resize
  handler and `Move` for the pointer-move handler; each overwrites its part
  of the state.

Pixel values are Dafny `real`s and JavaScript's `Math.floor` is `.Floor`. The
render loop's `Math.floor(i / cols)` is modelled with real division, and a
lemma shows it equals integer division. The state invariant is that both
dimensions are at least four. The hovered cell is not bounded by that
invariant, because the code stores whatever the mapping yields.

One might expect the last lit cell to stay lit after the pointer leaves the
grid. One might also expect the stored cell always to lie in
`[0, rows) x [0, cols)`. Neither holds in the code:

- The move listener is on the whole window
  (`src/assets/BackgroundGrid.jsx:57`). A pointer outside the container
  therefore stores an out-of-range cell, and then no cell is lit
  (`Component.BackgroundGrid.Move`). A lit cell stays lit only when no move
  event arrives at all, for example when the pointer leaves the window.
- A resize does not reset `hovered`. After the grid shrinks, a cell that was
  lit may fall outside the grid, and then nothing is lit. After any resize
  the stored coordinate may also name a different cell than the one under
  the pointer, until the next move.

## Model

| member | source | states |
|---|---|---|
| `GridGeometry.CellCount` | src/assets/BackgroundGrid.jsx:18-21 | The dimension is at least 4 for every extent, zero and negative included. Below 160 px it is exactly 4. From 128 px on it is the unique `n` with `32n <= px < 32(n+1)`, with cell size CELL_PX = 32 (line 3). |
| `GridGeometry.CellCountClosedForm` | src/assets/BackgroundGrid.jsx:19-20 | From 128 px on, the lower bound of 4 never takes effect and a dimension equals `floor(px / 32)`. |
| `GridGeometry.BandIndex` | src/assets/BackgroundGrid.jsx:49-52 | The index `floor((p - origin) / (extent / n))` names the band that contains `p`: `origin + k*size <= p < origin + (k+1)*size`, with `size = extent / n`. |
| `GridGeometry.BandIndexInRange` | src/assets/BackgroundGrid.jsx:49-52 | The band index is in `[0, n)` if and only if `origin <= p < origin + extent`. |
| `GridGeometry.PointerCell` | src/assets/BackgroundGrid.jsx:48-53 | The mapped `(row, col)` is the cell whose pixel box (cell width `width/cols`, cell height `height/rows`) contains the pointer, inside the container or not. |
| `GridGeometry.PointerCellInGrid` | src/assets/BackgroundGrid.jsx:48-53 | The mapped cell lies in `[0, rows) x [0, cols)` if and only if the pointer lies inside the container rectangle. |
| `GridGeometry.PointerCellExample` | src/assets/BackgroundGrid.jsx:49-52 | A 320x320 container at the origin gives 10 cells per side. The pointer at (35, 70) maps to row 2, column 1. |
| `GridRender.FloorOfQuotient` | src/assets/BackgroundGrid.jsx:76 | For `i >= 0` and `n > 0`, `Math.floor(i / n)` over reals equals the integer quotient. |
| `GridRender.CellAt` | src/assets/BackgroundGrid.jsx:75-77 | `r = floor(i / cols)` and `c = i % cols` satisfy `r >= 0`, `0 <= c < cols` and `r*cols + c == i`. |
| `GridRender.CellAtInGrid` | src/assets/BackgroundGrid.jsx:75-77 | Every index in `[0, rows*cols)` decomposes into a cell with `0 <= r < rows`. |
| `GridRender.EachCellVisitedOnce` | src/assets/BackgroundGrid.jsx:75-77 | For each cell of the grid, exactly one index in `[0, rows*cols)` decomposes into it: its row-major index. So the render loop visits every cell exactly once. |
| `GridRender.SameIndexSameCell` | src/assets/BackgroundGrid.jsx:76-77 | Two cells with columns in `[0, cols)` and the same row-major index are equal. |
| `GridRender.IsActive` | src/assets/BackgroundGrid.jsx:79-83 | A cell is active exactly when `hovered` is present and equals that `(r, c)`. |
| `GridRender.Render` | src/assets/BackgroundGrid.jsx:75-83 | The render map yields `rows*cols` flags. Flag `i` is true exactly when `hovered` is the cell `(floor(i / cols), i % cols)`. |
| `GridRender.AtMostOneActive` | src/assets/BackgroundGrid.jsx:79-83 | No two distinct rendered cells are both active. |
| `GridRender.OneActiveWhenInGrid` | src/assets/BackgroundGrid.jsx:75-83 | If the hovered cell lies in the grid, the cell at its row-major index is active and exactly one cell is active. |
| `GridRender.NoneActiveOutsideGrid` | src/assets/BackgroundGrid.jsx:79-83 | If no cell is hovered, or the hovered cell lies outside the grid, no rendered cell is active. |
| `GridRender.ActiveCountRule` | src/assets/BackgroundGrid.jsx:75-83 | The number of active cells is 1 if the hovered cell lies in `[0, rows) x [0, cols)` and 0 otherwise. |
| `Component.BackgroundGrid.Cells` | src/assets/BackgroundGrid.jsx:75-83 | The component renders `rows*cols` cells, of which at most one is active. |
| `Component.BackgroundGrid.constructor` | src/assets/BackgroundGrid.jsx:8-9 | The initial state is a 10x10 grid with no hovered cell, so no cell is active. |
| `Component.BackgroundGrid.Resize` | src/assets/BackgroundGrid.jsx:14-22 | Sets `rows` from the height and `cols` from the width by the size formula, keeps both at least 4, and leaves `hovered` unchanged. |
| `Component.BackgroundGrid.Move` | src/assets/BackgroundGrid.jsx:45-54 | Stores the unclamped mapped cell and leaves `rows`/`cols` unchanged. Afterwards exactly one cell is active if the pointer is inside the container, at the stored cell's index, and none is active otherwise. |
| `Component.ExampleSession` | src/assets/BackgroundGrid.jsx:48-53 | Mount, a resize to 320x320 and a move to (35, 70) leave row 2, column 1 hovered and exactly one cell active. |

## Left out

- `src/App.jsx` is not part of this model. It is static page markup, and its
  only logic chooses a zero animation duration under the reduced-motion
  preference, which is passed to a third-party animation library.
- The `requestAnimationFrame` cancel-and-reschedule in the move handler
  (lines 43-47 and 60) is browser scheduling. `Move` is the callback that
  finally runs, with the last pointer coordinates.
- Wiring `ResizeObserver` or the window `resize` listener, and removing them
  on unmount (lines 24-36 and 57-61), is DOM plumbing. Mounting is the
  constructor followed by one `Resize`.
- `getBoundingClientRect` and the element ref become parameters: the
  container size for `Resize` and the rectangle for `Move`. The early
  returns when the ref is not attached (lines 15-16 and 41-42) are no-ops
  and are not modelled.
- `Move` requires a positive container width and height. With a zero size
  the JavaScript divides by zero and stores a NaN or infinite cell, which
  this model does not represent.
- Opacity, transition timing and CSS grid template strings (lines 4-5,
  70-72 and 88-92) are presentation. The rendering is modelled as one
  opaque/transparent flag per cell.
- IEEE-754 rounding, infinities and NaN: all pixel arithmetic is exact real
  arithmetic.
