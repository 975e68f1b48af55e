# Falling-sand grid engine, modelled in Dafny

This project models the grid engine of a small falling-sand toy. The world is a
64 × 48 grid of cells, stored as `cell_grid[x][y]`. Each cell holds one material:
Empty, Block, Sand or Water. Once per frame a tick lets every Sand or Water cell
fall one row into an Empty cell directly below it. The mouse paints the selected
material into one cell, and the wheel cycles the selected material.

The repository holds two versions of the program, and both are modelled:

- `src/main.c` with `src/cell.c` is the linked build. Its tick copies the falling
  cell whole, colour included.
- `src/cellular_physics.c` is a single-file draft. Its tick and painting write
  cells through `update_cell`, which recomputes the colour from the cell's new
  type; its init loop assigns the initial cell directly. Its
  left-button press maps the press position before painting; `src/main.c`
  paints at the last stored pointer cell.

Files:

- `cells.dfy` (module `Cells`): the material enumeration, the cell record and
  the grid constants (`include/cell.h`, `include/config.h`).
- `column.dfy` (module `Column`): what one tick does to one column.
  - `Tick` is the scan as the source runs it: rows from the second-to-last up
    to row 0, and each Sand or Water cell handed to `shift_down`.
  - `Fallen` states the result without the loop: a grain falls exactly when the
    run of grains under it ends in an Empty cell (`Falls`).
  - The two are proved equal. Conservation, the one-row limit, the fixed point
    and the worked scenarios are proved about them.
  - The `Recolor` parameter selects the colour policy of either version.
- `physics.dfy` (module `Physics`): `shift_down` and `process_tick` of `src/cell.c`,
  in place on an `array2<Cell>`. Each column is proved to end up as `Tick` of
  what it was.
- `input.dfy` (module `Input`): the events, the pixel-to-cell mapping as written
  and corrected, and the wheel selector.
- `sandbox.dfy` (module `Sandbox`): the global state and event handler of
  `src/main.c`, as class `App`.
- `draft.dfy` (module `Draft`): the global state, `update_cell`, tick and event
  handler of `src/cellular_physics.c`, as class `DraftApp`.

Modelling choices:

- Colours produced by `rand()` are inputs. In the draft, a function
  `shade(type, x, y)` stands for `get_cell_color`. In `src/main.c`, the paint
  colour `color` stands for `init_cell_color(selected_cell_type)`.
- Pointer positions are whole pixels. C's float-to-int conversion truncates
  toward zero, and `TruncDiv` does the same.
- The brush is kept as the enumeration value 0..3, as the C code does its
  arithmetic on it.
- The initial cell `{ CELL_EMPTY, CELL_SIZE % 256, 1.0 }` in `src/main.c` fills
  the colour by brace elision. The cell is therefore Empty with colour
  (16, 1, 0, 0) and fill 0. The draft's `{ CELL_EMPTY, CELL_SIZE % 256 }` gives
  colour (16, 0, 0, 0) and fill 0.
- All bounds are exclusive, so every array access is proved in range. See
  "## Findings" for the two places where the source's bounds are not.
- In a column [Sand, Sand, Empty], both grains fall in the same tick and the
  column becomes [Empty, Sand, Sand]. Each grain still moves exactly one row
  (`Column.StackIntoGap`, `Column.GrainMovesAtMostOneRow`). This follows the
  code's scan order, not the reading that only the lower grain moves.

## Model

| member | source | states |
|---|---|---|
| `Cells.TypeOf` | include/cell.h:7-13 | the material with a given enumeration value 0..3 is the one whose value it is |
| `Column.Shift` | src/cell.c:9-19 | when the cell below row y is Empty, rows y and y+1 exchange materials and the grain's fill moves down with it; otherwise the column is unchanged; no other row is touched |
| `Column.Visit` | src/cell.c:24-30 | only Sand and Water are handed to shift_down: a visit changes the column only when a grain sits on an Empty cell, and then moves it one row down; other rows are untouched |
| `Column.Scanned` | src/cell.c:23-32 | after the scan has visited rows CELL_HEIGHT - 2 down to k, the column keeps its length and rows above k are still untouched |
| `Column.Tick` | src/cell.c:23-32 | one tick of a column keeps its length and its multiset of materials |
| `Column.Falls` | src/cell.c:23-27 | a grain that falls is Sand or Water, is above the bottom row and has some Empty cell below it in its column |
| `Column.FallenRow` | src/cell.c:21-34 | in the closed-form tick a Block is never disturbed, and the row under a falling grain receives that grain's material and fill |
| `Column.Fallen` | src/cell.c:21-34 | the closed-form column has one cell per row of the column, row y being `FallenRow` of y; `TickIsFallen` proves the scan equals it |
| `Column.Base` | src/cell.c:23-27 | a falling grain sits on an unbroken run of Sand/Water that ends in an Empty row |
| `Column.ScannedShape` | src/cell.c:23-31 | once the rows below k have been visited, row k is emptied exactly if its grain falls, and rows below k already hold their final cells |
| `Column.TickIsFallen` | src/cell.c:21-34 | the descending scan yields exactly `Fallen`: each row takes the grain from above if that one falls, is left Empty if its own grain falls, and otherwise keeps its cell |
| `Column.FallsIffRun` | src/cell.c:23-27 | a grain falls if and only if the run of Sand/Water directly beneath it ends in an Empty cell |
| `Column.RunFalls` | src/cell.c:23-27 | a grain over a run of grains that ends in an Empty cell falls |
| `Column.GrainMovesAtMostOneRow` | src/cell.c:22-33 | a grain that falls lands exactly one row lower in the same column; one that does not fall stays where it was |
| `Column.StaysPut` | src/cell.c:24-30 | a Block never moves, and neither does a grain on a Block or on the bottom row |
| `Column.ShiftConserves` | src/cell.c:9-19 | shift_down keeps the multiset of materials in the column |
| `Column.ScannedConserves` | src/cell.c:23-31 | every prefix of the scan keeps the multiset of materials in the column |
| `Column.GridTickConserves` | src/cell.c:21-34 | a tick keeps the multiset of materials in the whole grid |
| `Column.FallNeedsGap` | src/cell.c:24-27 | if any grain falls, some grain lies directly over an Empty cell |
| `Column.TickFixedIffStable` | src/cell.c:21-34 | a column is unchanged by a tick if and only if no Sand/Water cell has an Empty cell directly below it |
| `Column.GrainIntoGap` | src/cell.c:21-34 | column [Sand, Empty, Block] becomes [Empty, Sand, Block]; with carried colours the moved cells are exactly the old ones |
| `Column.StackIntoGap` | src/cell.c:21-34 | column [Sand, Sand, Empty] becomes [Empty, Sand, Sand]: both grains fall one row in the same tick |
| `Column.RecolorOnlyAffectsColor` | src/cellular_physics.c:163-169 | the draft's tick and src/cell.c's move the same materials and fills to the same places; they differ only in colour |
| `Column.GridTick` | src/cell.c:22 | the grid tick keeps the number of columns and every column's length; each column ticks on its own (`GridTickConserves` gives grid-wide conservation) |
| `Physics.ShiftDown` | src/cell.c:9-19 | if (x, y+1) is not Empty nothing changes; otherwise (x, y+1) becomes the old (x, y) and (x, y) becomes Empty with the old lower colour and fill 16; no other cell changes |
| `Physics.ProcessTick` | src/cell.c:21-34 | in place, every column becomes `Tick` of its old contents and depends on nothing else; the whole grid becomes `GridTick` of the old grid |
| `Physics.Countdown` | src/cell.c:22 | a loop counting down from n visits n, n - 1, ..., 0 in that order |
| `Physics.ColumnScanAsWrittenOverruns` | src/cell.c:22 | the column loop as written first visits x = CELL_WIDTH, which is not a column |
| `Physics.ColumnScanVisitsEachColumnOnce` | src/cell.c:22 | starting from CELL_WIDTH - 1 visits every column once, all in range |
| `Input.TruncDiv` | src/main.c:24-25 | the float quotient truncated to int is the floor for non-negative pixels and never positive for negative ones |
| `Input.Clamp` | src/main.c:26-27 | SDL_clamp keeps a value inside [lo, hi] and moves one outside to the nearer bound |
| `Input.CellOfAsWritten` | src/main.c:23-28 | the mapping as written yields columns 0..CELL_WIDTH and rows 0..CELL_HEIGHT, one more of each than the grid has; inside the window it is the cell containing the pixel |
| `Input.CellOf` | src/main.c:23-28 | the mapped cell is always in the grid; a pixel inside the window maps to the cell containing it; pixels beyond an edge map to the border cell |
| `Input.CornerPixels` | src/main.c:23-28 | pixel (0, 0) maps to cell (0, 0) and pixel (1023, 767) to cell (63, 47), with either clamp |
| `Input.CellOfMatchesAsWrittenInWindow` | src/cellular_physics.c:64-69 | inside the window the corrected clamp gives the same cell as the one written |
| `Input.ClampAsWrittenLeavesGrid` | src/main.c:26-27 | the clamp as written maps any pixel at or beyond the right edge to column CELL_WIDTH and any at or below the bottom edge to row CELL_HEIGHT, outside the grid |
| `Input.Scroll` | src/main.c:128-136 | the brush stays in 0..3; a positive delta moves it one step forward mod 4, any other delta one step back mod 4 |
| `Input.ScrollRoundTrip` | src/cellular_physics.c:274-282 | one step forward then one back, or back then forward, restores the brush |
| `Input.ScrollWraps` | src/main.c:128-136 | forward from Water gives Empty; backward from Empty gives Water |
| `Sandbox.App.constructor` | src/main.c:50-54 | after init every grid cell is the initial Empty cell, the pointer cell is (0, 0) and the brush is Sand |
| `Sandbox.App.UpdateMouse` | src/main.c:23-28 | the stored pointer cell becomes the in-range cell of the pixel; grid and brush unchanged |
| `Sandbox.App.HandleEvent` | src/main.c:105-143 | quit returns success. A left press paints the stale pointer cell. Motion maps the pointer and paints only when just the left button is held. The wheel cycles the brush. A paint changes only that one cell |
| `Sandbox.App.Iterate` | src/main.c:92-93 | each frame every column of the grid becomes `Tick` of its old contents with carried colours |
| `Draft.DraftApp.constructor` | src/cellular_physics.c:212-215 | after init every grid cell is the draft's initial Empty cell, the selected cell is (0, 0) and the brush is Sand |
| `Draft.DraftApp.UpdateMouse` | src/cellular_physics.c:64-69 | the selected cell becomes the in-range cell of the pixel; grid and brush unchanged |
| `Draft.DraftApp.UpdateCell` | src/cellular_physics.c:80-84 | only cell (x, y) changes; it gets the given type and fill and the colour for that type |
| `Draft.DraftApp.ShiftDown` | src/cellular_physics.c:163-169 | if (x, y+1) is Empty, (x, y) becomes Empty with fill 16 and (x, y+1) takes the old type and fill with a recomputed colour; otherwise nothing changes |
| `Draft.DraftApp.ProcessTick` | src/cellular_physics.c:176-190 | in place, every column becomes `Tick` of its old contents with recomputed colours |
| `Draft.DraftApp.HandleEvent` | src/cellular_physics.c:258-289 | a left press first maps the press position, then paints that single cell. Motion maps and paints when only the left button is held. The wheel cycles the brush. Other events leave the grid alone |

## Left out

- SDL plumbing is not modelled: subsystem, window and renderer creation, BMP and texture loading, their failure paths, `SDL_Delay` frame pacing, `SDL_RenderPresent` and `SDL_AppQuit`. They are I/O against a library outside the model.
- Drawing is not modelled: `src/render.c`, `include/render.h`, and `draw_cell`, `draw_grid`, `draw_block_selection_ui` and `draw_brush` in `src/cellular_physics.c`. They only issue rendering calls.
- Colour generation is not modelled: `init_cell_color`, `get_cell_color`, `vary_cell_coloring` and `generate_color_in_range`. They draw from `rand()`, so the colours they produce are parameters (`color`, `shade`). The water range's reliance on C's signed `%` is therefore not modelled either.
- Floats are not modelled. Pointer positions are whole pixels and wheel deltas whole steps; only the sign of a delta is read. The fill value is an `int`; every value written (16, 1, 0) is exact in both `float` and `uint8_t`.
- `diffuse_cell` is an empty stub, and the `printf` in `get_cell_color` is debug output; both are omitted.
- Out-of-bounds behaviour is not modelled: what the column loop and the clamp as written do past the array is undefined in C. The model only exhibits the out-of-range index (see "## Findings").
- `Sandbox.App.Iterate`: models only the tick of `SDL_AppIterate`; the rendering and delay around it are left out, as above.

## Findings

| source | as written | input that shows it | evidently intended | confidence | as-written member | corrected member |
|---|---|---|---|---|---|---|
| src/cell.c:22 | the column loop of process_tick starts at x = CELL_WIDTH (likewise src/cellular_physics.c:178) | every tick: the first column visited is x = 64 in a grid of columns 0..63, so the grid is read one column past its end | start at CELL_WIDTH - 1 | high; not executed | `Physics.ColumnScanAsWrittenOverruns` | `Physics.ProcessTick` |
| src/main.c:26-27 | the pointer cell is clamped to [0, CELL_WIDTH] and [0, CELL_HEIGHT] (likewise src/cellular_physics.c:67-68) | a motion event at pixel x = 1024 with the left button held maps to column 64 and paints outside the grid; this needs the pointer reported at or past the right edge, e.g. while dragging out of the window | clamp to CELL_WIDTH - 1 and CELL_HEIGHT - 1 | medium; the index is out of range for that input, but whether SDL reports such a position depends on mouse capture; not executed | `Input.ClampAsWrittenLeavesGrid` | `Input.CellOf` |
