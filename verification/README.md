# Pixel art editor — state logic in Dafny

This project models the pure state logic of a small browser pixel-art editor
(`main.js`):

- the immutable **picture**: a `width x height` grid of `"#rrggbb"` colors,
  stored row-major, with `empty`, `pixel` and `draw` (module `Raster`,
  `raster.dfy`);
- the **application state** `{tool, color, picture, done, doneAt}` and the
  undo-aware reducer `historyUpdateState` with its one-second coalescing
  window (module `History`, `history.dfy`);
- the four **tools** `draw`, `rectangle`, `fill` and `pick`. Each one returns
  the action it would dispatch (module `Tools`, `tools.dfy`). The flood fill
  is an imperative worklist method. It is proved to terminate and to recolor
  exactly the 4-connected region of the start cell's color;
- the pure part of **image import**, `pictureFromImage`: the 100-cell
  clamp, the crop, and the two-digit hexadecimal color format (module
  `Codec`, `codec.dfy`).

Design decisions:

- Wall-clock time (`Date.now()`) is a parameter `now`.
- Dispatching is modelled by returning the action. Every action is a record
  of optional fields `undo`, `tool`, `color` and `picture`.
- Pictures are values, so `Draw` cannot modify its argument.

Behaviour of `main.js` that the model keeps as written:

- `Picture.empty` checks no sizes, so `Empty` accepts any `nat` width and
  height, zero included.
- `Picture.draw` does no bounds check. An out-of-bounds write would alias
  another cell or extend the array. `Draw` and `PixelAt` require in-bounds
  coordinates instead of modelling that behaviour.
- The rectangle's drag continuation reads the state captured when the
  gesture started. `drawRectangle` ignores the
  second argument the editor passes. `DrawRectangle` therefore takes that
  gesture-start state explicitly. The `draw` tool's continuation does use
  the latest state.
- Import draws the image at the origin of the clamped canvas, so a larger
  image is cropped to its top-left corner.
- Importing an image with no rows or no columns produces no picture, because
  `getImageData` throws on a zero-sized canvas. `PictureFromImage` returns
  `None` in that case.

## Model

| member | source | states |
|---|---|---|
| Raster.Empty | main.js:9-12 | the new picture has `width*height` cells and every in-bounds cell holds the fill color |
| Raster.IndexInjective | main.js:13-15 | two distinct in-bounds coordinates never share the buffer index `x + y*width` |
| Raster.PixelReadsBuffer | main.js:13-15 | every cell of the buffer is what `pixel(x, y)` reads at some in-bounds coordinate with `x + y*width` equal to its index |
| Raster.Put | main.js:19 | one write changes the targeted cell to its color and leaves every other cell and the size unchanged |
| Raster.Draw | main.js:16-22 | `draw` keeps the size, and each in-bounds cell ends with the color of the last write to it, or its old color |
| Raster.LastColorUntouched | main.js:17-20 | a cell no write targets keeps the color the copy started with |
| Raster.LastColorIsLastWrite | main.js:18-20 | when write `i` targets the cell and no later write does, the cell ends with write `i`'s color |
| Raster.DrawLastWriteWins | main.js:16-22 | the same property as `Draw` in terms of write indices: no matching write keeps the old color, otherwise the last matching write decides |
| Raster.DrawNoOp | main.js:16-22 | a batch that only rewrites cells with their current colors returns an equal picture |
| History.UpdateState | main.js:25-27 | `updateState` replaces exactly the fields the action carries, and history and `doneAt` are untouched |
| History.UpdateIdempotent | main.js:25-27 | merging the same action twice equals merging it once |
| History.Reduce | main.js:338-354 | undo with empty history is a no-op; undo otherwise pops `done[0]` into `picture` and resets `doneAt` to 0; a picture action more than 1000 ms after `doneAt` pushes the pre-edit picture and sets `doneAt := now`; anything else is a plain merge |
| History.HistoryGrowth | main.js:346-350 | history grows iff a checkpoint opens, only by the pre-edit picture, and changes by at most one entry per step |
| History.SettingsOnly | main.js:351-352 | tool and color actions never change the picture, the history or `doneAt` |
| History.UndoAfterCheckpoint | main.js:339-350 | undo right after a checkpointing edit restores the pre-edit picture and history |
| History.DebounceWindow | main.js:346 | a picture edit no more than 1000 ms after `doneAt`, or at a clock reading before it, keeps the history; one later than that pushes the current picture |
| History.WithinWindow | main.js:346-353 | any run of non-undo actions inside the window leaves `done` and `doneAt` unchanged |
| History.BurstIsOneUndoStep | main.js:339-353 | a checkpointing edit followed by edits within the window is undone by a single undo |
| History.SettingsKeepPicture | main.js:351-352 | a run of non-undo tool and color actions leaves the shown picture as it was |
| History.LastPictureWins | main.js:347-352 | after a run, the shown picture is the one carried by its last picture action, provided no undo follows it; later tool and color actions do not change it |
| Tools.DrawPixel | main.js:183-190 | `draw` recolors exactly the cell under the pointer with the current color |
| Tools.Row | main.js:201-203 | one row of the rectangle lists `x .. xEnd` at height `y`, left to right, in the given color |
| Tools.Rows | main.js:199-204 | every write of the rectangle batch lies in the box and carries the color, and every cell of the box is written |
| Tools.RectangleCoversBox | main.js:194-204 | a cell is written by the rectangle batch iff it lies in the inclusive min/max box of `start` and `pos` |
| Tools.RowsLength | main.js:199-204 | the rectangle batch has one write per box cell, `(yEnd-yStart+1)*(xEnd-xStart+1)` |
| Tools.DrawRectangle | main.js:193-209 | the rectangle action paints exactly the box cells with the current color over the gesture-start picture and keeps every other cell |
| Tools.RectangleDrag | main.js:193-209 | after any drag, the picture is the box from the anchor to the last position over the gesture-start picture; earlier positions leave no trace |
| Tools.AroundIsAdjacency | main.js:213-215 | the `around` table lists exactly the four edge-sharing neighbours |
| Tools.DistinctBound | main.js:226-227 | a duplicate-free list of in-bounds cells has at most `width*height` entries, which bounds the worklist |
| Tools.ScanAround | main.js:221-229 | one pass over `around` appends exactly the missing in-bounds target-colored neighbours of `drawn[done]`: every such neighbour is listed afterwards, and every appended entry is in bounds, target-colored, new and edge-adjacent to `drawn[done]`; `drawn` stays duplicate-free, within `width*height`, and keeps its old entries as a prefix |
| Tools.FloodFill | main.js:217-230 | the worklist loop terminates; `drawn` starts at the start cell, is duplicate-free, in bounds, at most `width*height` long, all entries have the target color read once at the start, and no in-bounds target-colored neighbour of an entry is missing |
| Tools.FillIsRegion | main.js:217-230 | a cell is in `drawn` iff a path of target-colored, edge-sharing cells leads to it from the start |
| Tools.Fill | main.js:217-232 | the fill action recolors exactly the cells connected to the start through its original color and keeps all others |
| Tools.FillOwnColorIsNoOp | main.js:217-231 | filling a region with the color it already has changes no cell |
| Tools.UniformIsConnected | main.js:213-229 | on a one-color grid every cell is connected to any start, so a fill recolors the whole grid |
| Tools.Pick | main.js:234-236 | `pick` dispatches an action that carries only a color, the one under the pointer |
| Tools.PickOnlyChangesColor | main.js:234-236 | dispatching `pick` sets the current color to the picked cell's color and changes nothing else |
| Tools.FillThenUndo | main.js:377-383 | from the start state, a fill at (0,0) with black turns all 70x50 cells black and opens one checkpoint, and undo then restores the blank `#f0f0f0` canvas |
| Codec.HexRoundTrip | main.js:326-328 | `hex(n)` is two lower-case hex digits that read back as `n` |
| Codec.RgbColorLayout | main.js:331 | the color string is `#` followed by the three two-digit bytes |
| Codec.RgbColorInjective | main.js:331 | different RGB triples give different color strings |
| Codec.Quads | main.js:329-332 | the stride-4 loop over the bytes of `n` pixels yields `n` values, the `k`-th computed from bytes `4k`, `4k+1` and `4k+2` |
| Codec.PictureFromImage | main.js:317-334 | an image with zero width or height imports nothing; otherwise the imported picture is `min(100, iw) x min(100, ih)`, and cell `(x, y)` has the color of image pixel `(x, y)` |

## Left out

- DOM, canvas and widget code is not modelled: `elt`, `PictureCanvas`, `drawPicture`, the `mouse` and `touch` handlers, `ToolSelect`, `ColorSelect`, `SaveButton`, `LoadButton` and `UndoButton`. It is browser event wiring and rendering.
- `pointerPosition` is not modelled. It does floating-point division and `Math.floor` on screen coordinates. Tools take grid positions directly.
- `PixelEditor`, `startPixelEditor` and the `baseTools`/`baseControls` registries are not modelled. They are closure and listener plumbing. This includes skipping drag events to an unchanged cell. The continuation behaviour is captured by the tool functions' parameters instead.
- `startLoad`, `finishLoad`, `save` and `toDataURL` are not modelled. They are asynchronous file-picker, `FileReader` and download calls. This includes the `file == null` early return.
- `Codec.CanvasData` treats `drawImage` followed by `getImageData` as an exact byte crop of the image. Browser colour management and premultiplied-alpha rounding are outside the visible code.
- History.Reduce: the source calls `Date.now()` twice, once in the test and once for the new `doneAt`. The model uses one instant `now` for both.
- Out-of-bounds `pixel` reads and `draw` writes are excluded by preconditions. In JavaScript they return `undefined`, alias another cell, or extend the array.
- A negative width or height passed to `Picture.empty` is excluded by the `nat` parameter types. The array constructor may throw on those values.
- Tool names are arbitrary strings in the state. Looking up an unknown tool name is part of the editor plumbing above.
