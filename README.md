# Pixel-art editor: the editing-state engine

The repository holds several overlapping versions of one browser pixel-art
editor for a 32 x 32 grid. This project models what they do to their
editing state, as Dafny datatypes, classes and functions, and proves
properties about that model:

- **app.js**
  - The action-based history: `Action` records and the `UndoRedoManager`
    with `addAction`, `undo`, `redo` and `applyAction`.
  - The canvas context, modelled as one grid array entry per cell.
  - The twelve reserved "neck-line" cells, and `fillCanvas` /
    `redrawNeckLines`. The app's invariant keeps them in ink. No recorded
    action touches them, so neither painting nor the undo and redo buttons
    can repaint them.
  - `drawPixel`, `isNeckLineCell` and `compareImageData`.
  - The `drawLine` loop (Bresenham's line algorithm with strict step tests).
  - The stroke state of `startDrawing`, `keepDrawing` and `stopDrawing`.
- **draw.js**
  - The `pixels` grid and `drawPixel`.
  - The sub-cell `drawLine` loop. It stores `dy` negated, uses non-strict
    tests, draws `floor(p / pixelWidth)` and skips the hovered cell.
  - `invertColor`.
  - The snapshot history `saveState` / `undoLastAction` / `redoLastAction`
    and `clearCanvas(init)`.
  - The mouse handlers that start, continue and end a stroke; `mousedown`
    saves exactly one snapshot per stroke.
- **undoRedo.js**: the snapshot history, with the grid as a field of the
  history object.
- **clearSave.js**: `clearCanvas(init)`.

Modules:

- **`Pixels`**: colours (an opaque CSS text), cells, grids.
- **`Raster`**: both variants of the line loop.
  - `Pass(m, s, k)` is the loop state after k passes.
  - `Line(m, s)` is the sequence of positions the loop visits.
- **`AppHistory`** and **`App`**: app.js.
- **`Snapshots`**: undoRedo.js. **`ClearSave`**: clearSave.js.
- **`JsText`**: the JavaScript string and number operations that
  `invertColor` uses, as ECMAScript defines them.
- **`Draw`**: draw.js.

Facts about the code that a reader might not expect, and that the model
keeps as the code has them:

- Neither history has a cap on its depth.
- app.js records every painted cell as its own action, not one action per
  stroke.
- app.js's clear button (`fillCanvas`) records nothing, so that clear cannot
  be undone.
- In app.js `startDrawing` does not set `lastPos`. The first move of a
  stroke therefore paints a lone cell rather than a line from the press
  point (`App.DrawingApp.KeepDrawing`).
- The line loops are not symmetric: the cells drawn from a to b can differ
  from those drawn from b to a. From (0, 0) to (2, 1) app.js's loop passes
  (1, 0), and back it passes (1, 1) (`Raster.LineDependsOnDirection`).

## Model

| member | source | states |
|---|---|---|
| Pixels.Rows | draw.js:92 | the deep copy of a grid array has its dimensions and holds every cell's colour |
| Pixels.SetCell | draw.js:32-33 | writing one cell gives a 32 x 32 grid holding the colour at that cell |
| Pixels.SetCellOnly | draw.js:32-33 | writing one cell leaves every other cell as it was |
| Pixels.Filled | draw.js:12 | a 32 x 32 grid with every cell the given colour |
| Raster.Line | app.js:271-293 | every position the line loop visits lies in the bounding box of the two end points |
| Raster.StepArithmetic | app.js:282-290 | from a point short of the end, at least one coordinate steps and neither overshoots its end coordinate |
| Raster.StepKeepsTrack | app.js:281-292 | one pass short of the end keeps the error-term invariant, moves to an 8-neighbour and strictly shortens the remaining distance, so the loop terminates |
| Raster.LineSplit | app.js:279-292 | while the loop runs, the cells of the passes so far, the current cell and the trace from there make up the whole line |
| Raster.CellsAreLine | app.js:279-292 | a loop that draws on every pass and stops on reaching the end point has drawn exactly `Line` |
| Raster.CellsOnLine | app.js:279-292 | every cell drawn so far, and the current one, is on the line |
| Raster.TraceEnds | app.js:281 | the trace is empty exactly at the end point and otherwise ends there |
| Raster.TraceConnected | app.js:281-292 | each move of the loop goes to an 8-neighbour |
| Raster.TraceInBox | app.js:281-292 | the loop never leaves the bounding box of the end points |
| Raster.LineProperties | app.js:271-293 | the line starts at (x0, y0), ends at (x1, y1), is 8-connected, stays in the bounding box, and is the single start cell when the points coincide |
| Raster.Step | app.js:282-290 | one pass of the loop body: x steps when `e2` passes the x test, y when it passes the y test, and the accumulator changes by -dy and +dx accordingly |
| Raster.Trace | app.js:281-292 | the positions the loop moves to from a position until it reaches the end point |
| Raster.StartInBand | app.js:272-276 | unless the end points coincide, the accumulator starts in the band where the longer side steps on every pass |
| Raster.StepInBand | app.js:282-290 | a pass keeps the accumulator in that band and moves the coordinate of the longer side one cell on |
| Raster.TraceLength | app.js:281-292 | from inside the band the loop makes exactly as many passes as the longer side has cells left |
| Raster.LineLength | app.js:271-293 | the line has exactly max(dx, dy) + 1 cells, in both variants |
| Raster.LineDependsOnDirection | app.js:271-293 | from (0, 0) to (2, 1) and back the loops visit different middle cells, so the cell set depends on the direction |
| JsText.ParseHex | draw.js:43-45 | `parseInt(s, 16)`: skip leading white space, read an optional sign and "0x", then the longest run of hex digits; NaN when there is none |
| JsText.NumberToHex | draw.js:47-49 | `toString(16)` of an integer (with a minus sign when negative) or of NaN |
| JsText.PadStart | draw.js:51 | `padStart(n, c)`: the text, with copies of c in front up to length n |
| JsText.Substring | draw.js:43-45 | `substring(a, b)`: the characters between the two indices, each clamped to the string, in either order |
| JsText.SliceFrom1 | draw.js:40 | `slice(1)`: everything after the first character |
| JsText.DigitValue | draw.js:43-45 | a hex digit is worth less than 16 |
| JsText.SpaceEndFacts | draw.js:43-45 | `parseInt` skips exactly the leading white space |
| JsText.HexEndStops | draw.js:43-45 | the digits `parseInt` reads stop at the first character that is not a hex digit |
| JsText.HexEndAll | draw.js:43-45 | in a string of hex digits `parseInt` reads up to the end |
| JsText.ParseHexDigits | draw.js:43-45 | a string of hex digits without sign or "0x" parses to its value |
| JsText.ParseHexNoDigits | draw.js:43-45 | a string without any hex digit parses to NaN |
| JsText.HexDigit | draw.js:47-49 | the printed digit is a lower-case hex digit worth the given value |
| JsText.ToHex | draw.js:47-49 | `toString(16)` prints at least one lower-case hex digit and no leading zero; it prints one digit exactly below 16 and at most two below 256 |
| JsText.ToHexValue | draw.js:47-49 | the digits `toString(16)` prints are worth the number |
| JsText.ParseToHex | draw.js:43-49 | `parseInt(n.toString(16), 16)` gives back n |
| JsText.PadStartFacts | draw.js:51 | `padStart` keeps a long enough string and otherwise pads it at the front to the length |
| JsText.SubstringFacts | draw.js:43-45 | `substring` with ordered in-range indices is the slice, swapping the indices changes nothing, and it is never longer than the string |
| Draw.Channel | draw.js:43-51 | one channel: `parseInt` of two characters, subtracted from 255, printed in hex and padded to two digits |
| Draw.InvertColor | draw.js:38-52 | `invertColor`: drop a leading '#', then '#' and the three inverted channels |
| Draw.ParsePair | draw.js:43-45 | two hex digits parse to sixteen times the first plus the second |
| Draw.InvertByte | draw.js:47-51 | `(255 - v).toString(16).padStart(2, '0')` for a byte v is the two lower-case digits of 255 - v |
| Draw.ChannelOfPair | draw.js:43-51 | one channel of two hex digits worth v turns into the two lower-case digits of 255 - v |
| Draw.InvertFormula | draw.js:38-52 | on '#' and six hex digits `invertColor` returns '#' followed by, per channel, the two digits of 255 minus it |
| Draw.InvertedHexColor | draw.js:38-52 | that result is '#' and six lower-case hex digits whose channels are 255 minus those of the input |
| Draw.InvertHexColor | draw.js:38-52 | `invertColor` of a hex colour is a lower-case hex colour whose red, green and blue are each 255 minus the input's |
| Draw.InvertedTwice | draw.js:38-52 | inverting the inverse gives the colour back, in lower case |
| Draw.InvertTwice | draw.js:38-52 | `invertColor(invertColor(s))` is s with its digits in lower case |
| Draw.InvertWithoutHash | draw.js:39-41 | the six digits invert alike with and without the leading '#' |
| Draw.ChannelNaN | draw.js:43-51 | a channel of text without hex digits prints "NaN" |
| Draw.InvertNoDigits | draw.js:38-52 | text without any hex digit inverts to "#NaNNaNNaN" |
| Draw.CellOf | draw.js:79-80 | the cell under a canvas point: floor division by the cell width and height |
| Draw.CellsOf | draw.js:79-80 | the cells of a run of points are, one for one, `floor(x / pixelWidth)`, `floor(y / pixelHeight)` |
| Draw.AdjacentCells | draw.js:79-80 | points one step apart fall in cells at most one apart |
| Draw.ConnectedCells | draw.js:79-80 | the cells of an 8-connected run of points are 8-connected |
| Draw.BoxCellInBounds | draw.js:79-80 | a point between two points over the grid is itself over the grid |
| Draw.Stroke | draw.js:81-83 | the grid after drawing the given cells in order, skipping the hovered cell |
| Draw.StrokeCanvas | draw.js:78-88 | after a stroke every cell it passed, except the hovered one, has the colour, and every other cell keeps its colour |
| Draw.PassCellInBounds | draw.js:79-82 | while the loop runs, the cell of its current point is on the grid |
| Draw.StrokeCellsInBounds | draw.js:78-88 | while the loop runs, the cells of all the points it has visited are on the grid |
| Draw.StrokeLast | draw.js:81-83 | a stroke over one more cell is the shorter stroke then that cell, unless hovered |
| Draw.StrokedIsStroke | draw.js:78-88 | the passes of the loop draw the cells of the points they visit, in order, skipping the hovered cell |
| Draw.InclusiveStep | draw.js:85-87 | the loop body after the end test is one step of the non-strict variant with `dy` stored negated |
| Draw.StrokeCellsProperties | draw.js:73-89 | the cells a stroke draws start at the previous point's cell, end at the new point's cell, and are 8-connected |
| Draw.PixelEditor.constructor | draw.js:6-19 | a fresh grid with every cell `#FCE184`, empty stacks, ink as brush colour, not drawing, nothing hovered |
| Draw.PixelEditor.DrawPixel | draw.js:32-36 | `pixels[y][x]` becomes the colour |
| Draw.PixelEditor.DrawLine | draw.js:73-89 | the `while (true)` loop terminates with the grid equal to the stroke over the cells of `Line` from the first point to the second, hovered cell skipped, and all those cells on the grid |
| Draw.PixelEditor.DrawPointCell | draw.js:79-83 | one pass draws the cell of the current point unless it is the hovered cell |
| Draw.PixelEditor.StrokeDone | draw.js:84 | a loop stopped at the end point has drawn the cells of the whole line |
| Draw.PixelEditor.SaveState | draw.js:91-94 | the history becomes `Save` of the old one and the live grid array stays the same object |
| Draw.PixelEditor.UndoLastAction | draw.js:96-102 | the history becomes `Undo` of the old one |
| Draw.PixelEditor.RedoLastAction | draw.js:104-110 | the history becomes `Redo` of the old one |
| Draw.PixelEditor.ClearCanvas | draw.js:129-133 | the history becomes `Cleared(old, init)` |
| Draw.PixelEditor.MouseDown | draw.js:135-142 | exactly one snapshot of the pre-stroke grid is pushed, the redo stack is emptied, and the cell under the point is drawn |
| Draw.PixelEditor.MouseMove | draw.js:144-152 | while drawing, the grid becomes the stroke from the previous point to this one, and the stacks are untouched; the point is remembered and its cell hovered |
| Draw.PixelEditor.MouseUp | draw.js:154-157 | drawing stops, nothing else changes |
| Draw.PixelEditor.MouseLeave | draw.js:159-164 | drawing stops and the highlight is forgotten |
| Snapshots.Save | undoRedo.js:4-7 | the grid is kept, the undo stack grows by one, the redo stack is empty |
| Snapshots.Undo | undoRedo.js:9-14 | an empty undo stack changes nothing; the summed stack lengths never change |
| Snapshots.Redo | undoRedo.js:16-21 | an empty redo stack changes nothing; the summed stack lengths never change |
| Snapshots.HistoryOkKept | undoRedo.js:4-21 | save, undo and redo keep every grid of the history 32 x 32 |
| Snapshots.NewGridArray | undoRedo.js:12 | `JSON.parse` of a snapshot is a fresh grid array holding the snapshot |
| Snapshots.SnapshotHistory.constructor | draw.js:12 | a fresh background grid and empty stacks |
| Snapshots.SnapshotHistory.SaveState | undoRedo.js:4-7 | the state becomes `Save` of the old one; the grid array is unchanged |
| Snapshots.SnapshotHistory.UndoLastAction | undoRedo.js:9-14 | the state becomes `Undo` of the old one; the live grid is a fresh array exactly when a snapshot was popped |
| Snapshots.SnapshotHistory.RedoLastAction | undoRedo.js:16-21 | the state becomes `Redo` of the old one; the live grid is a fresh array exactly when a snapshot was popped |
| Snapshots.UndoMovesTop | undoRedo.js:9-14 | undo makes the former undo top the grid, removes exactly it, and pushes the former grid on the redo stack |
| Snapshots.RedoMovesTop | undoRedo.js:16-21 | redo makes the former redo top the grid, removes exactly it, and pushes the former grid on the undo stack |
| Snapshots.UndoThenRedo | undoRedo.js:9-21 | undo then redo restores the grid and both stacks exactly |
| Snapshots.RedoThenUndo | undoRedo.js:9-21 | redo then undo restores the grid and both stacks exactly |
| Snapshots.SaveThenUndo | undoRedo.js:4-14 | save then undo restores the saved grid and undo stack, leaving that grid as the only redo entry |
| Snapshots.UndoTimesLengths | undoRedo.js:9-14 | k undos on a stack of at least k move exactly k snapshots across |
| Snapshots.UndoRedoTimes | undoRedo.js:9-21 | k undos followed by k redos restore the history exactly |
| ClearSave.Cleared | clearSave.js:1-5 | every cell is `#FCE184`; with `init` the stacks are kept, otherwise the old grid is pushed and the redo stack emptied |
| ClearSave.ClearCanvas | clearSave.js:1-3 | the rows are filled in place (same array, same size), and the state becomes `Cleared` |
| ClearSave.ClearTwice | clearSave.js:3 | clearing again leaves the grid of the first clear |
| ClearSave.ClearThenUndo | clearSave.js:2-3 | a non-initial clear followed by one undo restores the pre-clear grid and undo stack |
| AppHistory.Applied | app.js:41-48 | the action's cells get the previous colour (undo) or the action colour (redo); the others keep theirs |
| AppHistory.Undone | app.js:23-29 | an empty undo stack changes nothing; otherwise the top action moves from the undo stack to the redo stack and the canvas becomes `Applied(canvas, a, true)`; the state stays well-formed and the summed stack lengths are kept |
| AppHistory.Redone | app.js:32-38 | an empty redo stack changes nothing; otherwise the top action moves from the redo stack back onto the undo stack and the canvas becomes `Applied(canvas, a, false)`; the state stays well-formed and the summed stack lengths are kept |
| AppHistory.DrawAction | app.js:297-299 | the "draw" action of one cell, the brush colour and the cell's previous colour |
| AppHistory.PaintCell | app.js:295-304 | painting a cell keeps the state well-formed |
| AppHistory.PaintCellEffect | app.js:295-304 | a neck cell changes nothing; any other cell alone takes the colour, one action recording the cell and its previous colour is pushed, and the redo stack is emptied |
| AppHistory.PaintPath | app.js:279-292 | `drawPixel` applied to the cells of a path in order keeps the state well-formed |
| AppHistory.UndoRedoManager.constructor | app.js:11-14 | both stacks start empty |
| AppHistory.UndoRedoManager.AddAction | app.js:17-20 | the action is the new undo top and the redo stack is empty |
| AppHistory.UndoRedoManager.Undo | app.js:23-29 | the state becomes `Undone` of the old one |
| AppHistory.UndoRedoManager.Redo | app.js:32-38 | the state becomes `Redone` of the old one |
| AppHistory.UndoRedoManager.ApplyAction | app.js:41-48 | the loop writes the grid array to `Applied` of the old grid |
| AppHistory.UndoThenRedo | app.js:23-48 | undo then redo leaves both stacks as before and the action's cells at its colour, the rest as before |
| AppHistory.RedoThenUndo | app.js:23-48 | redo then undo leaves both stacks as before and the action's cells at their previous colours |
| AppHistory.PaintUndoRedo | app.js:23-48 | undoing a fresh paint restores canvas and undo stack; redoing it gives back the painted state |
| AppHistory.PaintPathCanvas | app.js:279-292 | after painting a path each unreserved cell on it has the colour and every other cell keeps its colour |
| AppHistory.PaintPathStacks | app.js:279-292 | painting a path pushes one single-cell action per unreserved cell above the old undo stack and empties the redo stack if any was pushed |
| AppHistory.ReservedUntouched | app.js:296 | painting never changes a reserved cell |
| AppHistory.UndoRedoKeepReserved | app.js:23-48 | when no stacked action touches a reserved cell, undo and redo leave every reserved cell as it was, and still no stacked action touches one |
| AppHistory.PaintPathAvoids | app.js:295-304 | painting pushes only actions that avoid the reserved cells |
| App.Template | app.js:133-137 | `fillCanvas(color)` leaves a 32 x 32 grid |
| App.DrawingApp.constructor | app.js:53-71 | the canvas is the template over `#FCE184`, stacks are empty, not drawing, ink as brush |
| App.DrawingApp.InitCanvas | app.js:85-119 | the canvas becomes the template and the reserved set is exactly the neck cells |
| App.DrawingApp.BuildNeckLineCells | app.js:111-118 | the set built is exactly column 10 rows 25 to 31 and column 16 rows 27 to 31: twelve cells |
| App.DrawingApp.FillCanvas | app.js:133-137 | neck cells end in `#0F0E0C` and every other cell in the fill colour |
| App.DrawingApp.RedrawNeckLines | app.js:143-157 | neck cells end in `#0F0E0C`, others untouched |
| App.DrawingApp.IsNeckLineCell | app.js:306-308 | true exactly on the twelve neck cells |
| App.DrawingApp.DrawPixel | app.js:295-304 | the state becomes `PaintCell` of the old one, and a valid app stays valid |
| App.DrawingApp.DrawLine | app.js:271-293 | the loop terminates with the state of painting every cell of `Line`, in order, with `drawPixel`; the neck cells stay ink |
| App.DrawingApp.DrawPasses | app.js:281-292 | the `while` loop stops at the end point having drawn the cells of all its passes |
| App.DrawingApp.NextPass | app.js:282-291 | one pass steps the loop variables, paints the new cell, and shortens the remaining distance |
| App.DrawingApp.DrawPassCell | app.js:279-291 | the `drawPixel` call of a pass adds that pass's cell to the cells painted so far |
| App.DrawingApp.Undo | app.js:216-218 | the undo button makes the state `Undone` of the old one; the neck cells stay ink and out of every action |
| App.DrawingApp.Redo | app.js:220-222 | the redo button makes the state `Redone` of the old one; the neck cells stay ink and out of every action |
| App.DrawingApp.StartDrawing | app.js:244-248 | drawing starts and the cell is painted |
| App.DrawingApp.KeepDrawing | app.js:250-262 | not drawing: nothing changes. Drawing: the path from the last cell (or the lone cell) is painted and the cell remembered |
| App.DrawingApp.StopDrawing | app.js:264-269 | drawing stops and the last cell is forgotten |
| App.DrawingApp.CompareImageData | app.js:73-83 | true exactly when widths and heights match and every byte of the first equals the byte at the same index of the second |
| App.StrictStep | app.js:282-290 | the loop body with strict tests is one step of the strict variant |
| App.PassInBounds | app.js:281-291 | while the loop runs between cells of the canvas, its current cell is on the canvas |
| App.PaintedIsPath | app.js:279-292 | the passes paint the cells they visit, in order |
| App.LineInBounds | app.js:271-293 | with both end points on the canvas so is every cell of the line |
| App.CompareMeansEqual | app.js:73-83 | on well-formed image data the comparison is plain equality |
| App.NeckLinesSurvivePainting | app.js:85-118 | after any painting of the template the neck cells still show `#0F0E0C` |
| App.PaintKeepsNeck | app.js:295-304 | painting any path keeps the neck cells in ink and out of every recorded action |
| App.UndoRedoKeepNeck | app.js:23-48 | undo and redo keep the neck cells in ink and out of every recorded action |

## Left out

- Rendering is not modelled: `fillRect`, `clearRect`, `strokeRect`, `redrawCanvas`, the grid overlay and the highlight canvas. `getImageData` at app.js:297 is a read of the grid cell.
- The pointer mapping (`getMousePosition`, `getCursorPosition`) is floating-point DOM arithmetic. Pointer positions are integer parameters, in cells for app.js and in canvas pixels for draw.js.
- Draw.PixelEditor.DrawLine: its points are integers, so its termination proof does not cover what draw.js does with fractional points. `getCursorPosition` (draw.js:27-28) returns `(clientX - rect.left) * scaleFactor`, which can be fractional, and the loop stops only when `x1 === x2 && y1 === y2` (draw.js:84). From x1 = 0 to x2 = 1.5 on one row, x1 runs 1, 2, 3, … and never equals 1.5, so the loop does not end.
- DOM wiring is not modelled: event registration, palette buttons, `preventDefault`, `DOMContentLoaded`, the `window.drawApp` global. The handlers' bodies are methods.
- PNG export (`toDataURL`, `link.click`) is browser I/O.
- The canvas size of draw.js is a constructor parameter of `Draw.PixelEditor`, at least one pixel per cell. `pixelWidth` is `canvasWidth / 32`.
- Colours are opaque CSS texts, compared as text. The `rgb(...)` text app.js records as a previous colour is modelled as the colour read from the grid.
- Strings are sequences of characters, not UTF-16 code units.
- `invertColor` is proved for '#' and six hex digits and for text without hex digits. Other inputs, such as `rgb(...)` palette colours, are modelled but have no lemma of their own.
- Pixels.SetCell: its contract names only the changed cell; that every other cell keeps its colour is `Pixels.SetCellOnly`.
- AppHistory.PaintCell: its contract states only well-formedness; its effect is `AppHistory.PaintCellEffect`.
- `drawPixel` requires an in-bounds cell, as the code has no bounds check and the grid cannot be indexed outside. `drawLine`'s two end cells must be on the grid, and every cell in between is then proved to be on it.
- Snapshot undo and redo replace the live grid by a fresh array. Aliasing between a snapshot and the live grid cannot arise, since snapshots are values.
