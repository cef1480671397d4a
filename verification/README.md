# Paint-html drawing core in Dafny

This project models the core of a small browser drawing app, `script.js`. The app has freehand strokes, an eraser and a bucket (flood-fill) tool. It keeps a bounded undo history of full-canvas snapshots. All of this works on the RGBA pixel buffer of one canvas.

The model has five modules:

- `Pixels` (`pixels.dfy`) models the pixel buffer. It holds a width and a height, both positive, and `width * height` pixels stored row by row. Each pixel is four bytes. The browser array's byte offset `(y * w + x) * 4` becomes the pixel index `y * w + x`. The module also has `getPixel`, `matches` and `colorsMatch`. `getPixel` computes the flat index without a bounds check, as the code does. A coordinate past the end of a row therefore reads a pixel of the next row. An index outside the array reads nothing, which plays the part of `undefined`.
- `HexColor` (`hexcolor.dfy`) models `hexToRgba` on `#rrggbb` strings and the inverse rendering used to state the round trip.
- `Fill` (`fill.dfy`) models `floodFill` as a method with an explicit work stack. It is proved against a functional target: the 4-connected component of pixels that have exactly the seed's RGBA. The loop terminates by the lexicographic measure (number of target-coloured pixels, stack length). A ghost counter of pixel writes equals the number of changed pixels, so no pixel is painted twice.
- `History` (`history.dfy`) models `saveState` and `undo` over a sequence of immutable snapshots. The capacity is 20 (`CONFIG.maxHistory`), and a save into a full history first drops the oldest snapshot.
- `Drawing` (`drawing.dfy`) models the session: `isDrawing`, the tool (brush, eraser or bucket), the colour, the history and the canvas. Its operations are `startDraw`, `draw`, `stopDraw`, `setTool`, `setColor`, `clearCanvas`, `resizeCanvas`, `undo` and the initial state.

The model keeps these points of the code exactly:

- The early exit of the fill compares only red, green and blue. The traversal compares all four channels.
- Neighbours are pushed without checks. Bounds and colour are tested only when a coordinate is popped.
- A seed off the canvas leaves the buffer unchanged. This holds even when its unchecked index reads a real pixel.
- The bucket saves a snapshot before filling, even when the fill then changes nothing.
- `resizeCanvas` saves a snapshot through `clearCanvas(false)` and then empties the history.

## Model

| member | source | states |
|---|---|---|
| Pixels.GetPixel | script.js:210-213 | An in-bounds coordinate reads exactly that pixel's RGBA. The read is present exactly when the unchecked flat index lies inside the buffer. |
| Pixels.SetAt | script.js:161-170 | Writing the pixel at an in-bounds coordinate changes that pixel only and keeps the buffer's geometry. |
| Pixels.ColorsMatch | script.js:218-220 | A missing pixel (JavaScript `undefined`) matches nothing. A present pixel matches exactly when it equals the other colour once alpha is disregarded: only red, green and blue are compared. |
| Pixels.Matches | script.js:214-217 | The pixel at the coordinate matches exactly when reading it gives the target, so all four channels agree. A missing target matches nothing. |
| Fill.Paint | script.js:167-170 | The colour written has the fill's red, green and blue and alpha 255. |
| HexColor.HexToRgba | script.js:221-226 | The parsed colour is fully opaque. Each channel's high and low hex digits are the corresponding characters of the string. |
| HexColor.ParseOfRender | script.js:221-226 | Parsing the `#rrggbb` rendering of any colour gives back its red, green and blue with alpha 255. |
| HexColor.RenderOfParse | script.js:221-226 | Rendering the parse of a lower-case colour string gives back the same string. |
| Fill.FloodFill | script.js:146-175 | When the seed's RGB equals the fill's RGB, the buffer is returned unchanged, whatever the alphas. Otherwise each pixel of the seed's 4-connected exact-RGBA component gets the fill's RGB with alpha 255, and every other pixel is unchanged. A seed off the canvas changes nothing. Pixels that differ from the seed's RGBA are never touched. On a one-colour buffer every pixel is painted. The number of writes equals the number of changed pixels. |
| Fill.InvPaint | script.js:164-172 | Painting a popped in-bounds target pixel and pushing its four neighbours keeps every pixel either untouched or painted inside the region. It keeps every pending target-coloured coordinate inside the region. It keeps every target-coloured neighbour of a painted pixel on the stack. |
| Fill.InvDiscard | script.js:160-164 | Discarding a popped coordinate that is off the canvas or no longer the target keeps the fill invariant. |
| Fill.RegionComplete | script.js:159-173 | Once the stack is empty, every member of the seed's region has been painted. |
| Fill.FillOutcome | script.js:159-174 | The buffer left by the finished loop matches the functional target: the region is painted and everything else is unchanged. |
| Fill.RegionStep | script.js:172 | A seed-coloured 4-neighbour of a region member is itself in the region. |
| Fill.RegionColor | script.js:164 | Every region member has exactly the seed's RGBA. |
| Fill.UniformRegion | script.js:159-173 | On a buffer of one colour, every in-bounds pixel is in the region of every in-bounds seed. |
| Fill.CountMatchingPaint | script.js:164-170 | Painting a target pixel with a different colour lowers the number of target-coloured pixels by one. This is the first component of the loop's termination measure. |
| Fill.ChangedPaint | script.js:167-170 | A write to a pixel that was still unchanged raises the number of changed pixels by one. |
| History.Save | script.js:52-58 | The saved buffer is the newest entry. The history grows by one unless it was full. A history within capacity stays within capacity. The older entries kept are the newest ones of the previous history, in order. |
| History.Undo | script.js:60-64 | On an empty history nothing changes. Otherwise the popped snapshot becomes the buffer, and pushing it back onto the remaining history gives the previous history. |
| History.SaveThenUndo | script.js:52-64 | Undo right after a save restores the saved buffer exactly. The history returns to its previous state, less the oldest entry if the save evicted it. |
| History.SaveIsNewest | script.js:54-57 | A save keeps the newest `cap` entries of the history extended by the new snapshot (FIFO eviction). |
| History.SaveAllIsNewest | script.js:54-57 | Any run of saves leaves the newest `cap` entries of the old history followed by the saved buffers, and never more than `cap` entries. |
| History.SaveAllEvicts | script.js:54-57 | After at least `cap` saves, only the last `cap` saved buffers remain, so earlier ones cannot be reached by undo. |
| Drawing.ClearCanvas | script.js:93-99 | When it proceeds, the history is exactly the result of saving the old canvas (older snapshots kept, the oldest dropped only when full) and every pixel becomes opaque white. When it does not proceed, nothing changes. |
| Drawing.Resize | script.js:32-37 | The canvas gets the new geometry and is entirely white, and the history is empty. |
| Drawing.Init | script.js:11-30 | The initial session has no stroke in progress, the brush tool, colour `#11111b`, an empty history, and a canvas of the requested geometry that is entirely white. |
| Drawing.SetTool | script.js:68-72 | Selecting a tool leaves the canvas, the history, the colour and the stroke state alone, and keeps the session invariant. |
| Drawing.SetColor | script.js:74-86 | The colour is recorded. With the eraser selected the tool becomes the brush; any other tool stays selected, so the eraser is never selected afterwards. Canvas and history are untouched. |
| Drawing.StartDraw | script.js:110-130 | The history is exactly the result of saving the old canvas, so the old canvas is the newest snapshot and undo restores it. The bucket fills from the seed with the current colour and does not change `isDrawing`. Brush and eraser enter drawing mode. |
| Drawing.Draw | script.js:132-136 | When no stroke is in progress the session is unchanged. The history, tool, colour and stroke state are never touched. |
| Drawing.StopDraw | script.js:138-143 | Afterwards no stroke is in progress, and nothing else has changed. |
| Drawing.Undo | script.js:60-64 | Undo on the session keeps the session invariant and restores the newest snapshot as the canvas, or changes nothing when the history is empty. |
| Drawing.DrawAfterStop | script.js:132-143 | `draw` after `stopDraw` changes nothing. |
| Drawing.UndoClear | script.js:93-99 | Undo right after clearing brings the previous canvas back. With room in the history, it also brings back the previous history. |
| Drawing.UndoAfterResize | script.js:32-37 | Right after a resize there is nothing to undo. |

Each session operation also keeps the invariant `Drawing.Valid`. The invariant says: the canvas is well formed, the colour string is well formed, the history holds at most 20 snapshots, and every snapshot has the canvas's geometry. Clearing the history on resize is what keeps the last part true.

## Left out

- Canvas 2D stroke rendering (`beginPath`, `lineTo`, `stroke`, line width, caps and joins, and the eraser's white stroke colour) is an opaque rasteriser. `startDraw` and `draw` take the rendered buffer as a parameter with the canvas's geometry.
- `setSize` is left out. It parses a DOM string with `parseInt`, and the size only feeds the opaque stroke width.
- DOM and UI work is left out: `renderPalette`, the active-class toggling in `setTool` and `setColor`, the colour-picker value and the `size-val` text.
- The `confirm` dialog of `clearCanvas` becomes the boolean `proceed`. `proceed` means no confirmation was asked, or the user confirmed.
- `rgbMatch` is left out because it compares browser-produced CSS colour strings.
- `saveCanvas` is left out because PNG export goes through `toDataURL` and a download link.
- Event wiring and coordinate translation (`addEventListeners`, `handleInputStart`, `handleInputMove`) are left out. They use floating client coordinates and `getBoundingClientRect`. Seeds are integer `Point`s.
- The canvas size read from the DOM (`clientWidth - 40`) becomes the parameters `w` and `h` of `Resize`, required positive. A non-positive DOM size is not modelled.
- HexColor.HexToRgba: only well-formed `#rrggbb` strings are modelled. `parseInt` returning `NaN` on other input is not.
- History.Save: the capacity is a parameter required to be positive, where the code has the constant 20. The session always passes 20.
