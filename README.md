# Object selector mask authoring, in Dafny

This project models the mask-authoring component of an AI photo eraser. The
user marks the region to remove on a displayed photograph, and the component
hands the result to its caller. It works in one of two modes:

- **Auto**: a click selects the first detector box, in list order, that
  contains the click. The component emits that box in image coordinates.
- **Manual**: pointer drags paint filled circles onto a hidden mask. The
  mask has the image's natural size, and each pixel is "keep" (black) or
  "erase" (white). An explicit submit emits the whole mask.

The model has four modules:

- `Geometry` (`geometry.dfy`): the scale factors between display space (the
  rendered image's client box) and image space (its natural pixels), the box
  mapping used to draw and hit-test detections, and the brush radius on the
  mask. Coordinates are exact reals.
- `HitTest` (`hittest.dfy`): detections and the first-match search of the
  click handler, as a loop with early return.
- `Raster` (`raster.dfy`): the mask buffer, an `array2<Pixel>` indexed
  `[x, y]`, with the fill and stamp loops that change it in place. The
  buffer's value is a grid `g[x][y]`. Pure functions on grids (`Blank`,
  `Stamped`, `Painted`, `Cleared`) specify the loops and carry the lemmas.
  A stamp is an ideal disc: pixel `(x, y)` is covered when its centre
  `(x + 0.5, y + 0.5)` is at most the radius away from the stamp's centre.
- `Selector` (`selector.dfy`): the component as a class. Its fields are
  `mode`, `isDrawing`, `selectedBox`, `brushSize`, `detections`, the image
  element's dimensions (`layout`) and the mask. There is one method per
  event handler. Four client methods at the end prove whole event
  sequences.

The model follows the code in three places where a reader might expect
otherwise:

- `mode` is a dependency of the component's effect (line 30). Changing mode
  therefore re-creates the mask all "keep", so painted strokes do not
  survive a switch to Auto and back. Setting the mode that is already
  current changes nothing, because React skips a state update to an equal
  value.
- Switching mode does not clear `selectedBox` or `isDrawing`.
- Submitting an all-"keep" mask emits it like any other mask.

A new image needs no method of its own. The application mounts the
component afresh for each uploaded image, and that mount is the
constructor.

## Model

| member | source | states |
|---|---|---|
| `Geometry.ScalesReciprocal` | frontend/src/components/ObjectSelector.jsx:128-129 | the natural/client scales used for the brush are positive, and each is the reciprocal of the client/natural scale used for detections (lines 40-41, 73-74) |
| `Geometry.DisplayImageRoundTrip` | frontend/src/components/ObjectSelector.jsx:128-133 | a display point mapped into mask coordinates and back to the display is the same point |
| `Geometry.ImageDisplayRoundTrip` | frontend/src/components/ObjectSelector.jsx:40-48 | an image point mapped to the display and back into image coordinates is the same point |
| `Geometry.InScaledBoxIff` | frontend/src/components/ObjectSelector.jsx:73-83 | the inclusive test against a box scaled to the display holds exactly when the image-space point lies in the unscaled box |
| `Geometry.MaskRadiusMatchesDisplay` | frontend/src/components/ObjectSelector.jsx:125-133 | the mask radius is brushSize/2 times the horizontal scale only; scaled back to the display it is the overlay radius brushSize/2 |
| `HitTest.FindHit` | frontend/src/components/ObjectSelector.jsx:76-95 | the result is the lowest index whose scaled box contains the click, all four edges inclusive, and no earlier box contains it; None exactly when no box contains it |
| `HitTest.FirstHitUnique` | frontend/src/components/ObjectSelector.jsx:76-94 | at most one answer meets the first-match condition, so the hit test is deterministic |
| `HitTest.OverlapPrefersLowerIndex` | frontend/src/components/ObjectSelector.jsx:76-94 | when two boxes both contain the click, the answer is never the later one |
| `HitTest.HitsIffImageContainment` | frontend/src/components/ObjectSelector.jsx:76-83 | a click hits a drawn detection exactly when the click in image coordinates lies in the detection's own box |
| `HitTest.HalfScaleExample` | frontend/src/components/ObjectSelector.jsx:73-83 | at 800x600 shown as 400x300, the box (100,100)-(300,300) is drawn at (50,50)-(150,150), and a click at (100,100) selects it |
| `Raster.Blank` | frontend/src/components/ObjectSelector.jsx:19-24 | the initial mask has naturalWidth columns of naturalHeight pixels, all "keep" |
| `Raster.Stamped` | frontend/src/components/ObjectSelector.jsx:130-134 | a stamp keeps the mask's dimensions |
| `Raster.StampChangesOnlyDisc` | frontend/src/components/ObjectSelector.jsx:130-134 | a stamp sets exactly the pixels inside the disc to "erase" and leaves every other pixel as it was |
| `Raster.StampIdempotent` | frontend/src/components/ObjectSelector.jsx:130-134 | stamping the same disc twice gives the same mask as stamping it once |
| `Raster.StampsCommute` | frontend/src/components/ObjectSelector.jsx:130-134 | two stamps give the same mask in either order |
| `Raster.PaintedKeepsShape` | frontend/src/components/ObjectSelector.jsx:98-107 | no stroke, however long, changes the mask's dimensions |
| `Raster.PaintedAt` | frontend/src/components/ObjectSelector.jsx:98-107 | after a stroke, a pixel is "erase" exactly when it already was or some stamp of the stroke covers it |
| `Raster.Cleared` | frontend/src/components/ObjectSelector.jsx:150-152 | the refill keeps the mask's dimensions and makes every pixel "keep" |
| `Raster.ClearAfterPaint` | frontend/src/components/ObjectSelector.jsx:143-153 | clearing after any stroke gives exactly the freshly initialised mask |
| `Raster.UnitScaleExample` | frontend/src/components/ObjectSelector.jsx:128-134 | on a 100x100 image shown at 100x100, a 20-pixel brush at display (50,50), mapped through the image scale and the X-scaled radius, erases pixels (50,50), (59,50) and (40,50) and keeps pixel (60,50) |
| `Raster.Contents` | frontend/src/components/ObjectSelector.jsx:139 | the mask's value has the buffer's dimensions and holds each of its pixels |
| `Raster.FillKeep` | frontend/src/components/ObjectSelector.jsx:22-24 | after the fill the buffer holds the all-"keep" mask of its own dimensions |
| `Raster.StampDisc` | frontend/src/components/ObjectSelector.jsx:130-134 | after the stamp the buffer holds the old contents stamped with the disc |
| `Selector.BrushDiscUnderPointer` | frontend/src/components/ObjectSelector.jsx:119-133 | the mask stamp's centre maps back to the pointer position, and its radius maps back to the display brush radius |
| `Selector.ObjectSelector.constructor` | frontend/src/components/ObjectSelector.jsx:7-30 | on mount: mode Auto, not drawing, nothing selected, brush 20, and a natural-size all-"keep" mask |
| `Selector.ObjectSelector.ReinitMask` | frontend/src/components/ObjectSelector.jsx:19-24 | the effect gives a fresh mask of natural size, all "keep" |
| `Selector.ObjectSelector.Load` | frontend/src/components/ObjectSelector.jsx:196-209 | on image load, the mask is re-created at the new natural size and is all "keep" |
| `Selector.ObjectSelector.Resize` | frontend/src/components/ObjectSelector.jsx:191-195 | a re-layout changes only the rendered size; the mask and its dimensions are untouched |
| `Selector.ObjectSelector.SetDetections` | frontend/src/components/ObjectSelector.jsx:12-30 | new detections re-run the effect: the mask is re-created all "keep" |
| `Selector.ObjectSelector.SetMode` | frontend/src/components/ObjectSelector.jsx:158-167 | the mode becomes the chosen one; an actual change re-creates the mask all "keep" (line 30), and re-selecting the current mode keeps it |
| `Selector.ObjectSelector.SetBrushSize` | frontend/src/components/ObjectSelector.jsx:175-182 | the brush size becomes the slider value in 5..50 |
| `Selector.ObjectSelector.Click` | frontend/src/components/ObjectSelector.jsx:65-96 | in manual mode nothing is emitted; in auto mode a hit selects the first containing detection and emits its unscaled box; without a hit, nothing is emitted and selectedBox is unchanged |
| `Selector.ObjectSelector.DrawBrush` | frontend/src/components/ObjectSelector.jsx:113-135 | the mask becomes its old contents stamped at the pointer mapped to image space, with the X-scaled radius |
| `Selector.ObjectSelector.MouseDown` | frontend/src/components/ObjectSelector.jsx:98-102 | in manual mode it sets isDrawing and applies exactly one stamp; in auto mode nothing changes |
| `Selector.ObjectSelector.MouseMove` | frontend/src/components/ObjectSelector.jsx:104-107 | it stamps once if the mode is manual and a stroke is in progress, and changes nothing otherwise |
| `Selector.ObjectSelector.MouseUp` | frontend/src/components/ObjectSelector.jsx:109-111 | the stroke ends (isDrawing is false) in either mode |
| `Selector.ObjectSelector.MouseLeave` | frontend/src/components/ObjectSelector.jsx:217-218 | leaving the canvas ends the stroke exactly as a release does |
| `Selector.ObjectSelector.ClearMask` | frontend/src/components/ObjectSelector.jsx:143-153 | the mask becomes the natural-size all-"keep" mask, the same as after load |
| `Selector.ObjectSelector.Submit` | frontend/src/components/ObjectSelector.jsx:137-141 | it emits one raster result holding the current mask, exactly naturalWidth x naturalHeight, with no emptiness check |
| `Selector.StrokeThenSubmit` | frontend/src/components/ObjectSelector.jsx:98-111 | press, drag and release followed by a move emit the blank mask painted with exactly the press and drag stamps; the move after the release paints nothing |
| `Selector.PaintThenClear` | frontend/src/components/ObjectSelector.jsx:143-153 | painting, leaving the canvas and clearing emit the same mask as a fresh mount |
| `Selector.ModeToggleDiscardsStrokes` | frontend/src/components/ObjectSelector.jsx:12-30 | painting, switching to auto and back to manual, then submitting emits the all-"keep" mask |
| `Selector.HalfScaleClick` | frontend/src/components/ObjectSelector.jsx:65-96 | on an 800x600 image shown as 400x300, a click at (100,100) emits the box (100,100,300,300) |

## Left out

- The visible overlay canvas is not modelled: box outlines, label chips, colours, fonts, confidence formatting, the translucent brush stamp (lines 122-126), the overlay's sizing and its `clearRect` (lines 17-18, 148, 198-199). Painting never reads it.
- Numbers are exact reals, not IEEE doubles, so rounding in `x1 * scaleX` and in the division scales is not modelled. The browser's anti-aliased rasterisation of `arc().fill()` is replaced by the ideal disc.
- `toDataURL('image/png')` is modelled as the mask's pixel grid. PNG encoding is an opaque serialisation.
- `onSelectionComplete` is modelled as the value a handler returns. Painting handlers return nothing, so they never emit.
- Selector.ObjectSelector.Click: in auto mode, requires the natural width and height to be positive, because the hit test divides by them (lines 73-74). With a zero natural dimension the code would compare against Infinity or NaN, which is not modelled. A click in manual mode returns before reading any dimension (line 66), so it has no such requirement. A zero client dimension is modelled: the scale is then 0.
- Selector.ObjectSelector.MouseDown: in manual mode, requires the client width and height to be positive, because the brush divides by them (lines 128-129). A press in auto mode returns first (line 99) and has no such requirement.
- Selector.ObjectSelector.MouseMove: requires positive client dimensions only when it stamps, that is in manual mode during a stroke (line 105). The division is at lines 128-129.
- Pointer positions are given in display coordinates. The `getBoundingClientRect` offset subtraction (lines 68-70, 117-120) is not modelled.
- React's asynchronous state updates are not modelled. Each handler sees the state left by the previous one. The `drawDetections()` call at line 85, which reads a stale `selectedBox`, only affects rendering.
- A `null` detections prop is not modelled; the model uses a sequence, empty when there are none.
- The brush size is a precondition in 5..50, the range of the slider. Clear, submit and the slider require manual mode, because their controls are rendered only in that mode (lines 171-187).
- frontend/src/App.jsx, backend/main.py, backend/ml_engine.py, frontend/src/components/ResultViewer.jsx and frontend/src/components/ImageUploader.jsx are not part of this model. They handle network calls, detection and inpainting, and page UI.
