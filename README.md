# BSVGView in Dafny

A model of `BSVGView`, the Haiku view that draws an SVG document parsed by
nanosvg. The model covers four parts of the view:

- **State.** The scale, offset, auto-scale flag, display mode and
  transparency flag, with their setters. `Invalidate()` is modelled as a
  redraw counter.
- **Auto-fit.** The fit-and-centre arithmetic of `_CalculateAutoScale`,
  `CenterImage` and `ActualSize`.
- **Drawing.** The pipeline from `Draw` through `_DrawShape` to
  `_ConvertPath`, `_ApplyFillPaint`, `_ApplyStrokePaint`, `_SetupGradient`,
  `_SetupStrokeStyle` and `_ConvertColor`.
- **Data.** The parsed document (`NSVGimage`, `NSVGshape`, `NSVGpath`,
  `NSVGpaint`, `NSVGgradient`) is a set of datatypes in module `NanoSvg`.
  Linked lists become sequences, and a pointer that may be NULL becomes an
  `Option`.

The drawing surface is abstract. Every BView call that `_DrawShape` and
the functions it calls make (`SetDrawingMode`, `SetHighColor`,
`SetPenSize`, `SetLineMode`, `FillShape`, `StrokeShape`) is appended to a
command log, `SvgView.log`. The calls of the transparency grid are not
logged (see "## Left out"). The BShape the
view builds is the class `Surface.ShapeBuilder`, and the native gradients
are values of `Surface.NativeGradient`.

The imperative code is class `SvgViewer.SvgView`. Its drawing methods are
proved against reference functions that describe the commands directly:

- `ShapeRender.ShapeCommands` and `ShapeRender.DrawCommands` for a shape
  and a shape list;
- `PathConversion.PathOps` for a path;
- `GradientSetup.BuildGradient` for a gradient.

The lemmas beside these functions state what the drawing code promises:

- which display modes fill and which stroke, in both directions;
- fills always come before strokes;
- the outline mode draws exactly one black one-pixel stroke;
- how many Bézier segments a path gives, and which points each one uses;
- a gradient's end points are the images of its axis under the inverse
  transform;
- at opacity 1, a colour with a non-zero alpha byte unpacks losslessly (a
  zero alpha byte comes back as 0xFF).

Floats are modelled as `real`. Integer widths are modelled exactly:

- a packed colour is a 32-bit `uint32`;
- a channel is a `byte`;
- the float-to-`uint8` cast of the alpha is an explicit truncation.

nanosvg's `NSVGgradient` transform is the 2x3 matrix `[a b c d e f]`, with
x' = a·x + c·y + e and y' = b·x + d·y + f, the convention of module
`Affine`.

The radial radius at BSVGView.cpp:401 appears to be computed from the
wrong entries of the inverse transform; see "## Findings". The model
computes the radius as the source does, and states the corrected radius
beside it.

## Model

| member | source | states |
|---|---|---|
| Colors.ConvertColor | BSVGView.cpp:422-439 | red, green and blue are bytes 0, 1 and 2 of the word, so the word is rebuilt from them and its top byte; the alpha is the top byte (0 read as 255) times the opacity, truncated, never above the source alpha, and the source alpha itself at opacity 1 |
| Colors.ScaleAlpha | BSVGView.cpp:436 | `(uint8)(alpha * opacity)`: the truncation of the product, between 0 and the alpha, and the alpha unchanged at opacity 1 |
| Colors.Shr | BSVGView.cpp:426-430 | the shifts by 8, 16 and 24 the unpacking uses are divisions by 2^8, 2^16 and 2^24 |
| Colors.ByteAt | BSVGView.cpp:426-430 | definition: `(x >> 8k) & 0xFF`, byte k of the word counting from the least significant |
| Colors.SourceAlpha | BSVGView.cpp:430-434 | definition: the top byte of the word, with a top byte of 0 read as 255 |
| Colors.ConvertColorRoundTrip | BSVGView.cpp:425-436 | at opacity 1 a colour with a non-zero alpha byte packs back to the same word |
| Colors.ConvertColorZeroAlpha | BSVGView.cpp:430-434 | at opacity 1 a colour with alpha byte 0 packs back to the same word with alpha 0xFF |
| Colors.WordBytes | BSVGView.cpp:426-430 | a 32-bit word is the sum of its four bytes, and its top byte is the word shifted right by 24 |
| Affine.Det | BSVGView.cpp:368 | definition: the determinant xform[0]·xform[3] − xform[2]·xform[1] of the gradient transform's linear part |
| Affine.Invert | BSVGView.cpp:374-380 | definition: the six inverse entries as the source computes them, each scaled by 1/det |
| Affine.InvertAfter | BSVGView.cpp:368-380 | the inverse computed entry by entry undoes the gradient transform on every point |
| Affine.InvertBefore | BSVGView.cpp:368-380 | the gradient transform undoes the computed inverse on every point |
| Affine.ComposeInverseIsIdentity | BSVGView.cpp:374-380 | the computed inverse composed with the transform, in either order, is the identity |
| Affine.InvertInvolutive | BSVGView.cpp:374-380 | the inverse has the reciprocal determinant, and inverting twice gives back the transform |
| Affine.Compose | BSVGView.cpp:374-380 | proof support: the composed transform maps every point as the two transforms do one after the other |
| Affine.ApplyDetermines | BSVGView.cpp:374-380 | proof support: two transforms that agree on every point are equal |
| StrokeStyle.CapFor | BSVGView.cpp:446-459 | each nanosvg cap code selects the cap of the same name; any other code keeps the butt cap |
| StrokeStyle.JoinFor | BSVGView.cpp:461-471 | each nanosvg join code selects the join of the same name; any other code keeps the miter join |
| StrokeStyle.StyleCodesRoundTrip | BSVGView.cpp:446-471 | every cap and join mode is selected by its own code |
| GradientSetup.ClampOffset | BSVGView.cpp:411-413 | the stop offset times 255, clamped into [0, 255]: unchanged inside, 0 below, 255 above |
| GradientSetup.StopColor | BSVGView.cpp:408-415 | definition: the colour stop added for one gradient stop, its colour at full opacity at the clamped offset |
| GradientSetup.Usable | BSVGView.cpp:358-372 | definition: the gradient is present, has stops and its determinant is at least 1e-6 in magnitude |
| GradientSetup.WrittenRadiusSquared | BSVGView.cpp:401 | definition: the squared radius as the source computes it, (xform[0]² + xform[3]²)·scale² with xform the inverse |
| GradientSetup.RadiusSquared | BSVGView.cpp:401 | definition: the corrected squared radius, (xform[0]² + xform[1]²)·scale², the squared length of the inverse's first column |
| GradientSetup.Geometry | BSVGView.cpp:382-404 | definition: a linear gradient from the view image of the inverse's translation to that point plus the inverse's second column, or a radial one centred on the translation with the squared radius of line 401, (xform[0]² + xform[3]²)·scale² with xform the inverse |
| GradientSetup.BuildGradient | BSVGView.cpp:355-420 | reference definition of what `_SetupGradient` hands back: none for an unusable gradient, otherwise the geometry with one colour stop per gradient stop, in order |
| GradientSetup.BuildGradientRejects | BSVGView.cpp:358-372 | no gradient exactly when it is missing, has no stops, or its determinant is below 1e-6 in magnitude |
| GradientSetup.BuildGradientColors | BSVGView.cpp:406-417 | one colour stop per gradient stop, in order, each the stop's colour at full opacity at the stop offset times 255 clamped into [0, 255] |
| GradientSetup.LinearEndpointsSpanAxis | BSVGView.cpp:382-397 | the gradient transform sends the view-to-document images of the linear gradient's start and end to (0, 0) and (0, 1) |
| GradientSetup.RadialCenterIsOrigin | BSVGView.cpp:398-403 | the gradient transform sends the document image of the radial centre to the origin; the squared radius is (inv[0]² + inv[3]²)·scale², as line 401 computes it |
| GradientSetup.RadiusReachesUnitPoint | BSVGView.cpp:398-403 | the corrected radius: the circle about the view image of the inverse's translation with squared radius `RadiusSquared` passes through the view image of the document point the gradient transform sends to (1, 0) |
| GradientSetup.RadialRadiusOfCircle | BSVGView.cpp:401 | for a circle gradient of radius 1/k the corrected squared radius is (1/k)²·scale², and the one as written is twice that |
| GradientSetup.UnitCircleRadius | BSVGView.cpp:401 | for a unit circle centred anywhere (the identity transform when centred at the origin) at view scale 1, the corrected squared radius is 1 and the one as written is 2 |
| GradientSetup.UnmapMap | BSVGView.cpp:392-400 | proof support: mapping a document point to the view and back gives the point again |
| ViewGeometry.ViewTransform.Map | BSVGView.cpp:288-289 | definition: `p · fScale + fOffset`, the map every coordinate the view emits goes through (the path points, and the gradient points at 392-395 and 399-400) |
| ViewGeometry.ViewTransform.Unmap | BSVGView.cpp:288-289 | the view map sends the unmapped point to the given view point |
| ViewGeometry.AvailableArea | BSVGView.cpp:486-494 | the bounds less 10 on each side, or the whole bounds exactly when the padding leaves no room; positive and within the bounds |
| ViewGeometry.FitScale | BSVGView.cpp:496-499 | positive, the document fits the available area in both directions and fills it in at least one |
| ViewGeometry.FitScaleIsLargest | BSVGView.cpp:496-499 | no scale that fits the available area is larger than the chosen one |
| ViewGeometry.CenterOffset | BSVGView.cpp:504-505 | the offset that puts the middle of the scaled extent at the middle of the bounds, with equal margins on both sides |
| ViewGeometry.FittedInside | BSVGView.cpp:486-505 | after auto-fit the document lies inside the bounds, and at least 10 from every edge when the bounds exceed 20 in both directions |
| PathConversion.PointAt | BSVGView.cpp:288-299 | definition: point j of a path is the coordinates pts[2j] and pts[2j + 1] |
| PathConversion.CurveCount | BSVGView.cpp:292-293 | definition: the number of complete triples the loop `i = 1, 4, 7, …` with `i + 2 < npts` visits, (npts − 1)/3, and none under two points |
| PathConversion.Curve | BSVGView.cpp:294-301 | definition: segment k is the BezierTo through points 3k + 1, 3k + 2 and 3k + 3, each mapped by the view |
| PathConversion.PathOps | BSVGView.cpp:283-307 | reference definition of what `_ConvertPath` appends: nothing under two points, otherwise a MoveTo to point 0, a BezierTo through points 3k+1, 3k+2 and 3k+3 for each complete triple, and a Close when closed, every point mapped by the view |
| PathConversion.ShapeOps | BSVGView.cpp:234-236 | reference definition: the operations of a shape's paths, in path order |
| PathConversion.ShapeOpsSnoc | BSVGView.cpp:234-236 | converting one more path appends exactly that path's operations |
| PathConversion.PathOpsLayout | BSVGView.cpp:283-307 | nothing for a path under two points; otherwise 1 + (npts-1)/3 operations (+1 when closed), the first the MoveTo to point 0 mapped by the view, the last a Close exactly when the path is closed |
| PathConversion.PathOpsCurveAt | BSVGView.cpp:292-303 | segment k reads coordinates below 2·npts only and is the BezierTo through points 3k+1, 3k+2 and 3k+3, each mapped by the view |
| PathConversion.PathOpsCurveCount | BSVGView.cpp:292-303 | exactly (npts-1)/3 of a path's operations are BezierTo: a trailing incomplete triple is dropped |
| ShapeRender.DrawsFill | BSVGView.cpp:238 | definition: `drawFill`, the mode is normal or fill-only |
| ShapeRender.DrawsStroke | BSVGView.cpp:239 | definition: `drawStroke`, the mode is normal or stroke-only |
| ShapeRender.VisibleShapeCommands | BSVGView.cpp:113-114 | definition: a shape's commands when it has the visible flag, nothing otherwise |
| ShapeRender.FirstStopColor | BSVGView.cpp:342-345 | definition: setting the colour of a gradient's first stop at the shape's opacity, or nothing when the gradient is missing or has no stops |
| ShapeRender.FillDrawn | BSVGView.cpp:238-249 | definition: the fill block runs when the mode is normal or fill-only and the fill paint is not none |
| ShapeRender.StrokeDrawn | BSVGView.cpp:267 | definition: the stroke block runs when the mode is normal or stroke-only, the stroke paint is not none and the width is positive |
| ShapeRender.FillCall | BSVGView.cpp:252-264 | definition: a gradient fill with the native gradient when the fill is a gradient and one can be built, a plain fill otherwise |
| ShapeRender.FillCommands | BSVGView.cpp:249-265 | definition of the fill block: when the fill is drawn, the fill paint's calls and then the fill call; nothing otherwise |
| ShapeRender.GradientStrokeColor | BSVGView.cpp:271-277 | definition: for a gradient stroke, the first stop's colour set again; nothing for any other paint |
| ShapeRender.StrokeCommands | BSVGView.cpp:267-279 | definition of the stroke block: when the stroke is drawn, the stroke paint's calls, the style, the gradient's first stop colour again and the stroke; nothing otherwise |
| ShapeRender.FillPaintCommands | BSVGView.cpp:310-325 | reference definition of `_ApplyFillPaint`'s calls: the converted colour for a flat colour, nothing for any other paint |
| ShapeRender.StrokePaintCommands | BSVGView.cpp:328-353 | reference definition of `_ApplyStrokePaint`'s calls: the flat colour, the gradient's first stop colour when it has stops, or the panel text colour |
| ShapeRender.StrokeStyleCommands | BSVGView.cpp:442-474 | reference definition of `_SetupStrokeStyle`'s calls: pen size and miter limit scaled by the view, cap and join from the shape's codes |
| ShapeRender.ShapeCommands | BSVGView.cpp:225-280 | reference definition of `_DrawShape`'s calls: the alpha mode, then the black one-pixel outline, or the fill block followed by the stroke block |
| ShapeRender.DrawCommands | BSVGView.cpp:112-116 | reference definition of `Draw`'s calls: the commands of every visible shape, in list order |
| ShapeRender.OutlineModeCommands | BSVGView.cpp:242-247 | in outline mode a shape gets the alpha mode, black, pen size 1 and one stroke of its outline, and is never filled |
| ShapeRender.OutlineCommandsNoFill | BSVGView.cpp:242-247 | proof support: the outline commands hold no fill |
| ShapeRender.FillEmittedIff | BSVGView.cpp:238-265 | a shape is filled exactly when the mode is normal or fill-only and its fill paint is not none |
| ShapeRender.StrokeEmittedIff | BSVGView.cpp:239-279 | outside outline mode a shape is stroked exactly when the mode is normal or stroke-only, its stroke paint is not none and its width is positive |
| ShapeRender.PartKinds | BSVGView.cpp:249-279 | the fill block never strokes and the stroke block never fills; the stroke block ends in the stroke when it runs |
| ShapeRender.PaintCommandsSetupOnly | BSVGView.cpp:309-353 | the paint and stroke-style calls neither fill nor stroke |
| ShapeRender.ShapeCommandsParts | BSVGView.cpp:232-279 | proof support, an unfolding of `ShapeCommands`: outside outline mode a shape's commands are the alpha mode, then the fill block, then the stroke block |
| ShapeRender.FillBeforeStroke | BSVGView.cpp:249-279 | every fill call of a shape comes before every stroke call |
| ShapeRender.GradientStrokeUsesFirstStop | BSVGView.cpp:271-278 | a drawn gradient stroke with stops is drawn right after the first stop's colour is set |
| ShapeRender.GradientStrokeBlockEnd | BSVGView.cpp:271-278 | proof support: a drawn gradient stroke block with stops ends in the first stop's colour and then the stroke |
| ShapeRender.FlatFillUsesPaintColor | BSVGView.cpp:313-318 | a drawn flat-colour fill follows the shape's colour with its alpha scaled by the shape opacity |
| ShapeRender.DrawCommandsSnoc | BSVGView.cpp:112-116 | drawing one more shape appends that shape's commands, or nothing when it is hidden |
| ShapeRender.HiddenShapesDrawNothing | BSVGView.cpp:113 | a list of shapes without the visible flag draws nothing |
| ShapeRender.ZeroWidthNeverStroked | BSVGView.cpp:267 | shapes whose stroke widths are all zero or less are never stroked outside outline mode |
| ShapeRender.ConcatKinds | BSVGView.cpp:249-279 | proof support: a command list fills (strokes) exactly when one of its two parts does |
| ShapeRender.FillsThenStrokes | BSVGView.cpp:249-279 | proof support: after a setup-only prefix, a part that never strokes and a part that never fills, every fill precedes every stroke |
| ShapeRender.ConcatNoStroke | BSVGView.cpp:112-116 | proof support: concatenated shape command lists, none of which strokes, never stroke |
| ShapeRender.ConcatEmpty | BSVGView.cpp:112-116 | proof support: concatenated empty command lists are empty |
| Surface.ShapeBuilder.MoveTo | BSVGView.cpp:290 | BShape::MoveTo appends one MoveTo to the shape's operations and changes nothing else |
| Surface.ShapeBuilder.BezierTo | BSVGView.cpp:301 | BShape::BezierTo appends one BezierTo with the two control points and the end point |
| Surface.ShapeBuilder.Close | BSVGView.cpp:306 | BShape::Close appends one Close |
| Surface.NativeGradient.AddColor | BSVGView.cpp:415 | AddColor appends one colour stop and keeps the gradient's kind and geometry |
| SvgViewer.SvgView.constructor | BSVGView.cpp:15-25 | scale 1, offset (0, 0), auto-scale on, normal mode, transparency grid on, the given frame and document, nothing drawn |
| SvgViewer.SvgView.SetScale | BSVGView.cpp:137-144 | a positive scale is taken with one redraw; any other leaves scale and redraw count unchanged |
| SvgViewer.SvgView.SetOffset | BSVGView.cpp:146-152 | the offset becomes the point, with one redraw |
| SvgViewer.SvgView.SetAutoScale | BSVGView.cpp:154-162 | the flag is set; enabling it with a document re-fits and redraws once, otherwise scale, offset and redraw count are unchanged |
| SvgViewer.SvgView.FitToWindow | BSVGView.cpp:164-172 | with a document auto-scale is turned on, the view re-fits and redraws once; without one nothing changes |
| SvgViewer.SvgView.CenterImage | BSVGView.cpp:174-188 | with a document the offsets put the middle of the scaled document at the middle of the bounds, with one redraw; without one nothing changes |
| SvgViewer.SvgView.ActualSize | BSVGView.cpp:190-198 | with a document auto-scale is off, the scale is 1 and the document is centred, with one redraw; without one nothing changes |
| SvgViewer.SvgView.SetDisplayMode | BSVGView.cpp:200-207 | the mode is set, with a redraw exactly when it changed |
| SvgViewer.SvgView.SetShowTransparency | BSVGView.cpp:209-216 | the flag is set, with a redraw exactly when it changed |
| SvgViewer.SvgView.Invalidate | BSVGView.cpp:133 | `Invalidate()` as a redraw counter: one more redraw, nothing else changes |
| SvgViewer.SvgView.AttachedToWindow | BSVGView.cpp:120-125 | an auto-scaled document is re-fitted to the bounds, without a redraw; otherwise nothing changes |
| SvgViewer.SvgView.FrameResized | BSVGView.cpp:127-134 | the bounds become the new frame; an auto-scaled document is re-fitted to them with one redraw; otherwise scale, offsets and redraw count are unchanged |
| SvgViewer.SvgView.CanFit | BSVGView.cpp:479-484 | definition: there is a document and the bounds are valid with positive width and height |
| SvgViewer.SvgView.Fitted | BSVGView.cpp:476-506 | definition of the state `_CalculateAutoScale` leaves: the old scale and offsets when there is no document or no non-empty bounds, otherwise the best-fit scale for the available area and the centring offsets |
| SvgViewer.SvgView.CalculateAutoScale | BSVGView.cpp:476-506 | without a document or with empty or invalid bounds nothing changes; otherwise the scale is the best fit for the available area and the document is centred in the bounds |
| SvgViewer.SvgView.Draw | BSVGView.cpp:99-119 | appends the commands of every visible shape, in list order; nothing without a document |
| SvgViewer.SvgView.DrawShape | BSVGView.cpp:224-280 | appends the shape's commands: alpha mode, then the black outline or the fill block followed by the stroke block; nothing for a missing shape |
| SvgViewer.SvgView.DrawFill | BSVGView.cpp:249-265 | appends the fill paint and the fill, with the native gradient when one can be built, exactly when the fill is drawn |
| SvgViewer.SvgView.DrawStroke | BSVGView.cpp:267-279 | appends the stroke paint, the style, the first stop colour again for a gradient, and the stroke, exactly when the stroke is drawn |
| SvgViewer.SvgView.ConvertPath | BSVGView.cpp:282-307 | appends the path's reference operations to the shape; nothing for a missing path |
| SvgViewer.SvgView.ApplyFillPaint | BSVGView.cpp:309-325 | sets the high colour for a flat colour and nothing for any other paint |
| SvgViewer.SvgView.ApplyStrokePaint | BSVGView.cpp:327-353 | sets the flat colour, the gradient's first stop colour when it has stops, or the panel text colour for any other paint type |
| SvgViewer.SvgView.SetupGradient | BSVGView.cpp:355-420 | returns the reference gradient for the current view transform, so the rejections, geometry, radius as line 401 computes it and colour stops above hold for it |
| SvgViewer.SvgView.SetDrawingMode | BSVGView.cpp:232 | `SetDrawingMode(B_OP_ALPHA)`: appends the alpha-mode call to the log |
| SvgViewer.SvgView.SetHighColor | BSVGView.cpp:318 | `SetHighColor`: appends the colour call to the log |
| SvgViewer.SvgView.SetPenSize | BSVGView.cpp:244 | `SetPenSize`: appends the pen-size call to the log |
| SvgViewer.SvgView.SetLineMode | BSVGView.cpp:473 | `SetLineMode`: appends the cap, join and miter-limit call to the log |
| SvgViewer.SvgView.FillShape | BSVGView.cpp:263 | `FillShape(&bShape)`: appends a plain fill of the shape's operations |
| SvgViewer.SvgView.FillShapeGradient | BSVGView.cpp:257 | `FillShape(&bShape, *gradient)`: appends a gradient fill of the shape's operations |
| SvgViewer.SvgView.StrokeShape | BSVGView.cpp:278 | `StrokeShape(&bShape)`: appends a stroke of the shape's operations |
| SvgViewer.SvgView.SetupStrokeStyle | BSVGView.cpp:441-474 | sets the pen size and miter limit scaled by the view, with the cap and join the shape's codes select |

## Left out

- Loading and unloading (`LoadFromFile`, `LoadFromMemory`, `Unload`, the destructor) and the nanosvg parser: the document is a constructor parameter, already parsed.
- The name-only constructor (BSVGView.cpp:27-37): it sets the same initial state as the modelled one.
- `SVGBounds`: a query the drawing code does not use.
- `FrameResized`'s `newWidth` and `newHeight` arguments: the source never reads them; the model's `FrameResized` takes the new frame the window system has already given the view.
- `PushState`, `PopState` and the clipping region: drawing state the model does not track.
- `_DrawTransparencyGrid` (BSVGView.cpp:508-525): its `SetHighColor` and `FillRect` calls are not logged, so `showTransparency` is kept but draws nothing. The grid's last grey is still the high colour when the first visible shape draws. A fill that sets no colour (a gradient fill without a usable gradient, or an unknown paint) or a gradient stroke without stops is drawn in that grey, and the log does not show it.
- Rasterisation: the BView and BShape calls are recorded in a log, not executed.
- `Invalidate()` is a redraw counter.
- `ui_color(B_PANEL_TEXT_COLOR)` is a constant given to the constructor.
- Float rounding: the model computes in exact reals. This affects the double-precision determinant and inverse, the `(float)` casts and the scale arithmetic.
- `sqrtf` in the radial radius: the model keeps the radius squared.
- The `bounds` argument of `_SetupGradient`: the function never reads it.
- The gradient spread mode and focal point: the view never reads them.
- `_SetupGradient`'s NULL `outGradient` guard: every caller passes an address.
- The branch where `_SetupGradient` gets an unknown `gradientType`: `_DrawShape` only calls it on a linear or radial fill, so `GradientKind` has those two cases.
- Documents of zero width or height: in C++ floats a zero extent makes its scale ratio +inf, which the `min` at BSVGView.cpp:499 then passes over. The model has no infinity, so `Image.WellFormed` excludes these documents, and through `SvgView.Valid()` they are excluded everywhere: from drawing and every setter, not only from the auto-fit.
- The header `BSVGView.h` disagrees with the `.cpp`, and the model follows the `.cpp`. The header's inline `SVGBounds` (BSVGView.h:41) has its condition inverted: it returns an empty rectangle when a document is loaded and dereferences NULL when none is, unlike BSVGView.cpp:219-222. The header also lacks the `fDisplayMode` and `fShowTransparency` fields and does not declare `SetDisplayMode`, `SetShowTransparency` or `_DrawTransparencyGrid`.
- SvgViewer.SvgView.ApplyFillPaint: requires an opacity in [0, 1], the range nanosvg's parser produces; a float outside it would make the `(uint8)` cast undefined in C++.
- SvgViewer.SvgView.ApplyStrokePaint: requires an opacity in [0, 1], for the same reason.
- Colors.ConvertColor: requires an opacity in [0, 1], for the same reason.
- SvgViewer.SvgView.DrawFill and SvgViewer.SvgView.DrawStroke split the body of `_DrawShape` into its fill block and its stroke block; `DrawShape` calls them in the source's order.

## Findings

| source | as written | input that shows it | evidently intended | confidence | as-written member | corrected member |
|---|---|---|---|---|---|---|
| BSVGView.cpp:401 | the radius is `sqrtf(xform[0]² + xform[3]²)·scale`, with `xform` the inverse gradient transform: its two diagonal entries | a radial gradient that is the unit circle at the origin (gradient transform the identity) at view scale 1: the radius comes out √2 instead of 1; for a circle of radius 1/k it is √2/k | the length of the inverse's first column, `sqrtf(xform[0]² + xform[1]²)·scale`, the distance from the centre to the image of the gradient point (1, 0) | medium, not executed | GradientSetup.RadialRadiusOfCircle | GradientSetup.RadiusReachesUnitPoint |
