/** BSVGView: the view's state (scale, offset, auto-scale flag, display
    mode), its setters and fit-to-bounds arithmetic, and the drawing code
    that turns the parsed shapes into calls on the surface, recorded in
    the command log `log`. */
module SvgViewer {
  import opened Wrappers
  import opened Affine
  import opened Colors
  import opened NanoSvg
  import opened Surface
  import opened ViewGeometry
  import opened PathConversion
  import opened StrokeStyle
  import opened GradientSetup
  import opened ShapeRender

  class SvgView {
    /** fSVGImage: the parsed document, if any. */
    var image: Option<Image>
    var scale: real
    var offsetX: real
    var offsetY: real
    var autoScale: bool
    var displayMode: DisplayMode
    var showTransparency: bool
    /** Bounds(): the view's own rectangle, set by the window system. */
    var bounds: Rect
    /** How many times Invalidate() has been called. */
    var invalidations: nat
    /** The drawing calls made on the surface, oldest first. */
    var log: seq<Command>
    /** ui_color(B_PANEL_TEXT_COLOR), fixed by the system theme. */
    const panelTextColor: RgbColor

    /** The scale stays positive and the document is one the parser can produce. */
    ghost predicate Valid()
      reads this
    {
      scale > 0.0 && (image.Some? ==> image.value.WellFormed())
    }

    /** The map from document to view coordinates. */
    function Transform(): ViewTransform
      reads this
    {
      ViewTransform(scale, offsetX, offsetY)
    }

    /** BSVGView.cpp:15-25 with an already-parsed document attached. */
    constructor(frame: Rect, parsed: Option<Image>, panelText: RgbColor)
      requires parsed.Some? ==> parsed.value.WellFormed()
      ensures Valid()
      ensures image == parsed && bounds == frame && panelTextColor == panelText
      ensures scale == 1.0 && offsetX == 0.0 && offsetY == 0.0
      ensures autoScale && displayMode == Normal && showTransparency
      ensures invalidations == 0 && log == []
    {
      image := parsed;
      scale := 1.0;
      offsetX := 0.0;
      offsetY := 0.0;
      autoScale := true;
      displayMode := Normal;
      showTransparency := true;
      bounds := frame;
      invalidations := 0;
      log := [];
      panelTextColor := panelText;
    }

    method Invalidate()
      modifies this`invalidations
      ensures invalidations == old(invalidations) + 1
    {
      invalidations := invalidations + 1;
    }

    /** BSVGView.cpp:137-144: a positive scale is taken and redraws; any
        other is ignored. */
    method SetScale(s: real)
      requires Valid()
      modifies this`scale, this`invalidations
      ensures Valid()
      ensures s > 0.0 ==> scale == s && invalidations == old(invalidations) + 1
      ensures s <= 0.0 ==> scale == old(scale) && invalidations == old(invalidations)
    {
      if s > 0.0 {
        scale := s;
        Invalidate();
      }
    }

    /** BSVGView.cpp:146-152. */
    method SetOffset(point: Point)
      requires Valid()
      modifies this`offsetX, this`offsetY, this`invalidations
      ensures Valid()
      ensures offsetX == point.x && offsetY == point.y
      ensures invalidations == old(invalidations) + 1
    {
      offsetX := point.x;
      offsetY := point.y;
      Invalidate();
    }

    /** BSVGView.cpp:154-162. */
    method SetAutoScale(enable: bool)
      requires Valid()
      modifies this`autoScale, this`scale, this`offsetX, this`offsetY, this`invalidations
      ensures Valid()
      ensures autoScale == enable
      ensures enable && image.Some? ==>
        Fitted(old(scale), old(offsetX), old(offsetY)) && invalidations == old(invalidations) + 1
      ensures !(enable && image.Some?) ==>
        scale == old(scale) && offsetX == old(offsetX) && offsetY == old(offsetY) && invalidations == old(invalidations)
    {
      autoScale := enable;
      if enable && image.Some? {
        CalculateAutoScale();
        Invalidate();
      }
    }

    /** BSVGView.cpp:164-172. */
    method FitToWindow()
      requires Valid()
      modifies this`autoScale, this`scale, this`offsetX, this`offsetY, this`invalidations
      ensures Valid()
      ensures image.Some? ==>
        autoScale && Fitted(old(scale), old(offsetX), old(offsetY)) && invalidations == old(invalidations) + 1
      ensures image.None? ==>
        autoScale == old(autoScale) && scale == old(scale) && offsetX == old(offsetX) && offsetY == old(offsetY)
        && invalidations == old(invalidations)
    {
      if image.Some? {
        autoScale := true;
        CalculateAutoScale();
        Invalidate();
      }
    }

    /** BSVGView.cpp:120-125: on attaching to a window an auto-scaled
        document is re-fitted, without a redraw. */
    method AttachedToWindow()
      requires Valid()
      modifies this`scale, this`offsetX, this`offsetY
      ensures Valid()
      ensures autoScale && image.Some? ==> Fitted(old(scale), old(offsetX), old(offsetY))
      ensures !(autoScale && image.Some?) ==>
        scale == old(scale) && offsetX == old(offsetX) && offsetY == old(offsetY)
    {
      if autoScale && image.Some? {
        CalculateAutoScale();
      }
    }

    /** BSVGView.cpp:127-134: the window system gives the view its new
        frame before calling the hook, so the model takes the new bounds and
        sets them first; an auto-scaled document is then re-fitted to them
        and redrawn.  The width and height the hook receives are not read. */
    method FrameResized(newBounds: Rect)
      requires Valid()
      modifies this`bounds, this`scale, this`offsetX, this`offsetY, this`invalidations
      ensures Valid() && bounds == newBounds
      ensures autoScale && image.Some? ==>
        Fitted(old(scale), old(offsetX), old(offsetY)) && invalidations == old(invalidations) + 1
      ensures !(autoScale && image.Some?) ==>
        scale == old(scale) && offsetX == old(offsetX) && offsetY == old(offsetY)
        && invalidations == old(invalidations)
    {
      bounds := newBounds;
      if autoScale && image.Some? {
        CalculateAutoScale();
        Invalidate();
      }
    }

    /** BSVGView.cpp:174-188: with a document, the offset that puts the
        scaled document in the middle of the bounds, then a redraw. */
    method CenterImage()
      requires Valid()
      modifies this`offsetX, this`offsetY, this`invalidations
      ensures Valid()
      ensures image.None? ==>
        offsetX == old(offsetX) && offsetY == old(offsetY) && invalidations == old(invalidations)
      ensures image.Some? ==>
        && offsetX == CenterOffset(bounds.Width(), image.value.width * scale)
        && offsetY == CenterOffset(bounds.Height(), image.value.height * scale)
        && offsetX + image.value.width * scale / 2.0 == bounds.Width() / 2.0
        && offsetY + image.value.height * scale / 2.0 == bounds.Height() / 2.0
        && invalidations == old(invalidations) + 1
    {
      if image.None? {
        return;
      }
      var scaledWidth := image.value.width * scale;
      var scaledHeight := image.value.height * scale;
      offsetX := (bounds.Width() - scaledWidth) / 2.0;
      offsetY := (bounds.Height() - scaledHeight) / 2.0;
      Invalidate();
    }

    /** BSVGView.cpp:190-198: with a document, leave auto-scaling, show it
        at scale 1 and centre it. */
    method ActualSize()
      requires Valid()
      modifies this`autoScale, this`scale, this`offsetX, this`offsetY, this`invalidations
      ensures Valid()
      ensures image.None? ==>
        && autoScale == old(autoScale) && scale == old(scale)
        && offsetX == old(offsetX) && offsetY == old(offsetY) && invalidations == old(invalidations)
      ensures image.Some? ==>
        && !autoScale && scale == 1.0
        && offsetX == CenterOffset(bounds.Width(), image.value.width)
        && offsetY == CenterOffset(bounds.Height(), image.value.height)
        && invalidations == old(invalidations) + 1
    {
      if image.Some? {
        autoScale := false;
        scale := 1.0;
        CenterImage();
      }
    }

    /** BSVGView.cpp:200-207: a change of mode redraws; the same mode is ignored. */
    method SetDisplayMode(mode: DisplayMode)
      requires Valid()
      modifies this`displayMode, this`invalidations
      ensures Valid()
      ensures displayMode == mode
      ensures invalidations == old(invalidations) + (if old(displayMode) == mode then 0 else 1)
    {
      if displayMode != mode {
        displayMode := mode;
        Invalidate();
      }
    }

    /** BSVGView.cpp:209-216. */
    method SetShowTransparency(show: bool)
      requires Valid()
      modifies this`showTransparency, this`invalidations
      ensures Valid()
      ensures showTransparency == show
      ensures invalidations == old(invalidations) + (if old(showTransparency) == show then 0 else 1)
    {
      if showTransparency != show {
        showTransparency := show;
        Invalidate();
      }
    }

    /** Whether _CalculateAutoScale has something to fit: a document and
        non-empty bounds (BSVGView.cpp:478-484). */
    predicate CanFit()
      reads this
    {
      image.Some? && bounds.IsValid() && bounds.Width() > 0.0 && bounds.Height() > 0.0
    }

    /** The state _CalculateAutoScale leaves, given the scale and offsets
        it started from: unchanged when there is nothing to fit, otherwise
        the best-fit scale for the available area with the document centred
        in the bounds. */
    ghost predicate Fitted(oldScale: real, oldOffsetX: real, oldOffsetY: real)
      reads this
    {
      if !CanFit() || !image.value.WellFormed() then
        scale == oldScale && offsetX == oldOffsetX && offsetY == oldOffsetY
      else
        var area := AvailableArea(bounds.Width(), bounds.Height());
        && scale == FitScale(area.0, area.1, image.value.width, image.value.height)
        && offsetX == CenterOffset(bounds.Width(), image.value.width * scale)
        && offsetY == CenterOffset(bounds.Height(), image.value.height * scale)
    }

    /** BSVGView.cpp:476-506: fit the document into the bounds less the
        padding (or the whole bounds when the padding leaves nothing) and
        centre it; ViewGeometry.FittedInside says where the document then lies. */
    method CalculateAutoScale()
      requires Valid()
      modifies this`scale, this`offsetX, this`offsetY
      ensures Valid()
      ensures Fitted(old(scale), old(offsetX), old(offsetY))
    {
      if image.None? {
        return;
      }
      var b := bounds;
      if !b.IsValid() || b.Width() <= 0.0 || b.Height() <= 0.0 {
        return;
      }
      var area := AvailableArea(b.Width(), b.Height());
      var availableWidth := area.0;
      var availableHeight := area.1;
      var img := image.value;
      var fit := FitScale(availableWidth, availableHeight, img.width, img.height);
      var scaledWidth := img.width * fit;
      var scaledHeight := img.height * fit;
      var x := CenterOffset(b.Width(), scaledWidth);
      var y := CenterOffset(b.Height(), scaledHeight);
      scale := fit;
      offsetX := x;
      offsetY := y;
      assert image.value == img && bounds == b && scale == fit;
    }

    /** BSVGView.cpp:99-119 without the state push, clipping and
        transparency grid: every visible shape is drawn, in list order. */
    method Draw()
      requires Valid()
      modifies this`log
      ensures Valid()
      ensures image.None? ==> log == old(log)
      ensures image.Some? ==>
        log == old(log) + DrawCommands(image.value.shapes, displayMode, Transform(), panelTextColor)
    {
      if image.None? {
        return;
      }
      var shapes := image.value.shapes;
      var i := 0;
      while i < |shapes|
        invariant 0 <= i <= |shapes|
        invariant AllWellFormed(shapes[..i])
        invariant log == old(log) + DrawCommands(shapes[..i], displayMode, Transform(), panelTextColor)
      {
        var shape := shapes[i];
        ghost var before := log;
        ghost var v := VisibleShapeCommands(shape, displayMode, Transform(), panelTextColor);
        if shape.flags & FlagsVisible != 0 {
          DrawShape(Some(shape));
        } else {
          assert v == [];
          assert log == before + v;
        }
        DrawCommandsSnoc(shapes[..i], shape, displayMode, Transform(), panelTextColor);
        assert shapes[..i + 1] == shapes[..i] + [shape];
        LogRegroup(old(log), DrawCommands(shapes[..i], displayMode, Transform(), panelTextColor), v);
        i := i + 1;
      }
      assert shapes[..i] == shapes;
    }

    /** BSVGView.cpp:224-280: build the shape's outline, then stroke it in
        black for outline mode, or fill and stroke it as the mode and the
        paints say. */
    method DrawShape(shape: Option<Shape>)
      requires Valid() && (shape.Some? ==> shape.value.WellFormed())
      modifies this`log
      ensures Valid()
      ensures shape.None? ==> log == old(log)
      ensures shape.Some? ==> log == old(log) + ShapeCommands(shape.value, displayMode, Transform(), panelTextColor)
    {
      if shape.None? {
        return;
      }
      var s := shape.value;
      ghost var t := Transform();
      var bShape := new ShapeBuilder();
      SetDrawingMode();
      var i := 0;
      while i < |s.paths|
        invariant 0 <= i <= |s.paths|
        invariant bShape.ops == ShapeOps(s.paths[..i], t)
        invariant log == old(log) + [SetDrawingModeAlpha]
      {
        ShapeOpsSnoc(s.paths, i, t);
        ConvertPath(Some(s.paths[i]), bShape);
        i := i + 1;
      }
      assert s.paths[..i] == s.paths;
      var ops := bShape.ops;

      if displayMode == Outline {
        ghost var outline := [Command.SetHighColor(Black), Command.SetPenSize(1.0), Command.StrokeShape(ops)];
        SetHighColor(Black);
        SetPenSize(1.0);
        StrokeShape(ops);
        assert log == old(log) + [SetDrawingModeAlpha] + outline;
        OutlineModeCommands(s, t, panelTextColor);
        LogRegroup(old(log), [SetDrawingModeAlpha], outline);
        return;
      }
      ghost var f := FillCommands(s, displayMode, ops, t);
      ghost var k := StrokeCommands(s, displayMode, ops, t, panelTextColor);
      DrawFill(s, ops);
      DrawStroke(s, ops);
      ShapeCommandsParts(s, displayMode, t, panelTextColor);
      LogAssoc(old(log), [SetDrawingModeAlpha], f, k);
      assert Transform() == t;
    }

    /** The fill block of _DrawShape (BSVGView.cpp:238, 249-265): when the
        mode draws fills and the fill paint is not none, apply the paint and
        fill, with the native gradient when one can be built. */
    method DrawFill(s: Shape, ops: seq<ShapeOp>)
      requires s.WellFormed()
      modifies this`log
      ensures log == old(log) + FillCommands(s, displayMode, ops, Transform())
    {
      var drawFill := displayMode == Normal || displayMode == FillOnly;
      if drawFill && !s.fill.NoPaint? {
        ApplyFillPaint(Some(s.fill), s.opacity);
        if s.fill.LinearGradientPaint? || s.fill.RadialGradientPaint? {
          var kind := if s.fill.LinearGradientPaint? then LinearKind else RadialKind;
          var gradient := SetupGradient(s.fill.gradient, kind);
          if gradient.Some? {
            FillShapeGradient(ops, gradient.value);
          } else {
            FillShape(ops);
          }
        } else {
          FillShape(ops);
        }
      }
    }

    /** The stroke block of _DrawShape (BSVGView.cpp:239, 267-279): when the
        mode draws strokes, the stroke paint is not none and the width is
        positive, apply the paint and the style, set a gradient's first
        stop colour once more, and stroke. */
    method DrawStroke(s: Shape, ops: seq<ShapeOp>)
      requires s.WellFormed()
      modifies this`log
      ensures log == old(log) + StrokeCommands(s, displayMode, ops, Transform(), panelTextColor)
    {
      var drawStroke := displayMode == Normal || displayMode == StrokeOnly;
      if drawStroke && !s.stroke.NoPaint? && s.strokeWidth > 0.0 {
        ApplyStrokePaint(Some(s.stroke), s.opacity);
        SetupStrokeStyle(s);
        if s.stroke.LinearGradientPaint? || s.stroke.RadialGradientPaint? {
          if s.stroke.gradient.Some? && |s.stroke.gradient.value.stops| > 0 {
            var color := ConvertColor(s.stroke.gradient.value.stops[0].color, s.opacity);
            SetHighColor(color);
          }
        }
        StrokeShape(ops);
      }
    }

    /** BSVGView.cpp:282-307: append a MoveTo at point 0, one BezierTo per
        complete triple of further points and a Close for a closed path;
        nothing for a missing path or one under two points. */
    method ConvertPath(path: Option<Path>, shape: ShapeBuilder)
      requires path.Some? ==> path.value.WellFormed()
      modifies shape
      ensures path.None? ==> shape.ops == old(shape.ops)
      ensures path.Some? ==> shape.ops == old(shape.ops) + PathOps(path.value, Transform())
    {
      if path.None? || path.value.npts < 2 {
        return;
      }
      var p := path.value;
      var t := Transform();
      ghost var curves := seq(CurveCount(p), k requires 0 <= k < CurveCount(p) => Curve(p, t, k));
      var startPoint := t.Map(Point(p.pts[0], p.pts[1]));
      ghost var m := [MoveTo(t.Map(PointAt(p, 0)))];
      shape.MoveTo(startPoint);
      ghost var head := shape.ops;
      var i := 1;
      ghost var k: nat := 0;
      while i < p.npts
        invariant i == 3 * k + 1 || (i >= p.npts && k == CurveCount(p))
        invariant k <= CurveCount(p)
        invariant shape.ops == head + curves[..k]
      {
        if i + 2 < p.npts {
          assert 3 * (k + 1) <= p.npts - 1;
          var control1 := t.Map(Point(p.pts[i * 2], p.pts[i * 2 + 1]));
          var control2 := t.Map(Point(p.pts[(i + 1) * 2], p.pts[(i + 1) * 2 + 1]));
          var endPoint := t.Map(Point(p.pts[(i + 2) * 2], p.pts[(i + 2) * 2 + 1]));
          assert curves[k] == BezierTo(control1, control2, endPoint);
          assert curves[..k + 1] == curves[..k] + [curves[k]];
          shape.BezierTo(control1, control2, endPoint);
          k := k + 1;
        } else {
          assert 3 * k <= p.npts - 1 < 3 * k + 3;
        }
        i := i + 3;
      }
      assert k == CurveCount(p);
      assert curves[..k] == curves;
      assert Transform() == t;
      if p.closed {
        shape.Close();
        assert PathOps(p, t) == m + curves + [Close];
        assert shape.ops == old(shape.ops) + (m + curves + [Close]);
      } else {
        assert PathOps(p, t) == m + curves + [];
        assert shape.ops == old(shape.ops) + (m + curves + []);
      }
    }

    /** BSVGView.cpp:309-325: a flat colour becomes the high colour; any
        other paint sets nothing. */
    method ApplyFillPaint(paint: Option<Paint>, opacity: real)
      requires 0.0 <= opacity <= 1.0
      modifies this`log
      ensures log == old(log) + FillPaintCommands(paint, opacity)
    {
      if paint.None? {
        return;
      }
      match paint.value {
        case ColorPaint(c) =>
          var color := ConvertColor(c, opacity);
          SetHighColor(color);
        case _ =>
      }
    }

    /** BSVGView.cpp:327-353: a flat colour, a gradient's first stop (when
        it has one), or the panel text colour for any other paint type. */
    method ApplyStrokePaint(paint: Option<Paint>, opacity: real)
      requires 0.0 <= opacity <= 1.0
      modifies this`log
      ensures log == old(log) + StrokePaintCommands(paint, opacity, panelTextColor)
    {
      if paint.None? {
        return;
      }
      match paint.value {
        case ColorPaint(c) =>
          var color := ConvertColor(c, opacity);
          SetHighColor(color);
        case LinearGradientPaint(g) =>
          if g.Some? && |g.value.stops| > 0 {
            var color := ConvertColor(g.value.stops[0].color, opacity);
            SetHighColor(color);
          }
        case RadialGradientPaint(g) =>
          if g.Some? && |g.value.stops| > 0 {
            var color := ConvertColor(g.value.stops[0].color, opacity);
            SetHighColor(color);
          }
        case _ =>
          SetHighColor(panelTextColor);
      }
    }

    /** BSVGView.cpp:355-419: the native gradient for a nanosvg gradient, or
        none when it is missing, has no stops or its transform is
        near-singular. */
    method SetupGradient(gradient: Option<Gradient>, kind: GradientKind) returns (r: Option<NativeGradient>)
      ensures r == BuildGradient(gradient, kind, Transform())
    {
      if gradient.None? || |gradient.value.stops| == 0 {
        return None;
      }
      var g := gradient.value;
      var det := Det(g.xform);
      if Abs(det) < SingularLimit {
        return None;
      }
      var xform := Invert(g.xform);
      var t := Transform();
      var bgradient: NativeGradient;
      match kind {
        case LinearKind =>
          var x1 := xform.e;
          var y1 := xform.f;
          var dx := xform.c;
          var dy := xform.d;
          var x2 := x1 + dx;
          var y2 := y1 + dy;
          bgradient := LinearGradient(t.Map(Point(x1, y1)), t.Map(Point(x2, y2)), []);
        case RadialKind =>
          var center := t.Map(Point(xform.e, xform.f));
          var radiusSquared := (xform.a * xform.a + xform.d * xform.d) * (t.scale * t.scale);
          bgradient := RadialGradient(center, radiusSquared, []);
      }
      ghost var geometry := Geometry(g, kind, t);
      assert bgradient == geometry;
      ghost var all := seq(|g.stops|, j requires 0 <= j < |g.stops| => StopColor(g.stops[j]));
      var i := 0;
      while i < |g.stops|
        invariant 0 <= i <= |g.stops|
        invariant bgradient == geometry.(colors := all[..i])
      {
        var stop := g.stops[i];
        var color := ConvertColor(stop.color, 1.0);
        var offset := stop.offset * 255.0;
        if offset < 0.0 {
          offset := 0.0;
        }
        if offset > 255.0 {
          offset := 255.0;
        }
        assert all[i] == ColorStop(color, offset);
        assert all[..i + 1] == all[..i] + [all[i]];
        bgradient := bgradient.AddColor(color, offset);
        i := i + 1;
      }
      assert all[..i] == all;
      return Some(bgradient);
    }

    /** BSVGView.cpp:441-474: the pen size and the cap, join and miter
        limit, the lengths scaled with the view. */
    method SetupStrokeStyle(shape: Shape)
      modifies this`log
      ensures log == old(log) + StrokeStyleCommands(shape, Transform())
    {
      var t := Transform();
      var penSize := shape.strokeWidth * t.scale;
      SetPenSize(penSize);
      var capMode := ButtCap;
      var joinMode := MiterJoin;
      if shape.strokeLineCap == CapButt {
        capMode := ButtCap;
      } else if shape.strokeLineCap == CapRound {
        capMode := RoundCap;
      } else if shape.strokeLineCap == CapSquare {
        capMode := SquareCap;
      }
      if shape.strokeLineJoin == JoinMiter {
        joinMode := MiterJoin;
      } else if shape.strokeLineJoin == JoinRound {
        joinMode := RoundJoin;
      } else if shape.strokeLineJoin == JoinBevel {
        joinMode := BevelJoin;
      }
      var miterLimit := shape.miterLimit * t.scale;
      SetLineMode(capMode, joinMode, miterLimit);
      assert capMode == CapFor(shape.strokeLineCap) && joinMode == JoinFor(shape.strokeLineJoin);
      assert StrokeStyleCommands(shape, t)[0] == Command.SetPenSize(penSize);
      assert StrokeStyleCommands(shape, t)[1] == Command.SetLineMode(capMode, joinMode, miterLimit);
    }

    // The surface calls, each recorded at the end of the log.

    method SetDrawingMode()
      modifies this`log
      ensures log == old(log) + [SetDrawingModeAlpha]
    {
      log := log + [SetDrawingModeAlpha];
    }

    method SetHighColor(color: RgbColor)
      modifies this`log
      ensures log == old(log) + [Command.SetHighColor(color)]
    {
      log := log + [Command.SetHighColor(color)];
    }

    method SetPenSize(size: real)
      modifies this`log
      ensures log == old(log) + [Command.SetPenSize(size)]
    {
      log := log + [Command.SetPenSize(size)];
    }

    method SetLineMode(cap: CapMode, join: JoinMode, miterLimit: real)
      modifies this`log
      ensures log == old(log) + [Command.SetLineMode(cap, join, miterLimit)]
    {
      log := log + [Command.SetLineMode(cap, join, miterLimit)];
    }

    method FillShape(ops: seq<ShapeOp>)
      modifies this`log
      ensures log == old(log) + [Command.FillShape(ops)]
    {
      log := log + [Command.FillShape(ops)];
    }

    method FillShapeGradient(ops: seq<ShapeOp>, gradient: NativeGradient)
      modifies this`log
      ensures log == old(log) + [Command.FillShapeGradient(ops, gradient)]
    {
      log := log + [Command.FillShapeGradient(ops, gradient)];
    }

    method StrokeShape(ops: seq<ShapeOp>)
      modifies this`log
      ensures log == old(log) + [Command.StrokeShape(ops)]
    {
      log := log + [Command.StrokeShape(ops)];
    }
  }
}
