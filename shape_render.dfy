/** The command sequence BSVGView::_DrawShape and BSVGView::Draw emit, as
    functions of the shape, the display mode and the view transform, with
    the decision-table properties proved about them. */
module ShapeRender {
  import opened Wrappers
  import opened Colors
  import opened NanoSvg
  import opened Surface
  import opened ViewGeometry
  import opened PathConversion
  import opened StrokeStyle
  import opened GradientSetup

  /** svg_display_mode. */
  datatype DisplayMode = Normal | Outline | FillOnly | StrokeOnly

  /** BSVGView.cpp:238-239. */
  predicate DrawsFill(mode: DisplayMode) { mode == Normal || mode == FillOnly }
  predicate DrawsStroke(mode: DisplayMode) { mode == Normal || mode == StrokeOnly }

  /** The colour of a gradient's first stop, when it has one (BSVGView.cpp:273-276, 342-345). */
  function FirstStopColor(g: Option<Gradient>, opacity: real): seq<Command>
    requires 0.0 <= opacity <= 1.0
  {
    if g.Some? && |g.value.stops| > 0 then [SetHighColor(ConvertColor(g.value.stops[0].color, opacity))]
    else []
  }

  /** _ApplyFillPaint (BSVGView.cpp:310-325): only a flat colour sets the high colour. */
  function FillPaintCommands(paint: Option<Paint>, opacity: real): seq<Command>
    requires 0.0 <= opacity <= 1.0
  {
    match paint
    case None => []
    case Some(ColorPaint(c)) => [SetHighColor(ConvertColor(c, opacity))]
    case Some(_) => []
  }

  /** _ApplyStrokePaint (BSVGView.cpp:328-353): a flat colour, a gradient's
      first stop, or for any other type the panel text colour. */
  function StrokePaintCommands(paint: Option<Paint>, opacity: real, panelText: RgbColor): seq<Command>
    requires 0.0 <= opacity <= 1.0
  {
    match paint
    case None => []
    case Some(ColorPaint(c)) => [SetHighColor(ConvertColor(c, opacity))]
    case Some(LinearGradientPaint(g)) => FirstStopColor(g, opacity)
    case Some(RadialGradientPaint(g)) => FirstStopColor(g, opacity)
    case Some(_) => [SetHighColor(panelText)]
  }

  /** _SetupStrokeStyle (BSVGView.cpp:442-474). */
  function StrokeStyleCommands(s: Shape, t: ViewTransform): seq<Command>
  {
    [SetPenSize(s.strokeWidth * t.scale),
     SetLineMode(CapFor(s.strokeLineCap), JoinFor(s.strokeLineJoin), s.miterLimit * t.scale)]
  }

  /** The fill call: with the native gradient when one can be built, plain otherwise. */
  function FillCall(fill: Paint, ops: seq<ShapeOp>, t: ViewTransform): Command
  {
    var g := match fill
      case LinearGradientPaint(g) => BuildGradient(g, LinearKind, t)
      case RadialGradientPaint(g) => BuildGradient(g, RadialKind, t)
      case _ => None;
    if g.Some? then FillShapeGradient(ops, g.value) else FillShape(ops)
  }

  /** The second high-colour call a gradient stroke makes (BSVGView.cpp:271-277). */
  function GradientStrokeColor(stroke: Paint, opacity: real): seq<Command>
    requires 0.0 <= opacity <= 1.0
  {
    match stroke
    case LinearGradientPaint(g) => FirstStopColor(g, opacity)
    case RadialGradientPaint(g) => FirstStopColor(g, opacity)
    case _ => []
  }

  predicate FillDrawn(s: Shape, mode: DisplayMode)
  {
    DrawsFill(mode) && s.fill != NoPaint
  }

  predicate StrokeDrawn(s: Shape, mode: DisplayMode)
  {
    DrawsStroke(mode) && s.stroke != NoPaint && s.strokeWidth > 0.0
  }

  function FillCommands(s: Shape, mode: DisplayMode, ops: seq<ShapeOp>, t: ViewTransform): seq<Command>
    requires s.WellFormed()
  {
    if FillDrawn(s, mode) then FillPaintCommands(Some(s.fill), s.opacity) + [FillCall(s.fill, ops, t)]
    else []
  }

  function StrokeCommands(s: Shape, mode: DisplayMode, ops: seq<ShapeOp>, t: ViewTransform, panelText: RgbColor): seq<Command>
    requires s.WellFormed()
  {
    if StrokeDrawn(s, mode) then
      StrokePaintCommands(Some(s.stroke), s.opacity, panelText) + StrokeStyleCommands(s, t)
      + GradientStrokeColor(s.stroke, s.opacity) + [StrokeShape(ops)]
    else []
  }

  /** Everything _DrawShape (BSVGView.cpp:225-280) sends to the surface for
      one shape: the alpha drawing mode, then either the one-pixel black
      outline or the fill commands followed by the stroke commands. */
  function ShapeCommands(s: Shape, mode: DisplayMode, t: ViewTransform, panelText: RgbColor): seq<Command>
    requires s.WellFormed()
  {
    var ops := ShapeOps(s.paths, t);
    [SetDrawingModeAlpha]
    + if mode == Outline then [SetHighColor(Black), SetPenSize(1.0), StrokeShape(ops)]
      else FillCommands(s, mode, ops, t) + StrokeCommands(s, mode, ops, t, panelText)
  }

  /** The commands Draw sends for one shape of the list: none when it is hidden. */
  function VisibleShapeCommands(s: Shape, mode: DisplayMode, t: ViewTransform, panelText: RgbColor): seq<Command>
    requires s.WellFormed()
  {
    if s.Visible() then ShapeCommands(s, mode, t, panelText) else []
  }

  predicate AllWellFormed(shapes: seq<Shape>)
  {
    forall i :: 0 <= i < |shapes| ==> shapes[i].WellFormed()
  }

  lemma AllWellFormedConcat(a: seq<Shape>, b: seq<Shape>)
    requires AllWellFormed(a) && AllWellFormed(b)
    ensures AllWellFormed(a + b)
  {
    forall i | 0 <= i < |a + b| ensures (a + b)[i].WellFormed() {
      if i < |a| { assert (a + b)[i] == a[i]; } else { assert (a + b)[i] == b[i - |a|]; }
    }
  }

  /** The per-shape command lists of a shape list, in list order. */
  function ShapeParts(shapes: seq<Shape>, mode: DisplayMode, t: ViewTransform, panelText: RgbColor): seq<seq<Command>>
    requires AllWellFormed(shapes)
  {
    seq(|shapes|, i requires 0 <= i < |shapes| => VisibleShapeCommands(shapes[i], mode, t, panelText))
  }

  /** The concatenation of a list of command lists. */
  function Concat(parts: seq<seq<Command>>): seq<Command>
  {
    if |parts| == 0 then [] else Concat(parts[..|parts| - 1]) + parts[|parts| - 1]
  }

  /** What Draw (BSVGView.cpp:112-116) sends for a shape list: the commands
      of each visible shape, in list order. */
  function DrawCommands(shapes: seq<Shape>, mode: DisplayMode, t: ViewTransform, panelText: RgbColor): seq<Command>
    requires AllWellFormed(shapes)
  {
    Concat(ShapeParts(shapes, mode, t, panelText))
  }

  predicate HasFill(cmds: seq<Command>)
  {
    exists i :: 0 <= i < |cmds| && cmds[i].IsFill()
  }

  predicate HasStroke(cmds: seq<Command>)
  {
    exists i :: 0 <= i < |cmds| && cmds[i].StrokeShape?
  }

  /** Commands that only set up state: neither a fill nor a stroke. */
  predicate SetupOnly(cmds: seq<Command>)
  {
    forall i :: 0 <= i < |cmds| ==> !cmds[i].IsFill() && !cmds[i].StrokeShape?
  }

  /** A concatenation fills (strokes) exactly when one of its parts does. */
  lemma ConcatKinds(x: seq<Command>, y: seq<Command>)
    ensures HasFill(x + y) <==> HasFill(x) || HasFill(y)
    ensures HasStroke(x + y) <==> HasStroke(x) || HasStroke(y)
  {
    if HasFill(x + y) {
      var i :| 0 <= i < |x + y| && (x + y)[i].IsFill();
      if i < |x| { assert x[i] == (x + y)[i]; } else { assert y[i - |x|] == (x + y)[i]; }
    }
    if HasStroke(x + y) {
      var i :| 0 <= i < |x + y| && (x + y)[i].StrokeShape?;
      if i < |x| { assert x[i] == (x + y)[i]; } else { assert y[i - |x|] == (x + y)[i]; }
    }
    if HasFill(x) {
      var i :| 0 <= i < |x| && x[i].IsFill();
      assert (x + y)[i] == x[i];
    }
    if HasStroke(x) {
      var i :| 0 <= i < |x| && x[i].StrokeShape?;
      assert (x + y)[i] == x[i];
    }
    if HasFill(y) {
      var i :| 0 <= i < |y| && y[i].IsFill();
      assert (x + y)[|x| + i] == y[i];
    }
    if HasStroke(y) {
      var i :| 0 <= i < |y| && y[i].StrokeShape?;
      assert (x + y)[|x| + i] == y[i];
    }
  }

  /** Regrouping a log that grew by a prefix and two parts. */
  lemma LogAssoc(log: seq<Command>, a: seq<Command>, f: seq<Command>, k: seq<Command>)
    ensures log + a + f + k == log + (a + (f + k))
  {
  }

  lemma LogRegroup(log: seq<Command>, a: seq<Command>, b: seq<Command>)
    ensures log + a + b == log + (a + b)
  {
  }

  lemma SetupOnlyKinds(cmds: seq<Command>)
    requires SetupOnly(cmds)
    ensures !HasFill(cmds) && !HasStroke(cmds)
  {
  }

  lemma SetupOnlyConcat(x: seq<Command>, y: seq<Command>)
    requires SetupOnly(x) && SetupOnly(y)
    ensures SetupOnly(x + y)
  {
    forall i | 0 <= i < |x + y| ensures !(x + y)[i].IsFill() && !(x + y)[i].StrokeShape? {
      if i < |x| { assert (x + y)[i] == x[i]; } else { assert (x + y)[i] == y[i - |x|]; }
    }
  }

  /** When a setup-only prefix is followed by a part that never strokes
      and a part that never fills, every fill comes before every stroke. */
  lemma FillsThenStrokes(w: seq<Command>, x: seq<Command>, y: seq<Command>, i: int, j: int)
    requires SetupOnly(w) && !HasStroke(x) && !HasFill(y)
    requires 0 <= i < |w + (x + y)| && (w + (x + y))[i].IsFill()
    requires 0 <= j < |w + (x + y)| && (w + (x + y))[j].StrokeShape?
    ensures i < |w| + |x| <= j
  {
    var c := w + (x + y);
    forall m | 0 <= m < |c| ensures (m < |w| + |x| ==> !c[m].StrokeShape?) && (m >= |w| + |x| ==> !c[m].IsFill()) {
      if m < |w| {
        assert c[m] == w[m];
      } else if m < |w| + |x| {
        assert c[m] == x[m - |w|];
      } else {
        assert c[m] == y[m - |w| - |x|];
      }
    }
  }

  /** The paint and style calls only set up state. */
  lemma PaintCommandsSetupOnly(s: Shape, t: ViewTransform, panelText: RgbColor)
    requires s.WellFormed()
    ensures SetupOnly(FillPaintCommands(Some(s.fill), s.opacity))
    ensures SetupOnly(StrokePaintCommands(Some(s.stroke), s.opacity, panelText))
    ensures SetupOnly(StrokeStyleCommands(s, t))
    ensures SetupOnly(GradientStrokeColor(s.stroke, s.opacity))
  {
  }

  /** In outline mode a shape gets black, pen size 1 and a single stroke
      of its path, and nothing else. */
  lemma OutlineModeCommands(s: Shape, t: ViewTransform, panelText: RgbColor)
    requires s.WellFormed()
    ensures ShapeCommands(s, Outline, t, panelText) ==
      [SetDrawingModeAlpha, SetHighColor(Black), SetPenSize(1.0), StrokeShape(ShapeOps(s.paths, t))]
    ensures !HasFill(ShapeCommands(s, Outline, t, panelText))
  {
    var ops := ShapeOps(s.paths, t);
    assert ShapeCommands(s, Outline, t, panelText) == [SetDrawingModeAlpha] + [SetHighColor(Black), SetPenSize(1.0), StrokeShape(ops)];
    OutlineCommandsNoFill(ops);
  }

  /** The outline commands hold no fill. */
  lemma OutlineCommandsNoFill(ops: seq<ShapeOp>)
    ensures !HasFill([SetDrawingModeAlpha, SetHighColor(Black), SetPenSize(1.0), StrokeShape(ops)])
  {
    var cmds := [SetDrawingModeAlpha, SetHighColor(Black), SetPenSize(1.0), StrokeShape(ops)];
    assert !cmds[0].IsFill() && !cmds[1].IsFill() && !cmds[2].IsFill() && !cmds[3].IsFill();
  }

  /** The fill part holds no stroke and fills exactly when the fill is drawn;
      the stroke part holds no fill and ends in the stroke exactly when the
      stroke is drawn. */
  lemma PartKinds(s: Shape, mode: DisplayMode, ops: seq<ShapeOp>, t: ViewTransform, panelText: RgbColor)
    requires s.WellFormed()
    ensures var f := FillCommands(s, mode, ops, t);
      !HasStroke(f) && (HasFill(f) <==> FillDrawn(s, mode))
    ensures var k := StrokeCommands(s, mode, ops, t, panelText);
      && !HasFill(k) && (HasStroke(k) <==> StrokeDrawn(s, mode))
      && (StrokeDrawn(s, mode) ==> k[|k| - 1] == StrokeShape(ops))
  {
    PaintCommandsSetupOnly(s, t, panelText);
    if FillDrawn(s, mode) {
      var p := FillPaintCommands(Some(s.fill), s.opacity);
      var c := FillCall(s.fill, ops, t);
      SetupOnlyKinds(p);
      ConcatKinds(p, [c]);
      assert [c][0].IsFill();
    }
    if StrokeDrawn(s, mode) {
      var p := StrokePaintCommands(Some(s.stroke), s.opacity, panelText);
      var q := StrokeStyleCommands(s, t);
      var r := GradientStrokeColor(s.stroke, s.opacity);
      SetupOnlyConcat(p, q);
      SetupOnlyConcat(p + q, r);
      SetupOnlyKinds(p + q + r);
      ConcatKinds(p + q + r, [StrokeShape(ops)]);
      assert [StrokeShape(ops)][0].StrokeShape?;
    }
  }

  /** Outside outline mode a shape's commands are the drawing mode, the
      fill part and the stroke part, in that order. */
  lemma ShapeCommandsParts(s: Shape, mode: DisplayMode, t: ViewTransform, panelText: RgbColor)
    requires s.WellFormed() && mode != Outline
    ensures var ops := ShapeOps(s.paths, t);
      ShapeCommands(s, mode, t, panelText)
        == [SetDrawingModeAlpha] + (FillCommands(s, mode, ops, t) + StrokeCommands(s, mode, ops, t, panelText))
  {
  }

  /** A shape is filled exactly when the mode draws fills and its fill
      paint is not none. */
  lemma FillEmittedIff(s: Shape, mode: DisplayMode, t: ViewTransform, panelText: RgbColor)
    requires s.WellFormed()
    ensures HasFill(ShapeCommands(s, mode, t, panelText)) <==> FillDrawn(s, mode)
  {
    if mode == Outline {
      OutlineModeCommands(s, t, panelText);
    } else {
      var ops := ShapeOps(s.paths, t);
      var f := FillCommands(s, mode, ops, t);
      var k := StrokeCommands(s, mode, ops, t, panelText);
      ShapeCommandsParts(s, mode, t, panelText);
      PartKinds(s, mode, ops, t, panelText);
      ConcatKinds(f, k);
      ConcatKinds([SetDrawingModeAlpha], f + k);
      SetupOnlyKinds([SetDrawingModeAlpha]);
    }
  }

  /** Outside outline mode a shape is stroked exactly when the mode draws
      strokes, its stroke paint is not none and its stroke width is positive. */
  lemma StrokeEmittedIff(s: Shape, mode: DisplayMode, t: ViewTransform, panelText: RgbColor)
    requires s.WellFormed() && mode != Outline
    ensures HasStroke(ShapeCommands(s, mode, t, panelText)) <==> StrokeDrawn(s, mode)
  {
    var ops := ShapeOps(s.paths, t);
    var f := FillCommands(s, mode, ops, t);
    var k := StrokeCommands(s, mode, ops, t, panelText);
    ShapeCommandsParts(s, mode, t, panelText);
    PartKinds(s, mode, ops, t, panelText);
    ConcatKinds(f, k);
    ConcatKinds([SetDrawingModeAlpha], f + k);
    SetupOnlyKinds([SetDrawingModeAlpha]);
  }

  /** Every fill call comes before every stroke call. */
  lemma FillBeforeStroke(s: Shape, mode: DisplayMode, t: ViewTransform, panelText: RgbColor, i: int, j: int)
    requires s.WellFormed()
    requires 0 <= i < |ShapeCommands(s, mode, t, panelText)| && 0 <= j < |ShapeCommands(s, mode, t, panelText)|
    requires ShapeCommands(s, mode, t, panelText)[i].IsFill()
    requires ShapeCommands(s, mode, t, panelText)[j].StrokeShape?
    ensures i < j
  {
    var cmds := ShapeCommands(s, mode, t, panelText);
    if mode == Outline {
      OutlineModeCommands(s, t, panelText);
    } else {
      var ops := ShapeOps(s.paths, t);
      var f := FillCommands(s, mode, ops, t);
      var k := StrokeCommands(s, mode, ops, t, panelText);
      ShapeCommandsParts(s, mode, t, panelText);
      PartKinds(s, mode, ops, t, panelText);
      FillsThenStrokes([SetDrawingModeAlpha], f, k, i, j);
    }
  }

  /** A drawn gradient stroke block with stops ends in the first stop's
      colour and the stroke. */
  lemma GradientStrokeBlockEnd(s: Shape, mode: DisplayMode, ops: seq<ShapeOp>, t: ViewTransform, panelText: RgbColor)
    requires s.WellFormed() && StrokeDrawn(s, mode)
    requires s.stroke.LinearGradientPaint? || s.stroke.RadialGradientPaint?
    requires s.stroke.gradient.Some? && |s.stroke.gradient.value.stops| > 0
    ensures var k := StrokeCommands(s, mode, ops, t, panelText);
      && |k| >= 2
      && k[|k| - 1] == StrokeShape(ops)
      && k[|k| - 2] == SetHighColor(ConvertColor(s.stroke.gradient.value.stops[0].color, s.opacity))
  {
    var first := SetHighColor(ConvertColor(s.stroke.gradient.value.stops[0].color, s.opacity));
    assert GradientStrokeColor(s.stroke, s.opacity) == [first];
  }

  /** A drawn gradient stroke with stops is redrawn in its first stop's
      colour right before the stroke (BSVGView.cpp:271-278). */
  lemma GradientStrokeUsesFirstStop(s: Shape, mode: DisplayMode, t: ViewTransform, panelText: RgbColor)
    requires s.WellFormed() && mode != Outline && StrokeDrawn(s, mode)
    requires s.stroke.LinearGradientPaint? || s.stroke.RadialGradientPaint?
    requires s.stroke.gradient.Some? && |s.stroke.gradient.value.stops| > 0
    ensures var cmds := ShapeCommands(s, mode, t, panelText);
      && |cmds| >= 2
      && cmds[|cmds| - 1] == StrokeShape(ShapeOps(s.paths, t))
      && cmds[|cmds| - 2] == SetHighColor(ConvertColor(s.stroke.gradient.value.stops[0].color, s.opacity))
  {
    var ops := ShapeOps(s.paths, t);
    ShapeCommandsParts(s, mode, t, panelText);
    GradientStrokeBlockEnd(s, mode, ops, t, panelText);
  }

  /** A drawn flat-colour fill is preceded by the shape's colour, alpha
      scaled by the shape's opacity. */
  lemma FlatFillUsesPaintColor(s: Shape, mode: DisplayMode, t: ViewTransform, panelText: RgbColor)
    requires s.WellFormed() && FillDrawn(s, mode) && s.fill.ColorPaint?
    ensures var cmds := ShapeCommands(s, mode, t, panelText);
      && |cmds| >= 3
      && cmds[1] == SetHighColor(ConvertColor(s.fill.color, s.opacity))
      && cmds[2] == FillShape(ShapeOps(s.paths, t))
  {
  }

  /** Concatenating parts none of which strokes gives commands that never stroke. */
  lemma {:induction false} ConcatNoStroke(parts: seq<seq<Command>>)
    requires forall i :: 0 <= i < |parts| ==> !HasStroke(parts[i])
    ensures !HasStroke(Concat(parts))
    decreases |parts|
  {
    if |parts| > 0 {
      var init := parts[..|parts| - 1];
      assert forall i :: 0 <= i < |init| ==> init[i] == parts[i];
      ConcatNoStroke(init);
      ConcatKinds(Concat(init), parts[|parts| - 1]);
    }
  }

  /** Concatenating empty parts gives nothing. */
  lemma {:induction false} ConcatEmpty(parts: seq<seq<Command>>)
    requires forall i :: 0 <= i < |parts| ==> parts[i] == []
    ensures Concat(parts) == []
    decreases |parts|
  {
    if |parts| > 0 {
      var init := parts[..|parts| - 1];
      assert forall i :: 0 <= i < |init| ==> init[i] == parts[i];
      ConcatEmpty(init);
    }
  }

  /** Drawing one more shape appends that shape's commands. */
  lemma DrawCommandsSnoc(shapes: seq<Shape>, s: Shape, mode: DisplayMode, t: ViewTransform, panelText: RgbColor)
    requires AllWellFormed(shapes) && s.WellFormed()
    ensures AllWellFormed(shapes + [s])
    ensures DrawCommands(shapes + [s], mode, t, panelText)
      == DrawCommands(shapes, mode, t, panelText) + VisibleShapeCommands(s, mode, t, panelText)
  {
    AllWellFormedConcat(shapes, [s]);
    var parts := ShapeParts(shapes + [s], mode, t, panelText);
    assert parts[..|parts| - 1] == ShapeParts(shapes, mode, t, panelText);
  }

  /** Shapes without the visible flag draw nothing. */
  lemma HiddenShapesDrawNothing(shapes: seq<Shape>, mode: DisplayMode, t: ViewTransform, panelText: RgbColor)
    requires AllWellFormed(shapes) && forall i :: 0 <= i < |shapes| ==> !shapes[i].Visible()
    ensures DrawCommands(shapes, mode, t, panelText) == []
  {
    ConcatEmpty(ShapeParts(shapes, mode, t, panelText));
  }

  /** A shape list with a zero stroke width everywhere is never stroked
      outside outline mode. */
  lemma ZeroWidthNeverStroked(shapes: seq<Shape>, mode: DisplayMode, t: ViewTransform, panelText: RgbColor)
    requires mode != Outline
    requires AllWellFormed(shapes) && forall i :: 0 <= i < |shapes| ==> shapes[i].strokeWidth <= 0.0
    ensures !HasStroke(DrawCommands(shapes, mode, t, panelText))
  {
    var parts := ShapeParts(shapes, mode, t, panelText);
    forall i | 0 <= i < |parts| ensures !HasStroke(parts[i]) {
      if shapes[i].Visible() {
        StrokeEmittedIff(shapes[i], mode, t, panelText);
      }
    }
    ConcatNoStroke(parts);
  }
}
