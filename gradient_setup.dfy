/** What BSVGView::_SetupGradient builds from a nanosvg gradient: the
    rejection rules, the native geometry derived from the inverse of the
    gradient transform, and one colour stop per gradient stop. */
module GradientSetup {
  import opened Wrappers
  import opened Affine
  import opened Colors
  import opened NanoSvg
  import opened Surface
  import opened ViewGeometry

  datatype GradientKind = LinearKind | RadialKind

  /** The determinant magnitude below which a transform counts as singular. */
  const SingularLimit: real := 0.000001

  /** BSVGView.cpp:411-413: stop offset * 255, clamped into [0, 255]. */
  function ClampOffset(offset: real): (r: real)
    ensures 0.0 <= r <= 255.0
    ensures 0.0 <= offset * 255.0 <= 255.0 ==> r == offset * 255.0
    ensures offset * 255.0 < 0.0 ==> r == 0.0
    ensures offset * 255.0 > 255.0 ==> r == 255.0
  {
    var scaled := offset * 255.0;
    var scaled := if scaled < 0.0 then 0.0 else scaled;
    if scaled > 255.0 then 255.0 else scaled
  }

  /** The colour stop added for one gradient stop (BSVGView.cpp:408-415). */
  function StopColor(stop: GradientStop): ColorStop
  {
    ColorStop(ConvertColor(stop.color, 1.0), ClampOffset(stop.offset))
  }

  /** A gradient the view can hand to the surface: present, with stops,
      and with a transform far enough from singular (BSVGView.cpp:358-372). */
  predicate Usable(g: Option<Gradient>)
  {
    g.Some? && |g.value.stops| > 0 && Abs(Det(g.value.xform)) >= SingularLimit
  }

  /** The squared radius BSVGView.cpp:401 computes from the inverse
      transform `inv` and the view scale: the two diagonal entries squared. */
  function WrittenRadiusSquared(inv: Xform, scale: real): real
  {
    (inv.a * inv.a + inv.d * inv.d) * (scale * scale)
  }

  /** The squared radius the gradient means: the squared length of the
      inverse's first column (the image of the unit radius along x), scaled
      with the view; see RadiusReachesUnitPoint. */
  function RadiusSquared(inv: Xform, scale: real): real
  {
    (inv.a * inv.a + inv.b * inv.b) * (scale * scale)
  }

  /** The native gradient before its colours are added (BSVGView.cpp:374-404):
      linear from the inverse's translation to that plus its second column,
      radial centred on the inverse's translation with the squared radius
      BSVGView.cpp:401 computes. */
  function Geometry(g: Gradient, kind: GradientKind, t: ViewTransform): NativeGradient
    requires Abs(Det(g.xform)) >= SingularLimit
  {
    var inv := Invert(g.xform);
    match kind
    case LinearKind =>
      LinearGradient(t.Map(Point(inv.e, inv.f)), t.Map(Point(inv.e + inv.c, inv.f + inv.d)), [])
    case RadialKind =>
      RadialGradient(t.Map(Point(inv.e, inv.f)), WrittenRadiusSquared(inv, t.scale), [])
  }

  /** The gradient _SetupGradient hands back: none for an unusable
      gradient, otherwise the geometry with one colour stop per gradient
      stop, in stop order. */
  function BuildGradient(g: Option<Gradient>, kind: GradientKind, t: ViewTransform): Option<NativeGradient>
  {
    if !Usable(g) then None
    else
      var n := Geometry(g.value, kind, t);
      Some(n.(colors := seq(|g.value.stops|, i requires 0 <= i < |g.value.stops| => StopColor(g.value.stops[i]))))
  }

  /** No gradient exactly when it is missing, has no stops or is near-singular. */
  lemma BuildGradientRejects(g: Option<Gradient>, kind: GradientKind, t: ViewTransform)
    ensures BuildGradient(g, kind, t).None? <==>
      (g.None? || |g.value.stops| == 0 || Abs(Det(g.value.xform)) < SingularLimit)
  {
  }

  /** A built gradient has one colour per stop, in stop order; each colour is
      the stop's colour at full opacity and each offset lies in [0, 255]. */
  lemma BuildGradientColors(g: Gradient, kind: GradientKind, t: ViewTransform, i: nat)
    requires Usable(Some(g)) && i < |g.stops|
    ensures |BuildGradient(Some(g), kind, t).value.colors| == |g.stops|
    ensures BuildGradient(Some(g), kind, t).value.colors[i].color == ConvertColor(g.stops[i].color, 1.0)
    ensures BuildGradient(Some(g), kind, t).value.colors[i].offset == ClampOffset(g.stops[i].offset)
    ensures 0.0 <= BuildGradient(Some(g), kind, t).value.colors[i].offset <= 255.0
  {
  }

  /** The linear gradient runs between the view images of the two document
      points the gradient transform sends to (0, 0) and (0, 1): the ends of
      the gradient's axis. */
  lemma LinearEndpointsSpanAxis(g: Gradient, t: ViewTransform)
    requires Usable(Some(g)) && t.scale != 0.0
    ensures BuildGradient(Some(g), LinearKind, t).value.LinearGradient?
    ensures Apply(g.xform, t.Unmap(BuildGradient(Some(g), LinearKind, t).value.start)) == Point(0.0, 0.0)
    ensures Apply(g.xform, t.Unmap(BuildGradient(Some(g), LinearKind, t).value.end)) == Point(0.0, 1.0)
  {
    var inv := Invert(g.xform);
    var n := BuildGradient(Some(g), LinearKind, t).value;
    assert Point(inv.e, inv.f) == Apply(inv, Point(0.0, 0.0));
    assert Point(inv.e + inv.c, inv.f + inv.d) == Apply(inv, Point(0.0, 1.0));
    UnmapMap(t, Point(inv.e, inv.f));
    UnmapMap(t, Point(inv.e + inv.c, inv.f + inv.d));
    InvertBefore(g.xform, Point(0.0, 0.0));
    InvertBefore(g.xform, Point(0.0, 1.0));
  }

  /** The radial gradient is centred on the view image of the document point
      the gradient transform sends to the origin; its squared radius is
      (xform[0]^2 + xform[3]^2) * scale^2, xform being the inverse, as
      BSVGView.cpp:401 computes it. */
  lemma RadialCenterIsOrigin(g: Gradient, t: ViewTransform)
    requires Usable(Some(g)) && t.scale != 0.0
    ensures BuildGradient(Some(g), RadialKind, t).value.RadialGradient?
    ensures Apply(g.xform, t.Unmap(BuildGradient(Some(g), RadialKind, t).value.center)) == Point(0.0, 0.0)
    ensures BuildGradient(Some(g), RadialKind, t).value.radiusSquared ==
      (Invert(g.xform).a * Invert(g.xform).a + Invert(g.xform).d * Invert(g.xform).d) * (t.scale * t.scale)
  {
    var inv := Invert(g.xform);
    assert Point(inv.e, inv.f) == Apply(inv, Point(0.0, 0.0));
    UnmapMap(t, Point(inv.e, inv.f));
    InvertBefore(g.xform, Point(0.0, 0.0));
  }

  /** The corrected radius: the circle about the view image of the
      gradient's centre (the inverse's translation) with squared radius
      RadiusSquared passes through the view image of the document point the
      gradient transform sends to (1, 0). */
  lemma RadiusReachesUnitPoint(g: Gradient, t: ViewTransform)
    requires Det(g.xform) != 0.0
    ensures var inv := Invert(g.xform);
      var c := t.Map(Point(inv.e, inv.f));
      var q := t.Map(Apply(inv, Point(1.0, 0.0)));
      && Apply(g.xform, Apply(inv, Point(1.0, 0.0))) == Point(1.0, 0.0)
      && (q.x - c.x) * (q.x - c.x) + (q.y - c.y) * (q.y - c.y) == RadiusSquared(inv, t.scale)
  {
    var inv := Invert(g.xform);
    var s := t.scale;
    var p := Apply(inv, Point(1.0, 0.0));
    assert p == Point(inv.a + inv.e, inv.b + inv.f);
    ScaledDifference(inv.a, inv.e, s, t.offsetX);
    ScaledDifference(inv.b, inv.f, s, t.offsetY);
    SquaredLength(inv.a, inv.b, s);
    InvertBefore(g.xform, Point(1.0, 0.0));
  }

  lemma ScaledDifference(a: real, e: real, s: real, o: real)
    ensures ((a + e) * s + o) - (e * s + o) == a * s
  {
  }

  lemma SquaredLength(a: real, b: real, s: real)
    ensures (a * s) * (a * s) + (b * s) * (b * s) == (a * a + b * b) * (s * s)
  {
  }

  /** For a gradient that is an axis-aligned circle, one whose transform
      scales document space by k (>= 0.001, so it is not near-singular) onto
      the unit circle, the circle's radius is 1/k: RadiusSquared gives its
      square, but the squared radius as BSVGView.cpp:401 computes it is
      twice that (the radius comes out sqrt(2)/k). */
  lemma RadialRadiusOfCircle(k: real, e: real, f: real, scale: real)
    requires k >= 0.001
    ensures Abs(Det(Xform(k, 0.0, 0.0, k, e, f))) >= SingularLimit
    ensures RadiusSquared(Invert(Xform(k, 0.0, 0.0, k, e, f)), scale) == (1.0 / k) * (1.0 / k) * (scale * scale)
    ensures WrittenRadiusSquared(Invert(Xform(k, 0.0, 0.0, k, e, f)), scale)
      == 2.0 * RadiusSquared(Invert(Xform(k, 0.0, 0.0, k, e, f)), scale)
  {
    var x := Xform(k, 0.0, 0.0, k, e, f);
    assert Det(x) == k * k;
    assert k * k >= 0.001 * k >= 0.001 * 0.001;
    var inv := Invert(x);
    var ik := 1.0 / k;
    assert inv.a == k * (1.0 / (k * k)) == ik;
    assert inv.d == k * (1.0 / (k * k)) == ik;
    assert inv.b == 0.0;
  }

  /** A unit circle, centred anywhere, drawn at view scale 1: the radius
      is 1, but the squared radius as written is 2. */
  lemma UnitCircleRadius(e: real, f: real)
    ensures Abs(Det(Xform(1.0, 0.0, 0.0, 1.0, e, f))) >= SingularLimit
    ensures RadiusSquared(Invert(Xform(1.0, 0.0, 0.0, 1.0, e, f)), 1.0) == 1.0
    ensures WrittenRadiusSquared(Invert(Xform(1.0, 0.0, 0.0, 1.0, e, f)), 1.0) == 2.0
  {
    var inv := Invert(Xform(1.0, 0.0, 0.0, 1.0, e, f));
    assert inv.a == 1.0 && inv.b == 0.0 && inv.d == 1.0 by {
      assert Det(Xform(1.0, 0.0, 0.0, 1.0, e, f)) == 1.0;
    }
  }

  lemma UnmapMap(t: ViewTransform, p: Point)
    requires t.scale != 0.0
    ensures t.Unmap(t.Map(p)) == p
  {
  }
}
