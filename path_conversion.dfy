/** What BSVGView::_ConvertPath appends to a BShape, as a reference
    definition indexed by segment rather than by loop counter. */
module PathConversion {
  import opened Affine
  import opened NanoSvg
  import opened Surface
  import opened ViewGeometry

  /** Point j of a path: the coordinates pts[2*j] and pts[2*j + 1]. */
  function PointAt(p: Path, j: int): Point
    requires p.WellFormed() && 0 <= j < p.npts
  {
    Point(p.pts[2 * j], p.pts[2 * j + 1])
  }

  /** The number of complete (control 1, control 2, end) triples after the
      start point; a trailing incomplete triple is dropped. */
  function CurveCount(p: Path): nat
  {
    if p.npts < 2 then 0 else (p.npts - 1) / 3
  }

  /** Segment k is built from points 3k+1, 3k+2 and 3k+3, mapped through the view. */
  function Curve(p: Path, t: ViewTransform, k: nat): ShapeOp
    requires p.WellFormed() && k < CurveCount(p)
  {
    BezierTo(t.Map(PointAt(p, 3 * k + 1)), t.Map(PointAt(p, 3 * k + 2)), t.Map(PointAt(p, 3 * k + 3)))
  }

  /** The operations for one path: nothing for a path under two points;
      otherwise a MoveTo at point 0, one BezierTo per complete triple in
      point order, and a Close when the path is closed. */
  function PathOps(p: Path, t: ViewTransform): seq<ShapeOp>
    requires p.WellFormed()
  {
    if p.npts < 2 then []
    else
      [MoveTo(t.Map(PointAt(p, 0)))]
      + seq(CurveCount(p), k requires 0 <= k < CurveCount(p) => Curve(p, t, k))
      + (if p.closed then [Close] else [])
  }

  /** The operations for a shape's paths, in path order. */
  function ShapeOps(paths: seq<Path>, t: ViewTransform): seq<ShapeOp>
    requires forall i :: 0 <= i < |paths| ==> paths[i].WellFormed()
  {
    if |paths| == 0 then []
    else ShapeOps(paths[..|paths| - 1], t) + PathOps(paths[|paths| - 1], t)
  }

  /** Converting one more path appends that path's operations. */
  lemma ShapeOpsSnoc(paths: seq<Path>, i: nat, t: ViewTransform)
    requires forall j :: 0 <= j < |paths| ==> paths[j].WellFormed()
    requires i < |paths|
    ensures ShapeOps(paths[..i + 1], t) == ShapeOps(paths[..i], t) + PathOps(paths[i], t)
  {
    assert paths[..i + 1][..i] == paths[..i];
  }

  /** The layout of a converted path: its length, the MoveTo first, the
      closing operation last exactly when the path is closed. */
  lemma PathOpsLayout(p: Path, t: ViewTransform)
    requires p.WellFormed()
    ensures p.npts < 2 ==> PathOps(p, t) == []
    ensures p.npts >= 2 ==>
      && |PathOps(p, t)| == 1 + (p.npts - 1) / 3 + (if p.closed then 1 else 0)
      && PathOps(p, t)[0] == MoveTo(Point(p.pts[0] * t.scale + t.offsetX, p.pts[1] * t.scale + t.offsetY))
      && (PathOps(p, t)[|PathOps(p, t)| - 1] == Close <==> p.closed)
  {
  }

  /** Segment k of a converted path reads coordinates below 2 * npts only:
      it is the BezierTo through points 3k+1, 3k+2 and 3k+3, each mapped
      through the view (coordinate * scale + offset). */
  lemma PathOpsCurveAt(p: Path, t: ViewTransform, k: nat)
    requires p.WellFormed() && p.npts >= 2 && k < (p.npts - 1) / 3
    ensures 2 * (3 * k + 3) + 1 < 2 * p.npts
    ensures PathOps(p, t)[1 + k] ==
      BezierTo(t.Map(Point(p.pts[6 * k + 2], p.pts[6 * k + 3])),
               t.Map(Point(p.pts[6 * k + 4], p.pts[6 * k + 5])),
               t.Map(Point(p.pts[6 * k + 6], p.pts[6 * k + 7])))
  {
    var curves := seq(CurveCount(p), j requires 0 <= j < CurveCount(p) => Curve(p, t, j));
    var tail := if p.closed then [Close] else [];
    assert PathOps(p, t) == [MoveTo(t.Map(PointAt(p, 0)))] + curves + tail;
    assert PathOps(p, t)[1 + k] == curves[k];
  }

  /** Exactly (npts - 1) / 3 operations of a converted path are BezierTo. */
  lemma PathOpsCurveCount(p: Path, t: ViewTransform)
    requires p.WellFormed() && p.npts >= 2
    ensures CountCurves(PathOps(p, t)) == (p.npts - 1) / 3
  {
    var curves := seq(CurveCount(p), k requires 0 <= k < CurveCount(p) => Curve(p, t, k));
    var tail := if p.closed then [Close] else [];
    assert PathOps(p, t) == [MoveTo(t.Map(PointAt(p, 0)))] + curves + tail;
    CountCurvesAppend([MoveTo(t.Map(PointAt(p, 0)))], curves);
    CountCurvesAppend([MoveTo(t.Map(PointAt(p, 0)))] + curves, tail);
    AllCurves(curves);
  }

  function CountCurves(ops: seq<ShapeOp>): nat
  {
    if |ops| == 0 then 0
    else CountCurves(ops[..|ops| - 1]) + (if ops[|ops| - 1].BezierTo? then 1 else 0)
  }

  lemma {:induction false} CountCurvesAppend(a: seq<ShapeOp>, b: seq<ShapeOp>)
    ensures CountCurves(a + b) == CountCurves(a) + CountCurves(b)
    decreases |b|
  {
    if |b| == 0 {
      assert a + b == a;
    } else {
      assert (a + b)[..|a + b| - 1] == a + b[..|b| - 1];
      CountCurvesAppend(a, b[..|b| - 1]);
    }
  }

  lemma {:induction false} AllCurves(ops: seq<ShapeOp>)
    requires forall i :: 0 <= i < |ops| ==> ops[i].BezierTo?
    ensures CountCurves(ops) == |ops|
    decreases |ops|
  {
    if |ops| > 0 {
      AllCurves(ops[..|ops| - 1]);
    }
  }
}
