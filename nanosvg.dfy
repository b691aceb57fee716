/** The parsed document as the nanosvg parser hands it over (NSVGimage,
    NSVGshape, NSVGpath, NSVGpaint, NSVGgradient).  Linked lists of the C
    structures are sequences here, and a pointer that may be NULL is an
    Option. */
module NanoSvg {
  import opened Wrappers
  import opened Affine
  import opened Colors

  /** NSVGpath: `npts` points stored interleaved as x, y in `pts`; point 0
      is the start and each later triple is (control 1, control 2, end) of
      a cubic Bézier segment. */
  datatype Path = Path(pts: seq<real>, npts: int, closed: bool) {
    /** The parser's guarantee that `pts` holds `2 * npts` coordinates. */
    predicate WellFormed()
    {
      2 * npts <= |pts|
    }
  }

  datatype GradientStop = GradientStop(color: uint32, offset: real)

  /** NSVGgradient; `nstops` is the length of `stops`.  The spread mode and
      the focal point are not read by the view. */
  datatype Gradient = Gradient(xform: Xform, stops: seq<GradientStop>)

  /** NSVGpaint: the paint type with the union member it selects.
      UnknownPaint is any other type code (nanosvg's NSVG_PAINT_UNDEF). */
  datatype Paint =
    | NoPaint
    | ColorPaint(color: uint32)
    | LinearGradientPaint(gradient: Option<Gradient>)
    | RadialGradientPaint(gradient: Option<Gradient>)
    | UnknownPaint

  /** nanosvg's line cap and line join codes. */
  const CapButt: int := 0
  const CapRound: int := 1
  const CapSquare: int := 2
  const JoinMiter: int := 0
  const JoinRound: int := 1
  const JoinBevel: int := 2

  /** NSVG_FLAGS_VISIBLE. */
  const FlagsVisible: bv8 := 0x01

  datatype Shape = Shape(
    fill: Paint,
    stroke: Paint,
    opacity: real,
    strokeWidth: real,
    strokeLineCap: int,
    strokeLineJoin: int,
    miterLimit: real,
    flags: bv8,
    paths: seq<Path>)
  {
    /** The parser clamps opacity into [0, 1] and fills every path. */
    predicate WellFormed()
    {
      && 0.0 <= opacity <= 1.0
      && forall i :: 0 <= i < |paths| ==> paths[i].WellFormed()
    }

    predicate Visible()
    {
      flags & FlagsVisible != 0
    }
  }

  /** NSVGimage: document size and the shapes in paint order. */
  datatype Image = Image(width: real, height: real, shapes: seq<Shape>) {
    predicate WellFormed()
    {
      && width > 0.0 && height > 0.0
      && forall i :: 0 <= i < |shapes| ==> shapes[i].WellFormed()
    }
  }
}
