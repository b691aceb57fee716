/** The drawing surface as an abstract log: the BShape path builder, the
    native gradient objects and the BView drawing calls the view makes. */
module Surface {
  import opened Affine
  import opened Colors

  /** One BShape operation. */
  datatype ShapeOp = MoveTo(p: Point) | BezierTo(control1: Point, control2: Point, end: Point) | Close

  /** The BShape that _DrawShape builds and the path conversion appends to. */
  class ShapeBuilder {
    var ops: seq<ShapeOp>

    constructor()
      ensures ops == []
    {
      ops := [];
    }

    method MoveTo(p: Point)
      modifies this
      ensures ops == old(ops) + [ShapeOp.MoveTo(p)]
    {
      ops := ops + [ShapeOp.MoveTo(p)];
    }

    method BezierTo(control1: Point, control2: Point, end: Point)
      modifies this
      ensures ops == old(ops) + [ShapeOp.BezierTo(control1, control2, end)]
    {
      ops := ops + [ShapeOp.BezierTo(control1, control2, end)];
    }

    method Close()
      modifies this
      ensures ops == old(ops) + [ShapeOp.Close]
    {
      ops := ops + [ShapeOp.Close];
    }
  }

  /** Haiku's cap_mode and join_mode values the view selects. */
  datatype CapMode = ButtCap | RoundCap | SquareCap
  datatype JoinMode = MiterJoin | RoundJoin | BevelJoin

  /** One AddColor call: a colour at an offset in [0, 255]. */
  datatype ColorStop = ColorStop(color: RgbColor, offset: real)

  /** BGradientLinear(start, end) and BGradientRadial(center, radius).  The
      radius is kept squared: the model has no square root. */
  datatype NativeGradient =
    | LinearGradient(start: Point, end: Point, colors: seq<ColorStop>)
    | RadialGradient(center: Point, radiusSquared: real, colors: seq<ColorStop>)
  {
    /** BGradient::AddColor: appends one colour stop and keeps the geometry. */
    function AddColor(color: RgbColor, offset: real): (g: NativeGradient)
      ensures g.colors == colors + [ColorStop(color, offset)]
      ensures g.LinearGradient? == LinearGradient?
      ensures LinearGradient? ==> g.start == start && g.end == end
      ensures RadialGradient? ==> g.center == center && g.radiusSquared == radiusSquared
    {
      this.(colors := colors + [ColorStop(color, offset)])
    }
  }

  /** The calls the view makes on the surface, in the order it makes them. */
  datatype Command =
    | SetDrawingModeAlpha
    | SetHighColor(color: RgbColor)
    | SetPenSize(size: real)
    | SetLineMode(cap: CapMode, join: JoinMode, miterLimit: real)
    | FillShape(shape: seq<ShapeOp>)
    | FillShapeGradient(shape: seq<ShapeOp>, gradient: NativeGradient)
    | StrokeShape(shape: seq<ShapeOp>)
  {
    predicate IsFill()
    {
      FillShape? || FillShapeGradient?
    }
  }
}
