/** Points and the 2x3 affine transforms nanosvg stores in `float xform[6]`. */
module Affine {

  datatype Point = Point(x: real, y: real)

  /** The six entries xform[0..5] = [a, b, c, d, e, f], with nanosvg's
      convention x' = a*x + c*y + e and y' = b*x + d*y + f. */
  datatype Xform = Xform(a: real, b: real, c: real, d: real, e: real, f: real)

  const Identity: Xform := Xform(1.0, 0.0, 0.0, 1.0, 0.0, 0.0)

  function Apply(t: Xform, p: Point): Point
  {
    Point(t.a * p.x + t.c * p.y + t.e, t.b * p.x + t.d * p.y + t.f)
  }

  /** Determinant of the linear part, as computed at BSVGView.cpp:368. */
  function Det(t: Xform): real
  {
    t.a * t.d - t.c * t.b
  }

  function Abs(x: real): (r: real)
    ensures r >= 0.0 && (r == x || r == -x)
  {
    if x < 0.0 then -x else x
  }

  /** The transform that applies `t` first and then `s`. */
  function Compose(s: Xform, t: Xform): (r: Xform)
    ensures forall p :: Apply(r, p) == Apply(s, Apply(t, p))
  {
    Xform(s.a * t.a + s.c * t.b,
          s.b * t.a + s.d * t.b,
          s.a * t.c + s.c * t.d,
          s.b * t.c + s.d * t.d,
          s.a * t.e + s.c * t.f + s.e,
          s.b * t.e + s.d * t.f + s.f)
  }

  /** The inverse computed entry by entry at BSVGView.cpp:374-380. */
  function Invert(t: Xform): Xform
    requires Det(t) != 0.0
  {
    var invdet := 1.0 / Det(t);
    Xform(t.d * invdet,
          -t.b * invdet,
          -t.c * invdet,
          t.a * invdet,
          (t.c * t.f - t.d * t.e) * invdet,
          (t.b * t.e - t.a * t.f) * invdet)
  }

  /** Undoing `t` after applying it gives back every point. */
  lemma InvertAfter(t: Xform, p: Point)
    requires Det(t) != 0.0
    ensures Apply(Invert(t), Apply(t, p)) == p
  {
    var D := Det(t);
    var q := Apply(t, p);
    var r := Apply(Invert(t), q);
    assert D * r.x == t.d * q.x - t.c * q.y + (t.c * t.f - t.d * t.e);
    assert D * r.y == -t.b * q.x + t.a * q.y + (t.b * t.e - t.a * t.f);
    assert D * r.x == D * p.x;
    assert D * r.y == D * p.y;
  }

  /** Applying `t` after its inverse gives back every point. */
  lemma InvertBefore(t: Xform, p: Point)
    requires Det(t) != 0.0
    ensures Apply(t, Apply(Invert(t), p)) == p
  {
    var D := Det(t);
    var q := Apply(Invert(t), p);
    var r := Apply(t, q);
    assert D * q.x == t.d * p.x - t.c * p.y + (t.c * t.f - t.d * t.e);
    assert D * q.y == -t.b * p.x + t.a * p.y + (t.b * t.e - t.a * t.f);
    assert D * r.x == t.a * (D * q.x) + t.c * (D * q.y) + D * t.e;
    assert D * r.y == t.b * (D * q.x) + t.d * (D * q.y) + D * t.f;
    assert D * r.x == D * p.x;
    assert D * r.y == D * p.y;
  }

  /** Composing a non-singular transform with its inverse, in either order, is the identity. */
  lemma ComposeInverseIsIdentity(t: Xform)
    requires Det(t) != 0.0
    ensures Compose(Invert(t), t) == Identity
    ensures Compose(t, Invert(t)) == Identity
  {
    forall p ensures Apply(Compose(Invert(t), t), p) == Apply(Identity, p) {
      InvertAfter(t, p);
    }
    forall p ensures Apply(Compose(t, Invert(t)), p) == Apply(Identity, p) {
      InvertBefore(t, p);
    }
    ApplyDetermines(Compose(Invert(t), t), Identity);
    ApplyDetermines(Compose(t, Invert(t)), Identity);
  }

  /** Two transforms that agree on every point are equal. */
  lemma ApplyDetermines(s: Xform, t: Xform)
    requires forall p :: Apply(s, p) == Apply(t, p)
    ensures s == t
  {
    var o := Apply(s, Point(0.0, 0.0));
    assert o == Apply(t, Point(0.0, 0.0));
    assert Apply(s, Point(1.0, 0.0)) == Apply(t, Point(1.0, 0.0));
    assert Apply(s, Point(0.0, 1.0)) == Apply(t, Point(0.0, 1.0));
  }

  /** The inverse is non-singular and inverting twice gives back the transform. */
  lemma InvertInvolutive(t: Xform)
    requires Det(t) != 0.0
    ensures Det(Invert(t)) * Det(t) == 1.0
    ensures Invert(Invert(t)) == t
  {
    var D := Det(t);
    var i := Invert(t);
    assert D * D * Det(i) == t.d * t.a - t.b * t.c;
    assert Det(i) * D == 1.0;
    forall p ensures Apply(Invert(i), p) == Apply(t, p) {
      InvertAfter(i, Apply(t, p));
      InvertAfter(t, p);
    }
    ApplyDetermines(Invert(i), t);
  }
}
