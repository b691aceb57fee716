/** Colour unpacking (BSVGView::_ConvertColor). */
module Colors {

  newtype byte = x: int | 0 <= x < 0x100

  /** An `unsigned int` of the source: 32 bits. */
  newtype uint32 = x: int | 0 <= x < 0x1_0000_0000

  /** Haiku's rgb_color: four 8-bit channels. */
  datatype RgbColor = RgbColor(red: byte, green: byte, blue: byte, alpha: byte)

  /** The colour SetHighColor(0, 0, 0) selects (Haiku's alpha defaults to 255). */
  const Black: RgbColor := RgbColor(0, 0, 0, 255)

  /** `x >> (8 * k)` for a non-negative x: the shifts by 8, 16 and 24 the
      colour unpacking uses are divisions by 2^8, 2^16 and 2^24. */
  function Shr(x: int, k: nat): (r: int)
    requires x >= 0
    ensures r >= 0
    ensures k == 1 ==> r == x / 0x100
    ensures k == 2 ==> r == x / 0x1_0000
    ensures k == 3 ==> r == x / 0x100_0000
  {
    if k == 0 then x else Shr(x / 0x100, k - 1)
  }

  /** `(x >> (8 * k)) & 0xFF`: byte number k, counting from the least
      significant one. */
  function ByteAt(x: int, k: nat): byte
    requires x >= 0
  {
    (Shr(x, k) % 0x100) as byte
  }

  /** A 32-bit word is the sum of its four bytes; its top byte is the word shifted right by 24. */
  lemma WordBytes(x: int)
    requires 0 <= x < 0x1_0000_0000
    ensures x == ByteAt(x, 0) as int + 0x100 * (ByteAt(x, 1) as int + 0x100 * (ByteAt(x, 2) as int + 0x100 * ByteAt(x, 3) as int))
    ensures ByteAt(x, 3) as int == Shr(x, 3)
  {
    var q1 := x / 0x100;
    var q2 := q1 / 0x100;
    var q3 := q2 / 0x100;
    assert q1 < 0x100_0000 && q2 < 0x1_0000 && q3 < 0x100;
    assert Shr(x, 1) == Shr(q1, 0) == q1;
    assert Shr(x, 2) == Shr(q1, 1) == Shr(q2, 0) == q2;
    assert Shr(x, 3) == Shr(q1, 2) == Shr(q2, 1) == Shr(q3, 0) == q3;
  }

  /** The effective alpha of a packed nanosvg colour 0xAABBGGRR: its top
      byte, except that a top byte of 0 is read as fully opaque. */
  function SourceAlpha(color: uint32): byte
  {
    if ByteAt(color as int, 3) == 0 then 255 else ByteAt(color as int, 3)
  }

  /** Packs the four channels back into a 0xAABBGGRR word. */
  function Pack(c: RgbColor): int
  {
    c.red as int + 0x100 * (c.green as int + 0x100 * (c.blue as int + 0x100 * c.alpha as int))
  }

  lemma ProductBounds(a: real, opacity: real)
    requires 0.0 <= a && 0.0 <= opacity <= 1.0
    ensures 0.0 <= a * opacity <= a
  {
  }

  /** A float-to-integer cast of a non-negative value: truncation toward zero. */
  function Truncate(p: real, bound: int): (r: int)
    requires 0.0 <= p <= bound as real
    ensures r as real <= p < r as real + 1.0
    ensures 0 <= r <= bound
  {
    p.Floor
  }

  /** `(uint8)(alpha * opacity)`: the product of an alpha byte and an
      opacity in [0, 1], truncated. */
  function ScaleAlpha(alpha: int, opacity: real): (r: int)
    requires 0 <= alpha < 0x100 && 0.0 <= opacity <= 1.0
    ensures r as real <= alpha as real * opacity < r as real + 1.0
    ensures 0 <= r <= alpha
    ensures opacity == 1.0 ==> r == alpha
  {
    ProductBounds(alpha as real, opacity);
    Truncate(alpha as real * opacity, alpha)
  }

  /** BSVGView.cpp:423-439.  Red, green and blue are bits 0-7, 8-15 and
      16-23 of the word; the alpha is the effective alpha scaled by the
      opacity and truncated. */
  function ConvertColor(color: uint32, opacity: real): (r: RgbColor)
    requires 0.0 <= opacity <= 1.0
    ensures color as int == r.red as int + 0x100 * (r.green as int + 0x100 * (r.blue as int + 0x100 * ByteAt(color as int, 3) as int))
    ensures r.alpha as int == ScaleAlpha(SourceAlpha(color) as int, opacity)
    ensures r.alpha <= SourceAlpha(color)
    ensures opacity == 1.0 ==> r.alpha == SourceAlpha(color)
  {
    var x := color as int;
    var alpha := ByteAt(x, 3);
    var alpha := if alpha == 0 && Shr(x, 3) == 0 then 255 else alpha;
    WordBytes(x);
    RgbColor(ByteAt(x, 0), ByteAt(x, 1), ByteAt(x, 2), ScaleAlpha(alpha as int, opacity) as byte)
  }

  /** At full opacity a colour with a non-zero alpha byte unpacks losslessly. */
  lemma ConvertColorRoundTrip(color: uint32)
    requires ByteAt(color as int, 3) != 0
    ensures Pack(ConvertColor(color, 1.0)) == color as int
  {
  }

  /** At full opacity a colour whose alpha byte is 0 comes out fully opaque
      and otherwise unchanged. */
  lemma ConvertColorZeroAlpha(color: uint32)
    requires ByteAt(color as int, 3) == 0
    ensures Pack(ConvertColor(color, 1.0)) == color as int + 0xFF00_0000
  {
  }
}
