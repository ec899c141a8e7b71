/** Straight and premultiplied colours (crates/otter-gfx/src/color.rs). */
module Colors {
  import opened Bytes
  import opened Congruence

  datatype Color = Color(r: Byte, g: Byte, b: Byte, a: Byte)

  /** A premultiplied pixel word: alpha, red, green and blue from the top byte down. */
  type Argb = p: int | 0 <= p < 0x1_0000_0000

  /** x / 255 by adding and shifting twice. */
  function Div255(x: nat): nat {
    var t := x + 128;
    (t + t / 256) / 256
  }

  /** For products of two bytes the result is the quotient rounded to nearest. */
  lemma Div255Rounds(x: nat)
    requires x <= 65025
    ensures -127 <= x - 255 * Div255(x) <= 127
  {
    var t := x + 128;
    var h := t / 256;
    var q := (t + h) / 256;
    assert t == 256 * h + t % 256;
  }

  lemma Div255Is(x: nat, q: nat)
    requires x <= 65025 && -127 <= x - 255 * q <= 127
    ensures Div255(x) == q
  {
    Div255Rounds(x);
  }

  function Pack(a: Byte, r: Byte, g: Byte, b: Byte): Argb {
    a * 0x100_0000 + r * 0x1_0000 + g * 0x100 + b
  }

  function Alpha(p: Argb): Byte { p / 0x100_0000 }
  function Red(p: Argb): Byte { p / 0x1_0000 % 256 }
  function Green(p: Argb): Byte { p / 0x100 % 256 }
  function Blue(p: Argb): Byte { p % 256 }

  lemma PackUnpack(a: Byte, r: Byte, g: Byte, b: Byte)
    ensures var p := Pack(a, r, g, b); Alpha(p) == a && Red(p) == r && Green(p) == g && Blue(p) == b
  {
    var p: int, x: int, y: int, z: int, w: int := Pack(a, r, g, b), a, r, g, b;
    QuotientIs(p, 0x100_0000, x, y * 0x1_0000 + z * 0x100 + w);
    QuotientIs(p, 0x1_0000, x * 256 + y, z * 0x100 + w);
    QuotientIs(p, 0x100, x * 0x1_0000 + y * 256 + z, w);
  }

  lemma UnpackPack(p: Argb)
    ensures Pack(Alpha(p), Red(p), Green(p), Blue(p)) == p
  {
    var x: nat := p;
    DivDiv(x, 0x100, 0x100);
    DivDiv(x, 0x1_0000, 0x100);
    var p1, p2, p3 := x / 0x100, x / 0x1_0000, x / 0x100_0000;
    assert x == 256 * p1 + x % 256 && p1 == 256 * p2 + p1 % 256 && p2 == 256 * p3 + p2 % 256;
  }

  function Scaled(c: Byte, a: Byte): (s: Byte)
  {
    ScaledBelow(c, a);
    Div255(c * a)
  }

  lemma ScaledBelow(c: Byte, a: Byte)
    ensures 0 <= c * a <= 65025 && Div255(c * a) <= a
  {
    var x: nat, y: nat := c, a;
    MulMono(x, y, 255);
    MulMono(y, x, 255);
    assert y * x == x * y && x * 255 <= 65025 && x * y <= 255 * y;
    Div255Rounds(x * y);
  }

  /** The colour packed with its channels scaled by alpha. */
  function Premul(c: Color): Argb {
    Pack(c.a, Scaled(c.r, c.a), Scaled(c.g, c.a), Scaled(c.b, c.a))
  }

  /** One channel recovered. */
  function Unscaled(c: Byte, a: Byte): Byte
    requires a > 0
  {
    var u := (c * 255 + a / 2) / a;
    if u > 255 then 255 else u
  }

  /** The channel that scaled by alpha comes nearest; a channel above alpha can only be full. */
  lemma UnscaledNearest(c: Byte, a: Byte)
    requires a > 0
    ensures var u: int, x: int, y: int := Unscaled(c, a), c, a;
            if c <= a then -y <= 2 * (255 * x - y * u) <= y else u == 255
  {
    var x: nat, y: nat := c, a;
    var n := x * 255 + y / 2;
    var q := n / y;
    assert n == y * q + n % y;
    if c <= a {
      if q > 255 { MulMono(y, 256, q); }
    } else if q < 255 {
      MulMono(y, q, 254);
    }
  }

  function Unpremul(p: Argb): Color {
    var a := Alpha(p);
    if a == 0 then Color(0, 0, 0, 0)
    else Color(Unscaled(Red(p), a), Unscaled(Green(p), a), Unscaled(Blue(p), a), a)
  }

  /** No channel exceeds alpha, as in every pixel that premultiplying produces. */
  predicate Premultiplied(p: Argb) { Red(p) <= Alpha(p) && Green(p) <= Alpha(p) && Blue(p) <= Alpha(p) }

  /** A channel survives being divided by alpha and multiplied by it again. */
  lemma ChannelRoundTrip(c: Byte, a: Byte)
    requires 0 < a && c <= a
    ensures Scaled(Unscaled(c, a), a) == c
  {
    var x: nat, y: nat := c, a;
    var n := x * 255 + y / 2;
    var u := n / y;
    assert n == y * u + n % y;
    if u > 255 { MulMono(y, 256, u); }
    assert u <= 255;
    assert -127 <= y * u - 255 * x <= 127;
    assert u * y == y * u;
    ScaledBelow(u, a);
    Div255Is(u * y, x);
  }

  /** Unpremultiplying loses nothing that premultiplying does not give back. */
  lemma PixelRoundTrip(p: Argb)
    requires Premultiplied(p)
    ensures Premul(Unpremul(p)) == p
  {
    hide Scaled, Unscaled;
    var a := Alpha(p);
    UnpackPack(p);
    if a == 0 {
      ScaledZero();
    } else {
      ChannelRoundTrip(Red(p), a);
      ChannelRoundTrip(Green(p), a);
      ChannelRoundTrip(Blue(p), a);
    }
  }

  lemma ScaledZero()
    ensures Scaled(0, 0) == 0
  {
  }

  /** The round trip holds for no other pixels: channels above alpha are cut off. */
  lemma RoundTripIffPremultiplied(p: Argb)
    ensures Premul(Unpremul(p)) == p <==> Premultiplied(p)
  {
    hide Scaled, Unscaled;
    if Premultiplied(p) {
      PixelRoundTrip(p);
    } else {
      var c := Unpremul(p);
      ScaledBelow(c.r, c.a);
      ScaledBelow(c.g, c.a);
      ScaledBelow(c.b, c.a);
      ScaledIs(c.r, c.a);
      ScaledIs(c.g, c.a);
      ScaledIs(c.b, c.a);
      PackUnpack(c.a, Scaled(c.r, c.a), Scaled(c.g, c.a), Scaled(c.b, c.a));
    }
  }

  lemma ScaledIs(c: Byte, a: Byte)
    ensures Scaled(c, a) <= a
  {
    ScaledBelow(c, a);
  }
}
