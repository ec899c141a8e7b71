/** What the bytes of an unfiltered image show (crates/otter-gfx/src/png.rs): the colour types of the PNG
    specification by channel, sample by sample, and the chunks they come from by name. */
module PngPixels {
  import opened Bytes
  import opened Options
  import opened Colors
  import opened Congruence
  import opened PngChunks
  import opened Png

  // ---------- layout ----------

  /** The combinations of colour type and depth of the PNG specification. */
  lemma DepthsAllowed(t: Byte, d: Byte)
    ensures ValidDepth(t, d) <==>
            (t, d) in {(0, 1), (0, 2), (0, 4), (0, 8), (0, 16), (2, 8), (2, 16), (3, 1), (3, 2), (3, 4), (3, 8),
                       (4, 8), (4, 16), (6, 8), (6, 16)}
  {
  }

  /** Rows are as short as whole bytes allow; the filters look back by one pixel, or by one byte within bytes. */
  lemma Layout(h: Ihdr)
    requires ValidDepth(h.colorType, h.bitDepth)
    ensures var t, d: nat, w := h.colorType, h.bitDepth, h.width;
            var n := if t == 2 then 3 else if t == 4 then 2 else if t == 6 then 4 else 1;
            && 8 * RowBytes(h) - 8 < d * (n * w) <= 8 * RowBytes(h)
            && (d >= 8 ==> 8 * FilterStep(h) == n * d)
            && (d < 8 ==> FilterStep(h) == 1)
  {
    var d: nat, n := h.bitDepth, ChannelsFor(h.colorType);
    assert d * (n * h.width) == n * d * h.width;
  }

  /** The row is long enough for sample k. */
  predicate Holds(row: ByteString, d: Byte, k: nat) { d in {1, 2, 4, 8, 16} && d * (k + 1) <= 8 * |row| }

  /** Sample k of a row of d-bit samples: some bits of a byte, the first of them the highest, a byte or two bytes. */
  function Level(row: ByteString, d: Byte, k: nat): nat
    requires Holds(row, d, k)
  {
    if d == 1 then row[k / 8] / [128, 64, 32, 16, 8, 4, 2, 1][k % 8] % 2
    else if d == 2 then row[k / 4] / [64, 16, 4, 1][k % 4] % 4
    else if d == 4 then row[k / 2] / [16, 1][k % 2] % 16
    else if d == 8 then row[k]
    else
      var high: nat, low: nat := row[2 * k], row[2 * k + 1];
      256 * high + low
  }

  lemma SmallPowers()
    ensures Pow(2, 0) == 1 && Pow(2, 1) == 2 && Pow(2, 2) == 4 && Pow(2, 3) == 8 && Pow(2, 4) == 16
    ensures Pow(2, 5) == 32 && Pow(2, 6) == 64 && Pow(2, 7) == 128
  {
    PowAdd(2, 1, 1);
    PowAdd(2, 1, 2);
    PowAdd(2, 2, 2);
    PowAdd(2, 1, 4);
    PowAdd(2, 2, 4);
    PowAdd(2, 3, 4);
  }

  lemma LevelIs(row: ByteString, d: Byte, k: nat)
    requires Holds(row, d, k)
    ensures Level(row, d, k) == Sample(row, d, k)
  {
    hide Sample, Pow;
    SmallPowers();
    if d == 1 {
      SampleInByte(row, 1, k, k);
    } else if d == 2 {
      Within(k, 4, 2);
      SampleInByte(row, 2, k, 2 * k);
    } else if d == 4 {
      Within(k, 2, 4);
      SampleInByte(row, 4, k, 4 * k);
    } else if d == 8 {
      SampleByte(row, k);
    } else {
      SamplePair(row, k);
    }
  }

  /** Beyond the end of a row the samples are zero. */
  lemma BeyondIsZero(row: ByteString, d: Byte, k: nat)
    requires d in {1, 2, 4, 8, 16} && 8 * |row| <= d * k
    ensures Sample(row, d, k) == 0
  {
    hide Sample, Pow;
    SmallPowers();
    if d == 1 {
      SampleInByte(row, 1, k, k);
    } else if d == 2 {
      Within(k, 4, 2);
      SampleInByte(row, 2, k, 2 * k);
    } else if d == 4 {
      Within(k, 2, 4);
      SampleInByte(row, 4, k, 4 * k);
    } else if d == 8 {
      SampleByte(row, k);
    } else {
      SamplePair(row, k);
    }
  }

  lemma Within(k: nat, n: nat, d: nat)
    requires (n, d) in {(4, 2), (2, 4)}
    ensures d * k / 8 == k / n && d * k % 8 == d * (k % n)
  {
    assert k == n * (k / n) + k % n;
  }

  // ---------- channels ----------

  /** A level on a scale of d bits moved to a scale of eight: the same fraction of white, but cut from sixteen. */
  predicate SameLevel(e: Byte, v: nat, d: Byte)
    requires d in {1, 2, 4, 8, 16}
  {
    if d == 1 then e == 255 * v else if d == 2 then 3 * e == 255 * v else if d == 4 then 15 * e == 255 * v
    else if d == 8 then e == v else 256 * e <= v < 256 * (e + 1)
  }

  /** One more than the highest level. */
  function Levels(d: Byte): nat {
    if d == 1 then 2 else if d == 2 then 4 else if d == 4 then 16 else if d == 8 then 256 else 0x1_0000
  }

  lemma Expanded(v: nat, d: Byte)
    requires d in {1, 2, 4, 8, 16} && v < Levels(d)
    ensures SameLevel(ExpandTo8(v, d), v, d)
  {
    if d == 2 {
      assert v * 85 < 256;
    } else if d == 4 {
      assert v * 17 < 256;
    } else if d == 16 {
      assert v / 256 < 256;
    }
  }

  /** Entry j of a tRNS chunk for grey or colour images, sixteen bits with the high byte first, is this level. */
  predicate Keyed(t: ByteString, j: nat, v: nat)
    requires 2 * j + 1 < |t|
  {
    t[2 * j] == v / 256 && t[2 * j + 1] == v % 256
  }

  /** The colour of pixel x by its channels in the row: grey, colour, palette, grey with alpha, colour with alpha. */
  predicate Shows(c: Color, h: Ihdr, plte: ByteString, trns: Option<ByteString>, row: ByteString, x: nat)
    requires ValidDepth(h.colorType, h.bitDepth) && x < h.width && |row| == RowBytes(h)
  {
    if h.colorType == 0 then ShowsGrey(c, h.bitDepth, trns, row, x)
    else if h.colorType == 2 then ShowsColour(c, h.bitDepth, trns, row, x)
    else if h.colorType == 3 then ShowsEntry(c, h.bitDepth, plte, trns, row, x)
    else if h.colorType == 4 then ShowsGreyAlpha(c, h.bitDepth, row, x)
    else ShowsAll(c, h.bitDepth, row, x)
  }

  predicate ShowsGrey(c: Color, d: Byte, trns: Option<ByteString>, row: ByteString, x: nat) {
    && Holds(row, d, x)
    && SameLevel(c.r, Level(row, d, x), d) && c.g == c.r && c.b == c.r
    && c.a == if trns.Some? && |trns.value| >= 2 && Keyed(trns.value, 0, Level(row, d, x)) then 0 else 255
  }

  predicate ShowsColour(c: Color, d: Byte, trns: Option<ByteString>, row: ByteString, x: nat) {
    && Holds(row, d, 3 * x) && Holds(row, d, 3 * x + 1) && Holds(row, d, 3 * x + 2)
    && var r, g, b := Level(row, d, 3 * x), Level(row, d, 3 * x + 1), Level(row, d, 3 * x + 2);
    && SameLevel(c.r, r, d) && SameLevel(c.g, g, d) && SameLevel(c.b, b, d)
    && c.a == if && trns.Some? && |trns.value| >= 6
                 && Keyed(trns.value, 0, r) && Keyed(trns.value, 1, g) && Keyed(trns.value, 2, b) then 0 else 255
  }

  predicate ShowsEntry(
    c: Color, d: Byte, plte: ByteString, trns: Option<ByteString>, row: ByteString, x: nat) {
    && Holds(row, d, x)
    && var i := Level(row, d, x);
    && [c.r, c.g, c.b] == (if 3 * i + 3 <= |plte| then plte[3 * i..3 * i + 3] else [0, 0, 0])
    && c.a == if trns.Some? && i < |trns.value| then trns.value[i] else 255
  }

  predicate ShowsGreyAlpha(c: Color, d: Byte, row: ByteString, x: nat) {
    && Holds(row, d, 2 * x) && Holds(row, d, 2 * x + 1)
    && SameLevel(c.r, Level(row, d, 2 * x), d) && c.g == c.r && c.b == c.r
    && SameLevel(c.a, Level(row, d, 2 * x + 1), d)
  }

  predicate ShowsAll(c: Color, d: Byte, row: ByteString, x: nat) {
    && Holds(row, d, 4 * x) && Holds(row, d, 4 * x + 1) && Holds(row, d, 4 * x + 2) && Holds(row, d, 4 * x + 3)
    && SameLevel(c.r, Level(row, d, 4 * x), d) && SameLevel(c.g, Level(row, d, 4 * x + 1), d)
    && SameLevel(c.b, Level(row, d, 4 * x + 2), d) && SameLevel(c.a, Level(row, d, 4 * x + 3), d)
  }

  /** The samples of pixel x lie within the row. */
  lemma Places(h: Ihdr, x: nat, row: ByteString)
    requires ValidDepth(h.colorType, h.bitDepth) && x < h.width && |row| == RowBytes(h)
    ensures forall k: nat | k < ChannelsFor(h.colorType) * (x + 1) :: Holds(row, h.bitDepth, k)
    ensures ChannelsFor(h.colorType) * (x + 1) <= ChannelsFor(h.colorType) * h.width
  {
    var n, d: nat := ChannelsFor(h.colorType), h.bitDepth;
    MulMono(n, x + 1, h.width);
    forall k: nat | k < n * (x + 1) ensures Holds(row, h.bitDepth, k) {
      PlaceFits(d, n, h.width, k);
    }
  }

  lemma PlaceFits(d: nat, n: nat, w: nat, k: nat)
    requires k < n * w
    ensures d * (k + 1) <= n * d * w
  {
    MulMono(d, k + 1, n * w);
    assert d * (n * w) == n * d * w;
  }

  lemma LevelBound(row: ByteString, d: Byte, k: nat)
    requires Holds(row, d, k)
    ensures Level(row, d, k) < Levels(d)
  {
  }

  lemma KeyedIs(t: ByteString, j: nat, v: nat)
    requires 2 * j + 1 < |t| && v < 0x1_0000
    ensures Pair(t, 2 * j) == v <==> Keyed(t, j, v)
  {
  }

  lemma OneKeyed(v: nat, trns: Option<ByteString>)
    requires v < 0x1_0000
    ensures IsTransparent([v], trns) <==> trns.Some? && |trns.value| >= 2 && Keyed(trns.value, 0, v)
  {
    hide Keyed, Pair;
    if trns.Some? && |trns.value| >= 2 { KeyedIs(trns.value, 0, v); }
  }

  lemma ThreeKeyed(r: nat, g: nat, b: nat, trns: Option<ByteString>)
    requires r < 0x1_0000 && g < 0x1_0000 && b < 0x1_0000
    ensures IsTransparent([r, g, b], trns) <==>
            && trns.Some? && |trns.value| >= 6
            && Keyed(trns.value, 0, r) && Keyed(trns.value, 1, g) && Keyed(trns.value, 2, b)
  {
    hide Keyed, Pair;
    if trns.Some? && |trns.value| >= 6 {
      var s := [r, g, b];
      KeyedIs(trns.value, 0, r);
      KeyedIs(trns.value, 1, g);
      KeyedIs(trns.value, 2, b);
      assert s[0] == r && s[1] == g && s[2] == b;
      assert Pair(trns.value, 2 * 1) == Pair(trns.value, 2) && Pair(trns.value, 2 * 2) == Pair(trns.value, 4);
    }
  }

  /** A sample of the row, its level and its byte. */
  lemma SampleShown(h: Ihdr, row: ByteString, x: nat, k: nat)
    requires ValidDepth(h.colorType, h.bitDepth) && x < h.width && |row| == RowBytes(h)
    requires k < ChannelsFor(h.colorType) * (x + 1)
    ensures k < |Samples(h, row)| && Holds(row, h.bitDepth, k)
    ensures var v := Level(row, h.bitDepth, k);
            && Samples(h, row)[k] == v && v < 0x1_0000 && SameLevel(ExpandTo8(v, h.bitDepth), v, h.bitDepth)
  {
    hide Sample, Level, RowBytes, ExpandTo8, SameLevel, Holds, Levels;
    var d := h.bitDepth;
    Places(h, x, row);
    assert Holds(row, d, k);
    LevelIs(row, d, k);
    LevelBound(row, d, k);
    LevelsFit(d);
    Expanded(Level(row, d, k), d);
  }

  lemma LevelsFit(d: Byte)
    ensures Levels(d) <= 0x1_0000
  {
  }

  /** Every pixel a row decodes to is the one its channels show. */
  lemma ColorShown(h: Ihdr, plte: ByteString, trns: Option<ByteString>, row: ByteString, x: nat)
    requires ValidDepth(h.colorType, h.bitDepth) && x < h.width && |row| == RowBytes(h)
    ensures Shows(PixelColor(h, plte, trns, row, x), h, plte, trns, row, x)
  {
    hide Samples, Level, RowBytes, ExpandTo8, SameLevel, Holds, IsTransparent, Keyed;
    var n := ChannelsFor(h.colorType);
    SampleShown(h, row, x, n * x);
    if n > 1 { SampleShown(h, row, x, n * x + 1); }
    if n > 2 { SampleShown(h, row, x, n * x + 2); }
    if n > 3 { SampleShown(h, row, x, n * x + 3); }
    if h.colorType == 0 {
      OneKeyed(Level(row, h.bitDepth, x), trns);
    } else if h.colorType == 2 {
      ThreeKeyed(
        Level(row, h.bitDepth, 3 * x), Level(row, h.bitDepth, 3 * x + 1), Level(row, h.bitDepth, 3 * x + 2), trns);
    }
  }
}
