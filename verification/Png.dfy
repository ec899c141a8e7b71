/** Whole PNG files (crates/otter-gfx/src/png.rs): samples, pixels, decoding, encoding. */
module Png {
  import opened Bytes
  import opened Options
  import opened BitStreams
  import opened Colors
  import opened Huffman
  import opened PngChunks
  import opened PngFilters
  import opened Congruence
  import Endian
  import Zlib

  datatype Surface = Surface(w: nat, h: nat, stride: nat, px: seq<Argb>)

  function ChannelsFor(colorType: Byte): nat {
    if colorType == 0 || colorType == 3 then 1
    else if colorType == 2 then 3 else if colorType == 4 then 2 else if colorType == 6 then 4 else 0
  }

  predicate ValidDepth(colorType: Byte, depth: Byte) {
    if colorType == 0 then depth in {1, 2, 4, 8, 16}
    else if colorType == 2 || colorType == 4 || colorType == 6 then depth in {8, 16}
    else if colorType == 3 then depth in {1, 2, 4, 8}
    else false
  }

  // ---------- samples ----------

  /** A byte of a row, zero beyond its end. */
  function ByteAt(row: ByteString, i: nat): Byte { if i < |row| then row[i] else 0 }

  /** The bits of sample i: samples follow each other from the most significant bit of each byte down. */
  function SampleBits(row: ByteString, depth: nat, i: nat): (b: Bits)
    ensures |b| == depth
  {
    assert depth * i >= 0;
    seq(depth, t requires 0 <= t < depth => RowBit(row, depth * i + t))
  }

  function RowBit(row: ByteString, k: nat): bool { BitOf(ByteAt(row, k / 8), 7 - k % 8) }

  /** The number those bits spell, most significant first. */
  function Sample(row: ByteString, depth: nat, i: nat): nat { MsbValue(SampleBits(row, depth, i)) }

  lemma {:induction false} MsbConcat(a: Bits, b: Bits)
    ensures MsbValue(a + b) == MsbValue(a) * Pow(2, |b|) + MsbValue(b)
    decreases |b|
  {
    hide Pow;
    if b == [] {
      assert a + b == a;
      NoPower();
    } else {
      var n := |b| - 1;
      MsbConcat(a, b[..n]);
      assert (a + b)[..|a| + n] == a + b[..n];
      DoubledProduct(MsbValue(a), n);
    }
  }

  lemma DoubledProduct(x: nat, n: nat)
    ensures 2 * (x * Pow(2, n)) == x * Pow(2, n + 1)
  {
  }

  lemma NoPower()
    ensures Pow(2, 0) == 1
  {
  }

  /** Shifting and masking a byte cuts a piece out of its bits. */
  lemma ByteWindow(b: Byte, off: nat, d: nat)
    requires off + d <= 8
    ensures MsbValue(MsbBits(b, 8)[off..off + d]) == b / Pow(2, 8 - d - off) % Pow(2, d)
  {
    hide MsbBits, MsbValue, Pow;
    var w := MsbBits(b, 8);
    WholeByteValue();
    WordPrefixValue(b, 8, off + d);
    assert w[..off + d] == w[..off] + w[off..off + d];
    MsbConcat(w[..off], w[off..off + d]);
    MsbInverse(w[off..off + d]);
    var high, size := MsbValue(w[..off]), Pow(2, d);
    assert high * size == size * high;
    RemainderIs(b / Pow(2, 8 - d - off), size, high, MsbValue(w[off..off + d]));
  }

  lemma SameByte(row: ByteString, k: nat, t: nat)
    requires k % 8 + t < 8
    ensures RowBit(row, k + t) == BitOf(ByteAt(row, k / 8), 7 - (k % 8 + t))
  {
    hide BitOf, ByteAt;
    assert k == 8 * (k / 8) + k % 8;
    assert (k + t) / 8 == k / 8 && (k + t) % 8 == k % 8 + t;
  }

  /** A sample within one byte. */
  lemma SampleInByte(row: ByteString, d: nat, i: nat, k: nat)
    requires k == d * i && k % 8 + d <= 8
    ensures Sample(row, d, i) == ByteAt(row, k / 8) / Pow(2, 8 - d - k % 8) % Pow(2, d)
  {
    hide Pow, MsbValue, BitOf, ByteAt;
    var b, off := ByteAt(row, k / 8), k % 8;
    ByteWindow(b, off, d);
    forall t: nat | t < d ensures SampleBits(row, d, i)[t] == MsbBits(b, 8)[off..off + d][t] {
      SameByte(row, k, t);
      assert SampleBits(row, d, i)[t] == RowBit(row, k + t);
      assert MsbBits(b, 8)[off..off + d][t] == MsbBits(b, 8)[off + t] == BitOf(b, 7 - (off + t));
    }
    assert SampleBits(row, d, i) == MsbBits(b, 8)[off..off + d];
  }

  lemma SampleByte(row: ByteString, i: nat)
    ensures Sample(row, 8, i) == ByteAt(row, i)
  {
    hide Pow, Sample;
    SampleInByte(row, 8, i, 8 * i);
    NoPower();
    WholeByteValue();
  }

  lemma SamplePair(row: ByteString, i: nat)
    ensures var hi: nat, lo: nat := ByteAt(row, 2 * i), ByteAt(row, 2 * i + 1); Sample(row, 16, i) == 256 * hi + lo
  {
    hide Pow, MsbValue;
    var b := SampleBits(row, 16, i);
    assert b[..8] == SampleBits(row, 8, 2 * i) && b[8..] == SampleBits(row, 8, 2 * i + 1);
    assert b == b[..8] + b[8..];
    MsbConcat(b[..8], b[8..]);
    WholeByteValue();
    SampleByte(row, 2 * i);
    SampleByte(row, 2 * i + 1);
  }

  /** The first count samples of a row, by bytes, by pairs of bytes, or by shifting within bytes. */
  method UnpackSamples(row: ByteString, depth: nat, count: nat) returns (out: seq<nat>)
    requires depth in {1, 2, 4, 8, 16}
    ensures |out| == count && forall i :: 0 <= i < count ==> out[i] == Sample(row, depth, i)
  {
    hide Sample, ByteAt, Pow;
    out := [];
    if depth == 16 {
      for i := 0 to count
        invariant |out| == i && forall j :: 0 <= j < i ==> out[j] == Sample(row, depth, j)
      {
        SamplePair(row, i);
        var hi: nat, lo: nat := ByteAt(row, i * 2), ByteAt(row, i * 2 + 1);
        out := out + [hi * 256 + lo];
      }
    } else if depth == 8 {
      for i := 0 to count
        invariant |out| == i && forall j :: 0 <= j < i ==> out[j] == Sample(row, depth, j)
      {
        SampleByte(row, i);
        out := out + [ByteAt(row, i)];
      }
    } else {
      var bitPos := 0;
      for i := 0 to count
        invariant |out| == i && bitPos == depth * i && bitPos % 8 + depth <= 8
        invariant forall j :: 0 <= j < i ==> out[j] == Sample(row, depth, j)
      {
        SampleInByte(row, depth, i, bitPos);
        var byte: nat := ByteAt(row, bitPos / 8);
        out := out + [byte / Pow(2, 8 - depth - bitPos % 8) % Pow(2, depth)];
        NextOffset(bitPos, depth, i);
        bitPos := bitPos + depth;
      }
    }
  }

  lemma NextOffset(k: nat, d: nat, i: nat)
    requires d in {1, 2, 4} && k == d * i && k % 8 + d <= 8
    ensures k + d == d * (i + 1) && (k + d) % 8 + d <= 8
  {
    assert d * (i + 1) == d * i + d;
    if d == 1 {
      assert k == i;
    } else if d == 2 {
      assert k == 2 * i;
    } else {
      assert k == 4 * i;
    }
  }

  /** A sample scaled to eight bits. */
  function ExpandTo8(sample: nat, depth: Byte): Byte {
    if depth == 1 then (if sample != 0 then 255 else 0)
    else if depth == 2 then sample * 85 % 256
    else if depth == 4 then sample * 17 % 256
    else if depth == 16 then sample / 256 % 256
    else sample % 256
  }

  /** A big-endian pair of bytes. */
  function Pair(b: ByteString, i: nat): nat
    requires i + 1 < |b|
  {
    var hi: nat, lo: nat := b[i], b[i + 1];
    256 * hi + lo
  }

  /** Whether a grey or colour sample is the one the tRNS chunk makes transparent. */
  predicate IsTransparent(samples: seq<nat>, trns: Option<ByteString>) {
    && trns.Some? && |trns.value| >= 2 * |samples|
    && forall i :: 0 <= i < |samples| ==> samples[i] == Pair(trns.value, 2 * i)
  }

  /** The colour of pixel x, from the samples of its row. */
  function ColorOf(h: Ihdr, plte: ByteString, trns: Option<ByteString>, s: seq<nat>, x: nat): Color
    requires ValidDepth(h.colorType, h.bitDepth) && |s| == ChannelsFor(h.colorType) * h.width && x < h.width
  {
    var d := h.bitDepth;
    if h.colorType == 0 then
      var e := ExpandTo8(s[x], d);
      Color(e, e, e, if IsTransparent([s[x]], trns) then 0 else 255)
    else if h.colorType == 2 then
      var r, g, b := s[3 * x], s[3 * x + 1], s[3 * x + 2];
      Color(ExpandTo8(r, d), ExpandTo8(g, d), ExpandTo8(b, d), if IsTransparent([r, g, b], trns) then 0 else 255)
    else if h.colorType == 3 then
      var i := s[x];
      var a := if trns.Some? && i < |trns.value| then trns.value[i] else 255;
      if i * 3 + 2 < |plte| then Color(plte[i * 3], plte[i * 3 + 1], plte[i * 3 + 2], a) else Color(0, 0, 0, a)
    else if h.colorType == 4 then
      var v := ExpandTo8(s[2 * x], d);
      Color(v, v, v, ExpandTo8(s[2 * x + 1], d))
    else
      Color(ExpandTo8(s[4 * x], d), ExpandTo8(s[4 * x + 1], d), ExpandTo8(s[4 * x + 2], d), ExpandTo8(s[4 * x + 3], d))
  }

  /** All samples of a row. */
  function Samples(h: Ihdr, row: ByteString): (s: seq<nat>)
    ensures |s| == ChannelsFor(h.colorType) * h.width
  {
    var n := ChannelsFor(h.colorType) * h.width;
    assert n >= 0;
    seq(n, i requires 0 <= i < n => Sample(row, h.bitDepth, i))
  }

  /** The colour of pixel x of an unfiltered row. */
  function PixelColor(h: Ihdr, plte: ByteString, trns: Option<ByteString>, row: ByteString, x: nat): Color
    requires ValidDepth(h.colorType, h.bitDepth) && x < h.width
  {
    ColorOf(h, plte, trns, Samples(h, row), x)
  }

  // ---------- decoding ----------

  /** The header and the data it describes, or the first thing wrong with the file. */
  ghost function Header(data: ByteString): PngResult<Parts> {
    if |data| < 8 || data[..8] != SIGNATURE then Failed(BadSignature) else
    match ReadFrom(data, 8, Parts(None, [], None, None, false))
    case Failed(e) => Failed(e)
    case Decoded(p) => Checked(p)
  }

  /** The checks between the chunks and the pixels, in order. */
  function Checked(p: Parts): (r: PngResult<Parts>)
    ensures r.Decoded? ==> r.image == p && p.ihdr.Some? && ValidDepth(p.ihdr.value.colorType, p.ihdr.value.bitDepth)
                           && (p.ihdr.value.colorType == 3 ==> p.plte.Some?)
  {
    if !p.end then Failed(Truncated)
    else if p.ihdr.None? then Failed(MissingIhdr)
    else
      var h := p.ihdr.value;
      if h.width == 0 || h.height == 0 then Failed(ZeroDimensions)
      else if h.interlace == 1 then Failed(Adam7NotSupported)
      else if h.interlace != 0 then Failed(InvalidIhdr)
      else if !ValidDepth(h.colorType, h.bitDepth) then Failed(InvalidIhdr)
      else if h.colorType == 3 && p.plte.None? then Failed(MissingPlte)
      else Decoded(p)
  }

  function BitsPerPixel(h: Ihdr): nat {
    var d: nat := h.bitDepth;
    ChannelsFor(h.colorType) * d
  }

  function RowBytes(h: Ihdr): nat { (BitsPerPixel(h) * h.width + 7) / 8 }

  /** Bytes to the corresponding byte of the pixel before, at least one. */
  function FilterStep(h: Ihdr): (b: nat)
    ensures b >= 1
  {
    var b := (BitsPerPixel(h) + 7) / 8;
    if b < 1 then 1 else b
  }

  /** The image is the one whose filtering the raw data begins with. */
  predicate UnfiltersTo(raw: ByteString, h: Ihdr, image: ByteString) {
    var w := RowBytes(h);
    && RowStart(w + 1, h.height) <= |raw| && |image| == RowStart(w, h.height)
    && ValidTypes(Types(raw, w, h.height))
    && FilterImage(Types(raw, w, h.height), w, FilterStep(h), image, h.height) == raw[..RowStart(w + 1, h.height)]
  }

  /** A surface with no padding whose pixels are those of the unfiltered rows. */
  predicate ShowsImage(s: Surface, p: Parts, image: ByteString)
    requires p.ihdr.Some? && ValidDepth(p.ihdr.value.colorType, p.ihdr.value.bitDepth)
    requires |image| == RowStart(RowBytes(p.ihdr.value), p.ihdr.value.height)
  {
    var h := p.ihdr.value;
    && s.w == h.width && s.h == h.height && s.stride == h.width && |s.px| == RowStart(h.width, h.height)
    && forall y: nat, x: nat :: y < h.height && x < h.width ==> PixelShown(s, p, image, y, x)
  }

  predicate PixelShown(s: Surface, p: Parts, image: ByteString, y: nat, x: nat)
    requires p.ihdr.Some? && ValidDepth(p.ihdr.value.colorType, p.ihdr.value.bitDepth)
    requires y < p.ihdr.value.height && x < p.ihdr.value.width
    requires |image| == RowStart(RowBytes(p.ihdr.value), p.ihdr.value.height)
    requires |s.px| == RowStart(p.ihdr.value.width, p.ihdr.value.height)
  {
    var h := p.ihdr.value;
    RowFits(h.width, y, h.height);
    RowFits(RowBytes(h), y, h.height);
    s.px[RowStart(h.width, y) + x] == Premul(PixelColor(h, Palette(p), p.trns, Row(image, RowBytes(h), y), x))
  }

  function Palette(p: Parts): ByteString { if p.plte.Some? then p.plte.value else [] }

  /** What decoding a file must give: the first error, or the surface its chunks describe. */
  ghost predicate Decodes(data: ByteString, r: PngResult<Surface>) {
    match Header(data)
    case Failed(e) => r == Failed(e)
    case Decoded(p) =>
      var h := p.ihdr.value;
      match Zlib.Contents(p.idat)
      case Err(e) => r == Failed(PngError.Inflate(e))
      case Ok(raw) =>
        if |raw| < RowStart(RowBytes(h) + 1, h.height) then r == Failed(Truncated)
        else if !ValidTypes(Types(raw, RowBytes(h), h.height)) then r == Failed(InvalidFilterType)
        else r.Decoded? && exists image :: UnfiltersTo(raw, h, image) && ShowsImage(r.image, p, image)
  }

  method DecodeRow(h: Ihdr, plte: ByteString, trns: Option<ByteString>, row: ByteString) returns (px: seq<Argb>)
    requires ValidDepth(h.colorType, h.bitDepth)
    ensures |px| == h.width
    ensures forall x :: 0 <= x < h.width ==> px[x] == Premul(PixelColor(h, plte, trns, row, x))
  {
    hide ColorOf, Premul, Sample;
    var samples := UnpackSamples(row, h.bitDepth, ChannelsFor(h.colorType) * h.width);
    assert samples == Samples(h, row);
    px := [];
    for x := 0 to h.width
      invariant |px| == x
      invariant forall i :: 0 <= i < x ==> px[i] == Premul(PixelColor(h, plte, trns, row, i))
    {
      px := px + [Premul(ColorOf(h, plte, trns, samples, x))];
    }
  }

  method DecodeRows(p: Parts, image: ByteString) returns (s: Surface)
    requires p.ihdr.Some? && ValidDepth(p.ihdr.value.colorType, p.ihdr.value.bitDepth)
    requires |image| == RowStart(RowBytes(p.ihdr.value), p.ihdr.value.height)
    ensures ShowsImage(s, p, image)
  {
    hide RowStart, PixelColor, Premul, RowBytes;
    var h := p.ihdr.value;
    var w := RowBytes(h);
    var px: seq<Argb> := [];
    NoRows(h.width);
    for y := 0 to h.height
      invariant |px| == RowStart(h.width, y) <= RowStart(h.width, h.height)
      invariant forall v: nat, x: nat :: v < y && x < h.width ==> PixelIn(px, p, image, v, x)
    {
      RowFits(w, y, h.height);
      RowFits(h.width, y, h.height);
      var row := image[RowStart(w, y)..RowStart(w, y + 1)];
      var line := DecodeRow(h, Palette(p), p.trns, row);
      ghost var before := px;
      px := px + line;
      forall v: nat, x: nat | v < y + 1 && x < h.width ensures PixelIn(px, p, image, v, x) {
        RowFits(h.width, v, y + 1);
        RowFits(w, v, h.height);
        if v < y {
          RowFits(h.width, v, y);
          assert PixelIn(before, p, image, v, x);
        }
      }
    }
    s := Surface(h.width, h.height, h.width, px);
    forall y: nat, x: nat | y < h.height && x < h.width ensures PixelShown(s, p, image, y, x) {
      assert PixelIn(px, p, image, y, x);
    }
  }

  predicate PixelIn(px: seq<Argb>, p: Parts, image: ByteString, y: nat, x: nat)
    requires p.ihdr.Some? && ValidDepth(p.ihdr.value.colorType, p.ihdr.value.bitDepth)
    requires |image| == RowStart(RowBytes(p.ihdr.value), p.ihdr.value.height)
  {
    var h := p.ihdr.value;
    && y < h.height && x < h.width && RowStart(h.width, y) + x < |px|
    && (RowFits(RowBytes(h), y, h.height);
        px[RowStart(h.width, y) + x] == Premul(PixelColor(h, Palette(p), p.trns, Row(image, RowBytes(h), y), x)))
  }

  lemma RowNotEmpty(p: Parts)
    requires Checked(p).Decoded?
    ensures RowBytes(p.ihdr.value) > 0
  {
    var h := p.ihdr.value;
    var d: nat, c := h.bitDepth, ChannelsFor(h.colorType);
    MulMono(c, 1, d);
    MulMono(c * d, 1, h.width);
  }

  method Decode(data: ByteString) returns (r: PngResult<Surface>)
    ensures Decodes(data, r)
  {
    hide ReadFrom, Zlib.Contents, RowStart, RowBytes, ShowsImage, FilterImage, Types;
    if |data| < 8 || data[..8] != SIGNATURE {
      return Failed(BadSignature);
    }
    var parts := ReadChunks(data, 8);
    if parts.Failed? {
      return Failed(parts.reason);
    }
    var p := parts.image;
    if !p.end {
      return Failed(Truncated);
    }
    if p.ihdr.None? {
      return Failed(MissingIhdr);
    }
    var h := p.ihdr.value;
    if h.width == 0 || h.height == 0 {
      return Failed(ZeroDimensions);
    }
    if h.interlace == 1 {
      return Failed(Adam7NotSupported);
    }
    if h.interlace != 0 || !ValidDepth(h.colorType, h.bitDepth) {
      return Failed(InvalidIhdr);
    }
    if h.colorType == 3 && p.plte.None? {
      return Failed(MissingPlte);
    }
    var inflated := Zlib.InflateZlib(p.idat);
    if inflated.Err? {
      return Failed(PngError.Inflate(inflated.error));
    }
    var raw := inflated.value;
    RowNotEmpty(p);
    var unfiltered := Unfilter(raw, RowBytes(h), h.height, FilterStep(h));
    if unfiltered.Failed? {
      return Failed(unfiltered.reason);
    }
    var s := DecodeRows(p, unfiltered.image);
    assert UnfiltersTo(raw, h, unfiltered.image) && ShowsImage(s, p, unfiltered.image);
    return Decoded(s);
  }

  // ---------- encoding ----------

  predicate WellShaped(s: Surface) { s.w <= s.stride && |s.px| == RowStart(s.stride, s.h) }

  function PixelOf(s: Surface, y: nat, x: nat): Argb
    requires WellShaped(s) && y < s.h && x < s.w
  {
    RowFits(s.stride, y, s.h);
    s.px[RowStart(s.stride, y) + x]
  }

  function PixelBytes(p: Argb): (b: ByteString)
    ensures |b| == 4
  {
    var c := Unpremul(p);
    [c.r, c.g, c.b, c.a]
  }

  /** The bytes of the first n pixels of a row. */
  function RowPixels(s: Surface, y: nat, n: nat): (b: ByteString)
    requires WellShaped(s) && y < s.h && n <= s.w
    ensures |b| == 4 * n
  {
    if n == 0 then [] else RowPixels(s, y, n - 1) + PixelBytes(PixelOf(s, y, n - 1))
  }

  /** The bytes of the first n rows, without and with their filter types. */
  function ImageBytes(s: Surface, n: nat): (b: ByteString)
    requires WellShaped(s) && n <= s.h
  {
    if n == 0 then [] else ImageBytes(s, n - 1) + RowPixels(s, n - 1, s.w)
  }

  function RawRows(s: Surface, n: nat): ByteString
    requires WellShaped(s) && n <= s.h
  {
    if n == 0 then [] else RawRows(s, n - 1) + ([0] + RowPixels(s, n - 1, s.w))
  }

  function IhdrData(s: Surface): ByteString {
    Endian.BeBytes(s.w, 4) + Endian.BeBytes(s.h, 4) + [8, 6, 0, 0, 0]
  }

  function FileChunks(s: Surface, z: ByteString): seq<Chunk> {
    [Chunk(IHDR, IhdrData(s)), Chunk(IDAT, z), Chunk(IEND, [])]
  }

  /** The signature and the three chunks, around a zlib stream. */
  function EncodedFile(s: Surface, z: ByteString): (b: ByteString)
    ensures |b| == |z| + 57
  {
    SIGNATURE + ChunkBytes(Chunk(IHDR, IhdrData(s))) + ChunkBytes(Chunk(IDAT, z)) + ChunkBytes(Chunk(IEND, []))
  }

  ghost predicate IsEncoding(out: ByteString, s: Surface)
    requires WellShaped(s)
  {
    exists z :: Zlib.IsFixedZlib(z, RawRows(s, s.h)) && out == EncodedFile(s, z)
  }

  method Encode(s: Surface) returns (out: ByteString)
    requires WellShaped(s)
    ensures IsEncoding(out, s)
  {
    hide Unpremul, RowStart, ChunkBytes, IhdrData, Zlib.IsFixedZlib;
    var raw: ByteString := [];
    for y := 0 to s.h
      invariant raw == RawRows(s, y)
    {
      raw := raw + [0];
      RowFits(s.stride, y, s.h);
      for x := 0 to s.w
        invariant raw == RawRows(s, y) + ([0] + RowPixels(s, y, x))
      {
        var c := Unpremul(s.px[RowStart(s.stride, y) + x]);
        ghost var before := RowPixels(s, y, x);
        raw := raw + [c.r, c.g, c.b, c.a];
        assert RowPixels(s, y, x + 1) == before + [c.r, c.g, c.b, c.a];
        assert RawRows(s, y) + ([0] + before) + [c.r, c.g, c.b, c.a]
               == RawRows(s, y) + ([0] + (before + [c.r, c.g, c.b, c.a]));
      }
    }
    var z := Zlib.CompressFixed(raw);
    out := WriteChunk(SIGNATURE, Chunk(IHDR, IhdrData(s)));
    out := WriteChunk(out, Chunk(IDAT, z));
    out := WriteChunk(out, Chunk(IEND, []));
    assert out == EncodedFile(s, z);
  }

  // ---------- the round trip ----------

  lemma {:induction false} ImageBytesLength(s: Surface, n: nat)
    requires WellShaped(s) && n <= s.h
    ensures |ImageBytes(s, n)| == RowStart(4 * s.w, n)
    decreases n
  {
    hide RowStart;
    NoRows(4 * s.w);
    if n > 0 {
      ImageBytesLength(s, n - 1);
      RowFits(4 * s.w, n - 1, n);
    }
  }

  lemma {:induction false} ImageRow(s: Surface, n: nat, y: nat)
    requires WellShaped(s) && y < n <= s.h
    ensures RowStart(4 * s.w, y + 1) <= |ImageBytes(s, n)| && Row(ImageBytes(s, n), 4 * s.w, y) == RowPixels(s, y, s.w)
    decreases n
  {
    hide RowStart, RowPixels;
    var w := 4 * s.w;
    ImageBytesLength(s, n);
    ImageBytesLength(s, n - 1);
    RowFits(w, y, n);
    if y < n - 1 {
      ImageRow(s, n - 1, y);
      RowFits(w, y, n - 1);
      RowsBefore(ImageBytes(s, n - 1), RowPixels(s, n - 1, s.w), w, y);
    }
  }

  lemma RowsBefore(image: ByteString, more: ByteString, w: nat, y: nat)
    requires RowStart(w, y + 1) <= |image|
    ensures Row(image + more, w, y) == Row(image, w, y)
  {
    RowFits(w, y, y + 1);
  }

  lemma Unfiltered0(bpp: nat, prev: ByteString, row: ByteString)
    requires bpp >= 1 && |prev| == |row|
    ensures FilterRow(0, bpp, prev, row) == row
  {
    forall x: nat | x < |row| ensures Minus(row[x], 0) == row[x] { MinusIs(row[x], 0); }
  }

  /** The encoder's rows are the image filtered with type zero throughout. */
  lemma {:induction false} RawIsFiltered(s: Surface, n: nat)
    requires WellShaped(s) && n <= s.h
    ensures RowStart(4 * s.w, n) <= |ImageBytes(s, s.h)|
    ensures RawRows(s, n) == FilterImage(seq(s.h, _ => 0), 4 * s.w, 4, ImageBytes(s, s.h), n)
    decreases n
  {
    hide RowStart, RowPixels, FilterRow, Row, RowAbove;
    var image, w := ImageBytes(s, s.h), 4 * s.w;
    ImageBytesLength(s, s.h);
    NoRows(w);
    if n > 0 {
      RawIsFiltered(s, n - 1);
      ImageRow(s, s.h, n - 1);
      RowFits(w, n - 1, n);
      Unfiltered0(4, RowAbove(image, w, n - 1), Row(image, w, n - 1));
    }
  }

  function EncodedParts(s: Surface, z: ByteString): Parts {
    Parts(Some(Ihdr(s.w, s.h, 8, 6, 0)), z, None, None, true)
  }

  lemma EncodedIhdr(s: Surface)
    requires s.w < 0x1_0000_0000 && s.h < 0x1_0000_0000
    ensures ParseIhdr(IhdrData(s)) == Decoded(Ihdr(s.w, s.h, 8, 6, 0)) && |IhdrData(s)| == 13
  {
    hide Endian.BeBytes, Endian.BeValue;
    WordFits(s.w);
    WordFits(s.h);
    var d := IhdrData(s);
    assert d[..4] == Endian.BeBytes(s.w, 4) && d[4..8] == Endian.BeBytes(s.h, 4);
  }

  /** The decoder finds the three chunks and nothing wrong with them. */
  lemma EncodedHeader(s: Surface, z: ByteString)
    requires 0 < s.w < 0x1_0000_0000 && 0 < s.h < 0x1_0000_0000 && |z| < 0x1_0000_0000
    ensures Header(EncodedFile(s, z)) == Decoded(EncodedParts(s, z))
  {
    hide ChunkBytes, ReadFrom, ParseIhdr, IhdrData;
    var data, chunks := EncodedFile(s, z), FileChunks(s, z);
    EncodedIhdr(s);
    var start := Parts(None, [], None, None, false);
    ThreeChunks(chunks[0], chunks[1], chunks[2]);
    assert [chunks[0], chunks[1], chunks[2]] == chunks;
    assert data[8..8 + |ChunksBytes(chunks)|] == ChunksBytes(chunks);
    assert data[..8] == SIGNATURE;
    GatherThree(s, z);
    ChunksRead(chunks, data, 8, start);
  }

  lemma ThreeChunks(a: Chunk, b: Chunk, c: Chunk)
    requires ValidChunk(a) && ValidChunk(b) && ValidChunk(c)
    ensures AllValid([a, b, c]) && ChunksBytes([a, b, c]) == ChunkBytes(a) + ChunkBytes(b) + ChunkBytes(c)
  {
    hide ChunkBytes;
    var s := [a, b, c];
    assert s[1..] == [b, c] && [b, c][1..] == [c] && [c][1..] == [];
    assert ChunksBytes([c]) == ChunkBytes(c) + ChunksBytes([c][1..]);
    assert ChunksBytes([b, c]) == ChunkBytes(b) + ChunksBytes([b, c][1..]);
  }

  lemma GatherThree(s: Surface, z: ByteString)
    requires s.w < 0x1_0000_0000 && s.h < 0x1_0000_0000
    ensures Gather(Parts(None, [], None, None, false), FileChunks(s, z)) == Decoded(EncodedParts(s, z))
  {
    hide ParseIhdr, IhdrData;
    EncodedIhdr(s);
    var c := FileChunks(s, z);
    var p := Parts(Some(Ihdr(s.w, s.h, 8, 6, 0)), [], None, None, false);
    assert c[1..] == [Chunk(IDAT, z), Chunk(IEND, [])] && c[1..][1..] == [Chunk(IEND, [])] && c[1..][1..][1..] == [];
    assert [] + z == z;
    assert Gather(p.(idat := z), c[1..][1..]) == Decoded(EncodedParts(s, z));
    assert Gather(p, c[1..]) == Decoded(EncodedParts(s, z));
  }

  /** What the decoder makes of pixel x of row y of an encoded surface. */
  lemma PixelBack(s: Surface, y: nat, x: nat, h: Ihdr)
    requires WellShaped(s) && y < s.h && x < s.w && h.colorType == 6 && h.bitDepth == 8 && h.width == s.w
    ensures PixelColor(h, [], None, RowPixels(s, y, s.w), x) == Unpremul(PixelOf(s, y, x))
  {
    hide RowPixels, Unpremul, PixelOf, Sample;
    var row, b := RowPixels(s, y, s.w), PixelBytes(PixelOf(s, y, x));
    RowPixelAt(s, y, s.w, x);
    SampleByte(row, 4 * x);
    SampleByte(row, 4 * x + 1);
    SampleByte(row, 4 * x + 2);
    SampleByte(row, 4 * x + 3);
    assert row[4 * x] == row[4 * x..4 * x + 4][0] && row[4 * x + 1] == row[4 * x..4 * x + 4][1];
    assert row[4 * x + 2] == row[4 * x..4 * x + 4][2] && row[4 * x + 3] == row[4 * x..4 * x + 4][3];
  }

  lemma {:induction false} RowPixelAt(s: Surface, y: nat, n: nat, x: nat)
    requires WellShaped(s) && y < s.h && x < n <= s.w
    ensures RowPixels(s, y, n)[4 * x..4 * x + 4] == PixelBytes(PixelOf(s, y, x))
    decreases n
  {
    hide PixelBytes, PixelOf;
    if x < n - 1 {
      RowPixelAt(s, y, n - 1, x);
      assert RowPixels(s, y, n)[4 * x..4 * x + 4] == RowPixels(s, y, n - 1)[4 * x..4 * x + 4];
    }
  }

  /** The pixels of a decoded encoding: each original pixel through straight colour and back. */
  predicate Redrawn(t: Surface, s: Surface)
    requires WellShaped(s)
  {
    && t.w == s.w && t.h == s.h && t.stride == s.w && WellShaped(t)
    && forall y: nat, x: nat :: y < s.h && x < s.w ==> PixelOf(t, y, x) == Premul(Unpremul(PixelOf(s, y, x)))
  }

  lemma DecodedPixels(s: Surface, z: ByteString, image: ByteString, t: Surface)
    requires WellShaped(s) && s.w > 0
    requires Zlib.Contents(z) == BitStreams.Ok(RawRows(s, s.h))
    requires UnfiltersTo(RawRows(s, s.h), EncodedParts(s, z).ihdr.value, image)
    requires ShowsImage(t, EncodedParts(s, z), image)
    ensures Redrawn(t, s)
  {
    hide RowStart, RawRows, ImageBytes, FilterImage, Types, Premul, Unpremul, PixelColor, Row, Zlib.Contents;
    var types: ByteString, w := seq(s.h, _ => 0), 4 * s.w;
    RawIsFiltered(s, s.h);
    ImageBytesLength(s, s.h);
    SameImage(types, w, 4, ImageBytes(s, s.h), image, RawRows(s, s.h), s.h);
    var h := EncodedParts(s, z).ihdr.value;
    forall y: nat, x: nat | y < s.h && x < s.w ensures PixelOf(t, y, x) == Premul(Unpremul(PixelOf(s, y, x))) {
      assert PixelShown(t, EncodedParts(s, z), image, y, x);
      ImageRow(s, s.h, y);
      PixelBack(s, y, x, h);
    }
  }

  /** Decoding an encoded surface, of any size its headers can hold, redraws it. */
  lemma DecodesEncoding(s: Surface, out: ByteString, r: PngResult<Surface>)
    requires WellShaped(s) && 0 < s.w < 0x1_0000_0000 && 0 < s.h < 0x1_0000_0000
    requires IsEncoding(out, s) && |out| < 0x1_0000_0000 + 57 && Decodes(out, r)
    ensures r.Decoded? && Redrawn(r.image, s)
  {
    hide Header, RowStart, RawRows, ImageBytes, FilterImage, Types, ShowsImage, EncodedFile, Redrawn,
      Zlib.Contents, Zlib.IsFixedZlib;
    var z :| Zlib.IsFixedZlib(z, RawRows(s, s.h)) && out == EncodedFile(s, z);
    EncodedHeader(s, z);
    Zlib.FixedContents(z, RawRows(s, s.h));
    EncodedShape(s, z);
    var image :| UnfiltersTo(RawRows(s, s.h), EncodedParts(s, z).ihdr.value, image)
                 && ShowsImage(r.image, EncodedParts(s, z), image);
    DecodedPixels(s, z, image, r.image);
  }

  lemma EncodedShape(s: Surface, z: ByteString)
    requires WellShaped(s)
    ensures var raw, h := RawRows(s, s.h), EncodedParts(s, z).ihdr.value;
            && RowBytes(h) == 4 * s.w && FilterStep(h) == 4
            && |raw| == RowStart(RowBytes(h) + 1, s.h) && ValidTypes(Types(raw, RowBytes(h), s.h))
  {
    hide RowStart, RawRows, ImageBytes, FilterImage, Types;
    var types: ByteString := seq(s.h, _ => 0);
    RawIsFiltered(s, s.h);
    ImageBytesLength(s, s.h);
    FilteredFrom(types, 4 * s.w, 4, ImageBytes(s, s.h), ImageBytes(s, s.h), s.h);
  }

  /** Every pixel comes back exactly when no channel of it exceeds its alpha. */
  lemma PixelsKept(t: Surface, s: Surface, y: nat, x: nat)
    requires WellShaped(s) && Redrawn(t, s) && y < s.h && x < s.w
    ensures PixelOf(t, y, x) == PixelOf(s, y, x) <==> Premultiplied(PixelOf(s, y, x))
  {
    hide Premul, Unpremul, Premultiplied, PixelOf;
    RoundTripIffPremultiplied(PixelOf(s, y, x));
  }

  /** All pixels premultiplied. */
  predicate AllPremultiplied(s: Surface) { forall p :: p in s.px ==> Premultiplied(p) }

  /** A surface without row padding is the one decoded. */
  lemma SurfaceKept(t: Surface, s: Surface)
    requires WellShaped(s) && s.stride == s.w && s.w > 0 && Redrawn(t, s) && AllPremultiplied(s)
    ensures t == s
  {
    hide Premul, Unpremul, Premultiplied, RowStart;
    forall i: nat | i < |s.px| ensures t.px[i] == s.px[i] {
      var y, x := Located(s.w, s.h, i);
      assert PixelOf(s, y, x) in s.px;
      PixelsKept(t, s, y, x);
    }
  }

  lemma Located(w: nat, h: nat, i: nat) returns (y: nat, x: nat)
    requires w > 0 && i < RowStart(w, h)
    ensures y < h && x < w && RowStart(w, y) + x == i
  {
    y, x := i / w, i % w;
    assert i == w * y + x;
    if y >= h { MulMono(w, h, y); }
  }

  /** Encoding and decoding again gives the surface back. */
  method RoundTrip(s: Surface) returns (out: ByteString, r: PngResult<Surface>)
    requires WellShaped(s) && 0 < s.w < 0x1_0000_0000 && 0 < s.h < 0x1_0000_0000
    ensures |out| < 0x1_0000_0000 + 57 ==> r.Decoded? && Redrawn(r.image, s)
    ensures |out| < 0x1_0000_0000 + 57 && s.stride == s.w && AllPremultiplied(s) ==> r == Decoded(s)
  {
    hide Redrawn, IsEncoding, Decodes, RowStart, Premultiplied;
    out := Encode(s);
    r := Decode(out);
    if |out| < 0x1_0000_0000 + 57 {
      DecodesEncoding(s, out, r);
      if s.stride == s.w && AllPremultiplied(s) {
        SurfaceKept(r.image, s);
      }
    }
  }
}
