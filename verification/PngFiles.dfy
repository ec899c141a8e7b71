/** PNG files as a list of named chunks (crates/otter-gfx/src/png.rs): which surface a file shows. */
module PngFiles {
  import opened Bytes
  import opened Options
  import opened Colors
  import opened PngChunks
  import opened PngFilters
  import opened PngPixels
  import opened Png
  import opened Endian
  import BitStreams
  import Zlib

  // ---------- chunks by name ----------

  /** The bytes of a text. */
  predicate Spells(b: ByteString, name: string) {
    |b| == |name| && forall i :: 0 <= i < |name| ==> b[i] == name[i] as int
  }

  /** The data of the chunks of this name, one after another. */
  function Joined(chunks: seq<Chunk>, name: string): ByteString {
    if chunks == [] then [] else
    (if Spells(chunks[0].ctype, name) then chunks[0].data else []) + Joined(chunks[1..], name)
  }

  /** The data of the last chunk of this name. */
  function Latest(chunks: seq<Chunk>, name: string): Option<ByteString> {
    if chunks == [] then None else
    Or(Latest(chunks[1..], name), if Spells(chunks[0].ctype, name) then Some(chunks[0].data) else None)
  }

  function Or(a: Option<ByteString>, b: Option<ByteString>): Option<ByteString> { if a.Some? then a else b }

  /** Four bytes of a header, the highest first. */
  function Big(d: ByteString, at: nat): nat
    requires at + 4 <= |d|
  {
    var a: nat, b: nat, c: nat, e: nat := d[at], d[at + 1], d[at + 2], d[at + 3];
    0x100_0000 * a + 0x1_0000 * b + 0x100 * c + e
  }

  /** A header of thirteen bytes or more: sizes with the high byte first, depth, colour type, two zeros, interlacing. */
  predicate HeaderSpells(d: ByteString, h: Ihdr) {
    && |d| >= 13 && d[10] == 0 && d[11] == 0
    && h.width == Big(d, 0) && h.height == Big(d, 4)
    && h.bitDepth == d[8] && h.colorType == d[9] && h.interlace == d[12]
  }

  /** The list ends with its first IEND. */
  predicate EndsOnce(chunks: seq<Chunk>) {
    && chunks != [] && Spells(chunks[|chunks| - 1].ctype, "IEND")
    && forall i :: 0 <= i < |chunks| - 1 ==> !Spells(chunks[i].ctype, "IEND")
  }

  predicate Parses(d: ByteString) { |d| >= 13 && d[10] == 0 && d[11] == 0 }

  predicate HeadersParse(chunks: seq<Chunk>) {
    forall i :: 0 <= i < |chunks| && Spells(chunks[i].ctype, "IHDR") ==> Parses(chunks[i].data)
  }

  /** A header taken is the last one, or the one before them all. */
  predicate HeaderIs(before: Option<Ihdr>, last: Option<ByteString>, after: Option<Ihdr>) {
    if last.None? then after == before else after.Some? && HeaderSpells(last.value, after.value)
  }

  /** What chunks of these names leave behind after what was there before. */
  predicate Leaves(p: Parts, chunks: seq<Chunk>, q: Parts) {
    && HeaderIs(p.ihdr, Latest(chunks, "IHDR"), q.ihdr)
    && q.idat == p.idat + Joined(chunks, "IDAT")
    && q.plte == Or(Latest(chunks, "PLTE"), p.plte) && q.trns == Or(Latest(chunks, "tRNS"), p.trns)
  }

  lemma Names(t: ByteString)
    ensures (Spells(t, "IHDR") <==> t == IHDR) && (Spells(t, "PLTE") <==> t == PLTE)
    ensures Spells(t, "tRNS") <==> t == TRNS
    ensures (Spells(t, "IDAT") <==> t == IDAT) && (Spells(t, "IEND") <==> t == IEND)
  {
  }

  lemma FourBytes(d: ByteString, at: nat)
    requires at + 4 <= |d|
    ensures BeValue(d[at..at + 4]) == Big(d, at)
  {
    var s := d[at..at + 4];
    assert s[..3][..2] == s[..2] && s[..2][..1] == s[..1] && s[..1][..0] == [];
    assert BeValue(s[..1]) == s[0];
    var a: nat, b: nat := s[0], s[1];
    assert BeValue(s[..2]) == 256 * a + b;
  }

  lemma HeaderIff(d: ByteString)
    ensures ParseIhdr(d).Decoded? <==> Parses(d)
    ensures ParseIhdr(d) == Failed(Truncated) <==> |d| < 13
    ensures ParseIhdr(d) == Failed(InvalidIhdr) <==> |d| >= 13 && !Parses(d)
    ensures ParseIhdr(d).Decoded? ==> HeaderSpells(d, ParseIhdr(d).image)
  {
    if |d| >= 13 {
      FourBytes(d, 0);
      FourBytes(d, 4);
      assert d[..4] == d[0..4];
    }
  }

  lemma OneMore(c: Chunk, rest: seq<Chunk>)
    requires !Spells(c.ctype, "IEND")
    ensures EndsOnce([c] + rest) <==> EndsOnce(rest)
  {
    var all := [c] + rest;
    assert forall i :: 0 <= i < |rest| ==> all[i + 1] == rest[i];
    if EndsOnce(all) {
      forall i | 0 <= i < |rest| - 1 ensures !Spells(rest[i].ctype, "IEND") {
        assert !Spells(all[i + 1].ctype, "IEND");
      }
    }
  }

  lemma OneMoreHeader(c: Chunk, rest: seq<Chunk>)
    ensures HeadersParse([c] + rest) <==> (Spells(c.ctype, "IHDR") ==> Parses(c.data)) && HeadersParse(rest)
  {
    hide Spells, Parses;
    var all := [c] + rest;
    assert all[0] == c && forall i :: 0 <= i < |rest| ==> all[i + 1] == rest[i];
    if HeadersParse(all) {
      forall i | 0 <= i < |rest| && Spells(rest[i].ctype, "IHDR") ensures Parses(rest[i].data) {
        assert Spells(all[i + 1].ctype, "IHDR");
      }
    }
  }

  lemma NamedApart(t: ByteString)
    ensures Spells(t, "IHDR") ==> !Spells(t, "PLTE") && !Spells(t, "tRNS") && !Spells(t, "IDAT") && !Spells(t, "IEND")
    ensures Spells(t, "PLTE") ==> !Spells(t, "tRNS") && !Spells(t, "IDAT") && !Spells(t, "IEND")
    ensures Spells(t, "tRNS") ==> !Spells(t, "IDAT") && !Spells(t, "IEND")
    ensures Spells(t, "IDAT") ==> !Spells(t, "IEND")
  {
    Names(t);
  }

  /** What one chunk contributes. */
  lemma TakeIs(p: Parts, c: Chunk)
    ensures Take(p, c).Decoded? <==> (Spells(c.ctype, "IHDR") ==> Parses(c.data))
    ensures var r := Take(p, c); r.Decoded? ==>
            && (Spells(c.ctype, "IHDR") ==> r.image.ihdr.Some? && HeaderSpells(c.data, r.image.ihdr.value))
            && (!Spells(c.ctype, "IHDR") ==> r.image.ihdr == p.ihdr)
            && r.image.idat == p.idat + (if Spells(c.ctype, "IDAT") then c.data else [])
            && r.image.plte == (if Spells(c.ctype, "PLTE") then Some(c.data) else p.plte)
            && r.image.trns == (if Spells(c.ctype, "tRNS") then Some(c.data) else p.trns)
            && r.image.end == (p.end || Spells(c.ctype, "IEND"))
  {
    hide Spells, ParseIhdr, HeaderSpells;
    Names(c.ctype);
    NamedApart(c.ctype);
    HeaderIff(c.data);
  }

  /** One chunk and the rest. */
  lemma LeavesOne(p: Parts, c: Chunk, rest: seq<Chunk>, q: Parts)
    requires Take(p, c).Decoded? && Leaves(Take(p, c).image, rest, q)
    ensures Leaves(p, [c] + rest, q)
  {
    hide HeaderSpells, Spells, Take;
    TakeIs(p, c);
    var all := [c] + rest;
    assert all[0] == c && all[1..] == rest;
    assert q.idat == p.idat + Joined(all, "IDAT");
    var later, here := Latest(rest, "IHDR"), Latest(all, "IHDR");
    if later.None? {
      assert here == if Spells(c.ctype, "IHDR") then Some(c.data) else None;
    } else {
      assert here == later;
    }
  }

  /** Chunks taken one after another come to what their names say, or are refused. */
  lemma {:induction false} GatherLeaves(p: Parts, chunks: seq<Chunk>)
    requires !p.end
    ensures Gather(p, chunks).Decoded? <==> EndsOnce(chunks) && HeadersParse(chunks)
    ensures var r := Gather(p, chunks); r.Decoded? ==> Leaves(p, chunks, r.image) && r.image.end
    decreases |chunks|
  {
    hide Leaves, HeadersParse, Parses, Spells, Take, EndsOnce;
    NoChunks(p);
    if chunks != [] {
      var c, rest := chunks[0], chunks[1..];
      assert [c] + rest == chunks;
      TakeIs(p, c);
      OneMoreHeader(c, rest);
      var taken := Take(p, c);
      if taken.Decoded? {
        if taken.image.end {
          EndsFirst(c, rest);
          NoChunks(taken.image);
        } else {
          OneMore(c, rest);
          GatherLeaves(taken.image, rest);
        }
        var r := Gather(p, chunks);
        assert r == Gather(taken.image, rest);
        if r.Decoded? {
          if taken.image.end { assert rest == [] && r.image == taken.image; }
          LeavesOne(p, c, rest, r.image);
        }
      }
    }
  }

  lemma NoChunks(p: Parts)
    ensures HeadersParse([]) && Leaves(p, [], p) && !EndsOnce([])
  {
    assert p.idat + [] == p.idat;
  }

  lemma EndsFirst(c: Chunk, rest: seq<Chunk>)
    requires Spells(c.ctype, "IEND")
    ensures EndsOnce([c] + rest) <==> rest == []
  {
    hide Spells;
    assert ([c] + rest)[0] == c;
  }

  // ---------- pixels ----------

  /** A product of two bytes divided by 255 and rounded to the nearest number. */
  predicate Near(part: int, product: int) { -127 <= product - 255 * part <= 127 }

  /** The pixel word of a colour: alpha, then red, green and blue scaled by it, from the top byte down. */
  predicate Blended(p: Argb, c: Color) {
    var r: int, g: int, b: int, a: int := c.r, c.g, c.b, c.a;
    && p / 0x100_0000 == a && Near(p / 0x1_0000 % 256, r * a)
    && Near(p / 0x100 % 256, g * a) && Near(p % 256, b * a)
  }

  lemma BlendedIs(p: Argb, c: Color)
    ensures Blended(p, c) <==> p == Premul(c)
  {
    hide Pack, Scaled, Near, Alpha, Red, Green, Blue;
    UnpackPack(p);
    PackUnpack(c.a, Scaled(c.r, c.a), Scaled(c.g, c.a), Scaled(c.b, c.a));
    NearIs(Red(p), c.r, c.a);
    NearIs(Green(p), c.g, c.a);
    NearIs(Blue(p), c.b, c.a);
    Channels(p);
  }

  lemma Channels(p: Argb)
    ensures Alpha(p) == p / 0x100_0000 && Red(p) == p / 0x1_0000 % 256
    ensures Green(p) == p / 0x100 % 256 && Blue(p) == p % 256
  {
  }

  lemma NearIs(s: Byte, c: Byte, a: Byte)
    ensures Near(s, (c as int) * a) <==> s == Scaled(c, a)
  {
    ScaledBelow(c, a);
    Div255Rounds(c * a);
    if Near(s, (c as int) * a) { Div255Is(c * a, s); }
  }

  lemma SameLevelOnce(d: Byte, v: nat, e: Byte, f: Byte)
    requires d in {1, 2, 4, 8, 16} && SameLevel(e, v, d) && SameLevel(f, v, d)
    ensures e == f
  {
  }

  /** A row shows one colour at each place. */
  lemma ShownOnce(a: Color, b: Color, h: Ihdr, plte: ByteString, trns: Option<ByteString>, row: ByteString, x: nat)
    requires ValidDepth(h.colorType, h.bitDepth) && x < h.width && |row| == RowBytes(h)
    requires Shows(a, h, plte, trns, row, x) && Shows(b, h, plte, trns, row, x)
    ensures a == b
  {
    hide Level, SameLevel, Keyed, RowBytes;
    var d := h.bitDepth;
    forall v: nat, e: Byte, f: Byte | SameLevel(e, v, d) && SameLevel(f, v, d) ensures e == f {
      SameLevelOnce(d, v, e, f);
    }
    if h.colorType == 3 {
      assert [a.r, a.g, a.b] == [b.r, b.g, b.b];
      assert [a.r, a.g, a.b][0] == a.r && [a.r, a.g, a.b][1] == a.g && [a.r, a.g, a.b][2] == a.b;
    }
  }

  // ---------- files ----------

  /** A file is its signature and chunks, up to the first IEND, and what follows does not matter. */
  predicate IsFile(data: ByteString, chunks: seq<Chunk>) {
    && AllValid(chunks) && 8 + |ChunksBytes(chunks)| <= |data|
    && Spells(data[..8], "\U{89}PNG\r\n\U{1a}\n") && data[8..8 + |ChunksBytes(chunks)|] == ChunksBytes(chunks)
    && EndsOnce(chunks) && HeadersParse(chunks)
  }

  /** The last header of the file, fit to be decoded. */
  predicate HasHeader(chunks: seq<Chunk>, h: Ihdr) {
    && Latest(chunks, "IHDR").Some? && HeaderSpells(Latest(chunks, "IHDR").value, h)
    && h.width > 0 && h.height > 0 && h.interlace == 0 && ValidDepth(h.colorType, h.bitDepth)
    && (h.colorType == 3 ==> Latest(chunks, "PLTE").Some?)
  }

  /** A surface without padding, every pixel the blended colour that its row shows. */
  ghost predicate Draws(s: Surface, chunks: seq<Chunk>, h: Ihdr, image: ByteString)
    requires ValidDepth(h.colorType, h.bitDepth) && |image| == RowStart(RowBytes(h), h.height)
  {
    && s.w == h.width && s.h == h.height && s.stride == h.width && |s.px| == RowStart(h.width, h.height)
    && forall y: nat, x: nat :: y < h.height && x < h.width ==> Drawn(s, chunks, h, image, y, x)
  }

  ghost predicate Drawn(s: Surface, chunks: seq<Chunk>, h: Ihdr, image: ByteString, y: nat, x: nat)
    requires ValidDepth(h.colorType, h.bitDepth) && |image| == RowStart(RowBytes(h), h.height)
    requires y < h.height && x < h.width && |s.px| == RowStart(h.width, h.height)
  {
    var palette := Latest(chunks, "PLTE");
    RowFits(h.width, y, h.height);
    RowFits(RowBytes(h), y, h.height);
    var shown, row, key := s.px[h.width * y + x], Row(image, RowBytes(h), y), Latest(chunks, "tRNS");
    exists c: Color ::
      Blended(shown, c) && Shows(c, h, if palette.Some? then palette.value else [], key, row, x)
  }

  /** The surface a file of these chunks shows: the image whose filtered rows its IDAT data hold. */
  ghost predicate Pictures(
    data: ByteString, chunks: seq<Chunk>, h: Ihdr, raw: ByteString, image: ByteString, s: Surface) {
    && IsFile(data, chunks) && HasHeader(chunks, h)
    && Zlib.Contents(Joined(chunks, "IDAT")) == BitStreams.Ok(raw)
    && UnfiltersTo(raw, h, image) && Draws(s, chunks, h, image)
  }

  const NOTHING := Parts(None, [], None, None, false)

  lemma SignatureIs(b: ByteString)
    ensures Spells(b, "\U{89}PNG\r\n\U{1a}\n") <==> b == SIGNATURE
  {
  }

  lemma HeaderOnce(d: ByteString, h: Ihdr, k: Ihdr)
    requires HeaderSpells(d, h) && HeaderSpells(d, k)
    ensures h == k
  {
  }

  /** The parts of a file are those its chunks leave behind. */
  lemma PartsAre(data: ByteString, chunks: seq<Chunk>, h: Ihdr) returns (p: Parts)
    requires IsFile(data, chunks) && HasHeader(chunks, h)
    ensures Header(data) == Decoded(p) && p.ihdr == Some(h) && p.idat == Joined(chunks, "IDAT")
    ensures p.plte == Latest(chunks, "PLTE") && p.trns == Latest(chunks, "tRNS")
  {
    hide Gather, ChunksBytes, Joined, Latest, Spells, HeaderSpells, HeadersParse, EndsOnce;
    GatherLeaves(NOTHING, chunks);
    p := Gather(NOTHING, chunks).image;
    SignatureIs(data[..8]);
    ChunksRead(chunks, data, 8, NOTHING);
    HeaderOnce(Latest(chunks, "IHDR").value, h, p.ihdr.value);
  }

  lemma PixelDrawn(s: Surface, p: Parts, chunks: seq<Chunk>, h: Ihdr, image: ByteString, y: nat, x: nat)
    requires ValidDepth(h.colorType, h.bitDepth) && |image| == RowStart(RowBytes(h), h.height)
    requires y < h.height && x < h.width && |s.px| == RowStart(h.width, h.height)
    requires p.ihdr == Some(h) && p.plte == Latest(chunks, "PLTE") && p.trns == Latest(chunks, "tRNS")
    ensures Drawn(s, chunks, h, image, y, x) <==> PixelShown(s, p, image, y, x)
  {
    hide Shows, PixelColor, Premul, Blended, Latest, RowBytes, Row;
    RowFits(h.width, y, h.height);
    RowFits(RowBytes(h), y, h.height);
    var row, shown := Row(image, RowBytes(h), y), s.px[h.width * y + x];
    var c := PixelColor(h, Palette(p), p.trns, row, x);
    ColorShown(h, Palette(p), p.trns, row, x);
    BlendedIs(shown, c);
    forall b: Color | Shows(b, h, Palette(p), p.trns, row, x) ensures b == c {
      ShownOnce(b, c, h, Palette(p), p.trns, row, x);
    }
  }

  /** Whatever a file shows is what it decodes to. */
  lemma PictureDecodes(
    data: ByteString, chunks: seq<Chunk>, h: Ihdr, raw: ByteString, image: ByteString, s: Surface)
    requires Pictures(data, chunks, h, raw, image, s)
    ensures Decodes(data, Decoded(s))
  {
    hide IsFile, HasHeader, Joined, Latest, Header, Zlib.Contents, FilterImage, Drawn, PixelShown, RowBytes, RowStart;
    var p := PartsAre(data, chunks, h);
    ValidHeader(chunks, h);
    forall y: nat, x: nat | y < h.height && x < h.width ensures PixelShown(s, p, image, y, x) {
      assert Drawn(s, chunks, h, image, y, x);
      PixelDrawn(s, p, chunks, h, image, y, x);
    }
    assert ShowsImage(s, p, image);
  }

  lemma ValidHeader(chunks: seq<Chunk>, h: Ihdr)
    requires HasHeader(chunks, h)
    ensures ValidDepth(h.colorType, h.bitDepth)
  {
  }

  /** The chunks and the header of a file without errors before its pixels. */
  lemma ChunksOf(data: ByteString) returns (chunks: seq<Chunk>, h: Ihdr)
    requires Header(data).Decoded?
    ensures IsFile(data, chunks) && HasHeader(chunks, h) && Header(data).image.ihdr == Some(h)
  {
    hide Gather, ChunksBytes, Joined, Latest, Spells, HeadersParse, EndsOnce, HeaderSpells;
    var p := Header(data).image;
    chunks := ReadsChunks(data, 8, NOTHING);
    GatherLeaves(NOTHING, chunks);
    SignatureIs(data[..8]);
    h := p.ihdr.value;
  }

  /** Whatever a file decodes to is what it shows. */
  lemma DecodedPictures(data: ByteString, s: Surface)
    returns (chunks: seq<Chunk>, h: Ihdr, raw: ByteString, image: ByteString)
    requires Decodes(data, Decoded(s))
    ensures Pictures(data, chunks, h, raw, image, s)
  {
    hide IsFile, HasHeader, Joined, Latest, Header, Zlib.Contents, FilterImage, Drawn, PixelShown, RowBytes, RowStart;
    chunks, h := ChunksOf(data);
    var p := PartsAre(data, chunks, h);
    ValidHeader(chunks, h);
    raw := Zlib.Contents(p.idat).value;
    image :| UnfiltersTo(raw, h, image) && ShowsImage(s, p, image);
    forall y: nat, x: nat | y < h.height && x < h.width ensures Drawn(s, chunks, h, image, y, x) {
      assert PixelShown(s, p, image, y, x);
      PixelDrawn(s, p, chunks, h, image, y, x);
    }
  }
}
