/** The decoder's loops over a bit reader, each proved to read the format. */
module Inflater {
  import opened Bytes
  import opened Congruence
  import opened BitStreams
  import opened Huffman
  import opened Inflate

  /** One output buffer operation of the source: length bytes from distance back, one at a time. */
  method CopyMatch(out: ByteString, distance: nat, length: nat) returns (r: ByteString)
    requires 0 < distance <= |out|
    ensures r == CopyBack(out, distance, length)
  {
    r := out;
    var start := |out| - distance;
    for i := 0 to length
      invariant |r| == |out| + i && CopyBack(out, distance, length) == CopyBack(r, distance, length - i)
    {
      var byte := r[start + i];
      r := r + [byte];
    }
  }

  method ReadMatchLength(br: BitReader, sym: nat) returns (r: Result<nat>)
    requires br.Valid() && 257 <= sym <= 285
    modifies br
    ensures br.Valid()
    ensures MatchLength(sym, old(br.Rest())) == if r.Ok? then Done(r.value, br.Rest()) else Fail(r.error)
  {
    hide StreamBits, LengthBase, LengthExtra, LsbValue;
    var extra := br.ReadBitsLsb(LengthExtra(sym));
    if extra.Err? {
      return Err(extra.error);
    }
    return Ok(LengthBase(sym) + extra.value);
  }

  method ReadMatchDistance(br: BitReader, dist: HuffTable, ghost distLengths: Lengths) returns (r: Result<nat>)
    requires br.Valid() && TableFor(dist, distLengths)
    modifies br
    ensures br.Valid()
    ensures MatchDistance(distLengths, old(br.Rest())) == if r.Ok? then Done(r.value, br.Rest()) else Fail(r.error)
  {
    hide TableFor, NextSymbol, StreamBits, DistBase, DistExtra, LsbValue;
    var sym := Decode(dist, distLengths, br);
    if sym.Err? {
      return Err(sym.error);
    }
    if sym.value >= 30 {
      return Err(InvalidDistance);
    }
    var extra := br.ReadBitsLsb(DistExtra(sym.value));
    if extra.Err? {
      return Err(extra.error);
    }
    return Ok(DistBase(sym.value) + extra.value);
  }

  /** The length and distance of a match, read after its length symbol, and the copy. */
  method InflateMatch(br: BitReader, out: ByteString, sym: nat, dist: HuffTable, ghost distLengths: Lengths)
    returns (r: Result<ByteString>)
    requires br.Valid() && TableFor(dist, distLengths) && 257 <= sym <= 285
    modifies br
    ensures br.Valid()
    ensures BackReference(sym, distLengths, old(br.Rest()), out)
            == if r.Ok? then Done(r.value, br.Rest()) else Fail(r.error)
  {
    hide TableFor, StreamBits, CopyBack, MatchLength, MatchDistance;
    var length := ReadMatchLength(br, sym);
    if length.Err? {
      return Err(length.error);
    }
    var distance := ReadMatchDistance(br, dist, distLengths);
    if distance.Err? {
      return Err(distance.error);
    }
    if distance.value == 0 || distance.value > |out| {
      return Err(InvalidDistance);
    }
    var copied := CopyMatch(out, distance.value, length.value);
    return Ok(copied);
  }

  /** A compressed block, to its end-of-block symbol. */
  method InflateBlock(br: BitReader, start: ByteString, lit: HuffTable, dist: HuffTable,
                      ghost litLengths: Lengths, ghost distLengths: Lengths) returns (r: Result<ByteString>)
    requires br.Valid() && TableFor(lit, litLengths) && TableFor(dist, distLengths)
    modifies br
    ensures br.Valid()
    ensures Block(litLengths, distLengths, old(br.Rest()), start)
            == if r.Ok? then Done(r.value, br.Rest()) else Fail(r.error)
  {
    hide TableFor, NextSymbol, StreamBits, BackReference;
    var out := start;
    ghost var whole := Block(litLengths, distLengths, br.Rest(), start);
    while true
      invariant br.Valid() && whole == Block(litLengths, distLengths, br.Rest(), out)
      decreases |br.Rest()|
    {
      var sym := Decode(lit, litLengths, br);
      if sym.Err? {
        return Err(sym.error);
      }
      if sym.value <= 255 {
        out := out + [sym.value];
      } else if sym.value == 256 {
        return Ok(out);
      } else if sym.value <= 285 {
        var copied := InflateMatch(br, out, sym.value, dist, distLengths);
        if copied.Err? {
          return Err(copied.error);
        }
        out := copied.value;
      } else {
        return Err(InvalidLengthCode);
      }
    }
  }

  lemma ThreeBits(bits: Bits)
    requires |bits| >= 3
    ensures LsbValue(bits[..3]) < 8
  {
    LsbBound(bits[..3]);
    SmallPowers();
  }

  /** The lengths of the code length alphabet. */
  method ReadCodeLengths(br: BitReader, n: nat) returns (r: Result<Lengths>)
    requires br.Valid() && n <= 19
    modifies br
    ensures br.Valid() && (r.Ok? ==> |r.value| == 19)
    ensures CodeLengthLengths(old(br.Rest()), n, 0, Repeat(0, 19))
            == if r.Ok? then Done(r.value, br.Rest()) else Fail(r.error)
  {
    hide StreamBits, LsbValue, Pow, CodeLengthSlot;
    var lengths: Lengths := Repeat(0, 19);
    ghost var whole := CodeLengthLengths(br.Rest(), n, 0, lengths);
    for i := 0 to n
      invariant br.Valid() && |lengths| == 19 && whole == CodeLengthLengths(br.Rest(), n, i, lengths)
    {
      ghost var bits := br.Rest();
      var v := br.ReadBitsLsb(3);
      if v.Err? {
        return Err(v.error);
      }
      ThreeBits(bits);
      lengths := lengths[CodeLengthSlot(i) := v.value];
    }
    return Ok(lengths);
  }

  /** A repeat code: how often, and what. */
  method ReadRun(br: BitReader, sym: nat, have: Lengths, want: nat) returns (r: Result<Lengths>)
    requires br.Valid() && 16 <= sym <= 18 && (sym == 16 ==> have != []) && |have| < want
    modifies br
    ensures br.Valid()
    ensures Run(sym, old(br.Rest()), want, have) == if r.Ok? then Done(r.value, br.Rest()) else Fail(r.error)
    ensures r.Ok? ==> |have| < |r.value| <= want
  {
    hide StreamBits, LsbValue;
    var prev := if sym == 16 then have[|have| - 1] else 0;
    var n := br.ReadBitsLsb(if sym == 16 then 2 else if sym == 17 then 3 else 7);
    if n.Err? {
      return Err(n.error);
    }
    var rep := (if sym == 18 then 11 else 3) + n.value;
    if |have| + rep > want {
      return Err(InvalidHuffmanTable);
    }
    return Ok(have + Repeat(prev, rep));
  }

  /** The run-length coded lengths of both tables. */
  method ReadLengths(br: BitReader, clc: HuffTable, ghost clcLengths: Lengths, want: nat) returns (r: Result<Lengths>)
    requires br.Valid() && TableFor(clc, clcLengths)
    modifies br
    ensures br.Valid() && (r.Ok? ==> |r.value| == want)
    ensures CodedLengths(clcLengths, old(br.Rest()), want, [])
            == if r.Ok? then Done(r.value, br.Rest()) else Fail(r.error)
  {
    hide TableFor, NextSymbol, StreamBits, Run;
    var lengths: Lengths := [];
    ghost var whole := CodedLengths(clcLengths, br.Rest(), want, []);
    while |lengths| < want
      invariant br.Valid() && |lengths| <= want && whole == CodedLengths(clcLengths, br.Rest(), want, lengths)
      decreases want - |lengths|
    {
      var sym := Decode(clc, clcLengths, br);
      if sym.Err? {
        return Err(sym.error);
      }
      if sym.value <= 15 {
        lengths := lengths + [sym.value];
      } else if sym.value > 18 || (sym.value == 16 && lengths == []) {
        return Err(InvalidHuffmanTable);
      } else {
        var longer := ReadRun(br, sym.value, lengths, want);
        if longer.Err? {
          return Err(longer.error);
        }
        lengths := longer.value;
      }
    }
    return Ok(lengths);
  }

  datatype Decoders = Decoders(lit: HuffTable, dist: HuffTable)

  /** The two tables of a dynamic block. */
  method ReadDynamicTables(br: BitReader) returns (r: Result<Decoders>, ghost t: Tables)
    requires br.Valid()
    modifies br
    ensures br.Valid()
    ensures DynamicTables(old(br.Rest())) == if r.Ok? then Done(t, br.Rest()) else Fail(r.error)
    ensures r.Ok? ==> TableFor(r.value.lit, t.lit) && TableFor(r.value.dist, t.dist)
  {
    hide TableFor, StreamBits, Fits, CodedLengths, CodeLengthLengths;
    t := Tables([], []);
    ghost var bits := br.Rest();
    var hlit := br.ReadBitsLsb(5);
    if hlit.Err? {
      return Err(hlit.error), t;
    }
    var hdist := br.ReadBitsLsb(5);
    if hdist.Err? {
      return Err(hdist.error), t;
    }
    var hclen := br.ReadBitsLsb(4);
    if hclen.Err? {
      return Err(hclen.error), t;
    }
    HeaderFields(bits);
    var clcLengths := ReadCodeLengths(br, hclen.value + 4);
    if clcLengths.Err? {
      return Err(clcLengths.error), t;
    }
    var clc := BuildTable(clcLengths.value);
    if clc.Err? {
      return Err(clc.error), t;
    }
    var litCount := hlit.value + 257;
    var lengths := ReadLengths(br, clc.value, clcLengths.value, litCount + (hdist.value + 1));
    if lengths.Err? {
      return Err(lengths.error), t;
    }
    var lit := BuildTable(lengths.value[..litCount]);
    if lit.Err? {
      return Err(lit.error), t;
    }
    var dist := BuildTable(lengths.value[litCount..]);
    if dist.Err? {
      return Err(dist.error), t;
    }
    t := Tables(lengths.value[..litCount], lengths.value[litCount..]);
    return Ok(Decoders(lit.value, dist.value)), t;
  }

  lemma HeaderFields(bits: Bits)
    requires |bits| >= 14
    ensures bits[5..][..5] == bits[5..10] && bits[5..][5..][..4] == bits[10..14] && bits[5..][5..][4..] == bits[14..]
    ensures LsbValue(bits[..5]) < 32 && LsbValue(bits[5..10]) < 32 && LsbValue(bits[10..14]) < 16
  {
    SmallPowers();
    LsbBound(bits[..5]);
    LsbBound(bits[5..10]);
    LsbBound(bits[10..14]);
  }

  lemma TwoBytesValue(lo: Byte, hi: Byte)
    ensures LsbValue(ByteBits(lo) + ByteBits(hi)) == lo + 256 * hi
  {
    LsbConcat(ByteBits(lo), ByteBits(hi));
    LsbOfByte(lo);
    LsbOfByte(hi);
    WholeByteValue();
  }

  /** A byte in front is the first raw byte. */
  lemma RawFirst(b: Byte, rest: Bits, n: nat, out: ByteString)
    requires n > 0
    ensures RawBytes(ByteBits(b) + rest, n, out) == RawBytes(rest, n - 1, out + [b])
  {
    LsbOfByte(b);
    assert (ByteBits(b) + rest)[..8] == ByteBits(b) && (ByteBits(b) + rest)[8..] == rest;
  }

  /** A stored block. */
  method InflateStored(br: BitReader, start: ByteString) returns (r: Result<ByteString>)
    requires br.Valid()
    modifies br
    ensures br.Valid()
    ensures Stored(old(br.Rest()), start) == if r.Ok? then Done(r.value, br.Rest()) else Fail(r.error)
  {
    hide StreamBits, LsbValue, ByteBits;
    br.AlignToByte();
    ghost var aligned := br.Rest();
    var len := br.ReadU16Le();
    if len.Err? {
      return Err(len.error);
    }
    ghost var afterLen := br.Rest();
    var nlen := br.ReadU16Le();
    if nlen.Err? {
      return Err(nlen.error);
    }
    StoredHeader(aligned, len.value, nlen.value, br.Rest());
    if len.value != 0xFFFF - nlen.value {
      return Err(InvalidStoredLength);
    }
    var out := start;
    ghost var whole := RawBytes(br.Rest(), len.value, start);
    for i := 0 to len.value
      invariant br.Valid() && br.bitPos == 0 && whole == RawBytes(br.Rest(), len.value - i, out)
    {
      var b := br.ReadU8();
      if b.Err? {
        return Err(b.error);
      }
      RawFirst(b.value, br.Rest(), len.value - i, out);
      out := out + [b.value];
    }
    return Ok(out);
  }

  lemma StoredHeader(bits: Bits, len: nat, nlen: nat, rest: Bits)
    requires len < 0x1_0000 && nlen < 0x1_0000
    requires bits == ByteBits(len % 256) + ByteBits(len / 256) + (ByteBits(nlen % 256) + ByteBits(nlen / 256) + rest)
    ensures |bits| >= 32 && LsbValue(bits[..16]) == len && LsbValue(bits[16..32]) == nlen && bits[32..] == rest
  {
    hide ByteBits, LsbValue;
    TwoBytesValue(len % 256, len / 256);
    TwoBytesValue(nlen % 256, nlen / 256);
    assert bits[..16] == ByteBits(len % 256) + ByteBits(len / 256);
    assert bits[16..32] == ByteBits(nlen % 256) + ByteBits(nlen / 256);
  }

  // ---------- the fixed tables ----------

  lemma {:induction false} CountConcat(a: Lengths, b: Lengths, l: nat)
    ensures Count(a + b, l) == Count(a, l) + Count(b, l)
    decreases |b|
  {
    if b == [] {
      assert a + b == a;
    } else {
      var n := |b| - 1;
      assert (a + b)[..|a| + n] == a + b[..n];
      CountConcat(a, b[..n], l);
    }
  }

  lemma {:induction false} CountRepeat(v: Byte, n: nat, l: nat)
    ensures Count(Repeat(v, n), l) == if l == v then n else 0
    decreases n
  {
    if n > 0 {
      assert Repeat(v, n)[..n - 1] == Repeat(v, n - 1);
      CountRepeat(v, n - 1, l);
    }
  }

  lemma FixedCounts(l: nat)
    ensures Count(FixedLit(), l) == if l == 7 then 24 else if l == 8 then 152 else if l == 9 then 112 else 0
    ensures Count(FixedDist(), l) == if l == 5 then 30 else 0
  {
    var a, b, c, d := Repeat(8, 144), Repeat(9, 112), Repeat(7, 24), Repeat(8, 8);
    CountConcat(a + b + c, d, l);
    CountConcat(a + b, c, l);
    CountConcat(a, b, l);
    CountRepeat(8, 144, l);
    CountRepeat(9, 112, l);
    CountRepeat(7, 24, l);
    CountRepeat(8, 8, l);
    CountRepeat(5, 30, l);
  }

  /** First code plus count of a length, for the fixed tables, against the code space. */
  lemma {:induction false} FixedSpace(l: nat)
    requires 1 <= l <= 15
    ensures First(FixedLit(), l) + Count(FixedLit(), l) <= Pow(2, l)
    ensures First(FixedDist(), l) + Count(FixedDist(), l) <= Pow(2, l)
    ensures First(FixedLit(), l) == if l <= 7 then 0 else if l == 8 then 48 else if l == 9 then 400 else Pow(2, l)
    ensures l <= 5 ==> First(FixedDist(), l) == 0
    decreases l
  {
    hide FixedLit, FixedDist;
    FixedCounts(l);
    SmallPowers();
    if l > 1 {
      FixedSpace(l - 1);
      FixedCounts(l - 1);
    }
  }

  lemma FixedTablesFit()
    ensures Fits(FixedLit()) && Fits(FixedDist())
  {
    hide First, Count;
    forall l: nat | 1 <= l <= 15
      ensures First(FixedLit(), l) + Count(FixedLit(), l) <= Pow(2, l)
      ensures First(FixedDist(), l) + Count(FixedDist(), l) <= Pow(2, l)
    {
      FixedSpace(l);
    }
  }

  /** The fixed tables are always valid. */
  method FixedTables() returns (lit: HuffTable, dist: HuffTable)
    ensures TableFor(lit, FixedLit()) && TableFor(dist, FixedDist())
  {
    hide Fits, TableFor;
    FixedTablesFit();
    var l := BuildTable(FixedLit());
    var d := BuildTable(FixedDist());
    lit, dist := l.value, d.value;
  }

  // ---------- whole streams ----------

  method InflateBlockOfType(br: BitReader, kind: nat, out: ByteString) returns (r: Result<ByteString>)
    requires br.Valid()
    modifies br
    ensures br.Valid()
    ensures BlockOfType(kind, old(br.Rest()), out) == if r.Ok? then Done(r.value, br.Rest()) else Fail(r.error)
  {
    hide TableFor, Block, Stored, DynamicTables, StreamBits, FixedLit, FixedDist;
    if kind == 0 {
      r := InflateStored(br, out);
    } else if kind == 1 {
      var lit, dist := FixedTables();
      r := InflateBlock(br, out, lit, dist, FixedLit(), FixedDist());
    } else if kind == 2 {
      var tables, t := ReadDynamicTables(br);
      if tables.Err? {
        return Err(tables.error);
      }
      r := InflateBlock(br, out, tables.value.lit, tables.value.dist, t.lit, t.dist);
    } else {
      r := Err(InvalidBlockType);
    }
  }

  /** A raw DEFLATE stream: what the format says, for every byte string, and it ends. */
  method InflateRaw(data: ByteString) returns (r: Result<ByteString>)
    ensures match Stream(StreamBits(data), [])
            case Done(out, _) => r == Ok(out)
            case Fail(e) => r == Err(e)
  {
    hide StreamBits, LsbValue, BlockOfType, Stream;
    var br := new BitReader(data);
    var out: ByteString := [];
    ghost var whole := Stream(br.Rest(), []);
    while true
      invariant br.Valid() && whole == Stream(br.Rest(), out)
      decreases |br.Rest()|
    {
      ghost var bits := br.Rest();
      StreamStep(bits, out);
      var bfinal := br.ReadBitsLsb(1);
      if bfinal.Err? {
        return Err(bfinal.error);
      }
      var btype := br.ReadBitsLsb(2);
      if btype.Err? {
        return Err(btype.error);
      }
      FirstBit(bits);
      var block := InflateBlockOfType(br, btype.value, out);
      if block.Err? {
        return Err(block.error);
      }
      out := block.value;
      if bfinal.value == 1 {
        return Ok(out);
      }
    }
  }

  lemma StreamStep(bits: Bits, out: ByteString)
    ensures Stream(bits, out) ==
              if |bits| < 3 then Fail(UnexpectedEof) else
              match BlockOfType(LsbValue(bits[1..3]), bits[3..], out)
              case Fail(e) => Fail(e)
              case Done(out', rest) => if bits[0] then Done(out', rest) else Stream(rest, out')
    ensures |bits| >= 3 && BlockOfType(LsbValue(bits[1..3]), bits[3..], out).Done? ==>
              |BlockOfType(LsbValue(bits[1..3]), bits[3..], out).rest| < |bits|
  {
    hide BlockOfType, LsbValue;
  }

  lemma FirstBit(bits: Bits)
    requires |bits| >= 3
    ensures LsbValue(bits[..1]) == (if bits[0] then 1 else 0)
    ensures bits[1..][..2] == bits[1..3] && bits[1..][2..] == bits[3..]
  {
    assert bits[..1][1..] == [];
  }
}
