/** The DEFLATE decoder (crates/otter-gfx/src/inflate.rs) against the format as a function
    of the bits (RFC 1951). */
module Inflate {
  import opened Bytes
  import opened Congruence
  import opened BitStreams
  import opened Huffman

  // ---------- the format ----------

  const LENGTH_BASE: seq<nat> := [
    3, 4, 5, 6, 7, 8, 9, 10, 11, 13, 15, 17, 19, 23, 27, 31, 35, 43, 51, 59, 67, 83, 99, 115, 131, 163, 195, 227, 258]
  const LENGTH_EXTRA: seq<nat> := [
    0, 0, 0, 0, 0, 0, 0, 0, 1, 1, 1, 1, 2, 2, 2, 2, 3, 3, 3, 3, 4, 4, 4, 4, 5, 5, 5, 5, 0]
  const DIST_BASE: seq<nat> := [
    1, 2, 3, 4, 5, 7, 9, 13, 17, 25, 33, 49, 65, 97, 129, 193, 257, 385, 513, 769, 1025, 1537, 2049, 3073, 4097,
    6145, 8193, 12289, 16385, 24577]
  const DIST_EXTRA: seq<nat> := [
    0, 0, 0, 0, 1, 1, 2, 2, 3, 3, 4, 4, 5, 5, 6, 6, 7, 7, 8, 8, 9, 9, 10, 10, 11, 11, 12, 12, 13, 13]
  const CODE_LENGTH_ORDER: seq<nat> := [16, 17, 18, 0, 8, 7, 9, 6, 10, 5, 11, 4, 12, 3, 13, 2, 14, 1, 15]

  /** The smallest length of a length symbol, and how many bits add to it. */
  function LengthBase(sym: nat): nat
    requires 257 <= sym <= 285
  {
    LENGTH_BASE[sym - 257]
  }

  function LengthExtra(sym: nat): nat
    requires 257 <= sym <= 285
  {
    LENGTH_EXTRA[sym - 257]
  }

  /** The smallest distance of a distance symbol, and how many bits add to it. */
  function DistBase(sym: nat): nat
    requires sym < 30
  {
    DIST_BASE[sym]
  }

  function DistExtra(sym: nat): nat
    requires sym < 30
  {
    DIST_EXTRA[sym]
  }

  /** Which symbol the i-th stored code length is for. */
  function CodeLengthSlot(i: nat): (s: nat)
    requires i < 19
    ensures s < 19
  {
    CODE_LENGTH_ORDER[i]
  }

  function Field(bits: Bits, n: nat): Parsed<nat> {
    if |bits| < n then Fail(UnexpectedEof) else Done(LsbValue(bits[..n]), bits[n..])
  }

  /** n more bytes, each equal to the one `distance` before it. */
  function CopyBack(out: ByteString, distance: nat, n: nat): (r: ByteString)
    requires 0 < distance <= |out|
    ensures |r| == |out| + n && out <= r
    decreases n
  {
    if n == 0 then out else CopyBack(out + [out[|out| - distance]], distance, n - 1)
  }

  /** The copy is the periodic extension of the last `distance` bytes, overlaps included. */
  lemma {:induction false} CopyIsPeriodic(out: ByteString, distance: nat, n: nat, i: nat)
    requires 0 < distance <= |out| && i < n
    ensures CopyBack(out, distance, n)[|out| + i] == out[|out| - distance + i % distance]
    decreases n
  {
    var next := out + [out[|out| - distance]];
    if i == 0 {
      assert next <= CopyBack(next, distance, n - 1);
      assert next[|out|] == out[|out| - distance];
    } else {
      CopyIsPeriodic(next, distance, n - 1, i - 1);
      var k := (i - 1) % distance;
      if k + 1 < distance {
        QuotientStep(i, distance, k + 1);
        assert next[|next| - distance + k] == out[|out| - distance + (k + 1)];
      } else {
        QuotientStep(i, distance, 0);
        assert next[|next| - distance + k] == next[|out|];
      }
    }
  }

  lemma QuotientStep(i: nat, d: nat, r: nat)
    requires i > 0 && d > 0 && r < d
    requires (i - 1) % d + 1 == (if r == 0 then d else r)
    ensures i % d == r
  {
    var q := (i - 1) / d;
    assert i - 1 == d * q + (i - 1) % d;
    if r == 0 {
      assert i == d * (q + 1);
      RemainderIs(i, d, q + 1, 0);
    } else {
      RemainderIs(i, d, q, r);
    }
  }

  /** The length a length symbol and its extra bits stand for. */
  ghost function MatchLength(sym: nat, bits: Bits): (r: Parsed<nat>)
    requires 257 <= sym <= 285
    ensures r.Done? ==> |r.rest| <= |bits|
  {
    match Field(bits, LengthExtra(sym))
    case Fail(e) => Fail(e)
    case Done(extra, rest) => Done(LengthBase(sym) + extra, rest)
  }

  /** A distance symbol and its extra bits. */
  ghost function MatchDistance(dist: Lengths, bits: Bits): (r: Parsed<nat>)
    ensures r.Done? ==> |r.rest| <= |bits|
  {
    match NextSymbol(dist, bits)
    case Fail(e) => Fail(e)
    case Done(sym, bits1) =>
      if sym >= 30 then Fail(InvalidDistance) else
      match Field(bits1, DistExtra(sym))
      case Fail(e) => Fail(e)
      case Done(extra, rest) => Done(DistBase(sym) + extra, rest)
  }

  /** A length and a distance applied to the output. */
  ghost function BackReference(sym: nat, dist: Lengths, bits: Bits, out: ByteString): (r: Parsed<ByteString>)
    requires 257 <= sym <= 285
    ensures r.Done? ==> |r.rest| <= |bits|
  {
    match MatchLength(sym, bits)
    case Fail(e) => Fail(e)
    case Done(length, bits1) =>
      match MatchDistance(dist, bits1)
      case Fail(e) => Fail(e)
      case Done(distance, rest) =>
        if distance == 0 || distance > |out| then Fail(InvalidDistance)
        else Done(CopyBack(out, distance, length), rest)
  }

  /** The body of a compressed block, appended to out (section 3.2.3 of RFC 1951). */
  ghost function Block(lit: Lengths, dist: Lengths, bits: Bits, out: ByteString): (r: Parsed<ByteString>)
    ensures r.Done? ==> |r.rest| <= |bits|
    decreases |bits|
  {
    match NextSymbol(lit, bits)
    case Fail(e) => Fail(e)
    case Done(sym, rest) =>
      if sym <= 255 then Block(lit, dist, rest, out + [sym])
      else if sym == 256 then Done(out, rest)
      else if sym <= 285 then
        match BackReference(sym, dist, rest, out)
        case Fail(e) => Fail(e)
        case Done(out', rest') => Block(lit, dist, rest', out')
      else Fail(InvalidLengthCode)
  }

  function Repeat(b: Byte, n: nat): (s: Lengths) { seq(n, _ => b) }

  /** A repeat symbol with its extra bits: the last length again, or a run of zeros. */
  function Run(sym: nat, bits: Bits, want: nat, have: Lengths): (r: Parsed<Lengths>)
    requires 16 <= sym <= 18 && (sym == 16 ==> have != []) && |have| < want
    ensures r.Done? ==> |have| <= |r.value| <= want && |r.rest| <= |bits|
  {
    match Field(bits, if sym == 16 then 2 else if sym == 17 then 3 else 7)
    case Fail(e) => Fail(e)
    case Done(n, rest) =>
      var rep := (if sym == 18 then 11 else 3) + n;
      if |have| + rep > want then Fail(InvalidHuffmanTable)
      else Done(have + Repeat(if sym == 16 then have[|have| - 1] else 0, rep), rest)
  }

  /** The lengths of a dynamic block, run-length coded (section 3.2.7 of RFC 1951). */
  ghost function CodedLengths(clc: Lengths, bits: Bits, want: nat, have: Lengths): (r: Parsed<Lengths>)
    requires |have| <= want
    ensures r.Done? ==> |r.value| == want && |r.rest| <= |bits|
    decreases |bits|
  {
    if |have| == want then Done(have, bits) else
    match NextSymbol(clc, bits)
    case Fail(e) => Fail(e)
    case Done(sym, rest) =>
      if sym <= 15 then CodedLengths(clc, rest, want, have + [sym])
      else if sym > 18 || (sym == 16 && have == []) then Fail(InvalidHuffmanTable)
      else
        match Run(sym, rest, want, have)
        case Fail(e) => Fail(e)
        case Done(longer, rest') => CodedLengths(clc, rest', want, longer)
  }

  /** The three-bit lengths of the code length alphabet, stored in their own order. */
  function CodeLengthLengths(bits: Bits, n: nat, i: nat, have: Lengths): (r: Parsed<Lengths>)
    requires i <= n <= 19 && |have| == 19
    ensures r.Done? ==> |r.value| == 19 && |r.rest| <= |bits|
    decreases n - i
  {
    if i == n then Done(have, bits) else
    match Field(bits, 3)
    case Fail(e) => Fail(e)
    case Done(v, rest) => CodeLengthLengths(rest, n, i + 1, have[CodeLengthSlot(i) := v % 8])
  }

  datatype Tables = Tables(lit: Lengths, dist: Lengths)

  /** The two tables of a dynamic block, each checked to be a code. */
  ghost function DynamicTables(bits: Bits): (r: Parsed<Tables>)
    ensures r.Done? ==> |r.rest| <= |bits| && Fits(r.value.lit) && Fits(r.value.dist)
  {
    if |bits| < 14 then Fail(UnexpectedEof) else
    var hlit := LsbValue(bits[..5]) + 257;
    var hdist := LsbValue(bits[5..10]) + 1;
    var hclen := LsbValue(bits[10..14]) + 4;
    LsbBound(bits[10..14]);
    SmallPowers();
    match CodeLengthLengths(bits[14..], hclen, 0, Repeat(0, 19))
    case Fail(e) => Fail(e)
    case Done(clc, rest) =>
      if !Fits(clc) then Fail(InvalidHuffmanTable) else
      match CodedLengths(clc, rest, hlit + hdist, [])
      case Fail(e) => Fail(e)
      case Done(all, rest') =>
        if !Fits(all[..hlit]) || !Fits(all[hlit..]) then Fail(InvalidHuffmanTable)
        else Done(Tables(all[..hlit], all[hlit..]), rest')
  }

  lemma SmallPowers()
    ensures Pow(2, 0) == 1 && Pow(2, 1) == 2 && Pow(2, 2) == 4 && Pow(2, 3) == 8 && Pow(2, 4) == 16
    ensures Pow(2, 5) == 32 && Pow(2, 6) == 64 && Pow(2, 7) == 128 && Pow(2, 8) == 256
    ensures Pow(2, 9) == 512 && Pow(2, 10) == 1024
  {
  }

  function FixedLit(): (s: Lengths)
    ensures |s| == 288
  {
    Repeat(8, 144) + Repeat(9, 112) + Repeat(7, 24) + Repeat(8, 8)
  }

  function FixedDist(): Lengths { Repeat(5, 30) }

  /** len bytes taken as they are from byte-aligned bits. */
  function RawBytes(bits: Bits, n: nat, out: ByteString): (r: Parsed<ByteString>)
    ensures r.Done? ==> |r.rest| <= |bits|
    decreases n
  {
    if n == 0 then Done(out, bits)
    else if |bits| < 8 then Fail(UnexpectedEof)
    else
      LsbBound(bits[..8]);
      WholeByteValue();
      RawBytes(bits[8..], n - 1, out + [LsbValue(bits[..8])])
  }

  /** A stored block: to the byte boundary, the length and its complement, the bytes. */
  function Stored(bits: Bits, out: ByteString): (r: Parsed<ByteString>)
    ensures r.Done? ==> |r.rest| <= |bits|
  {
    var b := bits[|bits| % 8..];
    if |b| < 32 then Fail(UnexpectedEof) else
    var len, nlen := LsbValue(b[..16]), LsbValue(b[16..32]);
    if len + nlen != 0xFFFF then Fail(InvalidStoredLength) else RawBytes(b[32..], len, out)
  }

  /** One block after its three header bits. */
  ghost function BlockOfType(kind: nat, bits: Bits, out: ByteString): (r: Parsed<ByteString>)
    ensures r.Done? ==> |r.rest| <= |bits|
  {
    if kind == 0 then Stored(bits, out)
    else if kind == 1 then Block(FixedLit(), FixedDist(), bits, out)
    else if kind == 2 then
      match DynamicTables(bits)
      case Fail(e) => Fail(e)
      case Done(t, rest) => Block(t.lit, t.dist, rest, out)
    else Fail(InvalidBlockType)
  }

  /** A whole DEFLATE stream. */
  ghost function Stream(bits: Bits, out: ByteString): Parsed<ByteString>
    decreases |bits|
  {
    if |bits| < 3 then Fail(UnexpectedEof) else
    match BlockOfType(LsbValue(bits[1..3]), bits[3..], out)
    case Fail(e) => Fail(e)
    case Done(out', rest) => if bits[0] then Done(out', rest) else Stream(rest, out')
  }
}
