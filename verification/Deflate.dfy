/** The DEFLATE encoders (crates/otter-gfx/src/deflate.rs) and their round trips through
    the format the decoder reads. */
module Deflate {
  import opened Bytes
  import opened BitStreams
  import opened Huffman
  import opened Inflate
  import opened Inflater

  /** The code words of a byte string, one literal after another. */
  function LiteralWords(data: ByteString): Bits {
    if data == [] then [] else CodeWord(FixedLit(), data[0]) + LiteralWords(data[1..])
  }

  lemma {:induction false} LiteralWordsAppend(data: ByteString, b: Byte)
    ensures LiteralWords(data + [b]) == LiteralWords(data) + CodeWord(FixedLit(), b)
  {
    hide CodeWord;
    if data == [] {
      assert data + [b] == [b];
      assert [b][1..] == [];
    } else {
      LiteralWordsAppend(data[1..], b);
      assert (data + [b])[1..] == data[1..] + [b];
    }
  }

  /** The final bit, block type 01, the literals, and the end-of-block word. */
  function FixedBits(data: ByteString): Bits {
    [true] + LowBits(1, 2) + LiteralWords(data) + CodeWord(FixedLit(), 256)
  }

  /** One fixed-Huffman block of literals. */
  method DeflateFixed(data: ByteString) returns (bytes: ByteString)
    ensures StreamBits(bytes) == Padded(FixedBits(data))
  {
    hide StreamBits, LowBits, Fits, Code, FixedLit;
    var lengths := FixedLit();
    FixedTablesFit();
    FixedLengthsPositive();
    var codes := CanonicalCodes(lengths);
    var bw := new BitWriter();
    bw.WriteBit(true);
    bw.WriteBitsLsb(1, 2);
    for i := 0 to |data|
      invariant bw.Valid() && bw.Written() == [true] + LowBits(1, 2) + LiteralWords(data[..i])
      invariant fresh(bw)
    {
      bw.WriteHuffmanCode(codes[data[i]], lengths[data[i]]);
      LiteralWordsAppend(data[..i], data[i]);
      assert data[..i + 1] == data[..i] + [data[i]];
    }
    assert data[..|data|] == data;
    bw.WriteHuffmanCode(codes[256], lengths[256]);
    bytes := bw.Finish();
  }

  lemma FixedLengthsPositive()
    ensures |FixedLit()| == 288 && forall i :: 0 <= i < 288 ==> FixedLit()[i] > 0
  {
  }

  /** The decoder reads back the literals one by one and stops at the end-of-block word. */
  lemma {:induction false} BlockReadsLiterals(data: ByteString, out: ByteString, rest: Bits)
    ensures Block(FixedLit(), FixedDist(), LiteralWords(data) + CodeWord(FixedLit(), 256) + rest, out)
            == Done(out + data, rest)
    decreases |data|
  {
    hide CodeWord, FixedLit, FixedDist, NextSymbol, Fits;
    FixedTablesFit();
    FixedLengthsPositive();
    var lit := FixedLit();
    if data == [] {
      CodeWordDecodes(lit, 256, rest);
      assert LiteralWords(data) + CodeWord(lit, 256) + rest == CodeWord(lit, 256) + rest;
      assert out + data == out;
    } else {
      var more := LiteralWords(data[1..]) + CodeWord(lit, 256) + rest;
      CodeWordDecodes(lit, data[0], more);
      assert LiteralWords(data) + CodeWord(lit, 256) + rest == CodeWord(lit, data[0]) + more;
      BlockReadsLiterals(data[1..], out + [data[0]], rest);
      assert out + [data[0]] + data[1..] == out + data;
    }
  }

  /** Round trip: a fixed-Huffman stream, however it is padded, reads back as its data. */
  lemma FixedRoundTrip(data: ByteString, pad: Bits)
    ensures Stream(FixedBits(data) + pad, []) == Done(data, pad)
  {
    hide Block, LiteralWords, CodeWord, FixedLit, FixedDist;
    var body := LiteralWords(data) + CodeWord(FixedLit(), 256) + pad;
    var bits := FixedBits(data) + pad;
    BlockType01();
    assert bits == [true] + LowBits(1, 2) + body;
    assert bits[1..3] == LowBits(1, 2) && bits[3..] == body && bits[0];
    BlockReadsLiterals(data, [], pad);
    assert [] + data == data;
  }

  lemma BlockType01()
    ensures LsbValue(LowBits(1, 2)) == 1
  {
    LowBitsRoundTrip(1, 2);
  }

  // ---------- stored blocks ----------

  /** The bytes of one stored block of at most 65535 bytes. */
  function StoredBlock(chunk: ByteString, last: bool): ByteString
    requires |chunk| <= 0xFFFF
  {
    var n := |chunk|;
    var c := 0xFFFF - n;
    [if last then 1 else 0] + [n % 256, n / 256] + [c % 256, c / 256] + chunk
  }

  /** Chunks of 65535 bytes, the last one marked final; nothing at all is one empty chunk. */
  function StoredBytes(data: ByteString): ByteString
    decreases |data|
  {
    if |data| <= 0xFFFF then StoredBlock(data, true)
    else StoredBlock(data[..0xFFFF], false) + StoredBytes(data[0xFFFF..])
  }

  method DeflateStored(data: ByteString) returns (out: ByteString)
    ensures out == StoredBytes(data)
  {
    hide StoredBlock;
    if data == [] {
      return StoredBlock([], true);
    }
    out := [];
    var rest := data;
    while rest != []
      invariant if rest == [] then out == StoredBytes(data) else StoredBytes(data) == out + StoredBytes(rest)
      decreases |rest|
    {
      var n := if |rest| <= 0xFFFF then |rest| else 0xFFFF;
      assert |rest| <= 0xFFFF ==> rest[..n] == rest;
      out := out + StoredBlock(rest[..n], n == |rest|);
      rest := rest[n..];
    }
  }

  lemma {:induction false} RawReadsBytes(chunk: ByteString, rest: Bits, out: ByteString)
    ensures RawBytes(StreamBits(chunk) + rest, |chunk|, out) == Done(out + chunk, rest)
    decreases |chunk|
  {
    if chunk == [] {
      assert StreamBits(chunk) + rest == rest && out + chunk == out;
    } else {
      var b, more := chunk[0], StreamBits(chunk[1..]) + rest;
      assert StreamBits(chunk) + rest == ByteBits(b) + more;
      RawFirst(b, more, |chunk|, out);
      RawReadsBytes(chunk[1..], rest, out + [b]);
      assert out + [b] + chunk[1..] == out + chunk;
    }
  }

  lemma TwoBytes(a: Byte, b: Byte)
    ensures StreamBits([a, b]) == ByteBits(a) + ByteBits(b)
  {
    assert [a, b][1..] == [b] && [b][1..] == [];
    assert StreamBits([b]) == ByteBits(b) + StreamBits([b][1..]);
  }

  lemma FourBytes(a: Byte, b: Byte, c: Byte, d: Byte)
    ensures StreamBits([a, b] + [c, d]) == ByteBits(a) + ByteBits(b) + (ByteBits(c) + ByteBits(d))
  {
    TwoBytes(a, b);
    TwoBytes(c, d);
    StreamConcat([a, b], [c, d]);
  }

  lemma HeaderByte(last: bool)
    ensures var h := StreamBits([if last then 1 else 0]);
            |h| == 8 && h[0] == last && LsbValue(h[1..3]) == 0
  {
    var b: Byte := if last then 1 else 0;
    SmallPowers();
    StreamBitAt([b], 0, 0);
    StreamBitAt([b], 0, 1);
    StreamBitAt([b], 0, 2);
    SmallBits(b);
    var h := StreamBits([b]);
    NoBits(h[1..3]);
  }

  lemma SmallBits(b: nat)
    requires b < 2
    ensures BitOf(b, 0) == (b == 1) && !BitOf(b, 1) && !BitOf(b, 2)
  {
    SmallPowers();
  }

  lemma NoBits(z: Bits)
    requires |z| == 2 && !z[0] && !z[1]
    ensures LsbValue(z) == 0
  {
    assert z[1..][1..] == [] && LsbValue(z[1..]) == 0;
  }

  /** One stored block, byte-aligned, reads back as its chunk. */
  lemma StoredBlockReads(chunk: ByteString, last: bool, after: ByteString, out: ByteString)
    requires |chunk| <= 0xFFFF
    ensures var bits := StreamBits(StoredBlock(chunk, last) + after);
            && |bits| >= 3 && bits[0] == last && LsbValue(bits[1..3]) == 0
            && Stored(bits[3..], out) == Done(out + chunk, StreamBits(after))
  {
    hide StreamBits, LsbValue, ByteBits;
    var n, c := |chunk|, 0xFFFF - |chunk|;
    var h := [if last then 1 else 0];
    var f := [n % 256, n / 256] + [c % 256, c / 256];
    assert StoredBlock(chunk, last) + after == h + (f + (chunk + after));
    StreamConcat(h, f + (chunk + after));
    StreamConcat(f, chunk + after);
    StreamConcat(chunk, after);
    HeaderByte(last);
    FourBytes(n % 256, n / 256, c % 256, c / 256);
    var tail := StreamBits(chunk) + StreamBits(after);
    var bits := StreamBits(h) + (StreamBits(f) + tail);
    assert bits[1..3] == StreamBits(h)[1..3];
    AlignedTail(StreamBits(h), StreamBits(f) + tail);
    assert StreamBits(f) + tail
           == ByteBits(n % 256) + ByteBits(n / 256) + (ByteBits(c % 256) + ByteBits(c / 256) + tail);
    StoredHeader(StreamBits(f) + tail, n, c, tail);
    RawReadsBytes(chunk, StreamBits(after), out);
  }

  /** Aligning inside the header byte drops exactly the rest of that byte. */
  lemma AlignedTail(h: Bits, tail: Bits)
    requires |h| == 8 && |tail| % 8 == 0
    ensures var b := (h + tail)[3..]; b[|b| % 8..] == tail
  {
    var b := (h + tail)[3..];
    assert |b| == 5 + |tail|;
    assert |b| % 8 == 5;
  }

  lemma StoredStep(bits: Bits, out: ByteString)
    requires |bits| >= 3 && LsbValue(bits[1..3]) == 0
    ensures Stream(bits, out) ==
              match Stored(bits[3..], out)
              case Fail(e) => Fail(e)
              case Done(out', rest) => if bits[0] then Done(out', rest) else Stream(rest, out')
  {
    hide Stored, LsbValue;
  }

  lemma StoredBytesUnfold(data: ByteString)
    ensures |data| <= 0xFFFF ==> StoredBytes(data) == StoredBlock(data, true) + []
    ensures |data| > 0xFFFF
            ==> StoredBytes(data) == StoredBlock(data[..0xFFFF], false) + StoredBytes(data[0xFFFF..])
  {
    hide StoredBlock;
  }

  /** Round trip: any number of stored blocks reads back as the data. */
  lemma {:induction false} StoredRoundTrip(data: ByteString, out: ByteString)
    ensures Stream(StreamBits(StoredBytes(data)), out) == Done(out + data, [])
    decreases |data|
  {
    hide StoredBlock, Stored, LsbValue, StreamBits, Stream, StoredBytes;
    StoredBytesUnfold(data);
    var bits := StreamBits(StoredBytes(data));
    if |data| <= 0xFFFF {
      StoredBlockReads(data, true, [], out);
      StoredStep(bits, out);
      NoStream();
    } else {
      var chunk, rest := data[..0xFFFF], data[0xFFFF..];
      StoredBlockReads(chunk, false, StoredBytes(rest), out);
      StoredStep(bits, out);
      StoredRoundTrip(rest, out + chunk);
      assert out + chunk + rest == out + data;
    }
  }

  lemma NoStream()
    ensures StreamBits([]) == []
  {
  }

  /** Both encoders are inverted by the decoder. */
  method RoundTrips(data: ByteString) returns (fixed: Result<ByteString>, stored: Result<ByteString>)
    ensures fixed == Ok(data) && stored == Ok(data)
  {
    hide Stream, FixedBits, StreamBits;
    var f := DeflateFixed(data);
    FixedRoundTrip(data, Zeros((8 - |FixedBits(data)| % 8) % 8));
    fixed := InflateRaw(f);
    var s := DeflateStored(data);
    StoredRoundTrip(data, []);
    assert [] + data == data;
    stored := InflateRaw(s);
  }
}
