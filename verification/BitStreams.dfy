/** Bytes as streams of bits, least significant bit first, and the objects that read and
    write them (crates/otter-gfx/src/inflate.rs and deflate.rs). */
module BitStreams {
  import opened Bytes
  import opened Congruence

  datatype InflateError =
    | UnexpectedEof | InvalidBlockType | InvalidStoredLength | InvalidHuffmanTable
    | InvalidDistance | InvalidLengthCode | InvalidZlibHeader | UnsupportedPresetDictionary | AdlerMismatch

  datatype Result<+T> = Ok(value: T) | Err(error: InflateError)

  type Bits = seq<bool>

  function BitOf(b: nat, i: nat): bool { (b / Pow(2, i)) % 2 == 1 }

  function ByteBits(b: Byte): (s: Bits)
    ensures |s| == 8
  {
    seq(8, i requires 0 <= i < 8 => BitOf(b, i))
  }

  /** All the bits of a byte string, in the order DEFLATE reads them. */
  function StreamBits(data: ByteString): (s: Bits)
    ensures |s| == 8 * |data|
  {
    if data == [] then [] else ByteBits(data[0]) + StreamBits(data[1..])
  }

  lemma {:induction false} StreamBitAt(data: ByteString, i: nat, j: nat)
    requires i < |data| && j < 8
    ensures StreamBits(data)[8 * i + j] == BitOf(data[i], j)
  {
    if i > 0 { StreamBitAt(data[1..], i - 1, j); }
  }

  lemma {:induction false} StreamConcat(a: ByteString, b: ByteString)
    ensures StreamBits(a + b) == StreamBits(a) + StreamBits(b)
  {
    if a == [] {
      assert a + b == b;
    } else {
      StreamConcat(a[1..], b);
      assert (a + b)[0] == a[0] && (a + b)[1..] == a[1..] + b;
      assert StreamBits(a + b) == ByteBits(a[0]) + StreamBits(a[1..] + b) by { hide ByteBits; }
    }
  }

  lemma StreamDrop(data: ByteString, i: nat)
    requires i <= |data|
    ensures StreamBits(data)[8 * i..] == StreamBits(data[i..])
  {
    StreamConcat(data[..i], data[i..]);
    assert data[..i] + data[i..] == data;
  }

  /** The number spelt by bits, least significant first. */
  function LsbValue(bits: Bits): nat {
    if bits == [] then 0 else (if bits[0] then 1 else 0) + 2 * LsbValue(bits[1..])
  }

  lemma {:induction false} LsbAppend(bits: Bits, b: bool)
    ensures LsbValue(bits + [b]) == LsbValue(bits) + if b then Pow(2, |bits|) else 0
  {
    if bits == [] {
      assert bits + [b] == [b];
      assert [b][1..] == [];
    } else {
      assert (bits + [b])[1..] == bits[1..] + [b];
      LsbAppend(bits[1..], b);
    }
  }

  lemma {:induction false} LsbBound(bits: Bits)
    ensures LsbValue(bits) < Pow(2, |bits|)
  {
    if bits != [] { LsbBound(bits[1..]); }
  }

  /** The lowest n bits of a value, least significant first. */
  function LowBits(value: nat, n: nat): (s: Bits)
    ensures |s| == n
  {
    if n == 0 then [] else [value % 2 == 1] + LowBits(value / 2, n - 1)
  }

  lemma {:induction false} LowBitsRoundTrip(value: nat, n: nat)
    requires value < Pow(2, n)
    ensures LsbValue(LowBits(value, n)) == value
    decreases n
  {
    if n > 0 {
      LowBitsRoundTrip(value / 2, n - 1);
      assert LowBits(value, n)[1..] == LowBits(value / 2, n - 1);
    }
  }

  lemma HalfBit(value: nat, i: nat)
    ensures BitOf(value / 2, i) == BitOf(value, i + 1)
  {
    var p := Pow(2, i);
    assert (value / 2) / p == value / (2 * p) by { DivDiv(value, 2, p); }
  }

  lemma {:induction false} LowBitAt(value: nat, n: nat, i: nat)
    requires i < n
    ensures LowBits(value, n)[i] == BitOf(value, i)
    decreases n
  {
    if i == 0 {
      assert Pow(2, 0) == 1 && value / 1 == value;
    } else {
      LowBitAt(value / 2, n - 1, i - 1);
      HalfBit(value, i - 1);
    }
  }

  /** A cursor over the bits of a byte string. */
  class BitReader {
    const data: ByteString
    var bytePos: nat
    var bitPos: nat

    ghost predicate Valid()
      reads this
    {
      bitPos < 8 && bytePos <= |data| && (bytePos == |data| ==> bitPos == 0)
    }

    /** The bits not read yet. */
    ghost function Rest(): (s: Bits)
      reads this
      requires Valid()
    {
      StreamBits(data)[8 * bytePos + bitPos..]
    }

    constructor (data: ByteString)
      ensures Valid() && this.data == data && Rest() == StreamBits(data)
    {
      this.data := data;
      bytePos, bitPos := 0, 0;
    }

    method ReadBit() returns (r: Result<nat>)
      requires Valid()
      modifies this
      ensures Valid() && (r.Err? <==> old(Rest()) == [])
      ensures r.Err? ==> r.error == UnexpectedEof && Rest() == old(Rest())
      ensures r.Ok? ==> r.value == (if old(Rest())[0] then 1 else 0) && Rest() == old(Rest())[1..]
    {
      if bytePos >= |data| {
        return Err(UnexpectedEof);
      }
      StreamBitAt(data, bytePos, bitPos);
      var bit := (data[bytePos] / Pow(2, bitPos)) % 2;
      bitPos := bitPos + 1;
      if bitPos == 8 {
        bitPos := 0;
        bytePos := bytePos + 1;
      }
      return Ok(bit);
    }

    method ReadBitsLsb(n: nat) returns (r: Result<nat>)
      requires Valid()
      modifies this
      ensures Valid() && (r.Err? <==> |old(Rest())| < n) && |Rest()| <= |old(Rest())|
      ensures r.Err? ==> r.error == UnexpectedEof
      ensures r.Ok? ==> r.value == LsbValue(old(Rest())[..n]) && Rest() == old(Rest())[n..]
    {
      ghost var start := Rest();
      var v := 0;
      for i := 0 to n
        invariant Valid() && i <= |start| && Rest() == start[i..] && v == LsbValue(start[..i])
      {
        var bit := ReadBit();
        if bit.Err? {
          return Err(bit.error);
        }
        LsbAppend(start[..i], start[i]);
        assert start[..i + 1] == start[..i] + [start[i]];
        v := v + bit.value * Pow(2, i);
      }
      return Ok(v);
    }

    /** On to the next byte boundary. */
    method AlignToByte()
      requires Valid()
      modifies this
      ensures Valid() && bitPos == 0 && Rest() == old(Rest())[|old(Rest())| % 8..]
    {
      hide StreamBits;
      assert bitPos > 0 ==> |Rest()| % 8 == 8 - bitPos;
      if bitPos != 0 {
        bitPos := 0;
        bytePos := bytePos + 1;
      }
    }

    method ReadU8() returns (r: Result<Byte>)
      requires Valid() && bitPos == 0
      modifies this
      ensures Valid() && bitPos == 0 && (r.Err? <==> |old(Rest())| < 8) && |Rest()| <= |old(Rest())|
      ensures r.Err? ==> r.error == UnexpectedEof
      ensures r.Ok? ==> old(Rest()) == ByteBits(r.value) + Rest()
    {
      if bytePos >= |data| {
        return Err(UnexpectedEof);
      }
      var b := data[bytePos];
      StreamDrop(data, bytePos);
      StreamDrop(data, bytePos + 1);
      assert data[bytePos..][1..] == data[bytePos + 1..];
      bytePos := bytePos + 1;
      return Ok(b);
    }

    method ReadU16Le() returns (r: Result<nat>)
      requires Valid() && bitPos == 0
      modifies this
      ensures Valid() && bitPos == 0 && (r.Err? <==> |old(Rest())| < 16) && |Rest()| <= |old(Rest())|
      ensures r.Err? ==> r.error == UnexpectedEof
      ensures r.Ok? ==> r.value < 0x1_0000
                        && old(Rest()) == ByteBits(r.value % 256) + ByteBits(r.value / 256) + Rest()
    {
      hide StreamBits, ByteBits;
      var lo := ReadU8();
      if lo.Err? {
        return Err(lo.error);
      }
      var hi := ReadU8();
      if hi.Err? {
        return Err(hi.error);
      }
      var low: nat, high: nat := lo.value, hi.value;
      return Ok(low + 256 * high);
    }
  }

  /** Collects bits into bytes, least significant bit first. */
  class BitWriter {
    var out: ByteString
    var cur: nat
    var nbits: nat

    ghost predicate Valid()
      reads this
    {
      nbits < 8 && cur < Pow(2, nbits)
    }

    /** The bits written so far. */
    ghost function Written(): Bits
      reads this
    {
      StreamBits(out) + LowBits(cur, nbits)
    }

    constructor ()
      ensures Valid() && Written() == [] && nbits == 0
    {
      EmptyWriter();
      out, cur, nbits := [], 0, 0;
    }

    method WriteBit(bit: bool)
      requires Valid()
      modifies this
      ensures Valid() && Written() == old(Written()) + [bit] && nbits == (old(nbits) + 1) % 8
    {
      hide StreamBits, LowBits, Pow, ByteBits;
      PushBit(cur, nbits, bit);
      cur := cur + (if bit then Pow(2, nbits) else 0);
      nbits := nbits + 1;
      assert StreamBits(out) + LowBits(cur, nbits) == old(Written()) + [bit];
      if nbits == 8 {
        WholeByte(cur);
        StreamConcat(out, [cur]);
        EmptyWriter();
        out := out + [cur];
        cur := 0;
        nbits := 0;
        assert StreamBits(out) + LowBits(cur, nbits) == StreamBits(out);
      }
    }

    method WriteBitsLsb(value: nat, n: nat)
      requires Valid()
      modifies this
      ensures Valid() && Written() == old(Written()) + LowBits(value, n)
    {
      ghost var start := Written();
      for i := 0 to n
        invariant Valid() && Written() == start + LowBits(value, n)[..i]
      {
        LowBitAt(value, n, i);
        WriteBit((value / Pow(2, i)) % 2 == 1);
      }
    }

    /** A Huffman code, most significant bit first. */
    method WriteHuffmanCode(code: nat, len: nat)
      requires Valid()
      modifies this
      ensures Valid() && Written() == old(Written()) + MsbBits(code, len)
    {
      hide StreamBits, LowBits, MsbBits;
      ghost var start := Written();
      var i := len;
      while i > 0
        invariant 0 <= i <= len && Valid() && Written() == start + MsbBits(code, len)[..len - i]
      {
        i := i - 1;
        MsbNext(code, len, i);
        WriteBit((code / Pow(2, i)) % 2 == 1);
      }
      assert MsbBits(code, len)[..len] == MsbBits(code, len);
    }

    /** Zero bits up to the next byte boundary. */
    method AlignToByte()
      requires Valid()
      modifies this
      ensures Valid() && nbits == 0 && Written() == Padded(old(Written()))
    {
      hide StreamBits, LowBits, Pow, Zeros, Padded;
      ghost var start, first := Written(), nbits;
      PaddedIs(start, |out|, first);
      ghost var n: nat := 0;
      while nbits != 0
        invariant Valid() && Written() == start + Zeros(n)
        invariant if nbits != 0 then nbits == first + n else n == if first == 0 then 0 else 8 - first
        decreases if nbits == 0 then 0 else 8 - nbits
      {
        WriteBit(false);
        ZerosNext(n);
        n := n + 1;
      }
    }

    method Finish() returns (bytes: ByteString)
      requires Valid()
      modifies this
      ensures StreamBits(bytes) == Padded(old(Written()))
    {
      AlignToByte();
      assert LowBits(cur, nbits) == [];
      return out;
    }
  }

  function Zeros(n: nat): (s: Bits)
    ensures |s| == n
  {
    seq(n, _ => false)
  }

  lemma ZerosNext(n: nat)
    ensures Zeros(n) + [false] == Zeros(n + 1)
  {
  }

  /** Bits filled up with zeros to a whole number of bytes. */
  function Padded(bits: Bits): Bits {
    bits + Zeros((8 - |bits| % 8) % 8)
  }

  lemma PaddedIs(bits: Bits, whole: nat, more: nat)
    requires |bits| == 8 * whole + more && more < 8
    ensures Padded(bits) == bits + Zeros(if more == 0 then 0 else 8 - more)
  {
    assert |bits| % 8 == more;
  }

  /** The lowest len bits of a code, most significant first. */
  function MsbBits(code: nat, len: nat): (s: Bits)
    ensures |s| == len
  {
    seq(len, i requires 0 <= i < len => BitOf(code, len - 1 - i))
  }

  lemma MsbNext(code: nat, len: nat, i: nat)
    requires i < len
    ensures MsbBits(code, len)[..len - i] == MsbBits(code, len)[..len - i - 1] + [(code / Pow(2, i)) % 2 == 1]
  {
    assert MsbBits(code, len)[len - i - 1] == BitOf(code, i);
  }

  lemma {:induction false} PushBit(cur: nat, n: nat, bit: bool)
    requires cur < Pow(2, n)
    ensures var next := cur + (if bit then Pow(2, n) else 0);
            next < Pow(2, n + 1) && LowBits(next, n + 1) == LowBits(cur, n) + [bit]
    decreases n
  {
    var next := cur + (if bit then Pow(2, n) else 0);
    if n == 0 {
      assert LowBits(next / 2, 0) == [];
    } else {
      PushBit(cur / 2, n - 1, bit);
      assert next / 2 == cur / 2 + (if bit then Pow(2, n - 1) else 0);
      assert next % 2 == cur % 2;
    }
  }

  lemma EmptyWriter()
    ensures LowBits(0, 0) == [] && Pow(2, 0) == 1
  {
  }

  lemma WholeByte(cur: nat)
    requires cur < Pow(2, 8)
    ensures cur < 256 && LowBits(cur, 8) == ByteBits(cur) == StreamBits([cur])
  {
    assert Pow(2, 8) == 256;
    assert [cur][1..] == [];
    forall i: nat | i < 8 ensures LowBits(cur, 8)[i] == BitOf(cur, i) { LowBitAt(cur, 8, i); }
  }

  lemma WholeByteValue()
    ensures Pow(2, 8) == 256
  {
  }

  lemma {:induction false} LsbOfByte(b: Byte)
    ensures LsbValue(ByteBits(b)) == b
  {
    WholeByte(b) by { WholeByteValue(); }
    LowBitsRoundTrip(b, 8) by { WholeByteValue(); }
  }

  lemma {:induction false} LsbConcat(a: Bits, b: Bits)
    ensures LsbValue(a + b) == LsbValue(a) + Pow(2, |a|) * LsbValue(b)
  {
    if a == [] {
      assert a + b == b;
    } else {
      LsbConcat(a[1..], b);
      assert (a + b)[1..] == a[1..] + b;
      TwiceProduct(Pow(2, |a| - 1), LsbValue(b));
    }
  }

  lemma {:induction false} BitsOfValue(bits: Bits)
    ensures LowBits(LsbValue(bits), |bits|) == bits
  {
    if bits != [] {
      BitsOfValue(bits[1..]);
      assert bits == [bits[0]] + bits[1..];
    }
  }
}
