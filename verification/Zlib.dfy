/** zlib streams: a header, a DEFLATE body and a checksum (inflate.rs and deflate.rs of
    crates/otter-gfx/src, section 2.2 of RFC 1950). */
module Zlib {
  import opened Bytes
  import opened BitStreams
  import opened Checksums
  import opened Endian
  import opened Inflate
  import opened Inflater
  import opened Deflate
  import opened Huffman
  import Congruence

  /** What a zlib stream holds, checked in the decoder's order. */
  ghost function Contents(data: ByteString): Result<ByteString> {
    if |data| < 6 then Err(UnexpectedEof) else
    var cmf: nat, flg: nat := data[0], data[1];
    if cmf % 16 != 8 then Err(InvalidZlibHeader)
    else if (256 * cmf + flg) % 31 != 0 then Err(InvalidZlibHeader)
    else if (flg / 32) % 2 == 1 then Err(UnsupportedPresetDictionary)
    else
      match Stream(StreamBits(data[2..|data| - 4]), [])
      case Fail(e) => Err(e)
      case Done(out, _) => if BeValue(data[|data| - 4..]) != Adler(out) then Err(AdlerMismatch) else Ok(out)
  }

  method InflateZlib(data: ByteString) returns (r: Result<ByteString>)
    ensures r == Contents(data)
  {
    hide Stream, StreamBits, Adler;
    if |data| < 6 {
      return Err(UnexpectedEof);
    }
    var cmf: int, flg: int := data[0], data[1];
    if cmf % 16 != 8 {
      return Err(InvalidZlibHeader);
    }
    if (cmf * 256 + flg) % 31 != 0 {
      return Err(InvalidZlibHeader);
    }
    if (flg / 32) % 2 == 1 {
      return Err(UnsupportedPresetDictionary);
    }
    var out := InflateRaw(data[2..|data| - 4]);
    if out.Err? {
      return Err(out.error);
    }
    var expected := BeValue(data[|data| - 4..]);
    var actual := Adler32(out.value);
    if actual != expected {
      return Err(AdlerMismatch);
    }
    return out;
  }

  /** A body between the header and the checksum of its source. */
  function Wrapped(body: ByteString, source: ByteString): ByteString {
    [0x78, 0x01] + body + BeBytes(Adler(source), 4)
  }

  lemma WrappedContents(body: ByteString, source: ByteString, rest: Bits)
    requires Stream(StreamBits(body), []) == Done(source, rest)
    ensures Contents(Wrapped(body, source)) == Ok(source)
  {
    hide Stream, StreamBits, Adler, BeBytes, BeValue;
    var z := Wrapped(body, source);
    assert z[2..|z| - 4] == body && z[|z| - 4..] == BeBytes(Adler(source), 4);
    WordFits(4);
    BeRoundTrip(Adler(source), 4);
  }

  lemma WordFits(n: nat)
    requires n == 4
    ensures Congruence.Pow(256, n) == 0x1_0000_0000
  {
    assert Congruence.Pow(256, 2) == 0x1_0000;
    Congruence.PowAdd(256, 2, 2);
  }

  /** The stream is a wrapped fixed-Huffman block of literals. */
  ghost predicate IsFixedZlib(z: ByteString, data: ByteString) {
    && |z| >= 6 && z == Wrapped(z[2..|z| - 4], data)
    && StreamBits(z[2..|z| - 4]) == Padded(FixedBits(data))
  }

  lemma FixedContents(z: ByteString, data: ByteString)
    requires IsFixedZlib(z, data)
    ensures Contents(z) == Ok(data)
  {
    hide Contents, Stream, FixedBits, Wrapped, StreamBits;
    var pad := Zeros((8 - |FixedBits(data)| % 8) % 8);
    FixedRoundTrip(data, pad);
    WrappedContents(z[2..|z| - 4], data, pad);
  }

  method CompressFixed(data: ByteString) returns (z: ByteString)
    ensures IsFixedZlib(z, data) && Contents(z) == Ok(data)
  {
    hide Contents, FixedBits, StreamBits, Adler, BeBytes;
    var body := DeflateFixed(data);
    z := Wrap(body, data);
    assert z[2..|z| - 4] == body;
    FixedContents(z, data);
  }

  method CompressStored(data: ByteString) returns (z: ByteString)
    ensures z == Wrapped(StoredBytes(data), data) && Contents(z) == Ok(data)
  {
    hide Contents, Stream, StoredBytes, StreamBits, Wrapped;
    var body := DeflateStored(data);
    z := Wrap(body, data);
    StoredRoundTrip(data, []);
    assert [] + data == data;
    WrappedContents(body, data, []);
  }

  method Wrap(body: ByteString, source: ByteString) returns (z: ByteString)
    ensures z == Wrapped(body, source)
  {
    var sum := Adler32(source);
    z := [0x78, 0x01] + body + BeBytes(sum, 4);
  }
}
