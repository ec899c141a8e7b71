/** The buffering and padding shared by SHA-256 and SHA-512 (crates/otter-crypto/src/sha256.rs
    and sha512.rs), over an arbitrary compression function. */
module StreamingHash {
  import opened Bytes
  import opened Congruence
  import opened Endian

  type Compress<!S> = (S, ByteString) -> S

  /** Block size and length field: 64 and 8 bytes for SHA-256, 128 and 16 for SHA-512. */
  datatype Shape = Sha256 | Sha512

  function Block(k: Shape): (b: nat)
    ensures b > 0
  {
    if k.Sha256? then 64 else 128
  }

  function Field(k: Shape): nat { if k.Sha256? then 8 else 16 }

  /** A length of whole blocks. */
  predicate Whole(k: Shape, n: int) { n % Block(k) == 0 }

  lemma WholeNext(k: Shape, n: int)
    requires Whole(k, n)
    ensures Whole(k, n + Block(k)) && Whole(k, n - Block(k)) && (0 <= n < Block(k) ==> n == 0)
  {
  }

  // ---------- the digest as the standard states it ----------

  function Zeros(n: nat): (z: ByteString)
    ensures |z| == n
  {
    seq(n, _ => 0)
  }

  /** The fewest zero bytes that leave exactly the length field's place at the end of a block. */
  function ZeroCount(k: Shape, len: nat): (n: nat)
    ensures n < Block(k) && (len + 1 + n + Field(k)) % Block(k) == 0
  {
    var used := (len + 1) % Block(k);
    var place := Block(k) - Field(k);
    if used <= place then place - used else place + Block(k) - used
  }

  /** A message, the byte 80, zeros, and the message's length in bits (section 5.1 of FIPS 180-4). */
  function Padded(k: Shape, m: ByteString): (p: ByteString)
    ensures Whole(k, |p|) && |p| > |m|
  {
    m + [0x80] + Zeros(ZeroCount(k, |m|)) + BeBytes(8 * |m|, Field(k))
  }

  /** The padding of section 5.1 of FIPS 180-4 by position: the message, the byte 80, no more zeros than
      leave room for the length, and the length in bits, 64 or 128 of them, the highest byte first. */
  lemma PaddedByPosition(k: Shape, m: ByteString)
    ensures var p, n := Padded(k, m), |m|;
            var (block, field) := if k.Sha256? then (64, 8) else (128, 16);
            && |p| % block == 0 && n + 1 + field <= |p| < n + 1 + field + block
            && p[..n] == m && p[n] == 0x80 && (forall i :: n < i < |p| - field ==> p[i] == 0)
            && forall i: nat :: i < field ==> p[|p| - 1 - i] == 8 * n / Pow(256, i) % 256
  {
    hide BeBytes, Pow;
    var p, field := Padded(k, m), Field(k);
    forall i: nat | i < field ensures p[|p| - 1 - i] == 8 * |m| / Pow(256, i) % 256 {
      BeByteAt(8 * |m|, field, i);
      assert p[|p| - 1 - i] == BeBytes(8 * |m|, field)[field - 1 - i];
    }
  }

  /** The compression function folded over all whole blocks. */
  function Folded<S>(f: Compress<S>, k: Shape, s: S, data: ByteString): S
    decreases |data|
  {
    if |data| < Block(k) then s else Folded(f, k, f(s, data[..Block(k)]), data[Block(k)..])
  }

  function Digest<S>(f: Compress<S>, k: Shape, iv: S, m: ByteString): S { Folded(f, k, iv, Padded(k, m)) }

  lemma {:induction false} FoldedAppend<S>(f: Compress<S>, k: Shape, s: S, full: ByteString, block: ByteString)
    requires Whole(k, |full|) && |block| == Block(k)
    ensures Folded(f, k, s, full + block) == f(Folded(f, k, s, full), block)
    decreases |full|
  {
    hide Whole, Block;
    var b := Block(k);
    WholeNext(k, |full|);
    if |full| < b {
      assert full == [] && full + block == block;
      assert block[..b] == block && block[b..] == [];
    } else {
      assert (full + block)[..b] == full[..b] && (full + block)[b..] == full[b..] + block;
      FoldedAppend(f, k, f(s, full[..b]), full[b..], block);
    }
  }

  /** Padding can be undone: different messages short enough for the length field are padded differently. */
  lemma PaddingInjective(k: Shape, m: ByteString, n: ByteString)
    requires 8 * |m| < Pow(256, Field(k)) && 8 * |n| < Pow(256, Field(k))
    requires Padded(k, m) == Padded(k, n)
    ensures m == n
  {
    hide BeBytes, BeValue, Pow;
    var p, f := Padded(k, m), Field(k);
    assert p[|p| - f..] == BeBytes(8 * |m|, f);
    assert Padded(k, n)[|p| - f..] == BeBytes(8 * |n|, f);
    BeRoundTrip(8 * |m|, f);
    BeRoundTrip(8 * |n|, f);
    assert m == p[..|m|] && n == Padded(k, n)[..|n|];
  }

  lemma NothingYet<S>(f: Compress<S>, k: Shape, s: S)
    ensures Whole(k, 0) && Folded(f, k, s, []) == s && 0 == 0 % Pow(256, Field(k))
  {
    SmallMod(Pow(256, Field(k)));
  }

  lemma SmallMod(m: nat)
    requires m > 0
    ensures 0 % m == 0
  {
  }

  // ---------- the length counter ----------

  /** Only the lowest bytes of a number are written. */
  lemma {:induction false} BeBytesMod(v: nat, w: nat, n: nat)
    requires v % Pow(256, n) == w % Pow(256, n)
    ensures BeBytes(v, n) == BeBytes(w, n)
    decreases n
  {
    if n > 0 {
      DigitOfMod(v, w, Pow(256, n - 1));
      BeBytesMod(v / 256, w / 256, n - 1);
    }
  }

  lemma DigitOfMod(v: nat, w: nat, p: nat)
    requires p > 0 && v % (256 * p) == w % (256 * p)
    ensures v % 256 == w % 256 && (v / 256) % p == (w / 256) % p
  {
    HighOfMod(v, p);
    HighOfMod(w, p);
  }

  lemma HighOfMod(v: nat, p: nat)
    requires p > 0
    ensures v % 256 == (v % (256 * p)) % 256 && (v / 256) % p == (v % (256 * p)) / 256
  {
    var q, r := v / (256 * p), v % (256 * p);
    assert v == (256 * p) * q + r;
    var t := p * q;
    assert (256 * p) * q == 256 * t;
    assert v == 256 * (t + r / 256) + r % 256;
    QuotientIs(v, 256, t + r / 256, r % 256);
    var h := r / 256;
    assert h < p by {
      if h >= p { MulMono(256, p, h); }
    }
    QuotientIs(t + h, p, q, h);
    assert (t + h) % p == t + h - p * ((t + h) / p);
  }

  lemma ModTimesEight(len: nat, m: nat, x: nat, y: nat)
    requires m > 0 && x == len % m && y == (x * 8) % m
    ensures y % m == (8 * len) % m
  {
    hide Cong;
    CongMod(len, m);
    CongScale(x, len, 8, m);
    CongMod(x * 8, m);
    CongTrans(y, x * 8, len * 8, m);
    CongIsMod(y, len * 8, m);
    CongRefl(y, m);
    CongIsMod(y, y, m);
  }

  /** A counter that wraps, times eight, wrapping again, has the low bytes of eight times the length. */
  lemma WrappedLength(k: Shape, total: nat, len: nat)
    requires total == len % Pow(256, Field(k))
    ensures BeBytes((total * 8) % Pow(256, Field(k)), Field(k)) == BeBytes(8 * len, Field(k))
  {
    hide Pow, BeBytes, Field;
    ModTimesEight(len, Pow(256, Field(k)), total, (total * 8) % Pow(256, Field(k)));
    BeBytesMod((total * 8) % Pow(256, Field(k)), 8 * len, Field(k));
  }

  // ---------- the streaming state ----------

  class Hasher<!S> {
    const compress: Compress<S>
    const shape: Shape
    const iv: S
    var state: S
    const buffer: array<Byte>
    var bufferLen: nat
    var totalLen: nat
    /** Everything fed to update, and everything absorbed, padding included. */
    ghost var message: ByteString
    ghost var absorbed: ByteString

    ghost predicate Buffered()
      reads this, buffer
    {
      && buffer.Length == Block(shape) && bufferLen < Block(shape) && bufferLen <= |absorbed|
      && Whole(shape, |absorbed| - bufferLen)
      && buffer[..bufferLen] == absorbed[|absorbed| - bufferLen..]
      && state == Folded(compress, shape, iv, absorbed[..|absorbed| - bufferLen])
    }

    ghost predicate Valid()
      reads this, buffer
    {
      Buffered() && absorbed == message && totalLen == |message| % Pow(256, Field(shape))
    }

    constructor (compress: Compress<S>, shape: Shape, iv: S)
      ensures Valid() && message == [] && fresh(buffer)
      ensures this.compress == compress && this.shape == shape && this.iv == iv
    {
      hide Pow, Block, Whole, Folded, Field;
      NothingYet(compress, shape, iv);
      this.compress, this.shape, this.iv := compress, shape, iv;
      state := iv;
      buffer := new Byte[Block(shape)](_ => 0);
      bufferLen, totalLen := 0, 0;
      message, absorbed := [], [];
      new;
      assert absorbed[..0] == [] && buffer[..0] == [];
    }

    method CompressBlock(block: ByteString, ghost full: ByteString)
      requires Whole(shape, |full|) && |block| == Block(shape) && state == Folded(compress, shape, iv, full)
      modifies this`state
      ensures state == Folded(compress, shape, iv, full + block) && Whole(shape, |full + block|)
    {
      hide Whole, Block, Folded;
      WholeNext(shape, |full|);
      FoldedAppend(compress, shape, iv, full, block);
      state := compress(state, block);
    }

    /** Copies bytes to the end of the buffer. */
    method Store(bytes: ByteString)
      requires bufferLen + |bytes| <= buffer.Length
      modifies this`bufferLen, buffer
      ensures bufferLen == old(bufferLen) + |bytes| && buffer[..bufferLen] == old(buffer[..bufferLen]) + bytes
    {
      forall i | 0 <= i < |bytes| {
        buffer[bufferLen + i] := bytes[i];
      }
      bufferLen := bufferLen + |bytes|;
    }

    /** All whole blocks at the front of the data. */
    method CompressWhole(input: ByteString, ghost start: ByteString) returns (data: ByteString, ghost full: ByteString)
      requires Whole(shape, |start|) && state == Folded(compress, shape, iv, start)
      modifies this`state
      ensures Whole(shape, |full|) && state == Folded(compress, shape, iv, full)
      ensures |data| < Block(shape) && full + data == start + input
    {
      hide Folded, Whole, Block;
      data, full := input, start;
      while |data| >= Block(shape)
        invariant Whole(shape, |full|) && state == Folded(compress, shape, iv, full) && full + data == start + input
      {
        CompressBlock(data[..Block(shape)], full);
        full := full + data[..Block(shape)];
        data := data[Block(shape)..];
      }
    }

    method Absorb(input: ByteString)
      requires Buffered()
      modifies this`state, this`bufferLen, this`absorbed, buffer
      ensures Buffered() && absorbed == old(absorbed) + input
    {
      hide Folded, Whole, Block;
      var data := input;
      ghost var full := absorbed[..|absorbed| - bufferLen];
      absorbed := absorbed + input;
      if bufferLen > 0 {
        var need := Block(shape) - bufferLen;
        var take := if need < |data| then need else |data|;
        Store(data[..take]);
        data := data[take..];
        assert full + buffer[..bufferLen] + data == absorbed;
        if bufferLen < Block(shape) {
          assert absorbed[..|absorbed| - bufferLen] == full;
          return;
        }
        assert buffer[..bufferLen] == buffer[..];
        CompressBlock(buffer[..], full);
        full := full + buffer[..];
        bufferLen := 0;
      }
      assert full + data == absorbed;
      data, full := CompressWhole(data, full);
      if data != [] {
        Store(data);
        assert [] + data == data;
      }
      assert absorbed[..|absorbed| - bufferLen] == full;
    }

    /** Feeds more input, split in any way. */
    method Update(data: ByteString)
      requires Valid()
      modifies this, buffer
      ensures Valid() && message == old(message) + data
    {
      hide Folded, Whole, Block, Pow;
      LengthGrows(|message|, |data|, Pow(256, Field(shape)));
      totalLen := (totalLen + |data|) % Pow(256, Field(shape));
      message := message + data;
      Absorb(data);
    }

    /** Zeros up to the length field; the loop stops after fewer of them than a block holds. */
    method PadZeros(ghost m: ByteString)
      requires Buffered() && absorbed == m + [0x80]
      modifies this`state, this`bufferLen, this`absorbed, buffer
      ensures Buffered() && absorbed == m + [0x80] + Zeros(ZeroCount(shape, |m|))
    {
      hide Folded, Pow, Block, Whole, Field, ZeroCount;
      ghost var n: nat := 0;
      ZerosAtEnd(m + [0x80]);
      while bufferLen != Block(shape) - Field(shape)
        invariant Buffered() && absorbed == m + [0x80] + Zeros(n) && n <= ZeroCount(shape, |m|)
        decreases ZeroCount(shape, |m|) - n
      {
        ZerosNeeded(shape, |m|, n, bufferLen);
        Absorb([0]);
        NextZero(m + [0x80], n);
        n := n + 1;
      }
      ZerosNeeded(shape, |m|, n, bufferLen);
    }

    /** Pads and returns the final state. */
    method Finalize() returns (digest: S)
      requires Valid()
      modifies this, buffer
      ensures digest == Digest(compress, shape, iv, old(message))
    {
      hide Folded, BeBytes, Pow, Block, Whole, Field, ZeroCount, Zeros;
      ghost var m := message;
      var bitLen := (totalLen * 8) % Pow(256, Field(shape));
      WrappedLength(shape, totalLen, |m|);
      Absorb([0x80]);
      PadZeros(m);
      Absorb(BeBytes(bitLen, Field(shape)));
      assert absorbed == Padded(shape, m);
      LastBlock(shape, |absorbed|, bufferLen);
      assert absorbed[..|absorbed|] == absorbed;
      digest := state;
    }
  }

  /** A whole number of blocks leaves nothing in the buffer. */
  lemma LastBlock(k: Shape, len: nat, kept: nat)
    requires Whole(k, len) && Whole(k, len - kept) && kept < Block(k)
    ensures kept == 0
  {
  }

  lemma LengthGrows(x: nat, y: nat, m: nat)
    requires m > 0
    ensures (x % m + y) % m == (x + y) % m
  {
    CongMod(x, m);
    CongRefl(y, m);
    MultipleSum(m, x % m - x, y - y);
    assert (x % m + y) - (x + y) == x % m - x;
    CongMod(x % m + y, m);
    CongTrans((x % m + y) % m, x % m + y, x + y, m);
    CongIsMod((x % m + y) % m, x + y, m);
  }

  lemma ZerosAtEnd(b: ByteString)
    ensures b + Zeros(0) == b
  {
  }

  lemma NextZero(b: ByteString, n: nat)
    ensures b + Zeros(n) + [0] == b + Zeros(n + 1)
  {
  }

  /** The buffer is at the length field's place exactly after enough zeros. */
  lemma ZerosNeeded(k: Shape, len: nat, n: nat, kept: nat)
    requires n <= ZeroCount(k, len) && kept < Block(k) && Whole(k, len + 1 + n - kept)
    ensures kept == Block(k) - Field(k) <==> n == ZeroCount(k, len)
  {
    var b := Block(k);
    KeptIs(len + 1 + n, kept, b);
    LengthGrows(len + 1, n, b);
    PlaceOf((len + 1) % b, n, b);
  }

  lemma PlaceOf(used: nat, n: nat, b: nat)
    requires used < b && n < b
    ensures (used + n) % b == if used + n < b then used + n else used + n - b
  {
    if used + n >= b {
      KeptIs(used + n, used + n - b, b) by { assert used + n - (used + n - b) == b; }
    } else {
      KeptIs(used + n, used + n, b);
    }
  }

  lemma KeptIs(total: nat, kept: nat, b: nat)
    requires kept < b && (total - kept) % b == 0
    ensures kept == total % b
  {
    var q := (total - kept) / b;
    assert total - kept == b * q;
    assert total == b * (total / b) + total % b;
    assert b * (q - total / b) == total % b - kept by { assert b * (q - total / b) == b * q - b * (total / b); }
    SmallMultiple(b, q - total / b);
  }

  /** However a message is cut into updates, the digest is that of the whole. */
  method HashOfChunks<S>(f: Compress<S>, k: Shape, iv: S, chunks: seq<ByteString>) returns (digest: S)
    ensures digest == Digest(f, k, iv, Concat(chunks))
  {
    hide Digest, Folded, Whole, Block, Pow, Field;
    var h := new Hasher(f, k, iv);
    for i := 0 to |chunks|
      invariant h.Valid() && fresh(h) && fresh(h.buffer) && h.message == Concat(chunks[..i])
    {
      h.Update(chunks[i]);
      assert chunks[..i + 1][..i] == chunks[..i];
    }
    assert chunks[..|chunks|] == chunks;
    digest := h.Finalize();
  }
}
