/** Adler-32 and CRC-32 (crates/otter-gfx/src/checksum.rs). */
module Checksums {
  import opened Bytes
  import opened BitStreams
  import opened BitPolynomials
  import Congruence

  // ---------- Adler-32 ----------

  const MOD_ADLER: nat := 65521
  const CHUNK: nat := 5552

  type U32 = x: int | 0 <= x < 0x1_0000_0000

  datatype Sums = Sums(a: nat, b: nat)

  /** One plus the sum of the bytes, and the sum of all those sums, never reduced. */
  function WholeSums(data: ByteString): Sums {
    if data == [] then Sums(1, 0) else
    var s := WholeSums(data[..|data| - 1]);
    var a := s.a + data[|data| - 1];
    Sums(a, s.b + a)
  }

  /** The checksum of section 8.2 of RFC 1950: both sums modulo 65521. */
  function Adler(data: ByteString): U32 {
    var s := WholeSums(data);
    (s.b % MOD_ADLER) * 0x1_0000 + s.a % MOD_ADLER
  }

  /** The sum of the bytes, and the sum in which each counts as often as bytes are left from it on. */
  function Total(data: ByteString): nat { if data == [] then 0 else data[0] + Total(data[1..]) }

  function Weighted(data: ByteString): nat { if data == [] then 0 else |data| * data[0] + Weighted(data[1..]) }

  lemma {:induction false} TotalNext(data: ByteString, b: Byte)
    ensures Total(data + [b]) == Total(data) + b
    ensures Weighted(data + [b]) == Weighted(data) + Total(data) + b
  {
    if data == [] {
      assert [b][1..] == [] && data + [b] == [b];
    } else {
      TotalNext(data[1..], b);
      assert (data + [b])[1..] == data[1..] + [b];
      var n: nat, x: nat := |data|, data[0];
      assert (n + 1) * x == n * x + x;
    }
  }

  lemma {:induction false} WholeSumsAre(data: ByteString)
    ensures WholeSums(data) == Sums(1 + Total(data), |data| + Weighted(data))
  {
    if data != [] {
      var n := |data| - 1;
      WholeSumsAre(data[..n]);
      TotalNext(data[..n], data[n]);
      assert data == data[..n] + [data[n]];
    }
  }

  /** The checksum in closed form: 1 + d1 + ... + dn below and n + n d1 + (n - 1) d2 + ... + dn above. */
  lemma AdlerIs(data: ByteString)
    ensures Adler(data) / 0x1_0000 == (|data| + Weighted(data)) % 65521
    ensures Adler(data) % 0x1_0000 == (1 + Total(data)) % 65521
  {
    WholeSumsAre(data);
  }

  /** The most the second sum can reach after n bytes of a chunk. */
  function Reach(n: nat): nat {
    if n == 0 then 65520 else Reach(n - 1) + 65520 + 255 * n
  }

  lemma {:induction false} ReachIs(n: nat)
    ensures 2 * Reach(n) == 131040 * (n + 1) + 255 * (n * (n + 1))
  {
    if n > 0 {
      ReachIs(n - 1);
      assert n * (n + 1) == (n - 1) * n + 2 * n;
    }
  }

  lemma {:induction false} ReachGrows(n: nat, m: nat)
    requires n <= m
    ensures Reach(n) <= Reach(m)
    decreases m
  {
    if n < m { ReachGrows(n, m - 1); }
  }

  /** 5552 is the longest chunk whose sums are sure to fit 32 bits. */
  lemma ChunkIsLongest(n: nat)
    ensures Reach(n) < 0x1_0000_0000 <==> n <= CHUNK
  {
    ReachIs(CHUNK);
    ReachIs(CHUNK + 1);
    if n <= CHUNK { ReachGrows(n, CHUNK); } else { ReachGrows(CHUNK + 1, n); }
  }

  /** A reduced sum agrees with the unreduced one. */
  predicate SameMod(x: nat, whole: nat) { x % MOD_ADLER == whole % MOD_ADLER }

  lemma SameSum(x: nat, whole: nat, y: nat, other: nat)
    requires SameMod(x, whole) && SameMod(y, other)
    ensures SameMod(x + y, whole + other)
  {
    var k := x / MOD_ADLER - whole / MOD_ADLER + (y / MOD_ADLER - other / MOD_ADLER);
    assert x + y == whole + other + MOD_ADLER * k;
  }

  lemma NextSums(data: ByteString, b: Byte)
    ensures WholeSums(data + [b]).a == WholeSums(data).a + b
    ensures WholeSums(data + [b]).b == WholeSums(data).b + WholeSums(data + [b]).a
  {
    assert (data + [b])[..|data|] == data;
  }

  /** One chunk: sums start reduced and cannot leave 32 bits. */
  method AddChunk(chunk: ByteString, a0: U32, b0: U32, ghost before: ByteString) returns (a: U32, b: U32)
    requires |chunk| <= CHUNK && a0 < MOD_ADLER && b0 < MOD_ADLER
    requires SameMod(a0, WholeSums(before).a) && SameMod(b0, WholeSums(before).b)
    ensures SameMod(a, WholeSums(before + chunk).a) && SameMod(b, WholeSums(before + chunk).b)
  {
    hide SameMod, WholeSums;
    a, b := a0, b0;
    assert before + chunk[..0] == before;
    for i := 0 to |chunk|
      invariant a <= 65520 + 255 * i && b <= Reach(i)
      invariant SameMod(a, WholeSums(before + chunk[..i]).a) && SameMod(b, WholeSums(before + chunk[..i]).b)
    {
      ChunkIsLongest(i + 1);
      ghost var done := before + chunk[..i];
      NextSums(done, chunk[i]);
      assert before + chunk[..i + 1] == done + [chunk[i]];
      SameByte(chunk[i]);
      SameSum(a, WholeSums(done).a, chunk[i], chunk[i]);
      a := a + chunk[i];
      SameSum(b, WholeSums(done).b, a, WholeSums(done + [chunk[i]]).a);
      b := b + a;
    }
    assert chunk[..|chunk|] == chunk;
  }

  lemma SameByte(b: nat)
    ensures SameMod(b, b)
  {
  }

  lemma StartSums()
    ensures SameMod(1, WholeSums([]).a) && SameMod(0, WholeSums([]).b)
  {
  }

  lemma SameReduced(x: nat, whole: nat)
    requires SameMod(x, whole)
    ensures SameMod(x % MOD_ADLER, whole) && (x < MOD_ADLER ==> x == whole % MOD_ADLER)
  {
  }

  method Adler32(data: ByteString) returns (r: U32)
    ensures r == Adler(data)
  {
    hide SameMod, WholeSums;
    var a: U32, b: U32 := 1, 0;
    var rest := data;
    ghost var done: ByteString := [];
    StartSums();
    while rest != []
      invariant done + rest == data && a < MOD_ADLER && b < MOD_ADLER
      invariant SameMod(a, WholeSums(done).a) && SameMod(b, WholeSums(done).b)
      decreases |rest|
    {
      var n := if |rest| < CHUNK then |rest| else CHUNK;
      a, b := AddChunk(rest[..n], a, b, done);
      SameReduced(a, WholeSums(done + rest[..n]).a);
      SameReduced(b, WholeSums(done + rest[..n]).b);
      a := a % MOD_ADLER;
      b := b % MOD_ADLER;
      done := done + rest[..n];
      rest := rest[n..];
    }
    assert done == data;
    SameReduced(a, WholeSums(data).a);
    SameReduced(b, WholeSums(data).b);
    r := b * 0x1_0000 + a;
  }

  // ---------- CRC-32 ----------

  /** A 32-bit register, least significant bit first. */
  type Register = r: Bits | |r| == 32 witness Zeros(32)

  /** The feedback constant's bits. */
  function Feedback(): Register { LowBits(0xEDB8_8320, 32) }

  /** One shift of the register. */
  function Shift(r: Register): Register {
    var down := r[1..] + [false];
    if r[0] then Xor(Feedback(), down) else down
  }

  function Shifts(r: Register, n: nat): Register
    decreases n
  {
    if n == 0 then r else Shifts(Shift(r), n - 1)
  }

  lemma ShiftXor(p: Register, q: Register)
    ensures Shift(Xor(p, q)) == Xor(Shift(p), Shift(q))
  {
    hide Feedback;
  }

  lemma {:induction false} ShiftsXor(p: Register, q: Register, n: nat)
    ensures Shifts(Xor(p, q), n) == Xor(Shifts(p, n), Shifts(q, n))
    decreases n
  {
    hide Shift, Xor;
    if n > 0 {
      ShiftXor(p, q);
      ShiftsXor(Shift(p), Shift(q), n - 1);
    }
  }

  /** Bits above n empty places just move down. */
  lemma {:induction false} ShiftsDown(h: Bits, n: nat)
    requires |h| + n == 32
    ensures Shifts(Zeros(n) + h, n) == h + Zeros(n)
    decreases n
  {
    hide Feedback, Xor;
    if n == 0 {
      assert Zeros(0) + h == h && h + Zeros(0) == h;
    } else {
      assert (Zeros(n) + h)[1..] + [false] == Zeros(n - 1) + (h + [false]);
      ShiftsDown(h + [false], n - 1);
      assert h + [false] + Zeros(n - 1) == h + Zeros(n);
    }
  }

  /** One bit of the message into the register. */
  function Feed(r: Register, bit: bool): Register { Shift(Xor(r, [bit] + Zeros(31))) }

  /** The message bit by bit, in the order of the standard's bit stream (Annex D of the PNG specification). */
  function FeedAll(r: Register, bits: Bits): Register
    decreases |bits|
  {
    if bits == [] then r else FeedAll(Feed(r, bits[0]), bits[1..])
  }

  lemma {:induction false} FeedConcat(r: Register, a: Bits, b: Bits)
    ensures FeedAll(r, a + b) == FeedAll(FeedAll(r, a), b)
    decreases |a|
  {
    hide Feed;
    if a == [] {
      assert a + b == b;
    } else {
      assert (a + b)[0] == a[0] && (a + b)[1..] == a[1..] + b;
      FeedConcat(Feed(r, a[0]), a[1..], b);
    }
  }

  /** Up to 32 bits may be added all at once and shifted through. */
  lemma {:induction false} FeedAtOnce(r: Register, bits: Bits)
    requires |bits| <= 32
    ensures FeedAll(r, bits) == Shifts(Xor(r, bits + Zeros(32 - |bits|)), |bits|)
    decreases |bits|
  {
    hide Shift;
    var n := |bits|;
    if n == 0 {
      assert bits + Zeros(32) == Zeros(32);
      XorZeros(r);
    } else {
      FeedAtOnce(Feed(r, bits[0]), bits[1..]);
      var first, later := [bits[0]] + Zeros(31), [false] + bits[1..] + Zeros(32 - n);
      assert bits + Zeros(32 - n) == Xor(first, later);
      XorThree(r, first, later);
      ShiftXor(Xor(r, first), later);
      LaterDown(bits[1..]);
    }
  }

  lemma LaterDown(b: Bits)
    requires |b| <= 31
    ensures Shift([false] + b + Zeros(31 - |b|)) == b + Zeros(32 - |b|)
  {
    hide Feedback, Xor;
    assert ([false] + b + Zeros(31 - |b|))[1..] == b + Zeros(31 - |b|);
    assert b + Zeros(31 - |b|) + [false] == b + Zeros(32 - |b|);
  }

  // ---------- the register is a remainder ----------

  /** The generator polynomial of section 5.5 and Annex D of the PNG specification without its
      leading term a^32, highest power first: a^26 + a^23 + a^22 + a^16 + a^12 + a^11 + a^10
      + a^8 + a^7 + a^5 + a^4 + a^2 + a + 1. */
  function Generator(): Register {
    seq(32, i requires 0 <= i < 32 => 31 - i in {26, 23, 22, 16, 12, 11, 10, 8, 7, 5, 4, 2, 1, 0})
  }

  /** One step of long division: the leading term is cancelled by a multiple of the generator. */
  function Cancelled(p: Bits): (r: Bits)
    requires |p| > 32
    ensures |r| == |p| - 1
  {
    if p[0] then Xor(p[1..33], Generator()) + p[33..] else p[1..]
  }

  /** The remainder of a polynomial, highest power first, modulo the generator. */
  function Remainder(p: Bits): Register
    requires |p| >= 32
    decreases |p|
  {
    if |p| == 32 then p else Remainder(Cancelled(p))
  }

  /** The feedback constant holds the generator, lowest bit first. */
  lemma FeedbackIsGenerator()
    ensures Feedback() == Generator()
  {
    hide LowBits;
    FourBits(0xEDB8_8320, 32);
    FourBits(0xEDB_8832, 28);
    FourBits(0xED_B883, 24);
    FourBits(0xE_DB88, 20);
    FourBits(0xEDB8, 16);
    FourBits(0xEDB, 12);
    FourBits(0xED, 8);
    FourBits(0xE, 4);
    NoBits(0);
  }

  lemma FourBits(v: nat, n: nat)
    requires n >= 4
    ensures LowBits(v, n) == [v % 2 == 1, v / 2 % 2 == 1, v / 4 % 2 == 1, v / 8 % 2 == 1] + LowBits(v / 16, n - 4)
  {
    assert LowBits(v, n) == [v % 2 == 1] + LowBits(v / 2, n - 1);
    assert LowBits(v / 2, n - 1) == [v / 2 % 2 == 1] + LowBits(v / 4, n - 2);
    assert LowBits(v / 4, n - 2) == [v / 4 % 2 == 1] + LowBits(v / 8, n - 3);
    assert LowBits(v / 8, n - 3) == [v / 8 % 2 == 1] + LowBits(v / 16, n - 4);
  }

  lemma NoBits(v: nat)
    ensures LowBits(v, 0) == []
  {
  }

  /** One bit fed in is one step of the division. */
  lemma FeedCancels(r: Register, bits: Bits)
    requires bits != []
    ensures var n := |bits|;
            Cancelled(Xor(r + Zeros(n), bits + Zeros(32)))
            == Xor(Feed(r, bits[0]) + Zeros(n - 1), bits[1..] + Zeros(32))
  {
    hide Feedback, Generator;
    FeedbackIsGenerator();
  }

  /** Feeding a message divides it, moved up by 32 places, together with the first register at its top. */
  lemma {:induction false} FeedDivides(r: Register, bits: Bits)
    ensures FeedAll(r, bits) == Remainder(Xor(r + Zeros(|bits|), bits + Zeros(32)))
    decreases |bits|
  {
    hide Feed, Cancelled, Xor;
    if bits == [] {
      assert r + Zeros(0) == r && [] + Zeros(32) == Zeros(32);
      XorZeros(r);
    } else {
      FeedCancels(r, bits);
      FeedDivides(Feed(r, bits[0]), bits[1..]);
    }
  }

  /** The register over a whole message, and the checksum. */
  function CrcRegister(data: ByteString): Register { FeedAll(seq(32, _ => true), StreamBits(data)) }

  function Inverted(r: Register): Register { seq(32, i requires 0 <= i < 32 => !r[i]) }

  function Crc(data: ByteString): U32 {
    LsbBound(Inverted(CrcRegister(data)));
    WordSize(32);
    LsbValue(Inverted(CrcRegister(data)))
  }

  lemma WordSize(n: nat)
    requires n == 32
    ensures Congruence.Pow(2, n) == 0x1_0000_0000
  {
    hide Congruence.Pow;
    WholeByteValue();
    Congruence.PowAdd(2, 8, 8);
    Congruence.PowAdd(2, 16, 16);
  }

  /** Bits and their opposites make a row of ones. */
  lemma {:induction false} OppositesSum(a: Bits, b: Bits)
    requires |a| == |b| && forall i :: 0 <= i < |a| ==> a[i] != b[i]
    ensures LsbValue(a) + LsbValue(b) == Congruence.Pow(2, |a|) - 1
  {
    if a != [] {
      OppositesSum(a[1..], b[1..]);
    }
  }

  /** CRC-32 is 2^32 - 1 less the remainder of the message polynomial, its first 32 coefficients inverted. */
  lemma CrcIsRemainder(data: ByteString)
    ensures var m := Xor(seq(32, _ => true) + Zeros(8 * |data|), StreamBits(data) + Zeros(32));
            Crc(data) == 0xFFFF_FFFF - LsbValue(Remainder(m))
  {
    hide Remainder, FeedAll, LsbValue, Congruence.Pow;
    FeedDivides(seq(32, _ => true), StreamBits(data));
    OppositesSum(CrcRegister(data), Inverted(CrcRegister(data)));
    WordSize(32);
  }

  /** The table entry of a byte: eight shifts. */
  method TableEntry(n: Register) returns (r: Register)
    ensures r == Shifts(n, 8)
  {
    hide Shift;
    r := n;
    for i := 0 to 8
      invariant Shifts(n, 8) == Shifts(r, 8 - i)
    {
      r := Shift(r);
    }
  }

  /** A byte through the table is its eight bits through the register. */
  lemma TableStep(c: Register, byte: Byte)
    ensures var x := Xor(c, ByteBits(byte) + Zeros(24));
            Xor(Shifts(x[..8] + Zeros(24), 8), c[8..] + Zeros(8)) == FeedAll(c, ByteBits(byte))
  {
    hide Shift, Shifts;
    var x := Xor(c, ByteBits(byte) + Zeros(24));
    FeedAtOnce(c, ByteBits(byte));
    assert x == Xor(x[..8] + Zeros(24), Zeros(8) + c[8..]);
    ShiftsXor(x[..8] + Zeros(24), Zeros(8) + c[8..], 8);
    ShiftsDown(c[8..], 8);
  }

  class Crc32 {
    var state: Register
    ghost var data: ByteString

    ghost predicate Valid()
      reads this
    {
      state == CrcRegister(data)
    }

    constructor ()
      ensures Valid() && data == []
    {
      state := seq(32, _ => true);
      data := [];
    }

    method Update(more: ByteString)
      requires Valid()
      modifies this
      ensures Valid() && data == old(data) + more
    {
      hide Xor, Zeros, FeedAll, ByteBits;
      var c := state;
      NoMore(data);
      for i := 0 to |more|
        invariant data == old(data) && c == CrcRegister(data + more[..i])
      {
        var x := Xor(c, ByteBits(more[i]) + Zeros(24));
        var entry := TableEntry(x[..8] + Zeros(24));
        TableStep(c, more[i]);
        c := Xor(entry, c[8..] + Zeros(8));
        assert data + more[..i + 1] == data + more[..i] + [more[i]];
        OneMoreByte(data + more[..i], more[i]);
      }
      state := c;
      assert more[..|more|] == more;
      data := data + more;
    }

    method Finish() returns (crc: U32)
      requires Valid()
      ensures crc == Crc(data)
    {
      hide LsbValue;
      LsbBound(Inverted(state));
      WordSize(32);
      crc := LsbValue(Inverted(state));
    }
  }

  lemma NoMore(data: ByteString)
    ensures data + [] == data
  {
  }

  lemma OneMoreByte(data: ByteString, b: Byte)
    ensures CrcRegister(data + [b]) == FeedAll(CrcRegister(data), ByteBits(b))
  {
    StreamConcat(data, [b]);
    assert [b][1..] == [];
    assert StreamBits([b]) == ByteBits(b);
    FeedConcat(seq(32, _ => true), StreamBits(data), ByteBits(b));
  }
}
