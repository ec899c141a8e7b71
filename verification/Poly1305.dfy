/** The Poly1305 authenticator (crates/otter-crypto/src/poly1305.rs): the streaming state in
    26-bit limbs against the polynomial of section 2.5 of RFC 8439. */
module Poly1305 {
  import opened Bytes
  import opened Congruence
  import opened Endian
  import opened FiveLimbs

  const RADIX: nat := 0x400_0000
  const P: nat := 0x3_FFFF_FFFF_FFFF_FFFF_FFFF_FFFF_FFFF_FFFB
  const TWO128: nat := 0x1_0000_0000_0000_0000_0000_0000_0000_0000
  const TWO124: nat := 0x1000_0000_0000_0000_0000_0000_0000_0000

  lemma Powers()
    ensures Pow(RADIX, 4) == 0x100_0000_0000_0000_0000_0000_0000
    ensures Pow(RADIX, 5) == P + 5 && Fold(RADIX, 5) == P
    ensures Pow(256, 16) == TWO128
  {
    assert Pow(RADIX, 0) == 1 && Pow(RADIX, 1) == RADIX && Pow(RADIX, 2) == 0x10_0000_0000_0000;
    assert Pow(RADIX, 3) == 0x4000_0000_0000_0000_0000;
    PowPow(256, 4, 4);
    assert Pow(256, 2) == 0x1_0000;
    assert Pow(256, 4) == 0x1_0000_0000;
    var w := 0x1_0000_0000;
    assert Pow(w, 1) == w && Pow(w, 2) == 0x1_0000_0000_0000_0000;
    assert Pow(w, 3) == w * Pow(w, 2) && Pow(w, 4) == w * Pow(w, 3);
  }

  // ---------- the authenticator as the standard states it ----------

  /** The clamp: the top four bits of bytes 3, 7, 11 and 15 and the low two of 4, 8 and 12 go. */
  function Clamp(b: ByteString): (r: ByteString)
    requires |b| == 16
    ensures |r| == 16
  {
    seq(16, i requires 0 <= i < 16 =>
      if i % 4 == 3 then b[i] % 16 else if i % 4 == 0 && i > 0 then b[i] - b[i] % 4 else b[i])
  }

  function KeyR(key: ByteString): nat
    requires |key| == 32
  {
    LeValue(Clamp(key[..16]))
  }

  lemma OnePower()
    ensures Pow(256, 1) == 256
  {
  }

  function KeyS(key: ByteString): nat
    requires |key| == 32
  {
    LeValue(key[16..])
  }

  /** The clamp clears the top four bits. */
  lemma KeyBounds(key: ByteString)
    requires |key| == 32
    ensures KeyR(key) < TWO124 && KeyS(key) < TWO128
  {
    hide LeValue, Pow;
    var c := Clamp(key[..16]);
    LeConcat(c[..15], c[15..]);
    assert c == c[..15] + c[15..];
    LeBound(c[..15]);
    LeBound(key[16..]);
    OneByte(c[15..]);
    Powers();
    PowAdd(256, 15, 1);
    OnePower();
  }

  /** One block, with the byte 1 appended, added to the accumulator and multiplied by r. */
  function OneBlock(r: nat, acc: nat, block: ByteString): nat {
    ((acc + LeValue(block + [1])) * r) % P
  }

  /** A message is read in blocks of sixteen bytes, the last one possibly shorter. */
  function FirstBlock(message: ByteString): ByteString { message[..if |message| < 16 then |message| else 16] }

  function LaterBlocks(message: ByteString): ByteString { message[|FirstBlock(message)|..] }

  function Accumulated(r: nat, acc: nat, message: ByteString): nat
    decreases |message|
  {
    if message == [] then acc
    else Accumulated(r, OneBlock(r, acc, FirstBlock(message)), LaterBlocks(message))
  }

  /** The tag of a message under a key (section 2.5.1 of RFC 8439). */
  function Tag(key: ByteString, message: ByteString): (t: ByteString)
    requires |key| == 32
    ensures |t| == 16
  {
    LeBytes((Accumulated(KeyR(key), 0, message) + KeyS(key)) % TWO128, 16)
  }

  // ---------- the accumulator is a polynomial in r ----------

  function Blocks(message: ByteString): seq<nat>
    decreases |message|
  {
    if message == [] then [] else [LeValue(FirstBlock(message) + [1])] + Blocks(LaterBlocks(message))
  }

  /** The first coefficient times the highest power, down to the last times r. */
  function Polynomial(c: seq<nat>, r: nat): nat {
    if c == [] then 0 else c[0] * Pow(r, |c|) + Polynomial(c[1..], r)
  }

  lemma {:induction false} AccumulatedCong(r: nat, acc: nat, message: ByteString)
    ensures Cong(Accumulated(r, acc, message),
                 Times(acc, Pow(r, |Blocks(message)|)) + Polynomial(Blocks(message), r), P)
    decreases |message|
  {
    hide OneBlock, Polynomial, Pow, FirstBlock, Cong, Times;
    var c := Blocks(message);
    if message == [] {
      NoBlocks(r, acc);
    } else {
      var rest := LaterBlocks(message);
      Shorter(message);
      AccumulatedCong(r, OneBlock(r, acc, FirstBlock(message)), rest);
      assert c[1..] == Blocks(rest);
      PolynomialStep(acc, FirstBlock(message), c, r, Accumulated(r, acc, message));
    }
  }

  /** Horner's rule: the accumulator is the polynomial of all blocks at r. */
  lemma AccumulatedIsPolynomial(r: nat, message: ByteString)
    ensures Accumulated(r, 0, message) == Polynomial(Blocks(message), r) % P
  {
    AccumulatedCong(r, 0, message);
    AccumulatedBelow(r, 0, message);
    CongIsMod(Accumulated(r, 0, message), Polynomial(Blocks(message), r), P);
  }

  lemma {:induction false} AccumulatedBelow(r: nat, acc: nat, message: ByteString)
    requires acc < P
    ensures Accumulated(r, acc, message) < P
    decreases |message|
  {
    if message != [] { AccumulatedBelow(r, OneBlock(r, acc, FirstBlock(message)), LaterBlocks(message)); }
  }

  lemma Shorter(message: ByteString)
    requires message != []
    ensures |LaterBlocks(message)| < |message|
  {
  }

  lemma NoBlocks(r: nat, acc: nat)
    ensures Cong(acc, Times(acc, Pow(r, 0)) + Polynomial([], r), P)
  {
    CongRefl(acc, P);
  }

  lemma PolynomialStep(acc: nat, block: ByteString, c: seq<nat>, r: nat, a: int)
    requires c != [] && c[0] == LeValue(block + [1])
    requires Cong(a, Times(OneBlock(r, acc, block), Pow(r, |c| - 1)) + Polynomial(c[1..], r), P)
    ensures Cong(a, Times(acc, Pow(r, |c|)) + Polynomial(c, r), P)
  {
    hide Cong;
    var q, rest := Pow(r, |c| - 1), Polynomial(c[1..], r);
    StepAlgebra(acc, c[0], r, q, rest);
    PolynomialHead(c, r);
    CongTrans(a, Times(OneBlock(r, acc, block), q) + rest, Times(acc, r * q) + (Times(c[0], r * q) + rest), P);
  }

  lemma PolynomialHead(c: seq<nat>, r: nat)
    requires c != []
    ensures Polynomial(c, r) == Times(c[0], r * Pow(r, |c| - 1)) + Polynomial(c[1..], r)
    ensures Pow(r, |c|) == r * Pow(r, |c| - 1)
  {
  }

  lemma StepAlgebra(acc: nat, c: nat, r: nat, q: nat, rest: nat)
    ensures Cong((((acc + c) * r) % P) * q + rest, acc * (r * q) + (c * (r * q) + rest), P)
  {
    var x := (acc + c) * r;
    CongMod(x, P);
    CongScale(x % P, x, q, P);
    assert x * q == acc * (r * q) + c * (r * q) by {
      assert x * q == (acc + c) * (r * q);
    }
    CongRefl(rest, P);
    CongAdd((x % P) * q, x * q, rest, rest, P);
  }

  // ---------- limbs ----------

  /** The five 26-bit limbs of a number. */
  function LimbsOf(v: nat): (f: Five)
    ensures Tight(RADIX, f)
    ensures v < P + 5 ==> Value(RADIX, f) == v
    ensures v < TWO128 ==> f.x4 < 0x100_0000
    ensures v < TWO124 ==> f.x4 < 0x10_0000
  {
    LimbSplit(v);
    Five(v % RADIX, v / RADIX % RADIX, v / 0x10_0000_0000_0000 % RADIX,
         v / 0x4000_0000_0000_0000_0000 % RADIX, v / 0x100_0000_0000_0000_0000_0000_0000 % RADIX)
  }

  lemma LimbSplit(v: nat)
    ensures var q1, q2, q3, q4 := v / RADIX, v / 0x10_0000_0000_0000, v / 0x4000_0000_0000_0000_0000,
                                  v / 0x100_0000_0000_0000_0000_0000_0000;
            && (v < P + 5 ==> q4 < RADIX) && (v < TWO128 ==> q4 < 0x100_0000) && (v < TWO124 ==> q4 < 0x10_0000)
            && Value(RADIX, Five(v % RADIX, q1 % RADIX, q2 % RADIX, q3 % RADIX, q4)) == v
  {
    DivDiv(v, RADIX, RADIX);
    DivDiv(v, 0x10_0000_0000_0000, RADIX);
    DivDiv(v, 0x4000_0000_0000_0000_0000, RADIX);
    var q1, q2, q3, q4 := v / RADIX, v / 0x10_0000_0000_0000, v / 0x4000_0000_0000_0000_0000,
                          v / 0x100_0000_0000_0000_0000_0000_0000;
    assert q3 == RADIX * q4 + q3 % RADIX;
    assert q2 == RADIX * q3 + q2 % RADIX;
    assert q1 == RADIX * q2 + q1 % RADIX;
  }

  /** A block of seventeen bytes as limbs: sixteen through LimbsOf, the last one 24 bits up in limb four. */
  function WidenedLimbs(block: ByteString): (f: Five)
    requires |block| == 17 && block[16] <= 1
    ensures Value(RADIX, f) == LeValue(block) && AtMost(f, RADIX) && f.x4 < 0x200_0000
  {
    hide LimbsOf, Value;
    var low, top: nat := LimbsOf(LeValue(block[..16])), block[16];
    WidenedValue(block);
    TopOfBlock(low, top);
    low.(x4 := low.x4 + top * 0x100_0000)
  }

  lemma WidenedValue(block: ByteString)
    requires |block| == 17
    ensures LeValue(block[..16]) < TWO128 && LeValue(block) == LeValue(block[..16]) + TWO128 * block[16]
  {
    Powers();
    LeBound(block[..16]);
    LeConcat(block[..16], block[16..]);
    assert block == block[..16] + block[16..];
    OneByte(block[16..]);
  }

  lemma OneByte(b: ByteString)
    requires |b| == 1
    ensures LeValue(b) == b[0]
  {
    assert b[1..] == [];
  }

  lemma TopOfBlock(low: Five, top: nat)
    ensures Value(RADIX, low.(x4 := low.x4 + top * 0x100_0000)) == Value(RADIX, low) + TWO128 * top
  {
    Powers();
    ValueTop(RADIX, low);
    ValueTop(RADIX, low.(x4 := low.x4 + top * 0x100_0000));
  }

  /** Limbs between blocks: only limb one may exceed its 26 bits. The comment at the source's
      `carry_reduce` allows it 2^26; SharpestLimbOne shows that 2^26 + 37 does occur. */
  predicate Loose(h: Five) {
    h.x0 < RADIX && h.x1 < RADIX + SLACK && h.x2 < RADIX && h.x3 < RADIX && h.x4 < RADIX
  }

  const SLACK: nat := 38

  const D_MAX: nat := 0x400_0000_0000_0000

  /** The carry into limb one at the end of the pass, after the top carry was folded into limb zero. */
  function LastCarry(d: Five): nat {
    var (low, top) := Carried(RADIX, d);
    High(RADIX, low.x0 + 5 * top)
  }

  function Reduced(d: Five): Five {
    var (low, top) := Carried(RADIX, d);
    low.(x0 := Low(RADIX, low.x0 + 5 * top), x1 := low.x1 + LastCarry(d))
  }

  /** Carries out of a raw multiply-accumulate result, the top one folded back in. Limb one ends
      above 2^26 exactly when the last carry is more than the room left there. */
  method CarryReduce(d: Five) returns (out: Five)
    requires AtMost(d, D_MAX)
    ensures out == Reduced(d) && Cong(Value(RADIX, out), Value(RADIX, d), P)
    ensures out.x0 < RADIX && out.x2 < RADIX && out.x3 < RADIX && out.x4 < RADIX
    ensures out.x1 <= RADIX <==> LastCarry(d) <= RADIX - Carried(RADIX, d).0.x1
    ensures LastCarry(d) <= SLACK ==> Loose(out)
  {
    hide Value, High, Low, Cong, Pow;
    var carry: U64 := High(RADIX, d.x0);
    var o0: U64 := Low(RADIX, d.x0);
    var d1: U64 := d.x1 + carry;
    carry := High(RADIX, d1);
    var o1: U64 := Low(RADIX, d1);
    var d2: U64 := d.x2 + carry;
    carry := High(RADIX, d2);
    var o2: U64 := Low(RADIX, d2);
    var d3: U64 := d.x3 + carry;
    carry := High(RADIX, d3);
    var o3: U64 := Low(RADIX, d3);
    var d4: U64 := d.x4 + carry;
    carry := High(RADIX, d4);
    var o4: U64 := Low(RADIX, d4);
    o0 := o0 + carry * 5;
    Powers();
    CarryKeeps(RADIX, 5, d);
    assert Five(o0, o1, o2, o3, o4) == FoldBack(5, Carried(RADIX, d).0, carry);
    OneCarry(Five(o0, o1, o2, o3, o4));
    carry := High(RADIX, o0);
    o0 := Low(RADIX, o0);
    o1 := o1 + carry;
    out := Five(o0, o1, o2, o3, o4);
  }

  /** The limbs of a block added to the accumulator, and the sums of products with r. */
  function Products(h: Five, n: Five, r: Five): Five {
    Convolution(Add(h, n), r, Five(0, r.x1 * 5, r.x2 * 5, r.x3 * 5, r.x4 * 5))
  }

  /** With a clamped r and a widened block the last carry stays small. */
  lemma LastCarrySmall(h: Five, n: Five, r: Five)
    requires Loose(h) && AtMost(n, RADIX) && n.x4 < 0x200_0000 && Tight(RADIX, r) && r.x4 < 0x10_0000
    requires AtMost(Products(h, n, r), D_MAX)
    ensures LastCarry(Products(h, n, r)) <= SLACK
  {
    hide Low;
    var t, d := Add(h, n), Products(h, n, r);
    MulBoth(t.x0, r.x4, 2 * RADIX, 0x10_0000);
    MulBoth(t.x1, r.x3, 2 * RADIX + SLACK, RADIX);
    MulBoth(t.x2, r.x2, 2 * RADIX, RADIX);
    MulBoth(t.x3, r.x1, 2 * RADIX, RADIX);
    MulBoth(t.x4, r.x0, RADIX + 0x200_0000, RADIX);
    assert d.x4 == t.x0 * r.x4 + t.x1 * r.x3 + t.x2 * r.x2 + t.x3 * r.x1 + t.x4 * r.x0;
    CarryBound(d);
  }

  lemma CarryBound(d: Five)
    requires AtMost(d, D_MAX)
    requires d.x4 <= 2 * RADIX * 0x10_0000 + (2 * RADIX + SLACK) * RADIX + 4 * RADIX * RADIX
                     + (RADIX + 0x200_0000) * RADIX
    ensures LastCarry(d) <= SLACK
  {
  }

  lemma OneCarry(f: Five)
    ensures Value(RADIX, Five(Low(RADIX, f.x0), f.x1 + High(RADIX, f.x0), f.x2, f.x3, f.x4)) == Value(RADIX, f)
  {
  }

  const P_LIMBS: Five := Five(RADIX - 5, RADIX - 1, RADIX - 1, RADIX - 1, RADIX - 1)

  /** The carries finish, and one conditional subtraction of P gives the residue itself. */
  method Canonical(start: Five) returns (f: Five)
    requires Loose(start)
    ensures Tight(RADIX, f) && Value(RADIX, f) == Value(RADIX, start) % P
  {
    var h := FullCarry(start);
    Powers();
    TightBound(RADIX, h);
    DifferenceValue(RADIX, h, P_LIMBS);
    ghost var v, w := Value(RADIX, h), Value(RADIX, start);
    var (d0, b0) := SubLimb(RADIX, h.x0, P_LIMBS.x0, 0);
    var (d1, b1) := SubLimb(RADIX, h.x1, P_LIMBS.x1, b0);
    var (d2, b2) := SubLimb(RADIX, h.x2, P_LIMBS.x2, b1);
    var (d3, b3) := SubLimb(RADIX, h.x3, P_LIMBS.x3, b2);
    var (d4, borrow) := SubLimb(RADIX, h.x4, P_LIMBS.x4, b3);
    var diff := Five(d0, d1, d2, d3, d4);
    ghost var whole := Difference(RADIX, h, P_LIMBS);
    assert whole == (diff, borrow);
    TightBound(RADIX, diff);
    f := if borrow == 0 then diff else h;
    OneSubtraction(P, 5, v, Value(RADIX, diff), borrow, w, Value(RADIX, f));
  }

  /** The top carry is at most one, and then limb one is small enough to take the last carry. */
  lemma Ripple(h: Five)
    requires Loose(h)
    ensures var (low, top) := Carried(RADIX, h);
            && Tight(RADIX, low) && top <= 1 && (low.x0 + 5 * top >= RADIX ==> low.x1 + 1 < RADIX)
    ensures High(RADIX, h.x0) == 0
  {
    hide High, Low;
    var t2 := h.x2 + High(RADIX, h.x1);
    var t3 := h.x3 + High(RADIX, t2);
    var t4 := h.x4 + High(RADIX, t3);
    HighOfSmall(RADIX, h.x0);
    HighOfSmall(RADIX, h.x1);
    HighOfSmall(RADIX, t2);
    HighOfSmall(RADIX, t3);
    HighOfSmall(RADIX, t4);
  }

  /** All carries rippled through. */
  method FullCarry(start: Five) returns (h: Five)
    requires Loose(start)
    ensures Tight(RADIX, h) && Cong(Value(RADIX, h), Value(RADIX, start), P)
  {
    hide Value, Cong, Pow, High, Low;
    Powers();
    CarryKeeps(RADIX, 5, start);
    Ripple(start);
    h := start;
    var carry: U64 := High(RADIX, h.x1);
    h := h.(x1 := Low(RADIX, h.x1), x2 := h.x2 + carry);
    carry := High(RADIX, h.x2);
    h := h.(x2 := Low(RADIX, h.x2), x3 := h.x3 + carry);
    carry := High(RADIX, h.x3);
    h := h.(x3 := Low(RADIX, h.x3), x4 := h.x4 + carry);
    carry := High(RADIX, h.x4);
    h := h.(x4 := Low(RADIX, h.x4), x0 := h.x0 + carry * 5);
    assert h == FoldBack(5, Carried(RADIX, start).0, carry);
    OneCarry(h);
    HighOfSmall(RADIX, h.x0);
    carry := High(RADIX, h.x0);
    h := h.(x0 := Low(RADIX, h.x0), x1 := h.x1 + carry);
  }

  // ---------- the streaming state ----------

  /** One more block at the end, after whole blocks. */
  lemma {:induction false} AccumulatedAppend(r: nat, acc: nat, full: ByteString, block: ByteString)
    requires |full| % 16 == 0 && 0 < |block| <= 16
    ensures Accumulated(r, acc, full + block) == OneBlock(r, Accumulated(r, acc, full), block)
    decreases |full|
  {
    hide OneBlock;
    if full == [] {
      assert full + block == block;
      assert FirstBlock(block) == block && LaterBlocks(block) == [];
    } else {
      assert |full| >= 16;
      assert FirstBlock(full + block) == FirstBlock(full);
      assert LaterBlocks(full + block) == LaterBlocks(full) + block;
      AccumulatedAppend(r, OneBlock(r, acc, FirstBlock(full)), LaterBlocks(full), block);
    }
  }

  /** A short block padded with zeros to seventeen bytes spells the same number. */
  lemma WidenedBlock(block: ByteString, widened: ByteString)
    requires |block| <= 16 && |widened| == 17
    requires widened[..|block|] == block && widened[|block|] == 1
    requires forall i :: |block| < i < 17 ==> widened[i] == 0
    ensures LeValue(widened) == LeValue(block + [1])
  {
    assert widened == block + [1] + widened[|block| + 1..];
    LeZeros(block + [1], widened[|block| + 1..]);
  }

  class Poly1305 {
    const r: Five
    var h: Five
    const pad: nat
    const buffer: array<Byte>
    var bufferLen: nat
    ghost const key: ByteString
    /** Everything fed in so far. */
    ghost var message: ByteString

    ghost predicate Valid()
      reads this, buffer
    {
      && KeyIn() && Loose(h) && bufferLen < 16
      && bufferLen <= |message| && buffer[..bufferLen] == message[|message| - bufferLen..]
      && Holds(message[..|message| - bufferLen])
    }

    ghost predicate KeyIn()
      reads this
    {
      && |key| == 32 && buffer.Length == 16
      && Tight(RADIX, r) && r.x4 < 0x10_0000 && r == LimbsOf(KeyR(key))
      && Value(RADIX, r) == KeyR(key) && pad == KeyS(key) < TWO128
    }

    /** The limbs stand for the accumulator after these whole blocks. */
    ghost predicate Holds(full: ByteString)
      reads this
      requires |key| == 32
    {
      |full| % 16 == 0 && Cong(Value(RADIX, h), Accumulated(KeyR(key), 0, full), P)
    }

    constructor (key: ByteString)
      requires |key| == 32
      ensures Valid() && this.key == key && message == [] && fresh(buffer)
    {
      hide LimbsOf, KeyR, KeyS, Cong;
      KeyBounds(key);
      CongRefl(0, P);
      r := LimbsOf(KeyR(key));
      pad := KeyS(key);
      h := Five(0, 0, 0, 0, 0);
      buffer := new Byte[16](_ => 0);
      bufferLen := 0;
      this.key := key;
      message := [];
    }

    /** Adds a widened block to the accumulator and multiplies by r. */
    method AbsorbBlock(block: ByteString)
      requires KeyIn() && Loose(h) && |block| == 17 && block[16] <= 1
      modifies this`h
      ensures Loose(h) && h == Reduced(Products(old(h), WidenedLimbs(block), r))
      ensures Cong(Value(RADIX, h), (old(Value(RADIX, h)) + LeValue(block)) * Value(RADIX, r), P)
    {
      hide Value, LimbsOf, WidenedLimbs, KeyR, KeyS, Cong, Product, Convolution, Pow, LastCarry, Reduced;
      var n := WidenedLimbs(block);
      var t := Add(h, n);
      AddValue(RADIX, h, n);
      var s := Five(0, r.x1 * 5, r.x2 * 5, r.x3 * 5, r.x4 * 5);
      var d := Convolution(t, r, s);
      ConvolutionIsProduct(5, t, r, s);
      ProductBound(5, t, r, 2 * RADIX + SLACK, RADIX, 5 * RADIX);
      LastCarrySmall(h, n, r);
      ProductIsProduct(RADIX, 5, t, r);
      Powers();
      h := CarryReduce(d);
      CongTrans(Value(RADIX, h), Value(RADIX, d), Value(RADIX, t) * Value(RADIX, r), P);
    }

    method AbsorbFullBlock(block: ByteString, ghost full: ByteString)
      requires KeyIn() && Loose(h) && |block| == 16 && Holds(full)
      modifies this`h
      ensures Loose(h) && Holds(full + block)
    {
      hide Value, KeyR, KeyS, Cong, Accumulated, Reduced, Products, WidenedLimbs, LimbsOf;
      var widened := block + [1];
      ghost var before := Value(RADIX, h);
      AbsorbBlock(widened);
      Next(before, Value(RADIX, h), widened, full, block);
    }

    /** The limbs after a block against the accumulator after it. */
    lemma Next(before: int, after: int, widened: ByteString, full: ByteString, block: ByteString)
      requires KeyIn() && |full| % 16 == 0 && 0 < |block| <= 16 && LeValue(widened) == LeValue(block + [1])
      requires Cong(before, Accumulated(KeyR(key), 0, full), P)
      requires Cong(after, (before + LeValue(widened)) * Value(RADIX, r), P)
      ensures Cong(after, Accumulated(KeyR(key), 0, full + block), P)
    {
      hide Value, KeyR, KeyS, Cong, Accumulated;
      var k, v, acc := KeyR(key), LeValue(widened), Accumulated(KeyR(key), 0, full);
      AccumulatedAppend(k, 0, full, block);
      CongRefl(v, P);
      CongAdd(before, acc, v, v, P);
      CongScale(before + v, acc + v, k, P);
      CongTrans(after, (before + v) * k, (acc + v) * k, P);
      CongMod((acc + v) * k, P);
      CongSym(((acc + v) * k) % P, (acc + v) * k, P);
      CongTrans(after, (acc + v) * k, ((acc + v) * k) % P, P);
    }

    /** All whole blocks at the front of the data. */
    method AbsorbWhole(input: ByteString, ghost start: ByteString) returns (data: ByteString, ghost full: ByteString)
      requires KeyIn() && Loose(h) && Holds(start)
      modifies this`h
      ensures KeyIn() && Loose(h) && Holds(full) && |data| < 16 && full + data == start + input
    {
      hide Value, KeyR, KeyS, Cong, Accumulated;
      data := input;
      full := start;
      while |data| >= 16
        invariant KeyIn() && Loose(h) && Holds(full) && full + data == start + input
      {
        AbsorbFullBlock(data[..16], full);
        full := full + data[..16];
        data := data[16..];
      }
    }

    /** Copies bytes to the end of the buffer. */
    method Store(bytes: ByteString)
      requires buffer.Length == 16 && bufferLen + |bytes| <= 16
      modifies this`bufferLen, buffer
      ensures bufferLen == old(bufferLen) + |bytes| && buffer[..bufferLen] == old(buffer[..bufferLen]) + bytes
    {
      forall i | 0 <= i < |bytes| {
        buffer[bufferLen + i] := bytes[i];
      }
      bufferLen := bufferLen + |bytes|;
    }

    /** Feeds more input, split in any way. */
    method Update(input: ByteString)
      requires Valid()
      modifies this, buffer
      ensures Valid() && message == old(message) + input
    {
      hide Value, KeyR, KeyS, Cong, Accumulated;
      var data := input;
      ghost var full := message[..|message| - bufferLen];
      message := message + input;
      if bufferLen > 0 {
        var need := 16 - bufferLen;
        var take := if need < |data| then need else |data|;
        Store(data[..take]);
        data := data[take..];
        assert full + buffer[..bufferLen] + data == message;
        if bufferLen < 16 {
          assert message[..|message| - bufferLen] == full;
          return;
        }
        AbsorbFullBlock(buffer[..], full);
        assert buffer[..bufferLen] == buffer[..];
        full := full + buffer[..];
        bufferLen := 0;
      }
      assert full + data == message;
      data, full := AbsorbWhole(data, full);
      if data != [] {
        Store(data);
        assert [] + data == data;
      }
      assert message[..|message| - bufferLen] == full;
    }

    /** The tag of everything fed in. */
    method Finalize() returns (tag: ByteString)
      requires Valid()
      modifies this
      ensures tag == Tag(key, old(message))
    {
      hide Value, KeyR, KeyS, Cong, Accumulated, LeBytes, Reduced, Products, WidenedLimbs, Tag, LimbsOf;
      ghost var full, rest := message[..|message| - bufferLen], buffer[..bufferLen];
      assert full + rest == message;
      if bufferLen > 0 {
        var widened := buffer[..bufferLen] + [1] + seq(16 - bufferLen, _ => 0);
        WidenedBlock(rest, widened);
        ghost var before := Value(RADIX, h);
        AbsorbBlock(widened);
        Next(before, Value(RADIX, h), widened, full, rest);
      } else {
        assert full == message;
      }
      var f := Canonical(h);
      var combined := Combine(f);
      TagIs(key, message, Value(RADIX, h), Value(RADIX, f), combined);
      return LeBytes((combined + pad) % TWO128, 16);
    }
  }

  lemma TagIs(key: ByteString, message: ByteString, h: int, f: int, combined: nat)
    requires |key| == 32 && 0 <= f && f == h % P && combined == f % TWO128
    requires Cong(h, Accumulated(KeyR(key), 0, message), P)
    ensures LeBytes((combined + KeyS(key)) % TWO128, 16) == Tag(key, message)
  {
    hide KeyR, KeyS, Cong, Accumulated, LeBytes;
    var acc := Accumulated(KeyR(key), 0, message);
    AccumulatedBelow(KeyR(key), 0, message);
    CongSym(h, acc, P);
    CongIsMod(acc, h, P);
    SumMod(combined, f, KeyS(key));
  }

  lemma SumMod(combined: nat, v: nat, pad: nat)
    requires combined == v % TWO128
    ensures (combined + pad) % TWO128 == (v + pad) % TWO128
  {
  }

  function WrappingAdd(a: nat, b: nat): nat { (a + b % TWO128) % TWO128 }

  lemma WrapAt(x: nat, y: nat)
    ensures WrappingAdd(x % TWO128, y) == (x + y) % TWO128
  {
  }

  lemma SumOfLimbs(f: Five)
    requires Tight(RADIX, f)
    ensures f.x0 % TWO128 == f.x0
    ensures Value(RADIX, f) == f.x0 + f.x1 * 0x400_0000 + f.x2 * 0x10_0000_0000_0000
                               + f.x3 * 0x4000_0000_0000_0000_0000 + f.x4 * 0x100_0000_0000_0000_0000_0000_0000
  {
  }

  /** The limbs put together with additions and shifts that wrap at 128 bits. */
  function Combine(f: Five): (v: nat)
    requires Tight(RADIX, f)
    ensures v == Value(RADIX, f) % TWO128
  {
    hide WrappingAdd, Value;
    var y1, y2 := f.x1 * 0x400_0000, f.x2 * 0x10_0000_0000_0000;
    var y3, y4 := f.x3 * 0x4000_0000_0000_0000_0000, f.x4 * 0x100_0000_0000_0000_0000_0000_0000;
    WrapAt(f.x0, y1);
    WrapAt(f.x0 + y1, y2);
    WrapAt(f.x0 + y1 + y2, y3);
    WrapAt(f.x0 + y1 + y2 + y3, y4);
    SumOfLimbs(f);
    WrappingAdd(WrappingAdd(WrappingAdd(WrappingAdd(f.x0, y1), y2), y3), y4)
  }

  // ---------- how far limb one goes ----------

  const ZERO_LIMBS: Five := Five(0, 0, 0, 0, 0)

  /** The widened limbs of a full block. */
  function BlockLimbs(block: ByteString): Five
    requires |block| == 16
  {
    WidenedLimbs(block + [1])
  }

  function Word(x0: nat, x1: nat, x2: nat, x3: nat): nat {
    x0 + 0x100 * x1 + 0x1_0000 * x2 + 0x100_0000 * x3
  }

  lemma FirstByte(b: ByteString, i: nat)
    requires i < |b|
    ensures LeValue(b[i..]) == b[i] + 256 * LeValue(b[i + 1..])
  {
    assert b[i..][1..] == b[i + 1..];
  }

  lemma WordFirst(b: ByteString, i: nat)
    requires i + 4 <= |b|
    ensures LeValue(b[i..]) == Word(b[i], b[i + 1], b[i + 2], b[i + 3]) + 0x1_0000_0000 * LeValue(b[i + 4..])
  {
    hide LeValue;
    FirstByte(b, i);
    FirstByte(b, i + 1);
    FirstByte(b, i + 2);
    FirstByte(b, i + 3);
  }

  /** The five limbs of sixteen bytes. */
  predicate Spells(b: ByteString, f: Five)
    requires |b| == 16
  {
    Word(b[0], b[1], b[2], b[3]) + 0x1_0000_0000 * Word(b[4], b[5], b[6], b[7])
    + 0x1_0000_0000_0000_0000 * Word(b[8], b[9], b[10], b[11])
    + 0x1_0000_0000_0000_0000_0000_0000 * Word(b[12], b[13], b[14], b[15]) == Value(RADIX, f)
  }

  lemma SpelledLimbs(b: ByteString, f: Five)
    requires |b| == 16 && Tight(RADIX, f) && Spells(b, f)
    ensures LimbsOf(LeValue(b)) == f
    ensures BlockLimbs(b) == f.(x4 := f.x4 + 0x100_0000)
  {
    hide LeValue, Word, LimbsOf;
    WordFirst(b, 0);
    WordFirst(b, 4);
    WordFirst(b, 8);
    WordFirst(b, 12);
    assert b[0..] == b && b[16..] == [];
    NoBytes();
    LimbsUnique(LeValue(b), f);
    assert (b + [1])[..16] == b;
  }

  lemma NoBytes()
    ensures LeValue([]) == 0
  {
  }

  lemma LimbsUnique(v: nat, f: Five)
    requires Tight(RADIX, f) && Value(RADIX, f) == v
    ensures LimbsOf(v) == f
  {
    LimbSplit(v);
    DivDiv(v, RADIX, RADIX);
    DivDiv(v, 0x10_0000_0000_0000, RADIX);
    DivDiv(v, 0x4000_0000_0000_0000_0000, RADIX);
    var y3 := f.x3 + RADIX * f.x4;
    var y2 := f.x2 + RADIX * y3;
    var y1 := f.x1 + RADIX * y2;
    QuotientIs(v, RADIX, y1, f.x0);
    QuotientIs(y1, RADIX, y2, f.x1);
    QuotientIs(y2, RADIX, y3, f.x2);
    QuotientIs(y3, RADIX, f.x4, f.x3);
  }

  const HIGHEST: ByteString :=
    [0xFF, 0xFF, 0xFF, 0x0F, 0xFC, 0xFF, 0xFF, 0x0F, 0xFC, 0xFF, 0xFF, 0x0F, 0xFC, 0xFF, 0xFF, 0x0F]

  /** The largest r there is. */
  const HIGHEST_R: Five := Five(0x3FFFFFF, 0x3FFFF03, 0x3FFC0FF, 0x3F03FFF, 0xFFFFF)

  lemma HighestR(key: ByteString)
    requires |key| == 32 && key[..16] == seq(16, _ => 0xFF)
    ensures LimbsOf(KeyR(key)) == HIGHEST_R
  {
    hide LimbsOf;
    assert Clamp(key[..16]) == HIGHEST;
    SpelledLimbs(HIGHEST, HIGHEST_R);
  }

  /** A carry pass written out: what each limb keeps, o, and what it passes on, c. */
  lemma PassIs(d: Five, o: Five, c: Five, last: nat, x0: nat)
    requires Tight(RADIX, o) && x0 < RADIX
    requires d.x0 == RADIX * c.x0 + o.x0 && d.x1 + c.x0 == RADIX * c.x1 + o.x1
    requires d.x2 + c.x1 == RADIX * c.x2 + o.x2 && d.x3 + c.x2 == RADIX * c.x3 + o.x3
    requires d.x4 + c.x3 == RADIX * c.x4 + o.x4 && o.x0 + 5 * c.x4 == RADIX * last + x0
    ensures LastCarry(d) == last && Reduced(d) == o.(x0 := x0, x1 := o.x1 + last)
  {
    QuotientIs(d.x0, RADIX, c.x0, o.x0);
    QuotientIs(d.x1 + c.x0, RADIX, c.x1, o.x1);
    QuotientIs(d.x2 + c.x1, RADIX, c.x2, o.x2);
    QuotientIs(d.x3 + c.x2, RADIX, c.x3, o.x3);
    QuotientIs(d.x4 + c.x3, RADIX, c.x4, o.x4);
    QuotientIs(o.x0 + 5 * c.x4, RADIX, last, x0);
    assert Carried(RADIX, d) == (o, c.x4);
  }

  /** One block through the products and the carries. */
  predicate Passes(h: Five, n: Five, r: Five, last: nat, out: Five) {
    LastCarry(Products(h, n, r)) == last && Reduced(Products(h, n, r)) == out
  }

  const EXCEEDING: ByteString :=
    [0x0B, 0x53, 0x39, 0xE7, 0x3A, 0xED, 0xEB, 0x93, 0xF1, 0x6A, 0x07, 0x0F, 0xD8, 0xC3, 0x53, 0xFD]
  const EXCEEDING_LIMBS: Five := Five(0x339530B, 0x2FB4EB9, 0x2AF193E, 0x3603C1D, 0x1FD53C3)

  lemma ExceedingLimbs()
    ensures BlockLimbs(EXCEEDING) == EXCEEDING_LIMBS
  {
    SpelledLimbs(EXCEEDING, Five(0x339530B, 0x2FB4EB9, 0x2AF193E, 0x3603C1D, 0xFD53C3));
  }

  /** The numbers of the pass. */
  lemma ExceedingPass(h: Five, n: Five, r: Five)
    requires h == ZERO_LIMBS && n == EXCEEDING_LIMBS && r == HIGHEST_R
    ensures Passes(h, n, r, 14, Five(0x1F92988, 0x400000A, 0x3460D85, 0x10249A8, 0xFA66E5))
  {
    hide LastCarry, Reduced;
    var d := Products(h, n, r);
    assert d == Five(0xADF97CAACC62FE, 0x83EC2BE481A0D2, 0x4BCA0E5A4B0282, 0x317B813A0FC60A, 0x2C23D1FC9B8692);
    hide Products;
    PassIs(d, Five(0x2CC62FE, 0x3FFFFFC, 0x3460D85, 0x10249A8, 0xFA66E5),
           Five(0x2B7E5F2A, 0x20FB0B03, 0x12F2839E, 0xC5EE053, 0xB08F482), 14, 0x1F92988);
  }

  /** After this first block limb one is 2^26 + 10. */
  lemma FirstBlockExceeds(key: ByteString)
    requires |key| == 32 && key[..16] == seq(16, _ => 0xFF)
    ensures var d := Products(ZERO_LIMBS, BlockLimbs(EXCEEDING), LimbsOf(KeyR(key)));
            LastCarry(d) == 14 && Reduced(d).x1 == RADIX + 10
  {
    hide BlockLimbs, KeyR, LimbsOf, LastCarry, Reduced, Products;
    HighestR(key);
    ExceedingLimbs();
    ExceedingPass(ZERO_LIMBS, BlockLimbs(EXCEEDING), LimbsOf(KeyR(key)));
  }

  const SHARP_FIRST: ByteString :=
    [0xF8, 0x57, 0x69, 0x80, 0x98, 0x76, 0x49, 0x19, 0x6F, 0xE2, 0x24, 0xDD, 0x35, 0x42, 0x51, 0x9C]
  const SHARP_FIRST_LIMBS: Five := Five(0x6957F8, 0x25DA620, 0x226F194, 0xD77493, 0x19C5142)

  const SHARP_SECOND: ByteString :=
    [0x41, 0xEC, 0xFF, 0x43, 0x1A, 0xBF, 0xBF, 0xF4, 0xFF, 0xBF, 0xC9, 0xFF, 0xFF, 0x04, 0xFF, 0xFF]
  const SHARP_SECOND_LIMBS: Five := Five(0x3FFEC41, 0x3EFC690, 0x3FFFF4B, 0x3FFFF26, 0x1FFFF04)

  const BETWEEN: Five := Five(0x357D2CE, 0x3FFF9C3, 0x3FFF913, 0x3FFF647, 0x3FFF3CD)

  lemma SharpFirstLimbs()
    ensures BlockLimbs(SHARP_FIRST) == SHARP_FIRST_LIMBS
  {
    SpelledLimbs(SHARP_FIRST, Five(0x6957F8, 0x25DA620, 0x226F194, 0xD77493, 0x9C5142));
  }

  lemma SharpSecondLimbs()
    ensures BlockLimbs(SHARP_SECOND) == SHARP_SECOND_LIMBS
  {
    SpelledLimbs(SHARP_SECOND, Five(0x3FFEC41, 0x3EFC690, 0x3FFFF4B, 0x3FFFF26, 0xFFFF04));
  }

  /** The numbers of the first block's pass. */
  lemma SharpFirstPass(h: Five, n: Five, r: Five)
    requires h == ZERO_LIMBS && n == SHARP_FIRST_LIMBS && r == HIGHEST_R
    ensures Passes(h, n, r, 8, BETWEEN)
  {
    hide LastCarry, Reduced;
    var d := Products(h, n, r);
    assert d == Five(0x5DCE6C00A50283, 0x3C8F558C8C5EBB, 0x33B279F4DC23AB, 0x178F57FF1357C7, 0x1BC2403A1C1DCB);
    hide Products;
    PassIs(d, Five(0xA50283, 0x3FFF9BB, 0x3FFF913, 0x3FFF647, 0x3FFF3CD),
           Five(0x17739B00, 0xF23D568, 0xCEC9E80, 0x5E3D602, 0x6F0900F), 8, 0x357D2CE);
  }

  /** The numbers of the second block's pass. */
  lemma SharpSecondPass(h: Five, n: Five, r: Five)
    requires h == BETWEEN && n == SHARP_SECOND_LIMBS && r == HIGHEST_R
    ensures Passes(h, n, r, 38, Five(0xE5A03B, 0x4000025, 0x3FEAD8, 0x4B9F, 0x1AAA61))
  {
    hide LastCarry, Reduced;
    var d := Products(h, n, r);
    assert d == Five(0x1D55780C743609A, 0x1551EB996AA1FCE, 0xD5C2814EF83C56, 0x7E880E768FAB36, 0x77B4FF9478A6B6);
    hide Products;
    PassIs(d, Five(0x343609A, 0x3FFFFFF, 0x3FEAD8, 0x4B9F, 0x1AAA61),
           Five(0x7555E031, 0x5547AE82, 0x3570A069, 0x1FA203AB, 0x1DED3FED), 38, 0xE5A03B);
  }

  /** After these two blocks limb one is as large as Loose allows. */
  lemma SharpestLimbOne(key: ByteString)
    requires |key| == 32 && key[..16] == seq(16, _ => 0xFF)
    ensures var r := LimbsOf(KeyR(key));
            var h := Reduced(Products(ZERO_LIMBS, BlockLimbs(SHARP_FIRST), r));
            Reduced(Products(h, BlockLimbs(SHARP_SECOND), r)).x1 == RADIX + SLACK - 1
  {
    hide BlockLimbs, KeyR, LimbsOf, LastCarry, Reduced, Products;
    HighestR(key);
    var r := LimbsOf(KeyR(key));
    SharpFirstLimbs();
    SharpFirstPass(ZERO_LIMBS, BlockLimbs(SHARP_FIRST), r);
    SharpSecondLimbs();
    SharpSecondPass(BETWEEN, BlockLimbs(SHARP_SECOND), r);
  }

  /** One-shot use. */
  method Mac(key: ByteString, data: ByteString) returns (tag: ByteString)
    requires |key| == 32
    ensures tag == Tag(key, data)
  {
    var p := new Poly1305(key);
    p.Update(data);
    assert [] + data == data;
    tag := p.Finalize();
  }

  /** However the message is cut into updates, the tag is that of the whole. */
  method MacOfChunks(key: ByteString, chunks: seq<ByteString>) returns (tag: ByteString)
    requires |key| == 32
    ensures tag == Tag(key, Concat(chunks))
  {
    var p := new Poly1305(key);
    for i := 0 to |chunks|
      invariant p.Valid() && fresh(p) && fresh(p.buffer) && p.key == key && p.message == Concat(chunks[..i])
    {
      p.Update(chunks[i]);
      assert chunks[..i + 1][..i] == chunks[..i];
    }
    assert chunks[..|chunks|] == chunks;
    tag := p.Finalize();
  }
}
