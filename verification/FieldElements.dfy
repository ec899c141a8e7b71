/** The field of integers modulo 2^255 - 19 in five loosely reduced 51-bit limbs
    (crates/otter-crypto/src/x25519.rs). */
module FieldElements {
  import opened Congruence
  import opened FiveLimbs
  import L = Limbs
  import M = ModularArithmetic
  import Montgomery

  const RADIX: nat := 0x8_0000_0000_0000
  const P: nat := 0x7FFF_FFFF_FFFF_FFFF_FFFF_FFFF_FFFF_FFFF_FFFF_FFFF_FFFF_FFFF_FFFF_FFFF_FFFF_FFED

  lemma Powers()
    ensures Pow(RADIX, 5) == P + 19 && Fold(RADIX, 19) == P
  {
    assert Pow(RADIX, 0) == 1 && Pow(RADIX, 1) == RADIX;
    assert Pow(RADIX, 2) == 0x40_0000_0000_0000_0000_0000_0000;
    assert Pow(RADIX, 3) == 0x200_0000_0000_0000_0000_0000_0000_0000_0000_0000;
    assert Pow(RADIX, 4) == 0x1000_0000_0000_0000_0000_0000_0000_0000_0000_0000_0000_0000_0000;
  }

  // ---------- the field ----------

  function FAdd(x: int, y: int): nat { (x + y) % P }
  function FSub(x: int, y: int): nat { (x - y) % P }
  function FMul(x: int, y: int): nat { (x * y) % P }

  /** The field element limbs stand for. */
  function Residue(f: Five): nat { Value(RADIX, f) % P }

  /** What every operation takes and returns: only limb zero may exceed its 51 bits, by less than 19. */
  predicate Loose(f: Five) {
    f.x0 < RADIX + 19 && f.x1 < RADIX && f.x2 < RADIX && f.x3 < RADIX && f.x4 < RADIX
  }

  lemma ResidueIs(f: Five, v: int)
    requires Cong(Value(RADIX, f), v, P)
    ensures Residue(f) == v % P
  {
    CongMod(Value(RADIX, f), P);
    CongTrans(Residue(f), Value(RADIX, f), v, P);
    CongIsMod(Residue(f), v, P);
  }

  lemma ResidueCong(f: Five)
    ensures Cong(Value(RADIX, f), Residue(f), P)
  {
    CongMod(Value(RADIX, f), P);
    CongSym(Residue(f), Value(RADIX, f), P);
  }

  // ---------- carries ----------

  const WIDE: nat := 0x100_0000_0000_0000_0000_0000_0000_0000

  /** The limbs before, between and after the two carry rounds. */
  predicate Stage(t: Five, k: nat) {
    if k == 0 then AtMost(t, WIDE)
    else if k == 1 then
      t.x0 < 0x1000_0000_0000_0000_0000 && t.x1 < RADIX && t.x2 < RADIX && t.x3 < RADIX && t.x4 < RADIX
    else Loose(t)
  }

  /** Bounds through one round. */
  lemma RoundBounds(t: Five, k: nat)
    requires k < 2 && Stage(t, k)
    ensures var (low, top) := Carried(RADIX, t);
            Stage(FoldBack(19, low, top), k + 1) && (Loose(t) ==> Tight(RADIX, FoldBack(19, low, top)))
  {
    hide High, Low;
    if k == 1 { SecondRound(t); }
    if Loose(t) { LooseRound(t); }
  }

  /** In the second round every carry above limb zero is at most one. */
  lemma SecondRound(t: Five)
    requires Stage(t, 1)
    ensures var (low, top) := Carried(RADIX, t); top <= 1 && Tight(RADIX, low)
  {
    hide High, Low;
    var t1 := t.x1 + High(RADIX, t.x0);
    var t2 := t.x2 + High(RADIX, t1);
    var t3 := t.x3 + High(RADIX, t2);
    var t4 := t.x4 + High(RADIX, t3);
    HighOfSmall(RADIX, t1);
    HighOfSmall(RADIX, t2);
    HighOfSmall(RADIX, t3);
    HighOfSmall(RADIX, t4);
  }

  /** Loose limbs carry out of the top only when limb zero wrapped to less than 19. */
  lemma LooseRound(t: Five)
    requires Loose(t)
    ensures var (low, top) := Carried(RADIX, t); Tight(RADIX, FoldBack(19, low, top))
  {
    hide High, Low;
    SecondRound(t);
    var t1 := t.x1 + High(RADIX, t.x0);
    var t2 := t.x2 + High(RADIX, t1);
    var t3 := t.x3 + High(RADIX, t2);
    HighOfSmall(RADIX, t.x0);
    HighOfSmall(RADIX, t1);
    HighOfSmall(RADIX, t2);
    HighOfSmall(RADIX, t3);
    HighOfSmall(RADIX, t.x4 + High(RADIX, t3));
  }

  lemma StageWide(t: Five, k: nat)
    requires k < 2 && Stage(t, k)
    ensures AtMost(t, WIDE)
  {
  }

  /** One carry round: limb by limb upwards, the top carry back into limb zero times 19. */
  method Round(start: Five, k: nat) returns (t: Five)
    requires k < 2 && Stage(start, k)
    ensures Stage(t, k + 1) && (Loose(start) ==> Tight(RADIX, t))
    ensures Cong(Value(RADIX, t), Value(RADIX, start), P)
  {
    hide Value, High, Low, Cong, Pow, Stage, Loose;
    Powers();
    CarryKeeps(RADIX, 19, start);
    RoundBounds(start, k);
    StageWide(start, k);
    t := start;
    var c: U128 := High(RADIX, t.x0);
    t := t.(x0 := Low(RADIX, t.x0), x1 := t.x1 + c);
    c := High(RADIX, t.x1);
    t := t.(x1 := Low(RADIX, t.x1), x2 := t.x2 + c);
    c := High(RADIX, t.x2);
    t := t.(x2 := Low(RADIX, t.x2), x3 := t.x3 + c);
    c := High(RADIX, t.x3);
    t := t.(x3 := Low(RADIX, t.x3), x4 := t.x4 + c);
    c := High(RADIX, t.x4);
    t := t.(x4 := Low(RADIX, t.x4), x0 := t.x0 + c * 19);
    assert t == FoldBack(19, Carried(RADIX, start).0, c);
  }

  /** Two rounds bring any accumulators back to loose limbs of the same field element. */
  method CarryReduce(start: Five) returns (t: Five)
    requires AtMost(start, WIDE)
    ensures Loose(t) && (Loose(start) ==> Tight(RADIX, t))
    ensures Cong(Value(RADIX, t), Value(RADIX, start), P)
  {
    hide Value, Cong;
    t := start;
    CongRefl(Value(RADIX, start), P);
    for k := 0 to 2
      invariant Stage(t, k) && (Loose(start) ==> Loose(t)) && (Loose(start) && k > 0 ==> Tight(RADIX, t))
      invariant Cong(Value(RADIX, t), Value(RADIX, start), P)
    {
      ghost var before := t;
      t := Round(t, k);
      CongTrans(Value(RADIX, t), Value(RADIX, before), Value(RADIX, start), P);
    }
  }

  // ---------- the operations ----------

  method Sum(a: Five, b: Five) returns (r: Five)
    requires Loose(a) && Loose(b)
    ensures Loose(r) && Residue(r) == FAdd(Residue(a), Residue(b))
  {
    hide Value, Cong, FAdd, Residue;
    r := CarryReduce(Add(a, b));
    AddValue(RADIX, a, b);
    SumResidue(r, a, b);
  }

  lemma SumResidue(r: Five, a: Five, b: Five)
    requires Cong(Value(RADIX, r), Value(RADIX, a) + Value(RADIX, b), P)
    ensures Residue(r) == FAdd(Residue(a), Residue(b))
  {
    hide Value, Cong, Residue;
    ResidueCong(a);
    ResidueCong(b);
    CongAdd(Value(RADIX, a), Residue(a), Value(RADIX, b), Residue(b), P);
    CongTrans(Value(RADIX, r), Value(RADIX, a) + Value(RADIX, b), Residue(a) + Residue(b), P);
    ResidueIs(r, Residue(a) + Residue(b));
  }

  const P_LIMBS: Five := Five(RADIX - 19, RADIX - 1, RADIX - 1, RADIX - 1, RADIX - 1)

  /** a - b, with 16 P added limb by limb first so that no limb goes below zero. */
  method Minus(a: Five, b: Five) returns (r: Five)
    requires Loose(a) && Loose(b)
    ensures Loose(r) && Residue(r) == FSub(Residue(a), Residue(b))
  {
    hide Value, Cong, FSub, Residue;
    var t := Five(a.x0 + 16 * P_LIMBS.x0 - b.x0, a.x1 + 16 * P_LIMBS.x1 - b.x1, a.x2 + 16 * P_LIMBS.x2 - b.x2,
                  a.x3 + 16 * P_LIMBS.x3 - b.x3, a.x4 + 16 * P_LIMBS.x4 - b.x4);
    r := CarryReduce(t);
    MinusValue(t, a, b);
    MinusResidue(r, t, a, b);
  }

  lemma MinusValue(t: Five, a: Five, b: Five)
    requires Add(t, b) == Add(a, Scale(16, P_LIMBS))
    ensures Value(RADIX, t) == Value(RADIX, a) - Value(RADIX, b) + P * 16
  {
    AddValue(RADIX, t, b);
    AddValue(RADIX, a, Scale(16, P_LIMBS));
    ScaleValue(RADIX, 16, P_LIMBS);
    assert Value(RADIX, P_LIMBS) == P;
  }

  lemma MinusResidue(r: Five, t: Five, a: Five, b: Five)
    requires Cong(Value(RADIX, r), Value(RADIX, t), P)
    requires Value(RADIX, t) == Value(RADIX, a) - Value(RADIX, b) + P * 16
    ensures Residue(r) == FSub(Residue(a), Residue(b))
  {
    hide Value, Residue;
    ResidueCong(a);
    ResidueCong(b);
    var va: int, vb: int, ra: int, rb: int := Value(RADIX, a), Value(RADIX, b), Residue(a), Residue(b);
    MultipleSum(P, va - ra, vb - rb);
    MultipleOf(P, 16);
    MultipleSum(P, (va - ra) - (vb - rb), P * 16);
    assert (va - ra) - (vb - rb) + P * 16 == Value(RADIX, t) - (ra - rb);
    CongTrans(Value(RADIX, r), Value(RADIX, t), ra - rb, P);
    ResidueIs(r, ra - rb);
  }

  method Multiply(a: Five, b: Five) returns (r: Five)
    requires Loose(a) && Loose(b)
    ensures Loose(r) && Residue(r) == FMul(Residue(a), Residue(b))
  {
    hide Value, Cong, FMul, Residue, Product, Convolution, Pow;
    var b1: U64, b2: U64, b3: U64, b4: U64 := b.x1 * 19, b.x2 * 19, b.x3 * 19, b.x4 * 19;
    var s := Five(0, b1, b2, b3, b4);
    var t := Convolution(a, b, s);
    ConvolutionIsProduct(19, a, b, s);
    ProductBound(19, a, b, RADIX + 18, RADIX + 18, 19 * (RADIX + 18));
    ProductIsProduct(RADIX, 19, a, b);
    Powers();
    r := CarryReduce(t);
    CongTrans(Value(RADIX, r), Value(RADIX, t), Value(RADIX, a) * Value(RADIX, b), P);
    ProductResidue(r, Value(RADIX, a), Value(RADIX, b), Residue(a), Residue(b)) by {
      ResidueCong(a);
      ResidueCong(b);
    }
  }

  lemma ProductResidue(r: Five, x: int, y: int, rx: int, ry: int)
    requires Cong(Value(RADIX, r), x * y, P) && Cong(x, rx, P) && Cong(y, ry, P)
    ensures Residue(r) == FMul(rx, ry)
  {
    hide Value, Cong, Residue;
    CongMul(x, rx, y, ry, P);
    CongTrans(Value(RADIX, r), x * y, rx * ry, P);
    ResidueIs(r, rx * ry);
  }

  method Square(a: Five) returns (r: Five)
    requires Loose(a)
    ensures Loose(r) && Residue(r) == FMul(Residue(a), Residue(a))
  {
    r := Multiply(a, a);
  }

  /** Times a small public constant. */
  method TimesSmall(a: Five, k: nat) returns (r: Five)
    requires Loose(a) && k < 0x2_0000
    ensures Loose(r) && Residue(r) == FMul(Residue(a), k)
  {
    hide Value, Cong, FMul, Residue, Scale;
    var t := Scale(k, a);
    ScaleBound(k, a, 0x2_0000, RADIX + 18);
    ScaleValue(RADIX, k, a);
    r := CarryReduce(t);
    assert k * Value(RADIX, a) == Value(RADIX, a) * k;
    ResidueCong(a);
    CongRefl(k, P);
    ProductResidue(r, Value(RADIX, a), k, Residue(a), k);
  }

  // ---------- inversion ----------

  const P_MINUS_2: seq<L.Limb> :=
    [0xFFFF_FFFF_FFFF_FFEB, 0xFFFF_FFFF_FFFF_FFFF, 0xFFFF_FFFF_FFFF_FFFF, 0x7FFF_FFFF_FFFF_FFFF]

  /** The four words of the exponent spell P - 2. */
  lemma ExponentValue()
    ensures L.Value(P_MINUS_2) == P - 2 && |P_MINUS_2| == 4
  {
    L.ValueHead(P_MINUS_2);
    var s := P_MINUS_2[1..];
    L.ValueHead(s);
    L.ValueHead(s[1..]);
    assert s[1..][1..] == [P_MINUS_2[3]];
    L.ValueSingle(P_MINUS_2[3]);
  }

  function FPow(x: nat, e: nat): nat { Pow(x, e) % P }

  lemma FPowSquare(x: nat, h: nat, bit: bool, r: nat, square: nat, e: nat)
    requires r == FPow(x, h) && square == FMul(r, r) && e == 2 * h + (if bit then 1 else 0)
    ensures FPow(x, e) == if bit then FMul(square, x) else square
  {
    hide Pow, Cong;
    var q := Pow(x, h);
    PowAdd(x, h, h);
    CongMod(q, P);
    CongMul(r, q, r, q, P);
    CongMod(r * r, P);
    CongTrans(square, r * r, q * q, P);
    CongIsMod(square, q * q, P);
    if bit {
      PowAdd(x, h + h, 1);
      M.FirstPower(x);
      CongScale(square, q * q, x, P);
      CongMod(square * x, P);
      CongTrans(FMul(square, x), square * x, (q * q) * x, P);
      CongIsMod(FMul(square, x), (q * q) * x, P);
    }
  }

  /** The power P - 2, by squaring and multiplying from the top bit of the exponent down. */
  method Invert(z: Five) returns (r: Five)
    requires Loose(z)
    ensures Loose(r) && Residue(r) == FPow(Residue(z), P - 2)
  {
    hide Residue, FPow, FMul, L.Value, L.Weight, Pow, M.Bit;
    r := Five(1, 0, 0, 0, 0);
    ExponentValue();
    ghost var x, e := Residue(z), P - 2;
    var i := 256;
    NothingAbove(i);
    OneIsPower(x);
    while i > 0
      invariant 0 <= i <= 256 && Loose(r) && Residue(r) == FPow(x, e / Pow(2, i))
    {
      i := i - 1;
      ghost var before := Residue(r);
      r := Square(r);
      ghost var square := Residue(r);
      M.NextBit(P_MINUS_2, i);
      FPowSquare(x, e / Pow(2, i + 1), M.Bit(P_MINUS_2, i), before, square, e / Pow(2, i));
      if M.Bit(P_MINUS_2, i) {
        r := Multiply(r, z);
      }
    }
    M.FullExponent(e);
  }

  lemma NothingAbove(n: nat)
    requires n == 256
    ensures (P - 2) / Pow(2, n) == 0
  {
    hide Pow;
    Montgomery.Base2();
    PowAdd(2, 64, 64);
    PowAdd(2, 128, 128);
    assert Pow(2, n) == L.BASE * L.BASE * (L.BASE * L.BASE) > P - 2;
    QuotientIs(P - 2, Pow(2, n), 0, P - 2);
  }

  lemma OneIsPower(x: nat)
    ensures Residue(Five(1, 0, 0, 0, 0)) == FPow(x, 0)
  {
    assert Pow(x, 0) == 1;
  }
}
