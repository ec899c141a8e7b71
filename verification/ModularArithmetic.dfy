/** Arithmetic modulo an odd number in Montgomery form (crates/otter-crypto/src/bigint.rs). */
module ModularArithmetic {
  import opened Congruence
  import opened Limbs
  import opened Montgomery

  datatype Result<T> = Ok(value: T) | InvalidModulus

  /** A modulus and the constants precomputed for it. */
  datatype Modulus = Modulus(n: BigUint, limbs: nat, n0inv: Limb, rModN: BigUint, r2ModN: BigUint) {
    /** The Montgomery radix. */
    ghost function R(): (r: nat)
      ensures r > 0
    {
      Weight(limbs)
    }

    ghost predicate Valid() {
      && 1 <= limbs <= 64 && Value(n) % 2 == 1 && Value(n) < R()
      && Multiple(BASE, n[0] * n0inv + 1)
      && Value(rModN) == R() % Value(n) && Value(r2ModN) == (R() * R()) % Value(n)
    }
  }

  // ---------- bits ----------

  function BitsOf(x: nat): nat { if x == 0 then 0 else 1 + BitsOf(x / 2) }

  lemma {:induction false} BitsOfBounds(x: nat)
    ensures x < Pow(2, BitsOf(x)) && (x > 0 ==> Pow(2, BitsOf(x) - 1) <= x)
  {
    if x > 0 {
      BitsOfBounds(x / 2);
      if x / 2 > 0 { assert Pow(2, BitsOf(x) - 1) == 2 * Pow(2, BitsOf(x / 2) - 1); }
    }
  }

  lemma {:induction false} BitsOfLimb(x: nat, e: nat)
    requires x < Pow(2, e)
    ensures BitsOf(x) <= e
    decreases e
  {
    if x > 0 { BitsOfLimb(x / 2, e - 1); }
  }

  /** len is the length of x in bits. */
  ghost predicate IsBitLength(x: nat, len: nat) {
    x < Pow(2, len) && (len > 0 ==> Pow(2, len - 1) <= x)
  }

  lemma TopLimbLength(x: nat, high: nat, low: nat, i: nat)
    requires high > 0 && low < Weight(i) && x == low + Weight(i) * high
    ensures IsBitLength(x, 64 * i + BitsOf(high))
  {
    var b := BitsOf(high);
    assert b > 0;
    hide Weight, Pow, BitsOf;
    BitsOfBounds(high);
    WeightIsPow2(i);
    PowAdd(2, 64 * i, b);
    PowAdd(2, 64 * i, b - 1);
    MulGap(Weight(i), high, Pow(2, b));
    MulMono(Weight(i), Pow(2, b - 1), high);
  }

  /** The number of bits of a number, from its highest nonzero limb. */
  method BitLength(s: seq<Limb>) returns (len: nat)
    ensures IsBitLength(Value(s), len) && len <= 64 * |s|
  {
    var i := |s|;
    assert s[|s|..] == [];
    while i > 0
      invariant 0 <= i <= |s| && AllZero(s[i..])
    {
      i := i - 1;
      if s[i] != 0 {
        ValueSplit(s, i + 1);
        ValueNext(s, i);
        ZeroValue(s[i + 1..]);
        ValueBound(s[..i]);
        TopLimbLength(Value(s), s[i], Value(s[..i]), i);
        Base2();
        BitsOfLimb(s[i], 64);
        return 64 * i + BitsOf(s[i]);
      }
      assert s[i..] == [s[i]] + s[i + 1..];
    }
    assert s[0..] == s;
    ZeroValue(s);
    return 0;
  }

  // ---------- reduction ----------

  lemma MulCancel(w: int, x: int, y: int)
    requires w > 0 && w * x == w * y
    ensures x == y
  {
    assert w * (x - y) == 0;
    MulAtLeast(w, x - y);
  }

  lemma ShiftedSum(w: int, x0: int, x1: int, p: int)
    requires w > 0 && w * x1 == w * x0 + w * p
    ensures x1 == x0 + p
  {
    assert w * (x0 + p) == w * x0 + w * p;
    MulCancel(w, x1, x0 + p);
  }

  lemma ZeroPrefix(s: seq<Limb>, i: nat)
    requires i <= |s| && AllZero(s[..i])
    ensures Value(s) == Weight(i) * Value(s[i..])
  {
    ValueSplit(s, i);
    ZeroValue(s[..i]);
  }

  lemma HeadCong(s: seq<Limb>)
    requires |s| > 0
    ensures Cong(Value(s), s[0], BASE)
  {
    MultipleOf(BASE, Value(s[1..]));
  }

  /** Adding m times the modulus clears limb i. */
  lemma LimbCleared(t0: seq<Limb>, t1: seq<Limb>, i: nat, nk: seq<Limb>, m: int, n0inv: int)
    requires |t0| == |t1| && i < |t0| && |nk| > 0 && t1[..i] == t0[..i] && AllZero(t0[..i])
    requires Value(t1) == Value(t0) + Weight(i) * (Value(nk) * m)
    requires m == Reduce(t0[i] * n0inv) && Multiple(BASE, nk[0] * n0inv + 1)
    ensures AllZero(t1[..i + 1])
  {
    hide Value, Weight, Reduce;
    ZeroPrefix(t0, i);
    ZeroPrefix(t1, i);
    var x0, x1, n := Value(t0[i..]), Value(t1[i..]), Value(nk);
    ShiftedSum(Weight(i), x0, x1, n * m);
    HeadCong(t0[i..]);
    HeadCong(t1[i..]);
    HeadCong(nk);
    ReduceCong(t0[i] * n0inv);
    ColumnVanishes(x0, n, t0[i], nk[0], m, n0inv);
    CongSym(x1, t1[i], BASE);
    CongTrans(t1[i], x1, 0, BASE);
    CongUnique(t1[i], 0, BASE);
    assert t1[..i + 1] == t1[..i] + [t1[i]];
  }

  lemma ColumnVanishes(x0: int, n: int, ti: int, n0: int, m: int, n0inv: int)
    requires Cong(x0, ti, BASE) && Cong(n, n0, BASE) && Cong(m, ti * n0inv, BASE) && Multiple(BASE, n0 * n0inv + 1)
    ensures Cong(x0 + n * m, 0, BASE)
  {
    CongMul(n, n0, m, ti * n0inv, BASE);
    MultipleScaled(BASE, n0 * n0inv + 1, ti);
    assert ti * (n0 * n0inv + 1) == n0 * (ti * n0inv) + ti by { assert ti * (n0 * n0inv) == n0 * (ti * n0inv); }
    MultipleSum(BASE, n * m - n0 * (ti * n0inv), n0 * (ti * n0inv) + ti);
    MultipleSum(BASE, x0 - ti, n * m + ti);
  }

  /** What the reduction has added so far stays below R times the modulus. */
  lemma QuotientGrows(q: nat, i: nat, k: nat, m: Limb)
    requires q < Weight(i) && i < k
    ensures q + Weight(i) * m < Weight(i + 1) <= Weight(k)
  {
    hide Weight;
    WeightStep(i);
    WeightMonotone(i + 1, k);
    MulGap(Weight(i), m, BASE);
  }

  lemma RedcFits(ab: nat, n: nat, k: nat, q: nat)
    requires ab < n * Weight(k) && 0 < n < Weight(k) && q < Weight(k) && 1 <= k <= 64
    ensures ab + n * q < 2 * (n * Weight(k)) && 2 * (n * Weight(k)) < Weight(2 * k + 1) <= Weight(WIDE_LIMBS)
  {
    var r := Weight(k);
    assert n * q <= n * r by { assert n * (r - q) >= 0; }
    assert n * r < r * r by { assert (r - n) * r > 0; }
    WeightAdd(k, k);
    WeightStep(2 * k);
    WeightMonotone(2 * k + 1, WIDE_LIMBS);
    assert 2 * (r * r) <= BASE * (r * r) by { assert (BASE - 2) * (r * r) >= 0; }
  }

  /** The reduced number is below twice the modulus. */
  lemma QuotientSmall(total: int, n: int, r: int, x: int)
    requires r > 0 && total == r * x && total < 2 * (n * r)
    ensures x < 2 * n
  {
    assert r * (2 * n) == 2 * (n * r);
    if x >= 2 * n { MulMono(r, 2 * n, x); }
  }

  lemma FitsOneMoreLimb(t: seq<Limb>, n: nat, k: nat)
    requires k + 1 <= |t| && Value(t) < 2 * n && n < Weight(k)
    ensures Value(t[..k + 1]) == Value(t)
  {
    WeightStep(k);
    assert 2 * n <= BASE * Weight(k);
    HighLimbsZero(t, k + 1);
  }

  /** The low limbs of an operand carry its whole value. */
  lemma LowLimbs(a: seq<Limb>, k: nat)
    requires k <= |a| && Value(a) < Weight(k)
    ensures Value(a[..k]) == Value(a)
  {
    HighLimbsZero(a, k);
  }

  lemma NextMultiple(n: int, q: int, w: int, m: int)
    ensures n * (q + w * m) == n * q + w * (n * m)
  {
    assert n * (w * m) == w * (n * m);
  }

  /** i limbs cleared by adding q times the modulus. */
  ghost predicate Reduced(t: seq<Limb>, mod: Modulus, ab: nat, q: nat, i: nat) {
    |t| == WIDE_LIMBS && i <= |t| && AllZero(t[..i]) && q < Weight(i) && Value(t) == ab + Value(mod.n) * q
  }

  /** One limb of the reduction. */
  method RedcLimb(t: array<Limb>, mod: Modulus, i: nat, nk: seq<Limb>, ghost ab: nat, ghost q: nat)
    returns (ghost q': nat)
    requires mod.Valid() && t.Length == WIDE_LIMBS && ab < Value(mod.n) * mod.R()
    requires i < mod.limbs && nk == mod.n[..mod.limbs] && Reduced(t[..], mod, ab, q, i)
    modifies t
    ensures Reduced(t[..], mod, ab, q', i + 1)
  {
    hide Value, Weight, Reduce;
    LowLimbs(mod.n, mod.limbs);
    var m: Limb := Reduce(t[i] * mod.n0inv);
    ghost var t0 := t[..];
    q' := q + Weight(i) * m;
    QuotientGrows(q, i, mod.limbs, m);
    RedcFits(ab, Value(mod.n), mod.limbs, q');
    NextMultiple(Value(mod.n), q, Weight(i), m);
    assert t[..WIDE_LIMBS] == t0;
    MacAdd(t, WIDE_LIMBS, i, nk, m);
    assert t[..WIDE_LIMBS] == t[..];
    LimbCleared(t0, t[..], i, nk, m, mod.n0inv);
  }

  /** The reduction loop. */
  method Redc(t: array<Limb>, mod: Modulus, ghost ab: nat) returns (ghost q: nat)
    requires mod.Valid() && t.Length == WIDE_LIMBS && Value(t[..]) == ab < Value(mod.n) * mod.R()
    modifies t
    ensures AllZero(t[..mod.limbs]) && q < mod.R() && Value(t[..]) == ab + Value(mod.n) * q
  {
    hide Value, Weight;
    var k := mod.limbs;
    var nk := mod.n[..k];
    q := 0;
    assert Weight(0) > 0;
    for i := 0 to k
      invariant Reduced(t[..], mod, ab, q, i)
    {
      q := RedcLimb(t, mod, i, nk, ab, q);
    }
  }

  /** What a Montgomery product is: below the modulus, and a b / R modulo it. */
  ghost predicate IsMontProduct(mod: Modulus, a: nat, b: nat, r: nat) {
    r < Value(mod.n) && Cong(r * mod.R(), a * b, Value(mod.n))
  }

  lemma ReducedProduct(ab: int, n: int, q: int, r: int, x: int)
    requires r * x == ab + n * q
    ensures Cong(x * r, ab, n) && Cong((x - n) * r, ab, n)
  {
    assert x * r == r * x;
    MultipleOf(n, q);
    MultipleOf(n, q - r);
    assert n * (q - r) == n * q - n * r;
    assert (x - n) * r == x * r - n * r;
  }

  /** The double-width product in the scratch buffer. */
  method Product(a: BigUint, b: BigUint, k: nat) returns (t: array<Limb>)
    requires k <= 64 && Value(a) < Weight(k) && Value(b) < Weight(k)
    ensures fresh(t) && t.Length == WIDE_LIMBS && Value(t[..]) == Value(a) * Value(b)
  {
    hide Value, Weight;
    t := new Limb[WIDE_LIMBS](_ => 0);
    LowLimbs(a, k);
    LowLimbs(b, k);
    MulWide(a[..k], b[..k], t, 2 * k);
    assert t[..2 * k] == t[..][..2 * k] && t[2 * k..] == t[..][2 * k..];
    WideValue(t[..], 2 * k);
  }

  /** The upper half of the buffer, as a number of the fixed capacity. */
  method UpperHalf(t: array<Limb>, k: nat) returns (result: array<Limb>)
    requires k <= 64 && t.Length == WIDE_LIMBS
    requires Value(t[k..][..k + 1]) == Value(t[k..])
    ensures fresh(result) && result.Length == LIMBS && Value(result[..]) == Value(t[k..])
  {
    hide Value, Weight;
    ghost var upper := t[k..];
    result := new Limb[LIMBS](_ => 0);
    forall i | 0 <= i <= k {
      result[i] := t[k + i];
    }
    assert t[k..] == upper && result[..][..k + 1] == upper[..k + 1];
    WideValue(result[..], k + 1);
  }

  /** What the reduction leaves above the cleared limbs. */
  lemma Quotient(mod: Modulus, t: seq<Limb>, ab: nat, q: nat)
    requires mod.Valid() && |t| == WIDE_LIMBS && ab < Value(mod.n) * mod.R() && q < mod.R()
    requires AllZero(t[..mod.limbs]) && Value(t) == ab + Value(mod.n) * q
    ensures var x := Value(t[mod.limbs..]);
            && x < 2 * Value(mod.n) && Value(t[mod.limbs..][..mod.limbs + 1]) == x
            && Cong(x * mod.R(), ab, Value(mod.n)) && Cong((x - Value(mod.n)) * mod.R(), ab, Value(mod.n))
  {
    hide Value, Weight, Multiple;
    var k, n := mod.limbs, Value(mod.n);
    ZeroPrefix(t, k);
    RedcFits(ab, n, k, q);
    QuotientSmall(ab + n * q, n, mod.R(), Value(t[k..]));
    FitsOneMoreLimb(t[k..], n, k);
    ReducedProduct(ab, n, q, mod.R(), Value(t[k..]));
  }

  /** a b / R modulo n: a double-width product and one reduction pass. */
  method MontMul(mod: Modulus, a: BigUint, b: BigUint) returns (r: BigUint)
    requires mod.Valid() && Value(a) < mod.R() && Value(b) < mod.R()
    requires Value(a) * Value(b) < Value(mod.n) * mod.R()
    ensures IsMontProduct(mod, Value(a), Value(b), Value(r))
  {
    hide Value, Weight, Multiple;
    var k := mod.limbs;
    var t := Product(a, b, k);
    ghost var ab := Value(a) * Value(b);
    ghost var q := Redc(t, mod, ab);
    assert t[..][..k] == t[..k] && t[..][k..] == t[k..];
    Quotient(mod, t[..], ab, q);
    var result := UpperHalf(t, k);
    var c := Compare(result[..], mod.n);
    if c >= 0 {
      WrappingSubAssign(result, mod.n);
    }
    r := result[..];
  }

  /** Limbs above i that are zero do not matter. */
  lemma WideValue(s: seq<Limb>, i: nat)
    requires i <= |s| && AllZero(s[i..])
    ensures Value(s) == Value(s[..i])
  {
    ValueSplit(s, i);
    ZeroValue(s[i..]);
  }

  // ---------- in and out of Montgomery form ----------

  const ONE: BigUint := seq(LIMBS, i => if i == 0 then 1 else 0)
  const ZERO: BigUint := seq(LIMBS, _ => 0)

  lemma SmallValues()
    ensures Value(ONE) == 1 && Value(ZERO) == 0
  {
    ZeroValue(ZERO);
    ZeroValue(ONE[1..]);
  }

  lemma {:induction false} ValueInjective(a: seq<Limb>, b: seq<Limb>)
    requires |a| == |b| && Value(a) == Value(b)
    ensures a == b
  {
    if a != [] {
      ValueHead(a);
      ValueHead(b);
      MulCancel(BASE, Value(a[1..]), Value(b[1..]));
      ValueInjective(a[1..], b[1..]);
      assert a == [a[0]] + a[1..] && b == [b[0]] + b[1..];
    }
  }

  /** A power of the radix can be cancelled modulo an odd number. */
  lemma CancelRadix(mod: Modulus, x: int, y: int)
    requires mod.Valid() && Cong(x * mod.R(), y * mod.R(), Value(mod.n))
    ensures Cong(x, y, Value(mod.n))
  {
    hide Value, Pow;
    WeightIsPow2(mod.limbs);
    assert x * mod.R() - y * mod.R() == (x - y) * mod.R();
    CancelPow2(x - y, 64 * mod.limbs, Value(mod.n));
  }

  /** The Montgomery product of a R and b R is a b R. */
  lemma MontFormProduct(mod: Modulus, x: nat, y: nat, r: nat, a: int, b: int)
    requires mod.Valid() && IsMontProduct(mod, x, y, r)
    requires Cong(x, a * mod.R(), Value(mod.n)) && Cong(y, b * mod.R(), Value(mod.n))
    ensures Cong(r, (a * b) * mod.R(), Value(mod.n))
  {
    hide Value, Weight, Multiple;
    var n, R := Value(mod.n), mod.R();
    CongMul(x, a * R, y, b * R, n);
    CongTrans(r * R, x * y, (a * R) * (b * R), n);
    assert (a * R) * (b * R) == ((a * b) * R) * R by { Regroup(a, b, R); }
    CancelRadix(mod, r, (a * b) * R);
  }

  lemma Regroup(a: int, b: int, r: int)
    ensures (a * r) * (b * r) == ((a * b) * r) * r
  {
    assert (a * r) * (b * r) == a * (r * (b * r));
    assert r * (b * r) == b * (r * r);
    assert a * (b * (r * r)) == (a * b) * (r * r) == ((a * b) * r) * r;
  }

  lemma BelowProduct(x: nat, y: nat, n: nat, r: nat)
    requires x < r && y < n
    ensures x * y < n * r && y * x < n * r
  {
    ProductBound(y, x, n, r);
  }

  lemma ResidueBounds(mod: Modulus)
    requires mod.Valid()
    ensures 0 < Value(mod.n) && Value(mod.rModN) < Value(mod.n) && Value(mod.r2ModN) < Value(mod.n) && mod.R() > 1
    ensures Cong(Value(mod.rModN), mod.R(), Value(mod.n))
    ensures Cong(Value(mod.r2ModN), mod.R() * mod.R(), Value(mod.n))
  {
    hide Value;
    WeightStep(mod.limbs - 1);
    MulAtLeast(BASE, Weight(mod.limbs - 1));
    CongMod(mod.R(), Value(mod.n));
    CongMod(mod.R() * mod.R(), Value(mod.n));
  }

  /** Into Montgomery form: a R modulo n. */
  method MontgomeryEncode(mod: Modulus, a: BigUint) returns (r: BigUint)
    requires mod.Valid() && Value(a) < mod.R()
    ensures Value(r) < Value(mod.n) && Cong(Value(r), Value(a) * mod.R(), Value(mod.n))
  {
    hide Value, Weight, Multiple, Modulus.R;
    ResidueBounds(mod);
    BelowProduct(Value(a), Value(mod.r2ModN), Value(mod.n), mod.R());
    r := MontMul(mod, a, mod.r2ModN);
    ghost var n, R := Value(mod.n), mod.R();
    CongScale(Value(mod.r2ModN), R * R, Value(a), n);
    assert Value(mod.r2ModN) * Value(a) == Value(a) * Value(mod.r2ModN);
    assert (R * R) * Value(a) == (Value(a) * R) * R by { Regroup(1, Value(a), R); }
    CongTrans(Value(r) * R, Value(a) * Value(mod.r2ModN), (Value(a) * R) * R, n);
    CancelRadix(mod, Value(r), Value(a) * R);
  }

  /** Out of Montgomery form. */
  method MontgomeryDecode(mod: Modulus, a: BigUint, ghost x: nat) returns (r: BigUint)
    requires mod.Valid() && Value(a) < Value(mod.n) && Cong(Value(a), x * mod.R(), Value(mod.n))
    ensures Value(r) == x % Value(mod.n)
  {
    hide Value, Weight, Multiple, Modulus.R;
    SmallValues();
    ResidueBounds(mod);
    BelowProduct(1, Value(a), Value(mod.n), mod.R());
    r := MontMul(mod, a, ONE);
    ghost var n, R := Value(mod.n), mod.R();
    assert Value(a) * 1 == Value(a);
    CongTrans(Value(r) * R, Value(a), x * R, n);
    CancelRadix(mod, Value(r), x);
    CongIsMod(Value(r), x, n);
  }

  /** (a b) modulo n, in and out of normal form. */
  method MulMod(mod: Modulus, a: BigUint, b: BigUint) returns (r: BigUint)
    requires mod.Valid() && Value(a) < mod.R() && Value(b) < mod.R()
    ensures Value(r) == (Value(a) * Value(b)) % Value(mod.n)
  {
    hide Value, Weight, Multiple, Modulus.R, Modulus.Valid, Cong;
    var am := MontgomeryEncode(mod, a);
    var bm := MontgomeryEncode(mod, b);
    ModulusBelowRadix(mod);
    BelowProduct(Value(am), Value(bm), Value(mod.n), mod.R());
    var product := MontMul(mod, am, bm);
    MontFormProduct(mod, Value(am), Value(bm), Value(product), Value(a), Value(b));
    r := MontgomeryDecode(mod, product, Value(a) * Value(b));
  }

  lemma ModulusBelowRadix(mod: Modulus)
    requires mod.Valid()
    ensures 0 < Value(mod.n) < mod.R()
  {
  }

  // ---------- setting up a modulus ----------

  /** x modulo n, as a name the loops can carry. */
  function Rem(x: int, n: int): (r: int)
    requires n > 0
    ensures 0 <= r < n
  {
    x % n
  }

  lemma DoubledRemainder(e: nat, n: int)
    requires n > 0
    ensures var v := Rem(Pow(2, e), n);
            Rem(Pow(2, e + 1), n) == if 2 * v >= n then 2 * v - n else 2 * v
  {
    hide Multiple;
    var p, v := Pow(2, e), Rem(Pow(2, e), n);
    var r := if 2 * v >= n then 2 * v - n else 2 * v;
    CongMod(p, n);
    CongScale(v, p, 2, n);
    MultipleOf(n, 1);
    if 2 * v >= n { MultipleSum(n, v * 2 - p * 2, n); }
    CongIsMod(r, 2 * p, n);
  }

  /** v = 2 v, less n when that is not below n. */
  method DoubleOnce(v: array<Limb>, n: BigUint)
    requires v.Length == LIMBS && Value(v[..]) < Value(n) < Weight(64)
    modifies v
    ensures var d := 2 * old(Value(v[..])); Value(v[..]) == if d >= Value(n) then d - Value(n) else d
  {
    hide Value, Weight;
    Capacity();
    var doubled := v[..];
    WrappingAddAssign(v, doubled);
    var c := Compare(v[..], n);
    if c >= 0 {
      WrappingSubAssign(v, n);
    }
  }

  /** 2^e modulo n, by e conditional doublings. */
  method Pow2Mod(e: nat, n: BigUint) returns (r: BigUint)
    requires 0 < Value(n) < Weight(64)
    ensures Value(r) == Rem(Pow(2, e), Value(n))
  {
    hide Value, Weight, Pow, Rem;
    SmallValues();
    if n == ONE {
      RemOne(Pow(2, e));
      return ZERO;
    }
    if Value(n) == 1 { ValueInjective(n, ONE); }
    var v := new Limb[LIMBS](i requires 0 <= i < LIMBS => ONE[i]);
    assert v[..] == ONE;
    FirstRem(Value(n));
    for i := 0 to e
      invariant Value(v[..]) == Rem(Pow(2, i), Value(n))
    {
      DoubledRemainder(i, Value(n));
      DoubleOnce(v, n);
    }
    r := v[..];
  }

  lemma RemOne(x: int)
    ensures Rem(x, 1) == 0
  {
  }

  lemma FirstRem(n: int)
    requires n > 1
    ensures Rem(Pow(2, 0), n) == 1
  {
  }

  lemma Capacity()
    ensures 2 * Weight(64) <= Weight(LIMBS)
  {
    WeightStep(64);
    WeightStep(65);
    MulMono(Weight(64), 2, BASE);
    MulAtLeast(Weight(65), BASE);
  }

  lemma ParityIsLow(s: seq<Limb>)
    requires |s| > 0
    ensures Value(s) % 2 == s[0] % 2
  {
    var h := Value(s[1..]);
    assert Value(s) == s[0] + 2 * (0x8000_0000_0000_0000 * h);
  }

  lemma LimbCount(x: nat, len: nat, limbs: nat)
    requires IsBitLength(x, len) && limbs == (len + 63) / 64
    ensures x < Weight(limbs) && (limbs > 0 ==> Weight(limbs - 1) <= x)
  {
    hide Pow, Weight;
    WeightIsPow2(limbs);
    PowMonotone(2, len, 64 * limbs);
    if limbs > 0 {
      WeightIsPow2(limbs - 1);
      PowMonotone(2, 64 * (limbs - 1), len - 1);
    }
  }

  lemma BitLengthFits(x: nat, len: nat, e: nat)
    requires IsBitLength(x, len)
    ensures len <= e <==> x < Pow(2, e)
  {
    hide Pow;
    if len <= e { PowMonotone(2, len, e); } else { PowMonotone(2, e, len - 1); }
  }

  /** Accepts exactly the odd numbers of at most 4096 bits, and scopes the loops to the
      limbs the number needs. */
  method NewModulus(n: BigUint) returns (r: Result<Modulus>)
    ensures r.Ok? <==> Value(n) % 2 == 1 && Value(n) < Pow(2, 4096)
    ensures r.Ok? ==> r.value.Valid() && r.value.n == n && Weight(r.value.limbs - 1) <= Value(n)
  {
    hide Value, Weight, Pow, Multiple;
    var len := BitLength(n);
    ParityIsLow(n);
    BitLengthFits(Value(n), len, MAX_BITS);
    if n[0] % 2 == 0 || len > MAX_BITS {
      return InvalidModulus;
    }
    var limbs := (len + 63) / 64;
    LimbCount(Value(n), len, limbs);
    assert len > 0 by { ZeroLength(Value(n), len); }
    WeightMonotone(limbs, 64);
    var n0inv := MontN0inv(n[0]);
    assert Value(n) < Weight(64);
    var rModN := Pow2Mod(64 * limbs, n);
    var r2ModN := Pow2Mod(2 * (64 * limbs), n);
    WeightIsPow2(limbs);
    PowAdd(2, 64 * limbs, 64 * limbs);
    r := Ok(Modulus(n, limbs, n0inv, rModN, r2ModN));
  }

  lemma ZeroLength(x: nat, len: nat)
    requires IsBitLength(x, len) && x > 0
    ensures len > 0
  {
  }

  // ---------- exponentiation ----------

  /** Bit i of a number, false beyond its capacity. */
  predicate Bit(e: seq<Limb>, i: nat) {
    i < 64 * |e| && (e[i / 64] / Pow(2, i % 64)) % 2 == 1
  }

  /** base^exponent modulo n, most significant bit first. */
  method PowMod(mod: Modulus, base: BigUint, exponent: BigUint) returns (r: BigUint)
    requires mod.Valid() && Value(base) < mod.R()
    ensures Value(r) == Pow(Value(base), Value(exponent)) % Value(mod.n)
  {
    hide Value, Weight, Multiple, Modulus.R, Modulus.Valid, Cong, Pow, Bit;
    var baseMont := MontgomeryEncode(mod, base);
    var result := mod.rModN;
    var i := BitLength(exponent);
    ghost var b, e := Value(base), Value(exponent);
    ModulusBelowRadix(mod);
    ResidueBounds(mod);
    StartExponent(mod, b, e, i);
    while i > 0
      invariant 0 <= i <= 64 * LIMBS && Value(result) < Value(mod.n)
      invariant Cong(Value(result), Pow(b, e / Pow(2, i)) * mod.R(), Value(mod.n))
    {
      i := i - 1;
      ghost var p := Pow(b, e / Pow(2, i + 1));
      BelowProduct(Value(result), Value(result), Value(mod.n), mod.R());
      var square := MontMul(mod, result, result);
      MontFormProduct(mod, Value(result), Value(result), Value(square), p, p);
      result := square;
      NextBit(exponent, i);
      NextPower(b, e, i, Bit(exponent, i));
      if Bit(exponent, i) {
        BelowProduct(Value(square), Value(baseMont), Value(mod.n), mod.R());
        result := MontMul(mod, square, baseMont);
        MontFormProduct(mod, Value(square), Value(baseMont), Value(result), p * p, b);
      }
    }
    FullExponent(e);
    r := MontgomeryDecode(mod, result, Pow(b, e));
  }

  lemma FullExponent(e: nat)
    ensures e / Pow(2, 0) == e
  {
  }

  /** Nothing of the exponent is left above its length. */
  lemma StartExponent(mod: Modulus, b: nat, e: nat, len: nat)
    requires IsBitLength(e, len) && mod.Valid()
    ensures e / Pow(2, len) == 0 && Pow(b, e / Pow(2, len)) * mod.R() == mod.R()
  {
    assert e / Pow(2, len) == 0 by { QuotientIs(e, Pow(2, len), 0, e); }
  }

  /** The exponent above bit i is twice the exponent above bit i + 1, plus the bit. */
  lemma NextBit(e: seq<Limb>, i: nat)
    requires i < 64 * |e|
    ensures Value(e) / Pow(2, i) == 2 * (Value(e) / Pow(2, i + 1)) + (if Bit(e, i) then 1 else 0)
  {
    hide Value, Weight, Pow;
    ShiftedLimb(e, i);
    HalfQuotient(Value(e), Pow(2, i));
    assert Pow(2, i + 1) == 2 * Pow(2, i) by { PowAdd(2, 1, i); OnePower(); }
  }

  lemma FirstPower(b: nat)
    ensures Pow(b, 1) == b
  {
    assert Pow(b, 0) == 1;
  }

  lemma OnePower()
    ensures Pow(2, 1) == 2
  {
  }

  lemma HalfQuotient(x: nat, p: int)
    requires p > 0
    ensures (x / p) / 2 == x / (2 * p)
  {
    var q := x / p;
    assert x == p * q + x % p;
    assert p * q == (2 * p) * (q / 2) + p * (q % 2) by {
      assert q == 2 * (q / 2) + q % 2;
      assert p * (2 * (q / 2)) == (2 * p) * (q / 2);
    }
    assert p * (q % 2) <= p by { MulMono(p, q % 2, 1); }
    QuotientIs(x, 2 * p, q / 2, p * (q % 2) + x % p);
  }

  /** Shifting right by i bits leaves a number of the parity of the shifted limb. */
  lemma ShiftedLimb(e: seq<Limb>, i: nat)
    requires i < 64 * |e|
    ensures (Value(e) / Pow(2, i)) % 2 == (e[i / 64] / Pow(2, i % 64)) % 2
  {
    hide Value, Weight, Pow;
    var j, s := i / 64, i % 64;
    var w, p, limb := Weight(j), Pow(2, s), e[j];
    ValueSplit(e, j);
    ValueBound(e[..j]);
    ValueHead(e[j..]);
    WeightIsPow2(j);
    PowAdd(2, 64 * j, s);
    PowAdd(2, s, 64 - s);
    Base2();
    PowAdd(2, 1, 63 - s);
    OnePower();
    ShiftQuotient(Value(e), Value(e[..j]), w, p, limb, Pow(2, 63 - s), Value(e[j..][1..]));
  }

  lemma BaseSplits(p: int, half: int, high: int, a: int)
    requires p * (2 * half) == BASE
    ensures p * (a + 2 * (half * high)) == p * a + BASE * high
  {
    assert p * (2 * (half * high)) == (p * (2 * half)) * high;
  }

  lemma Regrouped(w: int, c: int, p: int, q: int)
    ensures w * (c + p * q) == w * c + (w * p) * q
  {
    assert w * (p * q) == (w * p) * q;
  }

  lemma ShiftQuotient(x: nat, low: nat, w: nat, p: nat, limb: nat, half: nat, high: nat)
    requires p > 0 && low < w && p * (2 * half) == BASE && x == low + w * (limb + BASE * high)
    ensures (x / (w * p)) % 2 == (limb / p) % 2
  {
    var a, c, t := limb / p, limb % p, half * high;
    assert limb == p * a + c;
    BaseSplits(p, half, high, a);
    Regrouped(w, c, p, a + 2 * t);
    assert limb + BASE * high == c + p * (a + 2 * t);
    assert low + w * c < w * p by { MulGap(w, c, p); }
    QuotientIs(x, w * p, a + 2 * t, low + w * c);
    SameParity(a, t);
  }

  lemma SameParity(a: int, t: int)
    ensures (a + 2 * t) % 2 == a % 2
  {
  }

  lemma NextPower(b: nat, e: nat, i: nat, bit: bool)
    requires e / Pow(2, i) == 2 * (e / Pow(2, i + 1)) + (if bit then 1 else 0)
    ensures var p := Pow(b, e / Pow(2, i + 1));
            Pow(b, e / Pow(2, i)) == if bit then (p * p) * b else p * p
  {
    hide Pow;
    var h := e / Pow(2, i + 1);
    PowAdd(b, h, h);
    if bit { PowAdd(b, h + h, 1); FirstPower(b); }
  }

  // ---------- modular addition ----------

  lemma SumRem(x: int, n: int, q: int, r: int)
    requires 0 <= r < n && -1 <= q <= 1 && x == (if q == 1 then n else if q == -1 then -n else 0) + r
    ensures r == Rem(x, n)
  {
    RemainderIs(x, n, q, r);
  }

  /** (a + b) modulo m. */
  method AddMod(a: BigUint, b: BigUint, m: BigUint) returns (r: BigUint)
    requires Value(a) < Value(m) && Value(b) < Value(m) < Weight(64)
    ensures Value(r) == Rem(Value(a) + Value(b), Value(m))
  {
    hide Value, Weight, Rem;
    Capacity();
    var v := new Limb[LIMBS](i requires 0 <= i < LIMBS => a[i]);
    assert v[..] == a;
    WrappingAddAssign(v, b);
    var c := Compare(v[..], m);
    if c >= 0 {
      WrappingSubAssign(v, m);
    }
    r := v[..];
    SumRem(Value(a) + Value(b), Value(m), if c >= 0 then 1 else 0, Value(r));
  }

  /** (a - b) modulo m. */
  method SubMod(a: BigUint, b: BigUint, m: BigUint) returns (r: BigUint)
    requires Value(a) < Value(m) && Value(b) < Value(m) < Weight(64)
    ensures Value(r) == Rem(Value(a) - Value(b), Value(m))
  {
    hide Value, Weight, Rem;
    Capacity();
    var v := new Limb[LIMBS](i requires 0 <= i < LIMBS => a[i]);
    assert v[..] == a;
    var c := Compare(a, b);
    if c >= 0 {
      WrappingSubAssign(v, b);
    } else {
      WrappingAddAssign(v, m);
      WrappingSubAssign(v, b);
    }
    r := v[..];
    SumRem(Value(a) - Value(b), Value(m), if c >= 0 then 0 else -1, Value(r));
  }
}
