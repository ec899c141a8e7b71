/** Big integers from and to big-endian bytes (crates/otter-crypto/src/bigint.rs). */
module LimbBytes {
  import opened Bytes
  import opened Options
  import opened Congruence
  import opened Endian
  import opened Limbs
  import M = ModularArithmetic
  import Montgomery

  // ---------- decoding ----------

  lemma {:induction false} BeConcat(a: ByteString, b: ByteString)
    ensures BeValue(a + b) == BeValue(a) * Pow(256, |b|) + BeValue(b)
    decreases |b|
  {
    if b == [] {
      assert a + b == a && Pow(256, 0) == 1;
    } else {
      var init := b[..|b| - 1];
      BeConcat(a, init);
      assert (a + b)[..|a + b| - 1] == a + init;
      ScaledProduct(256, BeValue(a), Pow(256, |init|));
      assert 256 * (BeValue(a) * Pow(256, |init|)) == BeValue(a) * (256 * Pow(256, |init|));
    }
  }

  lemma EightBytes(n: nat)
    requires n == 8
    ensures Pow(256, n) == BASE
  {
    hide Pow;
    Montgomery.Base2();
    Montgomery.Pow8();
    PowPow(2, 8, n);
  }

  /** The last eight bytes, or fewer at the front, are one limb. */
  lemma LastLimb(b: ByteString, k: nat)
    requires k <= |b| && k <= 8 && (k < 8 ==> k == |b|)
    ensures var rest, chunk := b[..|b| - k], b[|b| - k..];
            BeValue(chunk) < BASE && BeValue(b) == BeValue(chunk) + BASE * BeValue(rest)
  {
    hide Pow, BeValue;
    var rest, chunk := b[..|b| - k], b[|b| - k..];
    EightBytes(8);
    BeBound(chunk);
    PowMonotone(256, k, 8);
    assert b == rest + chunk;
    BeConcat(rest, chunk);
    if k < 8 { NoBytes(rest); }
  }

  lemma NoBytes(b: ByteString)
    requires b == []
    ensures BeValue(b) == 0
  {
  }

  /** Any number of leading zeros is accepted; only the capacity is checked. */
  method FromBeBytes(bytes: ByteString) returns (r: Option<Montgomery.BigUint>)
    ensures r.Some? <==> |bytes| <= 528
    ensures r.Some? ==> Value(r.value) == BeValue(bytes)
  {
    hide Value, Weight, BeValue;
    if |bytes| > Montgomery.LIMBS * 8 {
      return None;
    }
    var limbs: seq<Limb> := [];
    var rest := bytes;
    Nothing();
    while rest != []
      invariant |rest| <= 8 * (Montgomery.LIMBS - |limbs|) && |limbs| <= Montgomery.LIMBS
      invariant BeValue(bytes) == Value(limbs) + Weight(|limbs|) * BeValue(rest)
      decreases |rest|
    {
      var k := if |rest| < 8 then |rest| else 8;
      LastLimb(rest, k);
      var limb: Limb := BeValue(rest[|rest| - k..]);
      NextLimb(limbs, limb, BeValue(rest[..|rest| - k]));
      limbs := limbs + [limb];
      rest := rest[..|rest| - k];
    }
    NoBytes(rest);
    var zeros: seq<Limb> := seq(Montgomery.LIMBS - |limbs|, _ => 0);
    ValueConcat(limbs, zeros);
    ZeroLimbs(zeros);
    r := Some(limbs + zeros);
  }

  lemma Nothing()
    ensures Value([]) == 0 && Weight(0) == 1
  {
  }

  lemma NextLimb(limbs: seq<Limb>, limb: Limb, rest: nat)
    ensures Value(limbs) + Weight(|limbs|) * (limb + BASE * rest)
            == Value(limbs + [limb]) + Weight(|limbs + [limb]|) * rest
  {
    hide Value, Weight;
    ValueConcat(limbs, [limb]);
    ValueSingle(limb);
    WeightStep(|limbs|);
    Regroup(Weight(|limbs|), limb, rest);
  }

  lemma Regroup(w: int, x: int, rest: int)
    ensures w * (x + BASE * rest) == w * x + (BASE * w) * rest
  {
    assert w * (BASE * rest) == (BASE * w) * rest;
  }

  lemma {:induction false} ZeroLimbs(z: seq<Limb>)
    requires forall i :: 0 <= i < |z| ==> z[i] == 0
    ensures Value(z) == 0
  {
    if z != [] { ZeroLimbs(z[1..]); }
  }

  // ---------- encoding ----------

  /** Byte i of a number counted from its low end. */
  function Digit(x: nat, i: nat): Byte { x / Pow(256, i) % 256 }

  lemma DigitOfQuotient(x: nat, i: nat)
    ensures Digit(x / 256, i) == Digit(x, i + 1) && Digit(x, 0) == x % 256
  {
    DivDiv(x, 256, Pow(256, i));
    assert Pow(256, 0) == 1;
  }

  /** One byte more is the next byte up, in front. */
  lemma {:induction false} BeBytesFront(x: nat, n: nat)
    ensures BeBytes(x, n + 1) == [Digit(x, n)] + BeBytes(x, n)
    decreases n
  {
    hide Digit;
    if n == 0 {
      DigitOfQuotient(x, 0);
      assert BeBytes(x / 256, 0) == [];
    } else {
      BeBytesFront(x / 256, n - 1);
      DigitOfQuotient(x, n - 1);
      assert BeBytes(x, n + 1) == BeBytes(x / 256, n) + [x % 256];
      assert BeBytes(x, n) == BeBytes(x / 256, n - 1) + [x % 256];
    }
  }

  lemma WeightIsPow256(j: nat)
    ensures Weight(j) == Pow(256, 8 * j)
  {
    EightBytes(8);
    PowPow(256, 8, j);
  }

  /** Byte i of a big integer is a byte of one of its limbs. */
  lemma LimbDigit(e: seq<Limb>, i: nat)
    requires i / 8 < |e|
    ensures Digit(Value(e), i) == Digit(e[i / 8], i % 8)
  {
    hide Value, Weight, Pow;
    var j, s := i / 8, i % 8;
    ValueSplit(e, j);
    ValueBound(e[..j]);
    ValueHead(e[j..]);
    WeightIsPow256(j);
    PowAdd(256, 8 * j, s);
    assert 8 * j + s == i;
    LimbParts(s);
    DigitQuotient(Value(e), Value(e[..j]), Weight(j), Pow(256, s), Pow(256, i), e[j], Pow(256, 7 - s),
                  Value(e[j..][1..]));
  }

  lemma LimbParts(s: nat)
    requires s < 8
    ensures Pow(256, s) * (256 * Pow(256, 7 - s)) == BASE
  {
    hide Pow;
    EightBytes(8);
    PowAdd(256, s, 8 - s);
    PowAdd(256, 1, 7 - s);
    OneByte();
  }

  lemma OneByte()
    ensures Pow(256, 1) == 256
  {
  }

  lemma DigitQuotient(x: nat, low: nat, w: nat, p: nat, n: nat, limb: nat, more: nat, high: nat)
    requires p > 0 && low < w && p * (256 * more) == BASE && x == low + w * (limb + BASE * high)
    requires n > 0 && n == w * p
    ensures (x / n) % 256 == (limb / p) % 256
  {
    var a, c, t := limb / p, limb % p, more * high;
    assert limb == p * a + c;
    Splits(p, more, high, a);
    M.Regrouped(w, c, p, a + 256 * t);
    assert limb + BASE * high == c + p * (a + 256 * t);
    assert low + w * c < w * p by { MulGap(w, c, p); }
    QuotientIs(x, n, a + 256 * t, low + w * c);
    SameDigit(a, t);
  }

  lemma Splits(p: int, more: int, high: int, a: int)
    requires p * (256 * more) == BASE
    ensures p * (a + 256 * (more * high)) == p * a + BASE * high
  {
    assert p * (256 * (more * high)) == (p * (256 * more)) * high;
  }

  lemma SameDigit(a: int, t: int)
    ensures (a + 256 * t) % 256 == a % 256
  {
  }

  /** Exactly len bytes, or nothing when the number needs more. */
  method ToBeBytes(x: Montgomery.BigUint, len: nat) returns (r: Option<ByteString>)
    ensures r.Some? <==> Value(x) < Pow(256, len)
    ensures r.Some? ==> r.value == BeBytes(Value(x), len)
  {
    hide Value, Pow, BeBytes, Digit;
    var bits := M.BitLength(x);
    BitsAndBytes(Value(x), bits, len);
    if bits > len * 8 {
      return None;
    }
    var out: ByteString := [];
    NoneWritten(Value(x));
    for i := 0 to len
      invariant out == BeBytes(Value(x), i)
    {
      BeBytesFront(Value(x), i);
      if i / 8 < Montgomery.LIMBS { LimbDigit(x, i); } else { HighDigit(x, i); }
      out := [if i / 8 < Montgomery.LIMBS then Digit(x[i / 8], i % 8) else 0] + out;
    }
    r := Some(out);
  }

  lemma NoneWritten(x: nat)
    ensures BeBytes(x, 0) == []
  {
  }

  /** Nothing is above the capacity. */
  lemma HighDigit(x: Montgomery.BigUint, i: nat)
    requires i / 8 >= Montgomery.LIMBS
    ensures Digit(Value(x), i) == 0
  {
    hide Value, Pow;
    ValueBound(x);
    EightBytes(8);
    PowPow(256, 8, Montgomery.LIMBS);
    PowMonotone(256, 8 * Montgomery.LIMBS, i);
    QuotientIs(Value(x), Pow(256, i), 0, Value(x));
  }

  lemma BitsAndBytes(x: nat, bits: nat, len: nat)
    requires M.IsBitLength(x, bits)
    ensures bits <= len * 8 <==> x < Pow(256, len)
  {
    hide Pow;
    Montgomery.Pow8();
    PowPow(2, 8, len);
    if bits <= len * 8 { PowMonotone(2, bits, 8 * len); } else { PowMonotone(2, 8 * len, bits - 1); }
  }
}
