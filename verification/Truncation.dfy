/** The digest as an integer of the order's size: the shift of crates/otter-crypto/src/bigint.rs
    and `truncate_hash` of crates/otter-crypto/src/ecc.rs. */
module Truncation {
  import opened Bytes
  import opened Congruence
  import opened Endian
  import opened Limbs
  import opened LimbBytes
  import Montgomery

  // ---------- the shift ----------

  /** Limb i of y shifted right: its own high part below the low part of the next limb. */
  function ShiftedLimb(y: seq<Limb>, p: int, q: int, i: nat): Limb
    requires p > 0 && q > 0 && p * q == BASE && i < |y|
  {
    PartsFit(y[i], p, q, if i + 1 < |y| then y[i + 1] else 0);
    y[i] / p + if i + 1 < |y| then (y[i + 1] * q) % BASE else 0
  }

  /** A limb's top part is below q, and what comes from the next limb is a multiple of q. */
  lemma PartsFit(x: nat, p: int, q: int, next: nat)
    requires p > 0 && q > 0 && p * q == BASE && x < BASE
    ensures 0 <= x / p < q && (next * q) % BASE == q * (next % p) <= BASE - q
  {
    var a, c := next / p, next % p;
    assert next == p * a + c;
    assert next * q == BASE * a + q * c by {
      assert next * q == (p * a) * q + c * q;
      assert (p * a) * q == (p * q) * a;
    }
    MulGap(q, c, p);
    assert q * p == BASE;
    RemainderIs(next * q, BASE, a, q * c);
    assert x == p * (x / p) + x % p;
    if x / p >= q { MulMono(p, q, x / p); }
  }

  function Shifted(y: seq<Limb>, p: int, q: int): (r: seq<Limb>)
    requires p > 0 && q > 0 && p * q == BASE
    ensures |r| == |y|
  {
    seq(|y|, i requires 0 <= i < |y| => ShiftedLimb(y, p, q, i))
  }

  lemma {:induction false} ShiftedDivides(y: seq<Limb>, p: int, q: int)
    requires p > 0 && q > 0 && p * q == BASE
    ensures Value(Shifted(y, p, q)) == Value(y) / p
  {
    hide ShiftedLimb;
    if y != [] {
      var rest := y[1..];
      ShiftedDivides(rest, p, q);
      var r := Shifted(y, p, q);
      assert r[1..] == Shifted(rest, p, q) by { LaterLimbs(y, p, q); }
      FirstLimb(y, p, q);
    }
  }

  lemma LaterLimbs(y: seq<Limb>, p: int, q: int)
    requires p > 0 && q > 0 && p * q == BASE && y != []
    ensures Shifted(y, p, q)[1..] == Shifted(y[1..], p, q)
  {
  }

  lemma FirstLimb(y: seq<Limb>, p: int, q: int)
    requires p > 0 && q > 0 && p * q == BASE && y != []
    ensures ShiftedLimb(y, p, q, 0) + BASE * (Value(y[1..]) / p) == Value(y) / p
  {
    hide Value;
    var rest := y[1..];
    var v, next: nat := Value(rest), if |y| > 1 then y[1] else 0;
    PartsFit(y[0], p, q, next);
    if |y| > 1 {
      assert v == y[1] + BASE * Value(rest[1..]) by { ValueHead(rest); }
      SameRemainder(v, next, p, q, Value(rest[1..]));
    } else {
      assert v == 0 by { NoLimbs(rest); }
    }
    ValueHead(y);
    Columns(y[0], v, p, q);
  }

  lemma Columns(x: nat, v: nat, p: int, q: int)
    requires p > 0 && q > 0 && p * q == BASE && x < BASE
    ensures (x + BASE * v) / p == x / p + q * (v % p) + BASE * (v / p)
  {
    var a, c, u := v / p, v % p, x / p;
    Product3(p, q, v);
    Product3(q, p, a);
    assert q * v == q * (p * a) + q * c by { assert v == p * a + c; }
    assert q * p == BASE;
    Sum2(p, u, q * v);
    QuotientIs(x + BASE * v, p, u + q * v, x % p);
  }

  lemma Product3(p: int, q: int, v: int)
    ensures (p * q) * v == p * (q * v)
  {
  }

  lemma Sum2(p: int, u: int, t: int)
    ensures p * (u + t) == p * u + p * t
  {
  }

  lemma NoLimbs(s: seq<Limb>)
    requires s == []
    ensures Value(s) == 0
  {
  }

  lemma SameRemainder(v: nat, next: nat, p: int, q: int, more: nat)
    requires p > 0 && p * q == BASE && v == next + BASE * more
    ensures v % p == next % p
  {
    assert (p * q) * more == p * (q * more);
    assert next == p * (next / p) + next % p;
    assert p * (next / p + q * more) == p * (next / p) + p * (q * more);
    RemainderIs(v, p, next / p + q * more, next % p);
  }

  lemma ShiftParts(bits: nat)
    ensures var p, q := Pow(2, bits % 64), Pow(2, 64 - bits % 64);
            p * q == BASE && Pow(2, bits) == Weight(bits / 64) * p
  {
    hide Pow;
    Montgomery.Base2();
    PowAdd(2, bits % 64, 64 - bits % 64);
    PowPow(2, 64, bits / 64);
    PowAdd(2, 64 * (bits / 64), bits % 64);
  }

  /** Whole limbs and then single bits are dropped from the bottom: division by a power of two. */
  method ShiftRight(x: Montgomery.BigUint, bits: nat) returns (r: Montgomery.BigUint)
    ensures Value(r) == Value(x) / Pow(2, bits)
  {
    hide Value, Pow, Weight, ShiftedLimb;
    var limbShift, bitShift := bits / 64, bits % 64;
    var p, q := Pow(2, bitShift), Pow(2, 64 - bitShift);
    ShiftParts(bits);
    var out := new Limb[Montgomery.LIMBS](_ => 0);
    ghost var y := if limbShift < |x| then x[limbShift..] else [];
    var i := 0;
    while i < out.Length && i + limbShift < Montgomery.LIMBS
      invariant 0 <= i <= out.Length && i <= |y|
      invariant out[..i] == Shifted(y, p, q)[..i]
      invariant forall j :: i <= j < out.Length ==> out[j] == 0
    {
      var src := i + limbShift;
      var limb := x[src] / p;
      if bitShift > 0 && src + 1 < Montgomery.LIMBS {
        limb := limb + (x[src + 1] * q) % BASE;
      }
      LimbWritten(y, p, q, i, limb, bitShift);
      out[i] := limb;
      i := i + 1;
    }
    assert i == |y|;
    assert out[..] == Shifted(y, p, q) + out[i..];
    ValueConcat(Shifted(y, p, q), out[i..]);
    ZeroLimbs(out[i..]);
    ShiftedDivides(y, p, q);
    DropLimbs(x, limbShift, y, p);
    r := out[..];
  }

  lemma LimbWritten(y: seq<Limb>, p: int, q: int, i: nat, limb: int, bitShift: nat)
    requires p > 0 && q > 0 && p * q == BASE && i < |y| && p == Pow(2, bitShift)
    requires limb == y[i] / p + if bitShift > 0 && i + 1 < |y| then (y[i + 1] * q) % BASE else 0
    ensures limb == ShiftedLimb(y, p, q, i)
  {
    if i + 1 < |y| {
      PartsFit(y[i], p, q, y[i + 1]);
      if bitShift == 0 { assert y[i + 1] % 1 == 0; }
    }
  }

  /** Dropping whole limbs divides by their weight. */
  lemma DropLimbs(x: seq<Limb>, n: nat, y: seq<Limb>, p: int)
    requires y == (if n < |x| then x[n..] else []) && p > 0
    ensures Weight(n) * p > 0 && Value(y) / p == Value(x) / (Weight(n) * p)
  {
    hide Value, Weight;
    DivDiv(Value(x), Weight(n), p);
    if n < |x| {
      ValueSplit(x, n);
      ValueBound(x[..n]);
      QuotientIs(Value(x), Weight(n), Value(y), Value(x[..n]));
    } else {
      ValueBound(x);
      WeightGrows(|x|, n);
      QuotientIs(Value(x), Weight(n), 0, Value(x));
      NoLimbs(y);
    }
  }

  lemma WeightGrows(m: nat, n: nat)
    requires m <= n
    ensures Weight(m) <= Weight(n)
  {
    PowMonotone(BASE, m, n);
  }

  // ---------- the digest ----------

  lemma {:induction false} PrefixValue(b: ByteString, t: nat)
    requires t <= |b|
    ensures BeValue(b) / Pow(256, |b| - t) == BeValue(b[..t])
    decreases |b|
  {
    if t == |b| {
      assert b[..t] == b && Pow(256, 0) == 1;
    } else {
      var init, last := b[..|b| - 1], b[|b| - 1];
      PrefixValue(init, t);
      LastDigit(last, BeValue(init));
      DivDiv(BeValue(b), 256, Pow(256, |init| - t));
      assert init[..t] == b[..t];
    }
  }

  lemma EightBits()
    ensures Pow(2, 8) == 256
  {
  }

  /** Cutting whole bytes and then bits off the end is one division. */
  lemma CutIsDivision(digest: ByteString, orderBits: nat)
    requires 8 * |digest| > orderBits
    ensures var take := (orderBits + 7) / 8;
            BeValue(digest[..take]) / Pow(2, 8 * take - orderBits) == BeValue(digest) / Pow(2, 8 * |digest| - orderBits)
  {
    hide BeValue, Pow;
    var take := (orderBits + 7) / 8;
    var cut, shift := |digest| - take, 8 * take - orderBits;
    PrefixValue(digest, take);
    EightBits();
    PowPow(2, 8, cut);
    PowAdd(2, 8 * cut, shift);
    DivDiv(BeValue(digest), Pow(256, cut), Pow(2, shift));
  }

  /** The leftmost bits of the digest, as many as the order has (section 6.4.2 of FIPS 186-5). The
      order is itself a big integer, so its bits fit the limbs. */
  method TruncateHash(digest: ByteString, orderBits: nat) returns (r: Montgomery.BigUint)
    requires orderBits <= 4224
    ensures Value(r) == if 8 * |digest| <= orderBits then BeValue(digest)
                        else BeValue(digest) / Pow(2, 8 * |digest| - orderBits)
  {
    hide BeValue, Value, Pow;
    if 8 * |digest| <= orderBits {
      var whole := FromBeBytes(digest);
      return whole.value;
    }
    var take := (orderBits + 7) / 8;
    var v := FromBeBytes(digest[..take]);
    r := ShiftRight(v.value, 8 * take - orderBits);
    CutIsDivision(digest, orderBits);
  }
}
