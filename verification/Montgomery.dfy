/** Multiply-accumulate, Montgomery reduction and modular exponentiation over limbs
    (crates/otter-crypto/src/bigint.rs). */
module Montgomery {
  import opened Congruence
  import opened Limbs

  const MAX_BITS: nat := 4096
  const LIMBS: nat := 66
  const WIDE_LIMBS: nat := 2 * LIMBS + 2

  /** A fixed-capacity integer: little-endian limbs, unused ones zero. */
  type BigUint = s: seq<Limb> | |s| == LIMBS witness seq(LIMBS, _ => 0)

  // ---------- powers of two ----------

  lemma Base2()
    ensures Pow(2, 64) == BASE
  {
    hide Pow;
    Pow8();
    PowAdd(2, 8, 8);
    PowAdd(2, 16, 16);
    PowAdd(2, 32, 32);
  }

  lemma Pow8()
    ensures Pow(2, 8) == 256
  {
  }

  lemma WeightIsPow2(k: nat)
    ensures Weight(k) == Pow(2, 64 * k)
  {
    Base2();
    PowPow(2, 64, k);
  }

  lemma WeightAdd(i: nat, j: nat)
    ensures Weight(i + j) == Weight(i) * Weight(j)
  {
    PowAdd(BASE, i, j);
  }

  lemma WeightMonotone(i: nat, j: nat)
    requires i <= j
    ensures Weight(i) <= Weight(j)
  {
    PowMonotone(BASE, i, j);
  }

  // ---------- multiply and accumulate ----------

  lemma ProductBound(x: int, y: int, a: int, b: int)
    requires 0 <= x < a && 0 <= y < b
    ensures x * y < a * b && 0 <= x * y
  {
    assert x * y <= x * b by { assert x * (b - y) >= 0; }
    assert x * b < a * b by { assert (a - x) * b > 0; }
    assert x * y >= 0;
  }

  lemma SquareBound(x: int, y: int, c: int)
    requires 0 <= x <= c && 0 <= y <= c
    ensures 0 <= x * y <= c * c
  {
    assert x * (c - y) >= 0 && (c - x) * c >= 0 && x * y >= 0;
    assert x * (c - y) == x * c - x * y && (c - x) * c == c * c - x * c;
  }

  lemma ColumnFits(o: Limb, n: Limb, m: Limb, carry: int)
    requires 0 <= carry < BASE
    ensures 0 <= o + n * m + carry < BASE * BASE
  {
    SquareBound(n, m, BASE - 1);
  }

  /** The column step of MacAdd: idx = offset + j. */
  lemma MacColumn(low: int, low0: int, woff: int, wj: int, vn: int, nj: int, m: int, o: int, carry: int, sum: int)
    requires low + (woff * wj) * carry == low0 + woff * (vn * m)
    requires sum == o + nj * m + carry
    ensures low + (woff * wj) * sum == low0 + (woff * wj) * o + woff * ((vn + wj * nj) * m)
  {
    var w := woff * wj;
    assert w * sum == w * o + w * (nj * m) + w * carry;
    assert (vn + wj * nj) * m == vn * m + wj * (nj * m) by { assert (wj * nj) * m == wj * (nj * m); }
    assert woff * (vn * m + wj * (nj * m)) == woff * (vn * m) + woff * (wj * (nj * m));
    assert woff * (wj * (nj * m)) == w * (nj * m);
  }

  lemma EmptyValue(s: seq<Limb>)
    requires s == []
    ensures Value(s) == 0
  {
  }

  /** out[offset..limit] += n * m, the carry running on past n. With the sum below the
      capacity every index stays inside the limit. */
  method MacAdd(out: array<Limb>, limit: nat, offset: nat, n: seq<Limb>, m: Limb)
    requires offset + |n| <= limit <= out.Length
    requires Value(out[..limit]) + Weight(offset) * (Value(n) * m) < Weight(limit)
    modifies out
    ensures Value(out[..limit]) == old(Value(out[..limit])) + Weight(offset) * (Value(n) * m)
    ensures out[..offset] == old(out[..offset]) && out[limit..] == old(out[limit..])
  {
    hide Value, Weight;
    ghost var o := out[..];
    assert o[..limit] == out[..limit];
    EmptyValue(n[..0]);
    var carry: int := 0;
    var j := 0;
    while j < |n|
      invariant 0 <= j <= |n| && 0 <= carry < BASE
      invariant out[offset + j..] == o[offset + j..] && out[..offset] == o[..offset]
      invariant Value(out[..offset + j]) + Weight(offset + j) * carry
                == Value(o[..offset + j]) + Weight(offset) * (Value(n[..j]) * m)
    {
      var idx := offset + j;
      assert out[idx] == o[idx];
      var sum: int := out[idx] + n[j] * m + carry;
      ColumnFits(o[idx], n[j], m, carry);
      WeightAdd(offset, j);
      MacColumn(Value(out[..idx]), Value(o[..idx]), Weight(offset), Weight(j), Value(n[..j]), n[j], m, o[idx],
                carry, sum);
      ValueNext(n, j);
      carry := WriteColumn(out, o, idx, sum);
      j := j + 1;
    }
    assert n[..j] == n;
    PropagateCarry(out, o, limit, offset + |n|, carry, Weight(offset) * (Value(n) * m));
    assert out[..offset] == out[..offset + |n|][..offset];
  }

  /** The carry walks up from idx for as long as there is one. */
  method PropagateCarry(out: array<Limb>, ghost o: seq<Limb>, limit: nat, start: nat, firstCarry: int, ghost added: int)
    requires start <= limit <= out.Length == |o| && 0 <= firstCarry < BASE
    requires out[start..] == o[start..]
    requires Value(out[..start]) + Weight(start) * firstCarry == Value(o[..start]) + added
    requires Value(o[..limit]) + added < Weight(limit)
    modifies out
    ensures Value(out[..limit]) == Value(o[..limit]) + added
    ensures out[..start] == old(out[..start]) && out[limit..] == o[limit..]
  {
    hide Value, Weight;
    var carry, idx := firstCarry, start;
    while carry != 0
      invariant start <= idx <= limit && 0 <= carry < BASE
      invariant out[idx..] == o[idx..] && out[..start] == old(out[..start])
      invariant Value(out[..idx]) + Weight(idx) * carry == Value(o[..idx]) + added
      decreases limit - idx
    {
      MulAtLeast(Weight(idx), carry);
      assert idx < limit;
      assert out[idx] == o[idx];
      var sum: int := out[idx] + carry;
      assert Weight(idx) * sum == Weight(idx) * o[idx] + Weight(idx) * carry;
      carry := WriteColumn(out, o, idx, sum);
      assert out[..start] == out[..idx][..start];
      idx := idx + 1;
    }
    ValueSplit(out[..limit], idx);
    ValueSplit(o[..limit], idx);
    assert out[..limit][..idx] == out[..idx] && o[..limit][..idx] == o[..idx];
    assert out[..limit][idx..] == out[idx..][..limit - idx] == o[..limit][idx..];
    assert out[limit..] == out[idx..][limit - idx..] == o[idx..][limit - idx..] == o[limit..];
  }

  /** Writes the low limb of a column and returns its carry. */
  method WriteColumn(out: array<Limb>, ghost o: seq<Limb>, idx: nat, sum: int) returns (carry: int)
    requires idx < out.Length == |o| && out[idx..] == o[idx..] && 0 <= sum < BASE * BASE
    modifies out
    ensures carry == sum / BASE && 0 <= carry < BASE
    ensures out[idx + 1..] == o[idx + 1..] && out[..idx] == old(out[..idx])
    ensures Value(out[..idx + 1]) + Weight(idx + 1) * carry == old(Value(out[..idx])) + Weight(idx) * sum
    ensures Value(o[..idx + 1]) == Value(o[..idx]) + Weight(idx) * o[idx]
  {
    out[idx] := sum % BASE;
    carry := sum / BASE;
    ValueNext(out[..], idx);
    ValueNext(o, idx);
    assert out[..][..idx + 1] == out[..idx + 1] && out[..][..idx] == out[..idx];
    CarryColumn(Weight(idx), sum);
    WeightStep(idx);
    assert out[idx + 1..] == o[idx + 1..] by { assert o[idx + 1..] == o[idx..][1..]; }
  }

  /** out[..limit] = a * b, schoolbook. */
  method MulWide(a: seq<Limb>, b: seq<Limb>, out: array<Limb>, limit: nat)
    requires limit == |a| + |b| <= out.Length
    modifies out
    ensures Value(out[..limit]) == Value(a) * Value(b)
    ensures out[limit..] == old(out[limit..])
  {
    ghost var o := out[..];
    forall i | 0 <= i < limit {
      out[i] := 0;
    }
    assert out[limit..] == o[limit..];
    ZeroValue(out[..limit]);
    assert a[..0] == [];
    for i := 0 to |a|
      invariant Value(out[..limit]) == Value(a[..i]) * Value(b)
      invariant out[limit..] == o[limit..]
    {
      ValueNext(a, i);
      PartialProduct(a, b, i);
      MacAdd(out, limit, i, b, a[i]);
    }
    assert a[..|a|] == a;
  }

  lemma PartialProduct(a: seq<Limb>, b: seq<Limb>, i: nat)
    requires i < |a|
    ensures Value(a[..i + 1]) * Value(b) == Value(a[..i]) * Value(b) + Weight(i) * (Value(b) * a[i])
    ensures Value(a[..i + 1]) * Value(b) < Weight(|a| + |b|)
  {
    hide Value, Weight;
    ValueNext(a, i);
    OnePartial(Value(a[..i]), Value(b), Weight(i), a[i]);
    ValueBound(a[..i + 1]);
    ValueBound(b);
    WeightMonotone(i + 1, |a|);
    WeightAdd(|a|, |b|);
    ProductBound(Value(a[..i + 1]), Value(b), Weight(|a|), Weight(|b|));
  }

  lemma OnePartial(x: int, y: int, w: int, c: int)
    ensures (x + w * c) * y == x * y + w * (y * c)
  {
    assert (w * c) * y == w * (y * c);
  }

  // ---------- the reduction constant ----------

  /** The precision, as a power of two, after i Newton steps. */
  function Precision(i: nat): (p: int)
    requires i <= 5
    ensures p > 0
  {
    if i == 0 then 0x8 else if i == 1 then 0x40 else if i == 2 then 0x1000
    else if i == 3 then 0x100_0000 else if i == 4 then 0x1_0000_0000_0000 else BASE
  }

  /** A Newton step doubles the precision, up to the limb size. */
  lemma PrecisionDoubles(i: nat)
    requires i < 5
    ensures Multiple(Precision(i + 1), Precision(i) * Precision(i)) && Multiple(Precision(i + 1), BASE)
  {
    if i == 4 {
      MultipleOf(BASE, 0x1_0000_0000);
      MultipleOf(BASE, 1);
    } else {
      MultipleOf(Precision(i + 1), 1);
      MultipleOf(Precision(i + 1), BASE / Precision(i + 1));
    }
  }

  /** x' = x(2 - n0 x), all modulo BASE: the error of n0 x' is minus the square of that of n0 x. */
  lemma NewtonStep(n0: int, x: int, inner: int, t: int, x': int)
    requires Cong(inner, n0 * x, BASE) && Cong(t, 2 - inner, BASE) && Cong(x', x * t, BASE)
    ensures Multiple(BASE, (n0 * x' - 1) + (n0 * x - 1) * (n0 * x - 1))
  {
    hide Multiple;
    var e := n0 * x;
    CongScale(x', x * t, n0, BASE);
    CongScale(t, 2 - inner, e, BASE);
    CongScale(inner, e, -e, BASE);
    NewtonTerms(n0, x, inner, t, x');
    MultipleSum(BASE, n0 * x' - e * t, e * t - 2 * e + inner * e);
    MultipleSum(BASE, n0 * x' - 2 * e + inner * e, e * e - inner * e);
  }

  lemma NewtonTerms(n0: int, x: int, inner: int, t: int, x': int)
    ensures x' * n0 - (x * t) * n0 == n0 * x' - (n0 * x) * t
    ensures t * (n0 * x) - (2 - inner) * (n0 * x) == (n0 * x) * t - 2 * (n0 * x) + inner * (n0 * x)
    ensures inner * (-(n0 * x)) - (n0 * x) * (-(n0 * x)) == (n0 * x) * (n0 * x) - inner * (n0 * x)
    ensures (n0 * x - 1) * (n0 * x - 1) == (n0 * x) * (n0 * x) - 2 * (n0 * x) + 1
  {
    Distribute(n0 * x, inner, t);
    assert (x * t) * n0 == (n0 * x) * t;
  }

  lemma Distribute(e: int, inner: int, t: int)
    ensures (2 - inner) * e == 2 * e - inner * e && inner * (-e) == -(inner * e) && e * (-e) == -(e * e)
    ensures (e - 1) * (e - 1) == e * e - 2 * e + 1
  {
  }

  lemma NewtonPrecision(i: nat, e: int, e': int)
    requires i < 5 && Multiple(Precision(i), e) && Multiple(BASE, e' + e * e)
    ensures Multiple(Precision(i + 1), e')
  {
    var p, q := Precision(i), Precision(i + 1);
    PrecisionDoubles(i);
    var k :| Times(p, k) == e;
    assert e * e == (p * p) * (k * k) by { assert (p * k) * (p * k) == (p * p) * (k * k); }
    MultipleScaled(q, p * p, k * k);
    MultipleTransitive(q, BASE, e' + e * e);
    MultipleSum(q, e' + e * e, e * e);
  }

  lemma EvenProduct(j: int)
    ensures (2 * j) * (2 * j + 1) == 2 * (j * (2 * j + 1))
    ensures (2 * j + 1) * (2 * j + 2) == 2 * ((2 * j + 1) * (j + 1))
  {
  }

  lemma ConsecutiveProduct(k: int) returns (h: int)
    ensures k * (k + 1) == 2 * h
  {
    var j := k / 2;
    EvenProduct(j);
    h := if k % 2 == 0 then j * (2 * j + 1) else (2 * j + 1) * (j + 1);
  }

  lemma OddSquare(n: int)
    requires n % 2 == 1
    ensures Multiple(8, n * n - 1)
  {
    var k := n / 2;
    var h := ConsecutiveProduct(k);
    assert (2 * k + 1) * (2 * k + 1) == 4 * (k * (k + 1)) + 1;
    MultipleOf(8, h);
  }

  function Reduce(x: int): (r: int)
    ensures 0 <= r < BASE
  {
    x % BASE
  }

  lemma ReduceCong(x: int)
    ensures Cong(Reduce(x), x, BASE)
  {
    CongMod(x, BASE);
  }

  /** One iteration, in wrapping 64-bit arithmetic. */
  function NewtonNext(n0: int, x: int): int { Reduce(x * Reduce(2 - Reduce(n0 * x))) }

  lemma NewtonRound(i: nat, n0: int, x: int)
    requires i < 5 && Multiple(Precision(i), n0 * x - 1)
    ensures Multiple(Precision(i + 1), n0 * NewtonNext(n0, x) - 1)
  {
    hide Reduce;
    var inner := Reduce(n0 * x);
    var t := Reduce(2 - inner);
    ReduceCong(n0 * x);
    ReduceCong(2 - inner);
    ReduceCong(x * t);
    NewtonStep(n0, x, inner, t, NewtonNext(n0, x));
    NewtonPrecision(i, n0 * x - 1, n0 * NewtonNext(n0, x) - 1);
  }

  lemma NegatedInverse(n0: int, x: int)
    requires Multiple(BASE, n0 * x - 1)
    ensures Multiple(BASE, n0 * Reduce(-x) + 1)
  {
    hide Reduce;
    var r := Reduce(-x);
    ReduceCong(-x);
    CongScale(r, -x, n0, BASE);
    assert (r - (-x)) * n0 == n0 * r + n0 * x;
    MultipleSum(BASE, n0 * r + n0 * x, n0 * x - 1);
  }

  /** Minus the inverse of an odd limb modulo BASE, by five Newton steps. */
  method MontN0inv(n0: Limb) returns (r: Limb)
    requires n0 % 2 == 1
    ensures Multiple(BASE, n0 * r + 1)
  {
    hide Reduce, NewtonNext, Precision;
    var x: int := n0;
    OddSquare(n0);
    assert Multiple(Precision(0), n0 * x - 1) by { FirstPrecision(); }
    for i := 0 to 5
      invariant Multiple(Precision(i), n0 * x - 1)
    {
      NewtonRound(i, n0, x);
      x := NewtonNext(n0, x);
    }
    assert Multiple(BASE, n0 * x - 1) by { FirstPrecision(); }
    NegatedInverse(n0, x);
    r := Reduce(-x);
  }

  lemma FirstPrecision()
    ensures Precision(0) == 8 && Precision(5) == BASE
  {
  }
}
