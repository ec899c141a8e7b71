/** Little-endian 64-bit limbs, their value, and the carry and borrow loops of
    crates/otter-crypto/src/bigint.rs. */
module Limbs {
  import opened Congruence

  const BASE: int := 0x1_0000_0000_0000_0000

  type Limb = x: int | 0 <= x < BASE

  /** The number limbs stand for, least significant first. */
  ghost function Value(s: seq<Limb>): nat {
    if s == [] then 0 else s[0] + BASE * Value(s[1..])
  }

  /** BASE to the power e. */
  ghost function Weight(e: nat): (p: nat)
    ensures p > 0
  {
    Pow(BASE, e)
  }

  lemma WeightStep(e: nat)
    ensures Weight(e + 1) == BASE * Weight(e)
  {
  }

  lemma {:induction false} ValueConcat(s: seq<Limb>, t: seq<Limb>)
    ensures Value(s + t) == Value(s) + Weight(|s|) * Value(t)
  {
    if s == [] {
      assert s + t == t;
    } else {
      ValueConcat(s[1..], t);
      assert (s + t)[1..] == s[1..] + t;
      assert BASE * (Weight(|s| - 1) * Value(t)) == (BASE * Weight(|s| - 1)) * Value(t);
    }
  }

  lemma {:induction false} ValueBound(s: seq<Limb>)
    ensures Value(s) < Weight(|s|)
  {
    if s != [] {
      ValueBound(s[1..]);
      assert Value(s[1..]) + 1 <= Weight(|s| - 1);
      assert BASE * (Value(s[1..]) + 1) <= BASE * Weight(|s| - 1);
    }
  }

  /** Splitting a number at limb i. */
  lemma ValueSplit(s: seq<Limb>, i: nat)
    requires i <= |s|
    ensures Value(s) == Value(s[..i]) + Weight(i) * Value(s[i..])
  {
    assert s[..i] + s[i..] == s;
    ValueConcat(s[..i], s[i..]);
  }

  lemma ValueHead(s: seq<Limb>)
    requires |s| > 0
    ensures Value(s) == s[0] + BASE * Value(s[1..]) && Value(s) % BASE == s[0]
  {
    RemainderIs(Value(s), BASE, Value(s[1..]), s[0]);
  }

  lemma ValueSingle(x: Limb)
    ensures Value([x]) == x
  {
    assert [x][1..] == [];
  }

  /** One limb more of a prefix. */
  lemma ValueNext(s: seq<Limb>, i: nat)
    requires i < |s|
    ensures Value(s[..i + 1]) == Value(s[..i]) + Weight(i) * s[i]
  {
    assert s[..i + 1] == s[..i] + [s[i]];
    ValueConcat(s[..i], [s[i]]);
    ValueSingle(s[i]);
  }

  predicate AllZero(s: seq<Limb>) { forall i :: 0 <= i < |s| ==> s[i] == 0 }

  lemma {:induction false} ZeroValue(s: seq<Limb>)
    ensures Value(s) == 0 <==> AllZero(s)
  {
    if s != [] {
      ZeroValue(s[1..]);
      assert AllZero(s) <==> s[0] == 0 && AllZero(s[1..]);
    }
  }

  /** A number below Weight(i) has nothing from limb i on. */
  lemma HighLimbsZero(s: seq<Limb>, i: nat)
    requires i <= |s| && Value(s) < Weight(i)
    ensures AllZero(s[i..]) && Value(s) == Value(s[..i])
  {
    ValueSplit(s, i);
    MulAtLeast(Weight(i), Value(s[i..]));
    ZeroValue(s[i..]);
  }

  /** Comparing the most significant limb that differs decides. */
  lemma TopLimbDecides(a: seq<Limb>, b: seq<Limb>, i: nat)
    requires |a| == |b| && i < |a| && a[i + 1..] == b[i + 1..] && a[i] < b[i]
    ensures Value(a) < Value(b)
  {
    ValueSplit(a, i + 1);
    ValueSplit(b, i + 1);
    ValueNext(a, i);
    ValueNext(b, i);
    ValueBound(a[..i]);
    ColumnDecides(Weight(i), a[i], b[i], Value(a[..i]), Value(b[..i]));
  }

  lemma ColumnDecides(w: int, x: int, y: int, lowX: int, lowY: int)
    requires 0 <= lowX < w && 0 <= lowY && x < y
    ensures lowX + w * x < lowY + w * y
  {
    assert w * y == w * x + w * (y - x);
    MulAtLeast(w, y - x);
  }

  /** -1, 0 or 1, most significant limb first. */
  method Compare(a: seq<Limb>, b: seq<Limb>) returns (r: int)
    requires |a| == |b|
    ensures r == -1 <==> Value(a) < Value(b)
    ensures r == 0 <==> Value(a) == Value(b)
    ensures r == 1 <==> Value(a) > Value(b)
    ensures r == 0 <==> a == b
  {
    var i: nat := |a|;
    while i > 0
      invariant i <= |a| && a[i..] == b[i..]
    {
      i := i - 1;
      if a[i] < b[i] {
        TopLimbDecides(a, b, i);
        return -1;
      }
      if a[i] > b[i] {
        TopLimbDecides(b, a, i);
        return 1;
      }
      assert a[i..] == [a[i]] + a[i + 1..] && b[i..] == [b[i]] + b[i + 1..];
    }
    assert a == a[0..] == b[0..] == b;
    return 0;
  }

  /** One column of an addition: what is written and what is carried add up. */
  lemma CarryColumn(w: int, sum: int)
    ensures w * (sum % BASE) + (w * BASE) * (sum / BASE) == w * sum
  {
    assert w * (sum % BASE) + w * (BASE * (sum / BASE)) == w * (sum % BASE + BASE * (sum / BASE));
    assert (w * BASE) * (sum / BASE) == w * (BASE * (sum / BASE));
  }

  /** a += b in place, dropping the last carry: addition modulo the capacity. */
  method WrappingAddAssign(a: array<Limb>, b: seq<Limb>)
    requires a.Length == |b|
    modifies a
    ensures Value(a[..]) == (old(Value(a[..])) + Value(b)) % Weight(a.Length)
    ensures old(Value(a[..])) + Value(b) < Weight(a.Length) ==> Value(a[..]) == old(Value(a[..])) + Value(b)
  {
    ghost var a0 := a[..];
    var carry: int := 0;
    var i := 0;
    while i < a.Length
      invariant 0 <= i <= a.Length && 0 <= carry <= 1
      invariant forall j :: i <= j < a.Length ==> a[j] == a0[j]
      invariant Value(a[..i]) + Weight(i) * carry == Value(a0[..i]) + Value(b[..i])
    {
      var sum: int := a[i] + b[i] + carry;
      ghost var low := a[..i];
      a[i] := sum % BASE;
      carry := sum / BASE;
      assert a[..i] == low;
      ValueNext(a[..], i);
      ValueNext(a0, i);
      ValueNext(b, i);
      assert a[..][..i + 1] == a[..i + 1] && a[..][..i] == a[..i];
      CarryColumn(Weight(i), sum);
      WeightStep(i);
      AddColumn(Weight(i), a0[i], b[i], sum - a0[i] - b[i]);
      i := i + 1;
    }
    assert i == |a0| == |b| == a.Length;
    assert a[..i] == a[..];
    assert a0[..i] == a0;
    assert b[..i] == b;
    ValueBound(a[..]);
    RemainderIs(old(Value(a[..])) + Value(b), Weight(a.Length), carry, Value(a[..]));
    MulAtLeast(Weight(a.Length), carry);
  }

  lemma AddColumn(w: int, x: int, y: int, c: int)
    ensures w * (x + y + c) == w * x + w * y + w * c
  {
  }

  /** a -= b in place, for a at least b. */
  method WrappingSubAssign(a: array<Limb>, b: seq<Limb>)
    requires a.Length == |b| && Value(a[..]) >= Value(b)
    modifies a
    ensures Value(a[..]) == old(Value(a[..])) - Value(b)
  {
    ghost var a0 := a[..];
    var borrow: int := 0;
    var i := 0;
    while i < a.Length
      invariant 0 <= i <= a.Length && 0 <= borrow <= 1
      invariant forall j :: i <= j < a.Length ==> a[j] == a0[j]
      invariant Value(a[..i]) - Weight(i) * borrow == Value(a0[..i]) - Value(b[..i])
    {
      var diff: int := a[i] - b[i] - borrow;
      ghost var low, c := a[..i], borrow;
      if diff < 0 {
        a[i] := diff + BASE;
        borrow := 1;
      } else {
        a[i] := diff;
        borrow := 0;
      }
      assert a[..i] == low;
      ValueNext(a[..], i);
      ValueNext(a0, i);
      ValueNext(b, i);
      assert a[..][..i + 1] == a[..i + 1] && a[..][..i] == a[..i];
      WeightStep(i);
      BorrowColumn(Weight(i), a[i], borrow, a0[i], b[i], c);
      i := i + 1;
    }
    assert a[..i] == a[..] && a0[..i] == a0 && b[..i] == b;
    ValueBound(a[..]);
  }

  lemma BorrowColumn(w: int, out: int, borrow: int, x: int, y: int, c: int)
    requires out - BASE * borrow == x - y - c
    ensures w * out - (BASE * w) * borrow == w * x - w * y - w * c
  {
    assert w * (out - BASE * borrow) == w * (x - y - c);
    assert w * (BASE * borrow) == (BASE * w) * borrow;
  }
}
