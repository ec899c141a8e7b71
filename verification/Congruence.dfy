/** Multiples, congruences and powers: the arithmetic the limb code is measured against. */
module Congruence {

  function Times(a: int, b: int): int { a * b }

  ghost predicate Multiple(n: int, x: int) { exists k: int :: Times(n, k) == x }

  /** a and b leave the same remainder modulo n. */
  ghost predicate Cong(a: int, b: int, n: int) { Multiple(n, a - b) }

  function Pow(b: nat, e: nat): (p: nat)
    ensures b > 0 ==> p > 0
  {
    if e == 0 then 1 else
    var q := Pow(b, e - 1);
    assert b > 0 ==> b * q > 0;
    b * q
  }

  lemma MultipleOf(n: int, k: int)
    ensures Multiple(n, n * k)
  {
    assert Times(n, k) == n * k;
  }

  lemma MultipleSum(n: int, x: int, y: int)
    requires Multiple(n, x) && Multiple(n, y)
    ensures Multiple(n, x + y) && Multiple(n, x - y)
  {
    var k, j :| Times(n, k) == x && Times(n, j) == y;
    assert n * (k + j) == x + y && n * (k - j) == x - y;
    MultipleOf(n, k + j);
    MultipleOf(n, k - j);
  }

  lemma MultipleScaled(n: int, x: int, c: int)
    requires Multiple(n, x)
    ensures Multiple(n, c * x) && Multiple(n, x * c)
  {
    var k :| Times(n, k) == x;
    assert n * (k * c) == x * c == c * x by { assert n * (k * c) == (n * k) * c; }
    MultipleOf(n, k * c);
  }

  lemma MultipleTransitive(n: int, m: int, x: int)
    requires Multiple(n, m) && Multiple(m, x)
    ensures Multiple(n, x)
  {
    var k :| Times(m, k) == x;
    MultipleScaled(n, m, k);
  }

  lemma CongRefl(a: int, n: int)
    ensures Cong(a, a, n)
  {
    assert Times(n, 0) == 0;
  }

  lemma CongSym(a: int, b: int, n: int)
    requires Cong(a, b, n)
    ensures Cong(b, a, n)
  {
    MultipleScaled(n, a - b, -1);
    assert (a - b) * -1 == b - a;
  }

  lemma CongTrans(a: int, b: int, c: int, n: int)
    requires Cong(a, b, n) && Cong(b, c, n)
    ensures Cong(a, c, n)
  {
    MultipleSum(n, a - b, b - c);
  }

  lemma CongMul(a: int, b: int, c: int, d: int, n: int)
    requires Cong(a, b, n) && Cong(c, d, n)
    ensures Cong(a * c, b * d, n)
  {
    MultipleScaled(n, a - b, c);
    MultipleScaled(n, c - d, b);
    MultipleSum(n, (a - b) * c, (c - d) * b);
    assert (a - b) * c + (c - d) * b == a * c - b * d;
  }

  lemma CongScale(a: int, b: int, c: int, n: int)
    requires Cong(a, b, n)
    ensures Cong(a * c, b * c, n)
  {
    CongRefl(c, n);
    CongMul(a, b, c, c, n);
  }

  lemma CongMod(a: int, n: int)
    requires n > 0
    ensures Cong(a % n, a, n)
  {
    assert a % n - a == n * (-(a / n));
    MultipleOf(n, -(a / n));
  }

  /** The remainder is the one representative below n. */
  lemma CongUnique(a: int, b: int, n: int)
    requires Cong(a, b, n) && 0 <= a < n && 0 <= b < n
    ensures a == b
  {
    var k :| Times(n, k) == a - b;
    SmallMultiple(n, k);
  }

  lemma MulAtLeast(n: int, k: int)
    requires n > 0
    ensures k >= 1 ==> n * k >= n
    ensures k <= -1 ==> n * k <= -n
  {
    if k >= 1 { assert n * k == n + n * (k - 1); }
    if k <= -1 { assert n * k == -n - n * (-1 - k); }
  }

  lemma MulMono(w: int, x: int, y: int)
    requires w >= 0 && x <= y
    ensures w * x <= w * y
  {
    assert w * y == w * x + w * (y - x);
    assert w * (y - x) >= 0;
  }

  lemma MulGap(w: int, x: int, y: int)
    requires w >= 0 && x < y
    ensures w * x + w <= w * y
  {
    MulMono(w, x + 1, y);
    assert w * (x + 1) == w * x + w;
  }

  lemma SmallMultiple(n: int, k: int)
    requires -n < n * k < n
    ensures k == 0
  {
    MulAtLeast(n, k);
  }

  lemma CongIsMod(r: int, a: int, n: int)
    requires Cong(r, a, n) && 0 <= r < n
    ensures r == a % n
  {
    CongMod(a, n);
    CongSym(a % n, a, n);
    CongTrans(r, a, a % n, n);
    CongUnique(r, a % n, n);
  }

  /** An odd modulus lets a factor of two be cancelled. */
  lemma {:induction false} CancelTwo(x: int, n: int)
    requires n % 2 == 1 && Multiple(n, 2 * x)
    ensures Multiple(n, x)
  {
    var k :| Times(n, k) == 2 * x;
    OddTimesOdd(n / 2, k / 2);
    assert k % 2 == 0;
    assert n * (2 * (k / 2)) == 2 * (n * (k / 2));
    MultipleOf(n, k / 2);
  }

  lemma OddTimesOdd(a: int, b: int)
    ensures (2 * a + 1) * (2 * b + 1) == 2 * (2 * (a * b) + a + b) + 1
  {
  }

  lemma {:induction false} CancelPow2(x: int, e: nat, n: int)
    requires n % 2 == 1 && Multiple(n, x * Pow(2, e))
    ensures Multiple(n, x)
    decreases e
  {
    if e == 0 {
      assert x * 1 == x;
    } else {
      var q := Pow(2, e - 1);
      assert x * Pow(2, e) == 2 * (x * q);
      CancelTwo(x * q, n);
      CancelPow2(x, e - 1, n);
    }
  }

  lemma {:induction false} PowAdd(b: nat, d: nat, e: nat)
    ensures Pow(b, d + e) == Pow(b, d) * Pow(b, e)
    decreases d
  {
    if d > 0 {
      PowAdd(b, d - 1, e);
      assert b * (Pow(b, d - 1) * Pow(b, e)) == (b * Pow(b, d - 1)) * Pow(b, e);
    }
  }

  lemma {:induction false} PowPow(b: nat, d: nat, e: nat)
    ensures Pow(Pow(b, d), e) == Pow(b, d * e)
    decreases e
  {
    if e > 0 {
      PowPow(b, d, e - 1);
      PowAdd(b, d, d * (e - 1));
      assert d + d * (e - 1) == d * e;
    } else {
      assert d * 0 == 0;
    }
  }

  lemma {:induction false} PowMonotone(b: nat, d: nat, e: nat)
    requires b > 0 && d <= e
    ensures Pow(b, d) <= Pow(b, e)
    decreases e
  {
    if d < e {
      PowMonotone(b, d, e - 1);
      var q := Pow(b, e - 1);
      assert b * q >= q by { assert (b - 1) * q >= 0; }
    }
  }

  lemma DivDiv(x: nat, a: int, b: int)
    requires a > 0 && b > 0
    ensures a * b > 0 && (x / a) / b == x / (a * b)
  {
    MulAtLeast(a, b);
    var q := x / a;
    var k := q / b;
    assert x == a * q + x % a && q == b * k + q % b;
    assert a * (b * k + q % b) == (a * b) * k + a * (q % b);
    MulGap(a, q % b, b);
    QuotientIs(x, a * b, k, a * (q % b) + x % a);
  }

  lemma QuotientIs(x: int, n: int, q: int, r: int)
    requires 0 <= r < n && x == n * q + r
    ensures x / n == q
  {
    assert n * (x / n) + x % n == x;
    assert n * (x / n - q) == n * (x / n) - n * q;
    SmallMultiple(n, x / n - q);
  }

  lemma RemainderIs(x: int, n: int, q: int, r: int)
    requires 0 <= r < n && x == n * q + r
    ensures x % n == r
  {
    QuotientIs(x, n, q, r);
    assert x == n * (x / n) + x % n;
  }

  lemma TwiceProduct(p: int, x: int)
    ensures (2 * p) * x == 2 * (p * x)
  {
  }
}
