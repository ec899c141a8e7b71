/** Where the cutoffs of the adaptive proportion test come from (crates/otter-crypto/src/entropy.rs, section
    4.4.2 of NIST SP 800-90B): each is the smallest count that a window of 512 samples of a source with
    its credited entropy reaches with a probability of at most 2^-20. */
module ProportionCutoffs {
  import opened Congruence
  import opened HealthTests

  // ---------- counting windows ----------

  /** How many words of n letters hold a marked letter at least c times, out of an alphabet of m others. */
  function Ways(m: nat, n: nat, c: nat): nat {
    if c == 0 then Pow(m + 1, n) else if n == 0 then 0 else Ways(m, n - 1, c - 1) + m * Ways(m, n - 1, c)
  }

  /** How many hold it exactly k times. */
  function Exactly(m: nat, n: nat, k: nat): nat {
    if n == 0 then (if k == 0 then 1 else 0)
    else (if k == 0 then 0 else Exactly(m, n - 1, k - 1)) + m * Exactly(m, n - 1, k)
  }

  lemma {:induction false} WaysSplit(m: nat, n: nat, c: nat)
    ensures Ways(m, n, c) == Exactly(m, n, c) + Ways(m, n, c + 1)
    decreases n
  {
    if n > 0 {
      WaysSplit(m, n - 1, c);
      if c > 0 {
        WaysSplit(m, n - 1, c - 1);
        Spread(m, Exactly(m, n - 1, c), Ways(m, n - 1, c + 1));
      } else {
        Spread(m, Exactly(m, n - 1, 0), Ways(m, n - 1, 1));
        assert Pow(m + 1, n) == Pow(m + 1, n - 1) + m * Pow(m + 1, n - 1) by { NextPower(m, n); }
      }
    }
  }

  lemma NextPower(m: nat, n: nat)
    requires n > 0
    ensures Pow(m + 1, n) == Pow(m + 1, n - 1) + m * Pow(m + 1, n - 1)
  {
  }

  lemma Spread(m: int, a: int, b: int)
    ensures m * (a + b) == m * a + m * b
  {
  }

  lemma {:induction false} NoneMarked(m: nat, n: nat)
    ensures Exactly(m, n, 0) == Pow(m, n)
  {
    if n > 0 { NoneMarked(m, n - 1); }
  }

  /** The ratio of neighbouring counts is that of binomial terms. */
  lemma {:induction false} NextCount(m: nat, n: nat, k: nat)
    ensures (k + 1) * (m * Exactly(m, n, k + 1)) == (n - k) * Exactly(m, n, k)
    decreases n
  {
    if n == 0 {
      assert Exactly(m, 0, k + 1) == 0;
      if k > 0 { assert Exactly(m, 0, k) == 0; }
    } else {
      var a, b := Exactly(m, n - 1, k), Exactly(m, n - 1, k + 1);
      NextCount(m, n - 1, k);
      assert (k + 1) * (m * (a + m * b)) == n * (m * a) by { FirstSide(m, n, k, a, b); }
      if k > 0 {
        NextCount(m, n - 1, k - 1);
        SecondSide(m, n, k, Exactly(m, n - 1, k - 1), a);
      } else {
        assert Exactly(m, n, 0) == m * a;
      }
    }
  }

  lemma FirstSide(m: int, n: int, k: int, a: int, b: int)
    requires (k + 1) * (m * b) == (n - 1 - k) * a
    ensures (k + 1) * (m * (a + m * b)) == n * (m * a)
  {
    var x := m * b;
    assert (k + 1) * (m * (a + x)) == (k + 1) * (m * a) + m * ((k + 1) * x);
    assert m * ((n - 1 - k) * a) == (n - 1 - k) * (m * a);
  }

  lemma SecondSide(m: int, n: int, k: int, c: int, a: int)
    requires k * (m * a) == (n - k) * c
    ensures (n - k) * (c + m * a) == n * (m * a)
  {
    var x := m * a;
    assert (n - k) * (c + x) == (n - k) * c + (n - k) * x;
  }

  lemma {:induction false} NoMore(m: nat, n: nat, c: nat)
    requires c > n
    ensures Ways(m, n, c) == 0
  {
    if n > 0 {
      NoMore(m, n - 1, c - 1);
      NoMore(m, n - 1, c);
    }
  }

  lemma {:induction false} WaysFall(m: nat, n: nat, c: nat, d: nat)
    requires c <= d
    ensures Ways(m, n, d) <= Ways(m, n, c)
    decreases d
  {
    if c < d {
      WaysFall(m, n, c, d - 1);
      WaysSplit(m, n, d - 1);
    }
  }

  /** From c on the counts fall at least as fast as a geometric series. */
  lemma {:induction false} TailBound(m: nat, n: nat, c: nat, k: nat)
    requires c <= k && c <= n && n - c < (c + 1) * m
    ensures Ways(m, n, k) * ((c + 1) * m - (n - c)) <= Exactly(m, n, k) * ((c + 1) * m)
    decreases n + 1 - k
  {
    hide Ways, Exactly;
    var a, b := (c + 1) * m, n - c;
    if k > n {
      NoMore(m, n, k);
    } else {
      var e, f := Exactly(m, n, k), Exactly(m, n, k + 1);
      TailBound(m, n, c, k + 1);
      WaysSplit(m, n, k);
      NextCount(m, n, k);
      Slower(m, k, c, e, f, n);
      OneMoreTerm(a, b, e, f, Ways(m, n, k + 1));
    }
  }

  lemma OneMoreTerm(a: int, b: int, e: int, f: int, rest: int)
    requires rest * (a - b) <= f * a && f * a <= e * b
    ensures (e + rest) * (a - b) <= e * a
  {
    assert (e + rest) * (a - b) == e * (a - b) + rest * (a - b);
    assert e * (a - b) == e * a - e * b;
  }

  lemma Slower(m: nat, k: nat, c: nat, e: nat, f: nat, n: nat)
    requires c <= k <= n && (k + 1) * (m * f) == (n - k) * e
    ensures f * ((c + 1) * m) <= e * (n - c)
  {
    var x := m * f;
    assert f * ((c + 1) * m) == (c + 1) * x;
    MulMono(x, c + 1, k + 1);
    assert x * (c + 1) == (c + 1) * x && x * (k + 1) == (k + 1) * x;
    MulMono(e, n - k, n - c);
    assert e * (n - k) == (n - k) * e;
  }

  // ---------- the counts of a window ----------


  // ---------- the counts of a window ----------

  /** Two steps of a chain of ratios. */
  lemma Composed(a: int, b: int, c: int, up: int, down: int, n: int, d: int)
    requires down * b == up * a && d * c == n * b
    ensures (down * d) * c == (up * n) * a
  {
    assert (down * d) * c == down * (d * c) == down * (n * b) == n * (down * b) == n * (up * a) == (up * n) * a;
  }

  function Down5(m: int, k: int): int {
    ((k + 1) * m) * ((k + 2) * m) * ((k + 3) * m) * ((k + 4) * m) * ((k + 5) * m)
  }

  function Up5(k: int): int { (512 - k) * (511 - k) * (510 - k) * (509 - k) * (508 - k) }

  lemma OneStep(m: nat, k: nat)
    ensures ((k + 1) * m) * Exactly(m, 512, k + 1) == (512 - k) * Exactly(m, 512, k)
  {
    hide Exactly;
    NextCount(m, 512, k);
    var e := Exactly(m, 512, k + 1);
    assert (k + 1) * (m * e) == ((k + 1) * m) * e;
  }

  /** Five neighbouring counts of a window of 512 samples at once. */
  lemma FiveSteps(m: nat, k: nat)
    ensures Down5(m, k) * Exactly(m, 512, k + 5) == Up5(k) * Exactly(m, 512, k)
  {
    hide Exactly;
    OneStep(m, k);
    OneStep(m, k + 1);
    OneStep(m, k + 2);
    OneStep(m, k + 3);
    OneStep(m, k + 4);
    var d1, d2, d3, d4, d5 := (k + 1) * m, (k + 2) * m, (k + 3) * m, (k + 4) * m, (k + 5) * m;
    var e, e1, e2, e3 := Exactly(m, 512, k), Exactly(m, 512, k + 1), Exactly(m, 512, k + 2), Exactly(m, 512, k + 3);
    var e4, e5 := Exactly(m, 512, k + 4), Exactly(m, 512, k + 5);
    Composed(e, e1, e2, 512 - k, d1, 511 - k, d2);
    Composed(e, e2, e3, (512 - k) * (511 - k), d1 * d2, 510 - k, d3);
    Composed(e, e3, e4, (512 - k) * (511 - k) * (510 - k), d1 * d2 * d3, 509 - k, d4);
    Composed(e, e4, e5, (512 - k) * (511 - k) * (510 - k) * (509 - k), d1 * d2 * d3 * d4, 508 - k, d5);
  }

  // ---------- powers ----------

  /** The power of a fraction m / (m + 1) between two multiples of 1 / s. */
  predicate Near(m: nat, e: nat, lo: nat, hi: nat, s: nat) {
    lo * Pow(m + 1, e) <= s * Pow(m, e) <= hi * Pow(m + 1, e)
  }

  lemma PowerOnce(m: nat, lo: nat, hi: nat, s: nat)
    requires lo * (m + 1) <= s * m <= hi * (m + 1)
    ensures Near(m, 1, lo, hi, s)
  {
    assert Pow(m, 1) == m && Pow(m + 1, 1) == m + 1;
  }

  /** Squared, and on a new scale. */
  lemma PowerTwice(m: nat, e: nat, lo: nat, hi: nat, s: nat, low: nat, high: nat, t: nat)
    requires s > 0 && Near(m, e, lo, hi, s)
    requires (s * s) * low <= t * (lo * lo) && t * (hi * hi) <= (s * s) * high
    ensures Near(m, 2 * e, low, high, t)
  {
    hide Pow;
    PowAdd(m, e, e);
    PowAdd(m + 1, e, e);
    assert e + e == 2 * e;
    var x, y := Pow(m, e), Pow(m + 1, e);
    SquareBelow(low, lo, y, s, t, x);
    SquareAbove(high, hi, y, s, t, x);
  }

  lemma SquareBelow(low: nat, lo: nat, y: nat, s: nat, t: nat, x: nat)
    requires 0 < s && (s * s) * low <= t * (lo * lo) && lo * y <= s * x
    ensures low * (y * y) <= t * (x * x)
  {
    Squares(lo, y, s, x);
    MulMono(y * y, (s * s) * low, t * (lo * lo));
    Moved(y * y, s * s, low);
    Moved(y * y, t, lo * lo);
    MulMono(t, (lo * lo) * (y * y), (s * s) * (x * x));
    Moved(t, s * s, x * x);
    Cancelled(s * s, low * (y * y), t * (x * x));
  }

  lemma SquareAbove(high: nat, hi: nat, y: nat, s: nat, t: nat, x: nat)
    requires 0 < s && t * (hi * hi) <= (s * s) * high && s * x <= hi * y
    ensures t * (x * x) <= high * (y * y)
  {
    Squares(s, x, hi, y);
    MulMono(y * y, t * (hi * hi), (s * s) * high);
    Moved(y * y, s * s, high);
    Moved(y * y, t, hi * hi);
    MulMono(t, (s * s) * (x * x), (hi * hi) * (y * y));
    Moved(t, s * s, x * x);
    Cancelled(s * s, t * (x * x), high * (y * y));
  }

  lemma Squares(a: nat, b: nat, c: nat, d: nat)
    requires a * b <= c * d
    ensures (a * a) * (b * b) <= (c * c) * (d * d)
  {
    var u, v := a * b, c * d;
    MulMono(u, u, v);
    MulMono(v, u, v);
    assert u * v == v * u;
    SquareOfProduct(a, b);
    SquareOfProduct(c, d);
  }

  lemma SquareOfProduct(a: int, b: int)
    ensures (a * b) * (a * b) == (a * a) * (b * b)
  {
    assert (a * b) * (a * b) == a * (b * (a * b)) == a * (a * (b * b)) == (a * a) * (b * b);
  }

  lemma Moved(a: int, b: int, c: int)
    ensures a * (b * c) == b * (c * a) == b * (a * c)
  {
    assert a * (b * c) == (a * b) * c == (b * a) * c == b * (a * c);
  }

  lemma Cancelled(s: int, a: int, b: int)
    requires s > 0 && s * a <= s * b
    ensures a <= b
  {
  }

  lemma SeedPower()
    ensures Near(15, 512, 11577719817733612180, 11577719817733612695, 0x8000_0000_0000_0000_0000_0000_0000)
  {
    hide Pow, Near;
    PowerOnce(15, 17293822569102704640, 17293822569102704641, 0x1_0000_0000_0000_0000);
    PowerTwice(15, 1, 17293822569102704640, 17293822569102704641, 0x1_0000_0000_0000_0000,
               16212958658533785600, 16212958658533785602, 0x1_0000_0000_0000_0000);
    PowerTwice(15, 2, 16212958658533785600, 16212958658533785602, 0x1_0000_0000_0000_0000,
               14249670695976960000, 14249670695976960004, 0x1_0000_0000_0000_0000);
    PowerTwice(15, 4, 14249670695976960000, 14249670695976960004, 0x1_0000_0000_0000_0000,
               11007531417600000000, 11007531417600000007, 0x1_0000_0000_0000_0000);
    PowerTwice(15, 8, 11007531417600000000, 11007531417600000007, 0x1_0000_0000_0000_0000,
               13136816711425781250, 13136816711425781267, 0x2_0000_0000_0000_0000);
    PowerTwice(15, 16, 13136816711425781250, 13136816711425781267, 0x2_0000_0000_0000_0000,
               9355361174851030653, 9355361174851030678, 0x4_0000_0000_0000_0000);
    PowerTwice(15, 32, 9355361174851030653, 9355361174851030678, 0x4_0000_0000_0000_0000,
               9489239115822963264, 9489239115822963316, 0x20_0000_0000_0000_0000);
    PowerTwice(15, 64, 9489239115822963264, 9489239115822963316, 0x20_0000_0000_0000_0000,
               9762769910772315947, 9762769910772316055, 0x800_0000_0000_0000_0000);
    PowerTwice(15, 128, 9762769910772315947, 9762769910772316055, 0x800_0000_0000_0000_0000,
               10333712654095989053, 10333712654095989282, 0x80_0000_0000_0000_0000_0000);
    PowerTwice(15, 256, 10333712654095989053, 10333712654095989282, 0x80_0000_0000_0000_0000_0000,
               11577719817733612180, 11577719817733612695, 0x8000_0000_0000_0000_0000_0000_0000);
  }

  lemma RandPower()
    ensures Near(3, 512, 13051056199748049201, 13051056199748049959,
                 0x10_0000_0000_0000_0000_0000_0000_0000_0000_0000_0000_0000_0000_0000_0000_0000_0000_0000)
  {
    hide Pow, Near;
    PowerOnce(3, 13835058055282163712, 13835058055282163713, 0x1_0000_0000_0000_0000);
    PowerTwice(3, 1, 13835058055282163712, 13835058055282163713, 0x1_0000_0000_0000_0000,
               10376293541461622784, 10376293541461622786, 0x1_0000_0000_0000_0000);
    PowerTwice(3, 2, 10376293541461622784, 10376293541461622786, 0x1_0000_0000_0000_0000,
               11673330234144325632, 11673330234144325637, 0x2_0000_0000_0000_0000);
    PowerTwice(3, 4, 11673330234144325632, 11673330234144325637, 0x2_0000_0000_0000_0000,
               14774058577588912128, 14774058577588912141, 0x8_0000_0000_0000_0000);
    PowerTwice(3, 8, 14774058577588912128, 14774058577588912141, 0x8_0000_0000_0000_0000,
               11832592569282330624, 11832592569282330645, 0x40_0000_0000_0000_0000);
    PowerTwice(3, 16, 11832592569282330624, 11832592569282330645, 0x40_0000_0000_0000_0000,
               15179941387074281472, 15179941387074281526, 0x2000_0000_0000_0000_0000);
    PowerTwice(3, 32, 15179941387074281472, 15179941387074281526, 0x2000_0000_0000_0000_0000,
               12491668968477870238, 12491668968477870328, 0x400_0000_0000_0000_0000_0000);
    PowerTwice(3, 64, 12491668968477870238, 12491668968477870328, 0x400_0000_0000_0000_0000_0000,
               16918085163920607653, 16918085163920607898, 0x20_0000_0000_0000_0000_0000_0000_0000);
    PowerTwice(3, 128, 16918085163920607653, 16918085163920607898, 0x20_0000_0000_0000_0000_0000_0000_0000,
               15516104330931544388, 15516104330931544838, 0x400_0000_0000_0000_0000_0000_0000_0000_0000_0000_0000);
    PowerTwice(3, 256, 15516104330931544388, 15516104330931544838,
               0x400_0000_0000_0000_0000_0000_0000_0000_0000_0000_0000,
               13051056199748049201, 13051056199748049959,
               0x10_0000_0000_0000_0000_0000_0000_0000_0000_0000_0000_0000_0000_0000_0000_0000_0000_0000);
  }

  // ---------- bounds ----------

  /** A count of the window between two multiples of a number. */
  predicate Between(m: nat, k: nat, lo: nat, hi: nat, t: nat) { lo * t <= Exactly(m, 512, k) <= hi * t }

  lemma Seed30(t: nat)
    requires Between(15, 0, 1, 1, t)
    ensures Between(15, 30, 15682754595018, 15682754595019, t)
  {
    hide Exactly;
    FiveSteps(15, 0); FiveSteps(15, 5); FiveSteps(15, 10); FiveSteps(15, 15); FiveSteps(15, 20); FiveSteps(15, 25);
  }

  lemma Seed61(t: nat)
    requires Between(15, 30, 15682754595018, 15682754595019, t)
    ensures Between(15, 61, 158891951, 158891952, t)
  {
    hide Exactly;
    FiveSteps(15, 30); FiveSteps(15, 35); FiveSteps(15, 40); FiveSteps(15, 45); FiveSteps(15, 50); FiveSteps(15, 55);
    OneStep(15, 60);
  }

  lemma Rand30(t: nat)
    requires Between(3, 0, 1, 1, t)
    ensures Between(3, 30, 791776767115853, 791776767115854, 0x1_0000_0000_0000_0000 * t)
  {
    hide Exactly;
    FiveSteps(3, 0); FiveSteps(3, 5); FiveSteps(3, 10); FiveSteps(3, 15); FiveSteps(3, 20); FiveSteps(3, 25);
  }

  lemma Rand60(t: nat)
    requires Between(3, 30, 791776767115853, 791776767115854, t)
    ensures Between(3, 60, 819870713143, 819870713144, 0x1_0000_0000_0000_0000 * t)
  {
    hide Exactly;
    FiveSteps(3, 30); FiveSteps(3, 35); FiveSteps(3, 40); FiveSteps(3, 45); FiveSteps(3, 50); FiveSteps(3, 55);
  }

  lemma Rand90(t: nat)
    requires Between(3, 60, 819870713143, 819870713144, t)
    ensures Between(3, 90, 375956729144781939595, 375956729145240495712, t)
  {
    hide Exactly;
    FiveSteps(3, 60); FiveSteps(3, 65); FiveSteps(3, 70); FiveSteps(3, 75); FiveSteps(3, 80); FiveSteps(3, 85);
  }

  lemma Rand120(t: nat)
    requires Between(3, 90, 375956729144781939595, 375956729145240495712, t)
    ensures Between(3, 120, 810831045981251136375680, 810831045982240110656934, t)
  {
    hide Exactly;
    FiveSteps(3, 90); FiveSteps(3, 95); FiveSteps(3, 100); FiveSteps(3, 105); FiveSteps(3, 110); FiveSteps(3, 115);
  }

  lemma Rand150(t: nat)
    requires Between(3, 120, 810831045981251136375680, 810831045982240110656934, t)
    ensures Between(3, 150, 92870020784761368471010, 92870020784874642453934, t)
  {
    hide Exactly;
    FiveSteps(3, 120); FiveSteps(3, 125); FiveSteps(3, 130); FiveSteps(3, 135); FiveSteps(3, 140); FiveSteps(3, 145);
  }

  lemma Rand176(t: nat)
    requires Between(3, 150, 92870020784761368471010, 92870020784874642453934, t)
    ensures Between(3, 176, 14131537711644573932, 14131537711661810233, t)
  {
    hide Exactly;
    FiveSteps(3, 150); FiveSteps(3, 155); FiveSteps(3, 160); FiveSteps(3, 165); FiveSteps(3, 170); OneStep(3, 175);
  }

  lemma Jitter40(t: nat)
    requires Between(1, 0, 1, 1, t)
    ensures Between(1, 40, 1770071729697681430550, 1770071729697681430551,
            0x1_0000_0000_0000_0000_0000_0000_0000_0000 * t)
  {
    hide Exactly;
    FiveSteps(1, 0); FiveSteps(1, 5); FiveSteps(1, 10); FiveSteps(1, 15); FiveSteps(1, 20); FiveSteps(1, 25);
    FiveSteps(1, 30); FiveSteps(1, 35);
  }

  lemma Jitter80(t: nat)
    requires Between(1, 40, 1770071729697681430550, 1770071729697681430551, t)
    ensures Between(1, 80, 982101214123613633, 982101214123613634, 0x1_0000_0000_0000_0000_0000_0000_0000_0000 * t)
  {
    hide Exactly;
    FiveSteps(1, 40); FiveSteps(1, 45); FiveSteps(1, 50); FiveSteps(1, 55); FiveSteps(1, 60); FiveSteps(1, 65);
    FiveSteps(1, 70); FiveSteps(1, 75);
  }

  lemma Jitter120(t: nat)
    requires Between(1, 80, 982101214123613633, 982101214123613634, t)
    ensures Between(1, 120, 232124920471842774187413, 232124920471842774423769, 0x1_0000_0000_0000_0000 * t)
  {
    hide Exactly;
    FiveSteps(1, 80); FiveSteps(1, 85); FiveSteps(1, 90); FiveSteps(1, 95); FiveSteps(1, 100); FiveSteps(1, 105);
    FiveSteps(1, 110); FiveSteps(1, 115);
  }

  lemma Jitter160(t: nat)
    requires Between(1, 120, 232124920471842774187413, 232124920471842774423769, t)
    ensures Between(1, 160, 1225864063945041110831, 1225864063945041112080, 0x1_0000_0000_0000_0000 * t)
  {
    hide Exactly;
    FiveSteps(1, 120); FiveSteps(1, 125); FiveSteps(1, 130); FiveSteps(1, 135); FiveSteps(1, 140); FiveSteps(1, 145);
    FiveSteps(1, 150); FiveSteps(1, 155);
  }

  lemma Jitter200(t: nat)
    requires Between(1, 160, 1225864063945041110831, 1225864063945041112080, t)
    ensures Between(1, 200, 2885864791797, 2885864791798, 0x1_0000_0000_0000_0000 * t)
  {
    hide Exactly;
    FiveSteps(1, 160); FiveSteps(1, 165); FiveSteps(1, 170); FiveSteps(1, 175); FiveSteps(1, 180); FiveSteps(1, 185);
    FiveSteps(1, 190); FiveSteps(1, 195);
  }

  lemma Jitter240(t: nat)
    requires Between(1, 200, 2885864791797, 2885864791798, t)
    ensures Between(1, 240, 239488057266503405, 239488057266586393, t)
  {
    hide Exactly;
    FiveSteps(1, 200); FiveSteps(1, 205); FiveSteps(1, 210); FiveSteps(1, 215); FiveSteps(1, 220); FiveSteps(1, 225);
    FiveSteps(1, 230); FiveSteps(1, 235);
  }

  lemma Jitter280(t: nat)
    requires Between(1, 240, 239488057266503405, 239488057266586393, t)
    ensures Between(1, 280, 68600639625827962, 68600639625851735, t)
  {
    hide Exactly;
    FiveSteps(1, 240); FiveSteps(1, 245); FiveSteps(1, 250); FiveSteps(1, 255); FiveSteps(1, 260); FiveSteps(1, 265);
    FiveSteps(1, 270); FiveSteps(1, 275);
  }

  lemma Jitter310(t: nat)
    requires Between(1, 280, 68600639625827962, 68600639625851735, t)
    ensures Between(1, 310, 6896734950929, 6896734950933, t)
  {
    hide Exactly;
    FiveSteps(1, 280); FiveSteps(1, 285); FiveSteps(1, 290); FiveSteps(1, 295); FiveSteps(1, 300); FiveSteps(1, 305);
  }

  // ---------- the tails ----------

  lemma SeedTail()
    ensures Exactly(15, 512, 62) * 0x10_0000 * 945 <= Pow(16, 512) * 495
    ensures (Exactly(15, 512, 61) + Exactly(15, 512, 62)) * 0x10_0000 > Pow(16, 512)
  {
    hide Exactly, Pow;
    var t := Pow(15, 512);
    NoneMarked(15, 512);
    SeedPower();
    Seed30(t);
    Seed61(t);
    OneStep(15, 61);
  }

  lemma RandChain()
    ensures Between(3, 176, 14131537711644573932, 14131537711661810233,
            0x1_0000_0000_0000_0000_0000_0000_0000_0000 * Pow(3, 512))
  {
    hide Exactly, Pow;
    NoneMarked(3, 512);
    var t := Pow(3, 512);
    Rand30(t);
    Rand60(0x1_0000_0000_0000_0000 * t);
    Rand90(0x1_0000_0000_0000_0000_0000_0000_0000_0000 * t);
    Rand120(0x1_0000_0000_0000_0000_0000_0000_0000_0000 * t);
    Rand150(0x1_0000_0000_0000_0000_0000_0000_0000_0000 * t);
    Rand176(0x1_0000_0000_0000_0000_0000_0000_0000_0000 * t);
  }

  lemma RandTail()
    ensures Exactly(3, 512, 177) * 0x10_0000 * 534 <= Pow(4, 512) * 199
    ensures (Exactly(3, 512, 176) + Exactly(3, 512, 177) + Exactly(3, 512, 178)) * 0x10_0000 > Pow(4, 512)
  {
    hide Exactly, Pow;
    RandPower();
    RandChain();
    OneStep(3, 176);
    OneStep(3, 177);
  }

  const WORD: nat := 0x1_0000_0000_0000_0000

  lemma WordPower(j: nat)
    ensures Pow(WORD, j + 1) == WORD * Pow(WORD, j) && Pow(WORD, j + 2) == WORD * Pow(WORD, j + 1)
  {
  }

  lemma EightWords()
    ensures Pow(2, 512) == Pow(WORD, 8) && Pow(WORD, 0) == 1
  {
    NoFactor(WORD);
    hide Pow;
    SmallPowers();
    PowAdd(2, 16, 16);
    PowAdd(2, 32, 32);
    PowPow(2, 64, 8);
  }

  lemma NoFactor(b: nat)
    ensures Pow(b, 0) == 1
  {
  }

  lemma SmallPowers()
    ensures Pow(2, 1) == 2 && Pow(2, 2) == 4 && Pow(2, 4) == 16 && Pow(2, 16) == 0x1_0000 && Pow(2, 20) == 0x10_0000
  {
    assert Pow(2, 1) == 2 && Pow(2, 2) == 4;
    hide Pow;
    PowAdd(2, 2, 2);
    PowAdd(2, 4, 4);
    PowAdd(2, 8, 8);
    PowAdd(2, 16, 4);
  }

  lemma NoOthers(n: nat)
    ensures Pow(1, n) == 1
  {
  }

  lemma JitterChain()
    ensures Between(1, 310, 6896734950929, 6896734950933, Pow(WORD, 7))
  {
    hide Exactly, Pow;
    NoneMarked(1, 512);
    NoOthers(512);
    EightWords();
    WordPower(0);
    WordPower(2);
    WordPower(4);
    WordPower(6);
    Jitter40(Pow(WORD, 0));
    Jitter80(Pow(WORD, 2));
    Jitter120(Pow(WORD, 4));
    Jitter160(Pow(WORD, 5));
    Jitter200(Pow(WORD, 6));
    Jitter240(Pow(WORD, 7));
    Jitter280(Pow(WORD, 7));
    Jitter310(Pow(WORD, 7));
  }

  lemma JitterTail()
    ensures Exactly(1, 512, 311) * 0x10_0000 * 312 <= Pow(2, 512) * 111
    ensures (Exactly(1, 512, 310) + Exactly(1, 512, 311) + Exactly(1, 512, 312) + Exactly(1, 512, 313)
             + Exactly(1, 512, 314) + Exactly(1, 512, 315) + Exactly(1, 512, 316)) * 0x10_0000 > Pow(2, 512)
  {
    hide Exactly, Pow;
    JitterChain();
    EightWords();
    WordPower(7);
    OneStep(1, 310);
    OneStep(1, 311);
    OneStep(1, 312);
    OneStep(1, 313);
    OneStep(1, 314);
    OneStep(1, 315);
  }

  /** At most 2^-20 of the words of 512 letters hold the marked one so often, but more hold it once less. */
  predicate Critical(m: nat, cut: nat)
    requires cut > 0
  {
    Ways(m, 512, cut) * 0x10_0000 <= Pow(m + 1, 512) < Ways(m, 512, cut - 1) * 0x10_0000
  }

  lemma SeedCritical()
    ensures Critical(15, 62)
  {
    hide Exactly, Ways, Pow;
    SeedTail();
    TailBound(15, 512, 62, 62);
    WaysSplit(15, 512, 61);
    WaysSplit(15, 512, 62);
  }

  lemma RandCritical()
    ensures Critical(3, 177)
  {
    hide Exactly, Ways, Pow;
    RandTail();
    TailBound(3, 512, 177, 177);
    WaysSplit(3, 512, 176);
    WaysSplit(3, 512, 177);
    WaysSplit(3, 512, 178);
  }

  lemma JitterCritical()
    ensures Critical(1, 311)
  {
    hide Exactly, Ways, Pow;
    JitterTail();
    TailBound(1, 512, 311, 311);
    WaysSplit(1, 512, 310);
    WaysSplit(1, 512, 311);
    WaysSplit(1, 512, 312);
    WaysSplit(1, 512, 313);
    WaysSplit(1, 512, 314);
    WaysSplit(1, 512, 315);
    WaysSplit(1, 512, 316);
  }

  /** Each cutoff is the critical one: among the equally likely windows of 512 samples, each one of 2^H letters
      for a source credited with H bits, the share in which a letter comes c times or more is at most 2^-20
      if and only if c is no less than the cutoff. */
  lemma CutoffIsCritical(s: Source, c: nat)
    ensures var letters := Pow(2, Credit(s));
            Ways(letters - 1, 512, c) * Pow(2, 20) <= Pow(letters, 512) <==> c >= ProportionCutoff(s)
  {
    hide Ways, Pow;
    SmallPowers();
    var m, cut := if s.RdSeed? then 15 else if s.RdRand? then 3 else 1, ProportionCutoff(s);
    match s {
      case RdSeed => SeedCritical();
      case RdRand => RandCritical();
      case TscJitter => JitterCritical();
    }
    if c >= cut { WaysFall(m, 512, cut, c); } else { WaysFall(m, 512, c, cut - 1); }
  }
}
