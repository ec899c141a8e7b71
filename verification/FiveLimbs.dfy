/** Numbers in five limbs of a fixed radix, kept only loosely reduced: the multiplication
    with folded high limbs and the carry pass shared by crates/otter-crypto/src/poly1305.rs
    and crates/otter-crypto/src/x25519.rs. */
module FiveLimbs {
  import opened Congruence

  type U64 = x: int | 0 <= x < 0x1_0000_0000_0000_0000
  type U128 = x: int | 0 <= x < 0x1_0000_0000_0000_0000_0000_0000_0000_0000

  datatype Five = Five(x0: nat, x1: nat, x2: nat, x3: nat, x4: nat)

  /** One limb below the rest of a number. */
  function Horner(b: nat, x: int, y: int): int { x + b * y }

  /** The number five limbs stand for. */
  function Value(b: nat, f: Five): int {
    Horner(b, f.x0, Horner(b, f.x1, Horner(b, f.x2, Horner(b, f.x3, f.x4))))
  }

  function Add(f: Five, g: Five): Five {
    Five(f.x0 + g.x0, f.x1 + g.x1, f.x2 + g.x2, f.x3 + g.x3, f.x4 + g.x4)
  }

  function Scale(h: nat, f: Five): Five {
    NatProducts(h, f);
    Five(h * f.x0, h * f.x1, h * f.x2, h * f.x3, h * f.x4)
  }

  lemma NatProducts(h: nat, f: Five)
    ensures h * f.x0 >= 0 && h * f.x1 >= 0 && h * f.x2 >= 0 && h * f.x3 >= 0 && h * f.x4 >= 0
  {
  }

  /** Times the radix, the limb that falls out at the top coming back in multiplied by c. */
  function Rotated(c: nat, f: Five): Five {
    NatProducts(c, f);
    Five(c * f.x4, f.x0, f.x1, f.x2, f.x3)
  }

  lemma HornerSum(b: nat, x: int, y: int, u: int, v: int)
    ensures Horner(b, x + u, y + v) == Horner(b, x, y) + Horner(b, u, v)
  {
    assert b * (y + v) == b * y + b * v;
  }

  lemma HornerScale(b: nat, h: int, x: int, y: int)
    ensures Horner(b, h * x, h * y) == h * Horner(b, x, y)
  {
    assert b * (h * y) == h * (b * y);
    assert h * (x + b * y) == h * x + h * (b * y);
  }

  lemma AddValue(b: nat, f: Five, g: Five)
    ensures Value(b, Add(f, g)) == Value(b, f) + Value(b, g)
  {
    hide Horner;
    HornerSum(b, f.x3, f.x4, g.x3, g.x4);
    HornerSum(b, f.x2, Horner(b, f.x3, f.x4), g.x2, Horner(b, g.x3, g.x4));
    var f2, g2 := Horner(b, f.x2, Horner(b, f.x3, f.x4)), Horner(b, g.x2, Horner(b, g.x3, g.x4));
    HornerSum(b, f.x1, f2, g.x1, g2);
    HornerSum(b, f.x0, Horner(b, f.x1, f2), g.x0, Horner(b, g.x1, g2));
  }

  lemma ScaleValue(b: nat, h: nat, f: Five)
    ensures Value(b, Scale(h, f)) == h * Value(b, f)
  {
    hide Horner;
    HornerScale(b, h, f.x3, f.x4);
    HornerScale(b, h, f.x2, Horner(b, f.x3, f.x4));
    var f2 := Horner(b, f.x2, Horner(b, f.x3, f.x4));
    HornerScale(b, h, f.x1, f2);
    HornerScale(b, h, f.x0, Horner(b, f.x1, f2));
  }

  function Fold(b: nat, c: nat): int { Pow(b, 5) - c }

  /** The top limb as its own term. */
  lemma ValueTop(b: nat, f: Five)
    ensures Value(b, f) == Value(b, f.(x4 := 0)) + Pow(b, 4) * f.x4
  {
    var t, y := f.(x4 := 0), f.x4;
    assert Horner(b, f.x3, y) == Horner(b, f.x3, 0) + b * y;
    HornerSum(b, f.x2, Horner(b, f.x3, 0), 0, b * y);
    HornerSum(b, f.x1, Horner(b, f.x2, Horner(b, f.x3, 0)), 0, b * (b * y));
    HornerSum(b, f.x0, Horner(b, f.x1, Horner(b, f.x2, Horner(b, f.x3, 0))), 0, b * (b * (b * y)));
    FourPowers(b, y);
  }

  lemma FourPowers(b: nat, y: int)
    ensures b * (b * (b * (b * y))) == Pow(b, 4) * y
  {
    PowersOf(b);
    var b2, b3 := b * b, b * (b * b);
    assert b * (b * y) == b2 * y;
    assert b * (b2 * y) == b3 * y;
    assert b * (b3 * y) == (b * b3) * y;
  }

  lemma PowersOf(b: nat)
    ensures Pow(b, 4) == b * (b * (b * b)) && Pow(b, 5) == b * Pow(b, 4)
  {
    assert Pow(b, 0) == 1 && Pow(b, 1) == b && Pow(b, 2) == b * b;
    assert Pow(b, 3) == b * Pow(b, 2);
  }

  /** Rotating multiplies by the radix, up to a multiple of the modulus. */
  lemma RotatedValue(b: nat, c: nat, f: Five)
    ensures Cong(Value(b, Rotated(c, f)), b * Value(b, f), Fold(b, c))
  {
    var low: int, y: int := Value(b, f.(x4 := 0)), f.x4;
    ValueTop(b, f);
    PowersOf(b);
    LowRotates(b, f);
    hide Pow, Value, Rotated;
    FoldedOnce(b, c, low, y, Pow(b, 4));
    MultipleOf(Fold(b, c), -y);
  }

  lemma FoldedOnce(b: int, c: int, low: int, y: int, p: int)
    ensures c * y + b * low - b * (low + p * y) == (b * p - c) * -y
  {
    assert b * (low + p * y) == b * low + b * (p * y);
    assert b * (p * y) == (b * p) * y;
    assert (b * p - c) * -y == -((b * p) * y) + c * y;
  }

  lemma LowRotates(b: nat, f: Five)
    ensures Value(b, Rotated(0, f)) == b * Value(b, f.(x4 := 0))
    ensures forall c: nat :: Value(b, Rotated(c, f)) == c * f.x4 + Value(b, Rotated(0, f))
  {
    var t := f.(x4 := 0);
    assert Horner(b, f.x3, 0) == f.x3;
    assert Value(b, t) == Horner(b, f.x0, Horner(b, f.x1, Horner(b, f.x2, f.x3)));
    assert 0 * f.x4 == 0;
  }

  /** The convolution with its upper limbs folded back in, as both sources write it out. */
  function Product(c: nat, h: Five, r: Five): Five {
    var r1, r2, r3 := Rotated(c, r), Rotated(c, Rotated(c, r)), Rotated(c, Rotated(c, Rotated(c, r)));
    Add(Scale(h.x0, r), Add(Scale(h.x1, r1), Add(Scale(h.x2, r2), Add(Scale(h.x3, r3), Scale(h.x4, Rotated(c, r3))))))
  }

  lemma {:induction false} RotatedTimes(b: nat, c: nat, h: nat, f: Five, g: Five, v: int)
    requires g == Rotated(c, f) && Cong(Value(b, f), v, Fold(b, c))
    ensures Cong(Value(b, g), b * v, Fold(b, c))
    ensures Cong(Value(b, Scale(h, g)), h * (b * v), Fold(b, c))
  {
    var n := Fold(b, c);
    RotatedValue(b, c, f);
    CongRefl(b, n);
    CongMul(b, b, Value(b, f), v, n);
    CongTrans(Value(b, g), b * Value(b, f), b * v, n);
    CongRefl(h, n);
    CongMul(h, h, Value(b, g), b * v, n);
    ScaleValue(b, h, g);
  }

  lemma CongAdd(a: int, b: int, c: int, d: int, n: int)
    requires Cong(a, b, n) && Cong(c, d, n)
    ensures Cong(a + c, b + d, n)
  {
    MultipleSum(n, a - b, c - d);
    assert (a - b) + (c - d) == (a + c) - (b + d);
  }

  /** The folded convolution is the product, modulo the fifth power of the radix less c. */
  lemma ProductIsProduct(b: nat, c: nat, h: Five, r: Five)
    ensures Cong(Value(b, Product(c, h, r)), Value(b, h) * Value(b, r), Fold(b, c))
  {
    hide Value, Add, Scale, Rotated, Fold;
    var n, v := Fold(b, c), Value(b, r);
    var r1, r2, r3 := Rotated(c, r), Rotated(c, Rotated(c, r)), Rotated(c, Rotated(c, Rotated(c, r)));
    var r4 := Rotated(c, r3);
    CongRefl(v, n);
    RotatedTimes(b, c, h.x1, r, r1, v);
    RotatedTimes(b, c, h.x2, r1, r2, b * v);
    RotatedTimes(b, c, h.x3, r2, r3, b * (b * v));
    RotatedTimes(b, c, h.x4, r3, r4, b * (b * (b * v)));
    ScaleValue(b, h.x0, r);
    CongRefl(h.x0 * v, n);
    var s0, s1, s2, s3, s4 := Scale(h.x0, r), Scale(h.x1, r1), Scale(h.x2, r2), Scale(h.x3, r3), Scale(h.x4, r4);
    AddValue(b, s3, s4);
    AddValue(b, s2, Add(s3, s4));
    AddValue(b, s1, Add(s2, Add(s3, s4)));
    AddValue(b, s0, Add(s1, Add(s2, Add(s3, s4))));
    var v1 := b * v;
    var v2 := b * v1;
    var v3 := b * v2;
    var v4 := b * v3;
    CongAdd(Value(b, s3), h.x3 * v3, Value(b, s4), h.x4 * v4, n);
    CongAdd(Value(b, s2), h.x2 * v2, Value(b, Add(s3, s4)), h.x3 * v3 + h.x4 * v4, n);
    CongAdd(Value(b, s1), h.x1 * v1, Value(b, Add(s2, Add(s3, s4))), h.x2 * v2 + (h.x3 * v3 + h.x4 * v4), n);
    CongAdd(Value(b, s0), h.x0 * v, Value(b, Add(s1, Add(s2, Add(s3, s4)))),
            h.x1 * v1 + (h.x2 * v2 + (h.x3 * v3 + h.x4 * v4)), n);
    HornerTimes(b, h, v);
  }

  lemma HornerTimes(b: nat, h: Five, v: int)
    ensures h.x0 * v + (h.x1 * (b * v) + (h.x2 * (b * (b * v))
              + (h.x3 * (b * (b * (b * v))) + h.x4 * (b * (b * (b * (b * v)))))))
            == Value(b, h) * v
  {
    hide Horner;
    var y3 := Horner(b, h.x3, h.x4);
    var y2 := Horner(b, h.x2, y3);
    var y1 := Horner(b, h.x1, y2);
    var v1 := b * v;
    var v2 := b * v1;
    var v3 := b * v2;
    OneTerm(b, h.x3, h.x4, v3);
    OneTerm(b, h.x2, y3, v2);
    OneTerm(b, h.x1, y2, v1);
    OneTerm(b, h.x0, y1, v);
  }

  lemma OneTerm(b: nat, x: int, y: int, v: int)
    ensures x * v + y * (b * v) == Horner(b, x, y) * v
  {
    assert y * (b * v) == (b * y) * v;
    assert x * v + (b * y) * v == (x + b * y) * v;
  }

  // ---------- carries ----------

  /** A limb shifted right by the width of the radix, and masked to it. */
  function High(b: nat, x: nat): (q: nat)
    requires b > 0
    ensures b * q <= x < b * q + b
  {
    assert x == b * (x / b) + x % b;
    x / b
  }

  function Low(b: nat, x: nat): (r: nat)
    requires b > 0
    ensures r < b && x == b * High(b, x) + r
  {
    x % b
  }

  lemma HighOfSmall(b: nat, x: nat)
    requires x < b + b
    ensures High(b, x) == if x < b then 0 else 1
  {
    QuotientIs(x, b, if x < b then 0 else 1, if x < b then x else x - b);
  }

  lemma CarryOut(b: nat, x: nat, y: int)
    requires b > 0
    ensures Horner(b, Low(b, x), y + High(b, x)) == Horner(b, x, y)
  {
    hide High, Low;
    assert b * (y + High(b, x)) == b * y + b * High(b, x);
  }

  /** The limbs after one carry pass, and what falls out at the top. */
  function Carried(b: nat, t: Five): (Five, nat)
    requires b > 0
  {
    hide High, Low;
    var t1 := t.x1 + High(b, t.x0);
    var t2 := t.x2 + High(b, t1);
    var t3 := t.x3 + High(b, t2);
    var t4 := t.x4 + High(b, t3);
    (Five(Low(b, t.x0), Low(b, t1), Low(b, t2), Low(b, t3), Low(b, t4)), High(b, t4))
  }

  function FoldBack(c: nat, low: Five, top: nat): Five {
    assert c * top >= 0;
    low.(x0 := low.x0 + c * top)
  }

  /** A carry pass that adds the top carry back in times c keeps the number, modulo the fold. */
  lemma CarryKeeps(b: nat, c: nat, t: Five)
    requires b > 0
    ensures var (low, top) := Carried(b, t);
            Cong(Value(b, FoldBack(c, low, top)), Value(b, t), Fold(b, c))
  {
    hide High, Low, Pow, Horner;
    var pair := Carried(b, t);
    var low, top: int := pair.0, pair.1;
    var t1 := t.x1 + High(b, t.x0);
    var t2 := t.x2 + High(b, t1);
    var t3 := t.x3 + High(b, t2);
    var t4 := t.x4 + High(b, t3);
    ChainValue(b, t, t1, t2, t3, t4);
    var mid := Five(Low(b, t.x0), Low(b, t1), Low(b, t2), Low(b, t3), t4);
    ValueTop(b, mid);
    ValueTop(b, low);
    PowersOf(b);
    HornerShift(b, low.x0, Horner(b, low.x1, Horner(b, low.x2, Horner(b, low.x3, low.x4))), c * top);
    FoldedBack(b, c, Value(b, low.(x4 := 0)), low.x4, top, Pow(b, 4));
    MultipleOf(Fold(b, c), -top);
  }

  lemma FoldedBack(b: int, c: int, v: int, low: int, top: int, p: int)
    ensures (v + p * low + c * top) - (v + p * (b * top + low)) == (b * p - c) * -top
  {
    assert p * (b * top + low) == p * (b * top) + p * low;
    assert p * (b * top) == (b * p) * top;
    assert (b * p - c) * -top == -((b * p) * top) + c * top;
  }

  lemma ChainValue(b: nat, t: Five, t1: nat, t2: nat, t3: nat, t4: nat)
    requires b > 0 && t1 == t.x1 + High(b, t.x0) && t2 == t.x2 + High(b, t1)
    requires t3 == t.x3 + High(b, t2) && t4 == t.x4 + High(b, t3)
    ensures Value(b, Five(Low(b, t.x0), Low(b, t1), Low(b, t2), Low(b, t3), t4)) == Value(b, t)
  {
    hide Horner, High, Low;
    CarryOut(b, t3, t.x4);
    CarryOut(b, t2, Horner(b, t.x3, t.x4));
    HornerShift(b, t.x3, t.x4, High(b, t2));
    var y2 := Horner(b, t.x2, Horner(b, t.x3, t.x4));
    CarryOut(b, t1, y2);
    HornerShift(b, t.x2, Horner(b, t.x3, t.x4), High(b, t1));
    CarryOut(b, t.x0, Horner(b, t.x1, y2));
    HornerShift(b, t.x1, y2, High(b, t.x0));
  }

  lemma HornerShift(b: nat, x: int, y: int, d: int)
    ensures Horner(b, x + d, y) == Horner(b, x, y) + d
  {
  }

  // ---------- the conditional subtraction at the end ----------

  /** All limbs below the radix. */
  predicate Tight(b: nat, f: Five) { f.x0 < b && f.x1 < b && f.x2 < b && f.x3 < b && f.x4 < b }

  lemma TightBound(b: nat, f: Five)
    requires Tight(b, f)
    ensures 0 <= Value(b, f) < Pow(b, 5)
  {
    hide Horner;
    HornerBound(b, f.x3, f.x4, b);
    HornerBound(b, f.x2, Horner(b, f.x3, f.x4), b * b);
    var y2 := Horner(b, f.x2, Horner(b, f.x3, f.x4));
    HornerBound(b, f.x1, y2, b * (b * b));
    HornerBound(b, f.x0, Horner(b, f.x1, y2), b * (b * (b * b)));
    PowersOf(b);
  }

  lemma HornerBound(b: nat, x: nat, y: int, m: int)
    requires x < b && 0 <= y < m
    ensures 0 <= Horner(b, x, y) < b * m
  {
    assert b * y >= 0;
    MulGap(b, y, m);
  }

  /** x - y - borrow in one limb, and the borrow it leaves. */
  function SubLimb(b: nat, x: int, y: int, borrow: int): (int, int) {
    var d := x - y - borrow;
    if d < 0 then (d + b, 1) else (d, 0)
  }

  lemma SubStep(b: nat, x: int, y: int, borrow: int, u: int, v: int)
    ensures var (d, out) := SubLimb(b, x, y, borrow);
            Horner(b, d, u - v - out) == Horner(b, x, u) - Horner(b, y, v) - borrow
  {
    var (d, out) := SubLimb(b, x, y, borrow);
    assert b * (u - v - out) == b * u - b * v - b * out;
    assert out == 0 ==> b * out == 0;
    assert out == 1 ==> b * out == b;
  }

  /** Limb by limb with a borrow, and the borrow out of the top. */
  function Difference(b: nat, h: Five, p: Five): (r: (Five, int))
    requires Tight(b, h) && Tight(b, p)
    ensures Tight(b, r.0) && 0 <= r.1 <= 1
  {
    var (d0, b0) := SubLimb(b, h.x0, p.x0, 0);
    var (d1, b1) := SubLimb(b, h.x1, p.x1, b0);
    var (d2, b2) := SubLimb(b, h.x2, p.x2, b1);
    var (d3, b3) := SubLimb(b, h.x3, p.x3, b2);
    var (d4, b4) := SubLimb(b, h.x4, p.x4, b3);
    (Five(d0, d1, d2, d3, d4), b4)
  }

  lemma DifferenceValue(b: nat, h: Five, p: Five)
    requires Tight(b, h) && Tight(b, p)
    ensures var (d, borrow) := Difference(b, h, p);
            Value(b, d) - Pow(b, 5) * borrow == Value(b, h) - Value(b, p)
  {
    hide Horner, SubLimb;
    var (d0, b0) := SubLimb(b, h.x0, p.x0, 0);
    var (d1, b1) := SubLimb(b, h.x1, p.x1, b0);
    var (d2, b2) := SubLimb(b, h.x2, p.x2, b1);
    var (d3, b3) := SubLimb(b, h.x3, p.x3, b2);
    var (d4, b4) := SubLimb(b, h.x4, p.x4, b3);
    LastLimb(b, h.x4, p.x4, b3);
    SubStep(b, h.x3, p.x3, b2, h.x4, p.x4);
    var h3, p3 := Horner(b, h.x3, h.x4), Horner(b, p.x3, p.x4);
    SubStep(b, h.x2, p.x2, b1, h3, p3);
    var h2, p2 := Horner(b, h.x2, h3), Horner(b, p.x2, p3);
    SubStep(b, h.x1, p.x1, b0, h2, p2);
    SubStep(b, h.x0, p.x0, 0, Horner(b, h.x1, h2), Horner(b, p.x1, p2));
    TopBorrow(b, d0, d1, d2, d3, d4, b4);
  }

  lemma LastLimb(b: nat, x: int, y: int, borrow: int)
    ensures var (d, out) := SubLimb(b, x, y, borrow);
            d - b * out == x - y - borrow
  {
    var (d, out) := SubLimb(b, x, y, borrow);
    assert out == 1 ==> b * out == b;
  }

  lemma TopBorrow(b: nat, d0: int, d1: int, d2: int, d3: int, d4: int, out: int)
    ensures Horner(b, d0, Horner(b, d1, Horner(b, d2, Horner(b, d3, d4 - b * out))))
            == Horner(b, d0, Horner(b, d1, Horner(b, d2, Horner(b, d3, d4)))) - Pow(b, 5) * out
  {
    var x := b * out;
    HornerSum(b, d3, d4, 0, -x);
    HornerSum(b, d2, Horner(b, d3, d4), 0, b * -x);
    HornerSum(b, d1, Horner(b, d2, Horner(b, d3, d4)), 0, b * (b * -x));
    HornerSum(b, d0, Horner(b, d1, Horner(b, d2, Horner(b, d3, d4))), 0, b * (b * (b * -x)));
    FourPowers(b, -x);
    PowersOf(b);
    assert Pow(b, 4) * -(b * out) == -((b * Pow(b, 4)) * out) by {
      Regroup(Pow(b, 4), b, out);
    }
  }

  lemma Regroup(p: int, b: int, out: int)
    ensures p * -(b * out) == -((b * p) * out)
  {
    assert p * (b * out) == (b * p) * out;
  }

  /** The difference from p is taken if it needs no borrow: a number below p + c is at most
      one subtraction away from its residue. */
  lemma OneSubtraction(p: int, c: int, v: int, diff: int, borrow: int, w: int, f: int)
    requires 0 <= v < p + c && 0 <= diff < p + c && 0 <= borrow <= 1 && c <= p && Cong(v, w, p)
    requires diff - (p + c) * borrow == v - p
    requires f == if borrow == 0 then diff else v
    ensures f == w % p
  {
    if borrow == 0 {
      assert diff - v == p * -1;
      MultipleOf(p, -1);
      CongTrans(f, v, w, p);
    }
    CongIsMod(f, w, p);
  }

  // ---------- how large the folded convolution gets ----------

  predicate AtMost(f: Five, m: nat) { f.x0 <= m && f.x1 <= m && f.x2 <= m && f.x3 <= m && f.x4 <= m }

  lemma ScaleBound(h: nat, f: Five, hm: nat, m: nat)
    requires h <= hm && AtMost(f, m)
    ensures hm * m >= 0 && AtMost(Scale(h, f), hm * m)
  {
    MulBoth(h, f.x0, hm, m);
    MulBoth(h, f.x1, hm, m);
    MulBoth(h, f.x2, hm, m);
    MulBoth(h, f.x3, hm, m);
    MulBoth(h, f.x4, hm, m);
  }

  lemma MulBoth(x: nat, y: nat, xm: nat, ym: nat)
    requires x <= xm && y <= ym
    ensures x * y <= xm * ym
  {
    MulMono(x, y, ym);
    MulMono(ym, x, xm);
  }

  lemma ProductBound(c: nat, h: Five, r: Five, hm: nat, rm: nat, cr: nat)
    requires AtMost(h, hm) && AtMost(r, rm) && c >= 1 && cr == c * rm
    ensures hm * cr >= 0 && AtMost(Product(c, h, r), 5 * (hm * cr))
  {
    hide Scale;
    MulMono(rm, 1, c);
    MulMono(c, r.x4, rm);
    MulMono(c, r.x3, rm);
    MulMono(c, r.x2, rm);
    MulMono(c, r.x1, rm);
    var r1, r2, r3 := Rotated(c, r), Rotated(c, Rotated(c, r)), Rotated(c, Rotated(c, Rotated(c, r)));
    ScaleBound(h.x0, r, hm, cr);
    ScaleBound(h.x1, r1, hm, cr);
    ScaleBound(h.x2, r2, hm, cr);
    ScaleBound(h.x3, r3, hm, cr);
    ScaleBound(h.x4, Rotated(c, r3), hm, cr);
  }

  /** The five sums of products as the sources write them; s holds the folded limbs of r. */
  function Convolution(h: Five, r: Five, s: Five): Five {
    NatProducts(h.x0, r);
    NatProducts(h.x1, r);
    NatProducts(h.x2, r);
    NatProducts(h.x3, r);
    NatProducts(h.x4, r);
    NatProducts(h.x1, s);
    NatProducts(h.x2, s);
    NatProducts(h.x3, s);
    NatProducts(h.x4, s);
    Five(
      h.x0 * r.x0 + h.x1 * s.x4 + h.x2 * s.x3 + h.x3 * s.x2 + h.x4 * s.x1,
      h.x0 * r.x1 + h.x1 * r.x0 + h.x2 * s.x4 + h.x3 * s.x3 + h.x4 * s.x2,
      h.x0 * r.x2 + h.x1 * r.x1 + h.x2 * r.x0 + h.x3 * s.x4 + h.x4 * s.x3,
      h.x0 * r.x3 + h.x1 * r.x2 + h.x2 * r.x1 + h.x3 * r.x0 + h.x4 * s.x4,
      h.x0 * r.x4 + h.x1 * r.x3 + h.x2 * r.x2 + h.x3 * r.x1 + h.x4 * r.x0)
  }

  lemma ConvolutionIsProduct(c: nat, h: Five, r: Five, s: Five)
    requires s.x1 == c * r.x1 && s.x2 == c * r.x2 && s.x3 == c * r.x3 && s.x4 == c * r.x4
    ensures Convolution(h, r, s) == Product(c, h, r)
  {
  }
}
