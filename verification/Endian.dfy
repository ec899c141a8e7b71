/** Numbers as byte strings, in both byte orders. */
module Endian {
  import opened Bytes
  import opened Congruence

  /** The number a byte string spells, least significant byte first. */
  function LeValue(b: ByteString): nat {
    if b == [] then 0 else b[0] + 256 * LeValue(b[1..])
  }

  /** The lowest n bytes of a number, least significant first. */
  function LeBytes(v: nat, n: nat): (b: ByteString)
    ensures |b| == n
  {
    if n == 0 then [] else [v % 256] + LeBytes(v / 256, n - 1)
  }

  lemma {:induction false} LeRoundTrip(v: nat, n: nat)
    requires v < Pow(256, n)
    ensures LeValue(LeBytes(v, n)) == v
    decreases n
  {
    if n > 0 {
      assert v / 256 < Pow(256, n - 1);
      LeRoundTrip(v / 256, n - 1);
      assert LeBytes(v, n)[1..] == LeBytes(v / 256, n - 1);
    }
  }

  lemma LastDigit(d: Byte, rest: nat)
    ensures (d + 256 * rest) % 256 == d && (d + 256 * rest) / 256 == rest
  {
  }

  lemma {:induction false} LeUnique(b: ByteString)
    ensures LeBytes(LeValue(b), |b|) == b
  {
    if b != [] {
      LeUnique(b[1..]);
      var rest := LeValue(b[1..]);
      LastDigit(b[0], rest);
      assert [b[0]] + b[1..] == b;
    }
  }

  lemma {:induction false} LeBound(b: ByteString)
    ensures LeValue(b) < Pow(256, |b|)
  {
    if b != [] { LeBound(b[1..]); }
  }

  lemma {:induction false} LeConcat(a: ByteString, b: ByteString)
    ensures LeValue(a + b) == LeValue(a) + Pow(256, |a|) * LeValue(b)
  {
    if a == [] {
      assert a + b == b;
    } else {
      LeConcat(a[1..], b);
      assert (a + b)[1..] == a[1..] + b;
      ScaledProduct(256, Pow(256, |a| - 1), LeValue(b));
    }
  }

  lemma ScaledProduct(c: int, x: int, y: int)
    ensures c * (x * y) == (c * x) * y
  {
  }

  /** Zero bytes above change nothing. */
  lemma {:induction false} LeZeros(b: ByteString, z: ByteString)
    requires forall i :: 0 <= i < |z| ==> z[i] == 0
    ensures LeValue(b + z) == LeValue(b)
    decreases |b| + |z|
  {
    if b != [] {
      LeZeros(b[1..], z);
      assert (b + z)[1..] == b[1..] + z;
    } else if z != [] {
      LeZeros(b, z[1..]);
      assert b + z == z && b + z[1..] == z[1..];
    } else {
      assert b + z == b;
    }
  }

  /** The number a byte string spells, most significant byte first. */
  function BeValue(b: ByteString): nat {
    if b == [] then 0 else 256 * BeValue(b[..|b| - 1]) + b[|b| - 1]
  }

  /** A number in n bytes, most significant first. */
  function BeBytes(v: nat, n: nat): (b: ByteString)
    ensures |b| == n
  {
    if n == 0 then [] else BeBytes(v / 256, n - 1) + [v % 256]
  }

  lemma {:induction false} BeRoundTrip(v: nat, n: nat)
    requires v < Pow(256, n)
    ensures BeValue(BeBytes(v, n)) == v
    decreases n
  {
    if n > 0 {
      assert v / 256 < Pow(256, n - 1);
      BeRoundTrip(v / 256, n - 1);
      var b := BeBytes(v, n);
      assert b[..n - 1] == BeBytes(v / 256, n - 1);
    }
  }

  lemma {:induction false} BeUnique(b: ByteString)
    ensures BeBytes(BeValue(b), |b|) == b
  {
    if b != [] {
      var init, last := b[..|b| - 1], b[|b| - 1];
      BeUnique(init);
      var rest := BeValue(init);
      LastDigit(last, rest);
      assert init + [last] == b;
    }
  }

  lemma {:induction false} BeBound(b: ByteString)
    ensures BeValue(b) < Pow(256, |b|)
  {
    if b != [] { BeBound(b[..|b| - 1]); }
  }

  /** Byte i from the end of the big-endian bytes of a number is its digit of weight 256^i. */
  lemma {:induction false} BeByteAt(v: nat, n: nat, i: nat)
    requires i < n
    ensures BeBytes(v, n)[n - 1 - i] == v / Pow(256, i) % 256
    decreases n
  {
    if i == 0 {
      assert Pow(256, 0) == 1 && v / 1 == v;
    } else {
      BeByteAt(v / 256, n - 1, i - 1);
      DivDiv(v, 256, Pow(256, i - 1));
      assert BeBytes(v, n)[n - 1 - i] == BeBytes(v / 256, n - 1)[n - 1 - i];
    }
  }
}
