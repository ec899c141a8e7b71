/** Multiplication in GF(2^128) and GHASH (crates/otter-crypto/src/ghash.rs). A 128-bit word
    is its sequence of bits, leftmost first: bit i is the coefficient of a^i. */
module Ghash {
  import opened Bytes
  import opened BitStreams
  import opened BitPolynomials

  type Element = e: Bits | |e| == 128 witness Zeros(128)

  // ---------- polynomials and their remainder ----------

  /** Shifted by `base`: 1 + a + a^2 + a^7, which a^128 equals modulo the field polynomial. */
  function Tail(n: nat, base: nat): (r: Bits)
    ensures |r| == n
  {
    seq(n, i => i == base || i == base + 1 || i == base + 2 || i == base + 7)
  }

  /** The top coefficient, of degree at least 128, folded down. */
  function FoldTop(p: Bits): (r: Bits)
    requires |p| > 128
    ensures |r| == |p| - 1
  {
    var n := |p| - 1;
    if p[n] then Xor(p[..n], Tail(n, n - 128)) else p[..n]
  }

  /** The remainder modulo a^128 + a^7 + a^2 + a + 1, by folding from the top. */
  function Reduce(p: Bits): (r: Element)
    requires |p| >= 128
    decreases |p|
  {
    if |p| == 128 then p else Reduce(FoldTop(p))
  }

  lemma FoldXor(p: Bits, q: Bits)
    requires |p| == |q| > 128
    ensures FoldTop(Xor(p, q)) == Xor(FoldTop(p), FoldTop(q))
  {
  }

  lemma {:induction false} ReduceXor(p: Bits, q: Bits)
    requires |p| == |q| >= 128
    ensures Reduce(Xor(p, q)) == Xor(Reduce(p), Reduce(q))
    decreases |p|
  {
    if |p| > 128 {
      FoldXor(p, q);
      ReduceXor(FoldTop(p), FoldTop(q));
    }
  }

  /** Times a: one place up, the bit that falls out folded back in. */
  function TimesA(v: Element): Element {
    var shifted := [false] + v[..127];
    if v[127] then Xor(shifted, Tail(128, 0)) else shifted
  }

  lemma FoldShift(p: Bits)
    requires |p| > 128
    ensures FoldTop([false] + p) == [false] + FoldTop(p)
  {
    var n := |p| - 1;
    assert ([false] + p)[..n + 1] == [false] + p[..n];
    assert Tail(n + 1, n + 1 - 128) == [false] + Tail(n, n - 128);
  }

  /** Taking the remainder of a times p is multiplying the remainder by a. */
  lemma {:induction false} ReduceShift(p: Bits)
    requires |p| >= 128
    ensures Reduce([false] + p) == TimesA(Reduce(p))
    decreases |p|
  {
    if |p| == 128 {
      assert ([false] + p)[..128] == [false] + p[..127];
    } else {
      FoldShift(p);
      ReduceShift(FoldTop(p));
    }
  }

  lemma {:induction false} ReduceTopZeros(p: Bits, n: nat)
    requires |p| >= 128
    ensures Reduce(p + Zeros(n)) == Reduce(p)
    decreases n
  {
    if n == 0 {
      assert p + Zeros(0) == p;
    } else {
      assert (p + Zeros(n))[..|p| + n - 1] == p + Zeros(n - 1);
      ReduceTopZeros(p, n - 1);
    }
  }

  /** Times a, n times. */
  function Shifted(v: Element, n: nat): Element {
    if n == 0 then v else TimesA(Shifted(v, n - 1))
  }

  lemma {:induction false} ReduceLowZeros(v: Element, n: nat)
    ensures Reduce(Zeros(n) + v) == Shifted(v, n)
    decreases n
  {
    hide Reduce, TimesA;
    if n == 0 {
      assert Zeros(0) + v == v;
      ReducedAlready(v);
    } else {
      ReduceLowZeros(v, n - 1);
      ReduceShift(Zeros(n - 1) + v);
      OneMoreZero(v, n);
    }
  }

  lemma ReducedAlready(v: Element)
    ensures Reduce(v) == v
  {
  }

  lemma OneMoreZero(v: Bits, n: nat)
    requires n > 0
    ensures [false] + (Zeros(n - 1) + v) == Zeros(n) + v
  {
  }

  // ---------- schoolbook multiplication ----------

  /** Whether an odd number of bits is set. */
  function Parity(s: Bits): bool {
    if s == [] then false else Parity(s[..|s| - 1]) != s[|s| - 1]
  }

  /** All products of coefficients whose degrees add up to k, by the degree in x. */
  function Terms(x: Element, y: Element, k: nat): (s: Bits)
    ensures |s| == k + 1
  {
    seq(k + 1, i requires 0 <= i <= k => i < 128 && k - i < 128 && x[i] && y[k - i])
  }

  /** The product of two polynomials of degree below 128. */
  function Convolution(x: Element, y: Element): (p: Bits)
    ensures |p| == 255
  {
    seq(255, k requires 0 <= k < 255 => Parity(Terms(x, y, k)))
  }

  /** The field product: the product of the polynomials, reduced. */
  function FieldProduct(x: Element, y: Element): Element { Reduce(Convolution(x, y)) }

  lemma {:induction false} ParityFront(s: Bits)
    requires s != []
    ensures Parity(s) == (s[0] != Parity(s[1..]))
  {
    if |s| == 1 {
      assert s[..0] == [] && s[1..] == [];
    } else {
      var n := |s| - 1;
      ParityFront(s[..n]);
      assert s[..n][1..] == s[1..][..n - 1];
    }
  }

  function Reversed(s: Bits): (r: Bits)
    ensures |r| == |s|
  {
    seq(|s|, i requires 0 <= i < |s| => s[|s| - 1 - i])
  }

  lemma {:induction false} ParityReversed(s: Bits)
    ensures Parity(Reversed(s)) == Parity(s)
  {
    if s != [] {
      var n := |s| - 1;
      ParityFront(Reversed(s));
      assert Reversed(s)[1..] == Reversed(s[..n]);
      ParityReversed(s[..n]);
    }
  }

  lemma ConvolutionCommutes(x: Element, y: Element)
    ensures Convolution(x, y) == Convolution(y, x)
  {
    forall k: nat | k < 255 ensures Parity(Terms(x, y, k)) == Parity(Terms(y, x, k)) {
      assert Terms(y, x, k) == Reversed(Terms(x, y, k));
      ParityReversed(Terms(x, y, k));
    }
  }

  // ---------- the shift-and-add loop ----------

  /** y times the first n coefficients of x, accumulated as the loop does. */
  function Accumulated(x: Element, y: Element, n: nat): Element
    requires n <= 128
  {
    if n == 0 then Zeros(128)
    else if x[n - 1] then Xor(Accumulated(x, y, n - 1), Shifted(y, n - 1))
    else Accumulated(x, y, n - 1)
  }

  /** The product as the source computes it. */
  function Product(x: Element, y: Element): Element { Accumulated(x, y, 128) }

  /** The first n rows of the schoolbook product. */
  function Rows(x: Element, y: Element, n: nat): (p: Bits)
    requires n <= 128
    ensures |p| == 255
  {
    if n == 0 then Zeros(255)
    else if x[n - 1] then Xor(Rows(x, y, n - 1), Zeros(n - 1) + y + Zeros(128 - n))
    else Rows(x, y, n - 1)
  }

  lemma {:induction false} RowsReduce(x: Element, y: Element, n: nat)
    requires n <= 128
    ensures Reduce(Rows(x, y, n)) == Accumulated(x, y, n)
    decreases n
  {
    if n == 0 {
      assert Zeros(255) == Zeros(128) + Zeros(127);
      ReduceTopZeros(Zeros(128), 127);
    } else {
      RowsReduce(x, y, n - 1);
      if x[n - 1] {
        var row := Zeros(n - 1) + y;
        ReduceXor(Rows(x, y, n - 1), row + Zeros(128 - n));
        ReduceTopZeros(row, 128 - n);
        ReduceLowZeros(y, n - 1);
      }
    }
  }

  /** Coefficient k of the first n rows collects the terms with degree below n in x. */
  lemma {:induction false} RowsCoefficient(x: Element, y: Element, n: nat, k: nat)
    requires n <= 128 && k < 255
    ensures Rows(x, y, n)[k] == Parity(Terms(x, y, k)[..if n < k + 1 then n else k + 1])
    decreases n
  {
    var t := Terms(x, y, k);
    if n > 0 {
      RowsCoefficient(x, y, n - 1, k);
      if n <= k + 1 {
        assert t[..n][..n - 1] == t[..n - 1];
      }
    }
  }

  /** The loop computes the field product. */
  lemma ProductIsFieldProduct(x: Element, y: Element)
    ensures Product(x, y) == FieldProduct(x, y)
  {
    forall k: nat | k < 255 ensures Rows(x, y, 128)[k] == Convolution(x, y)[k] {
      RowsCoefficient(x, y, 128, k);
      var t := Terms(x, y, k);
      if k >= 128 { NoMoreTerms(t, 128); } else { assert t[..k + 1] == t; }
    }
    assert Rows(x, y, 128) == Convolution(x, y);
    RowsReduce(x, y, 128);
  }

  lemma {:induction false} NoMoreTerms(s: Bits, n: nat)
    requires n <= |s| && forall i :: n <= i < |s| ==> !s[i]
    ensures Parity(s) == Parity(s[..n])
    decreases |s|
  {
    if n == |s| {
      assert s[..n] == s;
    } else {
      NoMoreTerms(s[..|s| - 1], n);
      assert s[..|s| - 1][..n] == s[..n];
    }
  }

  method Gf128Mul(x: Element, y: Element) returns (z: Element)
    ensures z == FieldProduct(x, y)
  {
    hide Reduce, Convolution, Zeros, Xor;
    z := Zeros(128);
    var v: Element := y;
    for i := 0 to 128
      invariant z == Accumulated(x, y, i) && v == Shifted(y, i)
    {
      if x[i] {
        z := Xor(z, v);
      }
      var carry := v[127];
      v := [false] + v[..127];
      if carry {
        v := Xor(v, Tail(128, 0));
      }
    }
    ProductIsFieldProduct(x, y);
  }

  // ---------- the laws of the field ----------

  lemma ProductCommutes(x: Element, y: Element)
    ensures Product(x, y) == Product(y, x)
  {
    ProductIsFieldProduct(x, y);
    ProductIsFieldProduct(y, x);
    ConvolutionCommutes(x, y);
  }

  lemma TimesAXor(v: Element, w: Element)
    ensures TimesA(Xor(v, w)) == Xor(TimesA(v), TimesA(w))
  {
  }

  lemma {:induction false} ShiftedXor(v: Element, w: Element, n: nat)
    ensures Shifted(Xor(v, w), n) == Xor(Shifted(v, n), Shifted(w, n))
    decreases n
  {
    hide TimesA;
    if n > 0 {
      ShiftedXor(v, w, n - 1);
      TimesAXor(Shifted(v, n - 1), Shifted(w, n - 1));
    }
  }

  lemma {:induction false} AccumulatedXor(x: Element, v: Element, w: Element, n: nat)
    requires n <= 128
    ensures Accumulated(x, Xor(v, w), n) == Xor(Accumulated(x, v, n), Accumulated(x, w, n))
    decreases n
  {
    hide Shifted, Xor;
    if n == 0 {
      XorZeros(Zeros(128));
    } else {
      AccumulatedXor(x, v, w, n - 1);
      ShiftedXor(v, w, n - 1);
      XorFour(Accumulated(x, v, n - 1), Accumulated(x, w, n - 1), Shifted(v, n - 1), Shifted(w, n - 1));
    }
  }

  /** Multiplication distributes over XOR on both sides. */
  lemma ProductDistributes(x: Element, v: Element, w: Element)
    ensures Product(x, Xor(v, w)) == Xor(Product(x, v), Product(x, w))
    ensures Product(Xor(v, w), x) == Xor(Product(v, x), Product(w, x))
  {
    hide Accumulated;
    AccumulatedXor(x, v, w, 128);
    ProductCommutes(x, Xor(v, w));
    ProductCommutes(x, v);
    ProductCommutes(x, w);
  }

  lemma {:induction false} ShiftedTwice(v: Element, n: nat)
    ensures Shifted(TimesA(v), n) == TimesA(Shifted(v, n))
    decreases n
  {
    hide TimesA;
    if n > 0 { ShiftedTwice(v, n - 1); }
  }

  lemma ZeroTimesA()
    ensures TimesA(Zeros(128)) == Zeros(128)
  {
  }

  lemma {:induction false} AccumulatedTimesA(x: Element, v: Element, n: nat)
    requires n <= 128
    ensures Accumulated(x, TimesA(v), n) == TimesA(Accumulated(x, v, n))
    decreases n
  {
    hide TimesA, Shifted, Xor;
    if n == 0 {
      ZeroTimesA();
    } else {
      AccumulatedTimesA(x, v, n - 1);
      ShiftedTwice(v, n - 1);
      TimesAXor(Accumulated(x, v, n - 1), Shifted(v, n - 1));
    }
  }

  lemma {:induction false} ProductShifted(x: Element, v: Element, n: nat)
    ensures Product(x, Shifted(v, n)) == Shifted(Product(x, v), n)
    decreases n
  {
    hide TimesA, Accumulated;
    if n > 0 {
      ProductShifted(x, v, n - 1);
      AccumulatedTimesA(x, Shifted(v, n - 1), 128);
    }
  }

  lemma ProductZero(x: Element)
    ensures Product(x, Zeros(128)) == Zeros(128)
  {
    XorZeros(Zeros(128));
    ProductDistributes(x, Zeros(128), Zeros(128));
    XorZeros(Product(x, Zeros(128)));
  }

  /** A product with an accumulated product accumulates the products. */
  lemma {:induction false} ProductAccumulated(z: Element, x: Element, y: Element, n: nat)
    requires n <= 128
    ensures Product(z, Accumulated(x, y, n)) == Accumulated(x, Product(z, y), n)
    decreases n
  {
    hide Product, Shifted, Xor;
    if n == 0 {
      ProductZero(z);
    } else {
      ProductAccumulated(z, x, y, n - 1);
      ProductShifted(z, y, n - 1);
      ProductDistributes(z, Accumulated(x, y, n - 1), Shifted(y, n - 1));
    }
  }

  lemma ProductAssociates(x: Element, y: Element, z: Element)
    ensures Product(Product(x, y), z) == Product(x, Product(y, z))
  {
    hide Accumulated;
    ProductCommutes(Product(x, y), z);
    ProductAccumulated(z, x, y, 128);
    ProductCommutes(z, y);
  }

  /** The block 80 00 ... 00 is the one of the field. */
  function One(): Element { [true] + Zeros(127) }

  lemma ProductOne(x: Element)
    ensures Product(One(), x) == x && Product(x, One()) == x
  {
    OnlyFirst(x, 128);
    ProductCommutes(One(), x);
  }

  lemma {:induction false} OnlyFirst(y: Element, n: nat)
    requires 1 <= n <= 128
    ensures Accumulated(One(), y, n) == y
    decreases n
  {
    if n == 1 {
      assert Accumulated(One(), y, 0) == Zeros(128);
      XorZeros(y);
    } else {
      OnlyFirst(y, n - 1);
    }
  }

  // ---------- the hash ----------

  /** The element of a block of sixteen bytes, most significant bit of the first byte first. */
  function BlockElement(block: ByteString): Element
    requires |block| == 16
  {
    seq(128, i requires 0 <= i < 128 => BitOf(block[i / 8], 7 - i % 8))
  }

  /** The elements of data, the last block filled up with zero bytes. */
  function PaddedBlocks(data: ByteString): seq<Element>
    decreases |data|
  {
    if data == [] then []
    else if |data| < 16 then [BlockElement(data + seq(16 - |data|, _ => 0))]
    else [BlockElement(data[..16])] + PaddedBlocks(data[16..])
  }

  /** The byte eight bits spell, most significant first. */
  function ByteOf(bits: Bits): Byte
    requires |bits| == 8
  {
    LsbBound(Reversed(bits));
    WholeByteValue();
    LsbValue(Reversed(bits))
  }

  /** The sixteen bytes of an element. */
  function ElementBytes(e: Element): (b: ByteString)
    ensures |b| == 16
  {
    seq(16, j requires 0 <= j < 16 => ByteOf(e[8 * j..8 * j + 8]))
  }

  lemma ByteOfBit(bits: Bits, i: nat)
    requires |bits| == 8 && i < 8
    ensures BitOf(ByteOf(bits), 7 - i) == bits[i]
  {
    BitsOfValue(Reversed(bits));
    LowBitAt(ByteOf(bits), 8, 7 - i);
  }

  lemma ElementRoundTrip(e: Element)
    ensures BlockElement(ElementBytes(e)) == e
  {
    hide ByteOf;
    forall i: nat | i < 128 ensures BlockElement(ElementBytes(e))[i] == e[i] {
      ByteOfBit(e[8 * (i / 8)..8 * (i / 8) + 8], i % 8);
    }
  }

  /** One block after the other: exclusive-or, then multiply. */
  function Hashed(h: Element, y: Element, blocks: seq<Element>): Element
    decreases |blocks|
  {
    if blocks == [] then y else Hashed(h, Product(Xor(y, blocks[0]), h), blocks[1..])
  }

  function Power(h: Element, n: nat): Element {
    if n == 0 then One() else Product(h, Power(h, n - 1))
  }

  /** The polynomial with the blocks as coefficients, the first at the highest power. */
  function Polynomial(h: Element, blocks: seq<Element>): Element {
    if blocks == [] then Zeros(128)
    else Xor(Product(blocks[0], Power(h, |blocks|)), Polynomial(h, blocks[1..]))
  }

  /** GHASH is polynomial evaluation at the subkey (section 6.4 of NIST SP 800-38D). */
  lemma {:induction false} HashedIsPolynomial(h: Element, y: Element, blocks: seq<Element>)
    ensures Hashed(h, y, blocks) == Xor(Product(y, Power(h, |blocks|)), Polynomial(h, blocks))
    decreases |blocks|
  {
    hide Product, Xor, One, Zeros;
    if blocks == [] {
      ProductOne(y);
      XorZeros(y);
    } else {
      var b, p := blocks[0], Power(h, |blocks| - 1);
      var next := Product(Xor(y, b), h);
      HashedIsPolynomial(h, next, blocks[1..]);
      ProductAssociates(Xor(y, b), h, p);
      var q := Power(h, |blocks|);
      ProductDistributes(q, y, b);
      XorThree(Product(y, q), Product(b, q), Polynomial(h, blocks[1..]));
    }
  }

  lemma {:induction false} HashedAppend(h: Element, y: Element, blocks: seq<Element>, b: Element)
    ensures Hashed(h, y, blocks + [b]) == Product(Xor(Hashed(h, y, blocks), b), h)
    decreases |blocks|
  {
    hide Product, Xor;
    if blocks == [] {
      assert blocks + [b] == [b] && [b][1..] == [];
    } else {
      HashedAppend(h, Product(Xor(y, blocks[0]), h), blocks[1..], b);
      assert (blocks + [b])[0] == blocks[0] && (blocks + [b])[1..] == blocks[1..] + [b];
    }
  }

  class Ghash {
    const h: Element
    var y: Element
    /** The blocks absorbed so far. */
    ghost var blocks: seq<Element>

    ghost predicate Valid()
      reads this
    {
      y == Hashed(h, Zeros(128), blocks)
    }

    constructor (hBlock: ByteString)
      requires |hBlock| == 16
      ensures Valid() && h == BlockElement(hBlock) && blocks == []
    {
      h := BlockElement(hBlock);
      y := Zeros(128);
      blocks := [];
    }

    method Absorb(block: ByteString)
      requires Valid() && |block| == 16
      modifies this
      ensures Valid() && blocks == old(blocks) + [BlockElement(block)]
    {
      hide Product, Xor, Zeros, BlockElement, FieldProduct;
      y := Xor(y, BlockElement(block));
      ProductIsFieldProduct(y, h);
      HashedAppend(h, Zeros(128), blocks, BlockElement(block));
      y := Gf128Mul(y, h);
      blocks := blocks + [BlockElement(block)];
    }

    method AbsorbPadded(input: ByteString)
      requires Valid()
      modifies this
      ensures Valid() && blocks == old(blocks) + PaddedBlocks(input)
    {
      hide Valid, BlockElement;
      var data := input;
      while |data| >= 16
        invariant Valid() && blocks + PaddedBlocks(data) == old(blocks) + PaddedBlocks(input)
      {
        ghost var before := blocks;
        Absorb(data[..16]);
        assert before + ([BlockElement(data[..16])] + PaddedBlocks(data[16..])) == blocks + PaddedBlocks(data[16..]);
        data := data[16..];
      }
      if data != [] {
        Absorb(data + seq(16 - |data|, _ => 0));
      }
    }

    /** The hash, as the bytes of the polynomial's value. */
    method Finalize() returns (tag: ByteString)
      requires Valid()
      ensures |tag| == 16 && BlockElement(tag) == Polynomial(h, blocks)
    {
      hide Product, ElementBytes, BlockElement, Power;
      tag := ElementBytes(y);
      ElementRoundTrip(y);
      HashedIsPolynomial(h, Zeros(128), blocks);
      ProductCommutes(Zeros(128), Power(h, |blocks|));
      ProductZero(Power(h, |blocks|));
      XorZeros(Polynomial(h, blocks));
    }
  }
}
