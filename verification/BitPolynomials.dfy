/** Polynomials with coefficients 0 and 1 as bit sequences: addition is exclusive or. */
module BitPolynomials {
  import opened BitStreams

  function Xor(p: Bits, q: Bits): (r: Bits)
    requires |p| == |q|
    ensures |r| == |p|
  {
    seq(|p|, i requires 0 <= i < |p| => p[i] != q[i])
  }

  lemma XorZeros(p: Bits)
    ensures Xor(p, Zeros(|p|)) == p && Xor(Zeros(|p|), p) == p && Xor(p, p) == Zeros(|p|)
  {
  }

  lemma XorFour(a: Bits, b: Bits, c: Bits, d: Bits)
    requires |a| == |b| == |c| == |d|
    ensures Xor(Xor(a, b), Xor(c, d)) == Xor(Xor(a, c), Xor(b, d))
  {
  }

  lemma XorThree(a: Bits, b: Bits, c: Bits)
    requires |a| == |b| == |c|
    ensures Xor(Xor(a, b), c) == Xor(a, Xor(b, c))
  {
  }
}
