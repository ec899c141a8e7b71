/** The combined scalar multiplication of ECDSA verification (crates/otter-crypto/src/ecc.rs):
    one pass of doublings and additions over any addition that follows the group law. */
module Shamir {
  import opened Congruence
  import opened Montgomery
  import L = Limbs
  import M = ModularArithmetic

  /** A point stands for a combination i G + j Q, and addition adds combinations. */
  ghost predicate GroupLaw<P(!new)>(add: (P, P) -> P, identity: P, g: P, q: P, stands: (P, nat, nat) -> bool) {
    && stands(identity, 0, 0) && stands(g, 1, 0) && stands(q, 0, 1)
    && forall x, y, i: nat, j: nat, k: nat, l: nat ::
         stands(x, i, j) && stands(y, k, l) ==> stands(add(x, y), i + k, j + l)
  }

  /** u1 G + u2 Q, both scalars scanned together from the longer one's top bit. */
  method ScalarMulShamir<P(!new)>(add: (P, P) -> P, identity: P, g: P, q: P, u1: BigUint, u2: BigUint,
                                  ghost stands: (P, nat, nat) -> bool) returns (r: P)
    requires GroupLaw(add, identity, g, q, stands)
    ensures stands(r, L.Value(u1), L.Value(u2))
  {
    hide L.Value, Pow, M.Bit, GroupLaw;
    Combines(add, identity, g, q, stands, g, 1, 0, q, 0, 1);
    var sum := add(g, q);
    var bits1 := M.BitLength(u1);
    var bits2 := M.BitLength(u2);
    var i := if bits1 < bits2 then bits2 else bits1;
    NothingAbove(L.Value(u1), bits1, i);
    NothingAbove(L.Value(u2), bits2, i);
    r := identity;
    Members(add, identity, g, q, stands);
    while i > 0
      invariant 0 <= i <= 64 * LIMBS && stands(r, High(u1, i), High(u2, i))
    {
      i := i - 1;
      M.NextBit(u1, i);
      M.NextBit(u2, i);
      Combines(add, identity, g, q, stands, r, High(u1, i + 1), High(u2, i + 1), r, High(u1, i + 1), High(u2, i + 1));
      r := add(r, r);
      ghost var h1, h2 := 2 * High(u1, i + 1), 2 * High(u2, i + 1);
      Combines(add, identity, g, q, stands, r, h1, h2, g, 1, 0);
      Combines(add, identity, g, q, stands, r, h1, h2, q, 0, 1);
      Combines(add, identity, g, q, stands, r, h1, h2, sum, 1, 1);
      if M.Bit(u1, i) && M.Bit(u2, i) {
        r := add(r, sum);
      } else if M.Bit(u1, i) {
        r := add(r, g);
      } else if M.Bit(u2, i) {
        r := add(r, q);
      }
    }
    M.FullExponent(L.Value(u1));
    M.FullExponent(L.Value(u2));
  }

  /** A scalar without its lowest i bits. */
  ghost function High(u: BigUint, i: nat): nat { L.Value(u) / Pow(2, i) }

  lemma Combines<P(!new)>(add: (P, P) -> P, identity: P, g: P, q: P, stands: (P, nat, nat) -> bool,
                          x: P, i: nat, j: nat, y: P, k: nat, l: nat)
    requires GroupLaw(add, identity, g, q, stands)
    ensures stands(g, 1, 0) && stands(q, 0, 1)
    ensures stands(x, i, j) && stands(y, k, l) ==> stands(add(x, y), i + k, j + l)
  {
  }

  lemma Members<P(!new)>(add: (P, P) -> P, identity: P, g: P, q: P, stands: (P, nat, nat) -> bool)
    requires GroupLaw(add, identity, g, q, stands)
    ensures stands(identity, 0, 0)
  {
  }

  lemma NothingAbove(x: nat, bits: nat, i: nat)
    requires M.IsBitLength(x, bits) && bits <= i
    ensures x / Pow(2, i) == 0
  {
    hide Pow;
    PowMonotone(2, bits, i);
    QuotientIs(x, Pow(2, i), 0, x);
  }
}
