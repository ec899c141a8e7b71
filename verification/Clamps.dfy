/** What the two clamps do bit by bit: the key of Poly1305 (crates/otter-crypto/src/poly1305.rs, section
    2.5 of RFC 8439) and the scalar of X25519 (x25519.rs, section 5 of RFC 7748). */
module Clamps {
  import opened Bytes
  import opened BitStreams
  import opened Congruence
  import opened Endian
  import Poly1305
  import X25519

  /** Bit k of a byte string is bit k of the number it spells. */
  lemma BitOfNumber(b: ByteString, k: nat)
    requires k < 8 * |b|
    ensures BitOf(LeValue(b), k) == BitOf(b[k / 8], k % 8)
  {
    hide StreamBits, LsbValue, LeValue, BitOf;
    StreamBitAt(b, k / 8, k % 8);
    assert k == 8 * (k / 8) + k % 8;
    X25519.BitsSpellBytes(b);
    BitsOfValue(StreamBits(b));
    LowBitAt(LeValue(b), 8 * |b|, k);
  }

  lemma SmallPowers(j: nat)
    requires j < 8
    ensures Pow(2, j) == [1, 2, 4, 8, 16, 32, 64, 128][j]
  {
    assert Pow(2, 0) == 1 && Pow(2, 1) == 2 && Pow(2, 2) == 4 && Pow(2, 3) == 8;
    assert Pow(2, 4) == 16 && Pow(2, 5) == 32 && Pow(2, 6) == 64 && Pow(2, 7) == 128;
  }

  /** Half of a number has its bits one place lower. */
  lemma Halved(x: nat, n: nat)
    ensures x % Pow(2, n + 1) / 2 == x / 2 % Pow(2, n) && x % Pow(2, n + 1) % 2 == x % 2
    ensures (x - x % Pow(2, n + 1)) / 2 == x / 2 - x / 2 % Pow(2, n) && (x - x % Pow(2, n + 1)) % 2 == 0
  {
    hide Pow;
    var p := Pow(2, n);
    assert Pow(2, n + 1) == 2 * p by { PowNext(n); }
    var q, r := x / 2 / p, x / 2 % p;
    assert x == 2 * (x / 2) + x % 2 && x / 2 == p * q + r;
    Doubled(p, q);
    RemainderIs(x, 2 * p, q, 2 * r + x % 2);
  }

  lemma PowNext(n: nat)
    ensures Pow(2, n + 1) == 2 * Pow(2, n)
  {
  }

  lemma Doubled(p: nat, q: nat)
    ensures 2 * (p * q) == (2 * p) * q
  {
  }

  /** Keeping the lowest n bits of a number, or clearing them. */
  lemma LowCut(x: nat, n: nat, j: nat)
    ensures x % Pow(2, n) <= x
    ensures BitOf(x % Pow(2, n), j) == (BitOf(x, j) && j < n)
    ensures BitOf(x - x % Pow(2, n), j) == (BitOf(x, j) && j >= n)
  {
    hide BitOf;
    LowKept(x, n, j);
    LowCleared(x, n, j);
  }

  lemma {:induction false} LowKept(x: nat, n: nat, j: nat)
    ensures BitOf(x % Pow(2, n), j) == (BitOf(x, j) && j < n)
    decreases n
  {
    hide Pow, BitOf;
    NoPower();
    if n == 0 {
      NoBits(j);
    } else {
      Halved(x, n - 1);
      var r := x % Pow(2, n);
      if j == 0 {
        LowestBit(x);
        LowestBit(r);
      } else {
        LowKept(x / 2, n - 1, j - 1);
        HalfBit(x, j - 1);
        HalfBit(r, j - 1);
      }
    }
  }

  lemma {:induction false} LowCleared(x: nat, n: nat, j: nat)
    ensures x % Pow(2, n) <= x
    ensures BitOf(x - x % Pow(2, n), j) == (BitOf(x, j) && j >= n)
    decreases n
  {
    hide Pow, BitOf;
    NoPower();
    if n == 0 {
      assert x % 1 == 0;
    } else {
      Halved(x, n - 1);
      var r: nat := x - x % Pow(2, n);
      if j == 0 {
        LowestBit(r);
      } else {
        LowCleared(x / 2, n - 1, j - 1);
        HalfBit(x, j - 1);
        HalfBit(r, j - 1);
      }
    }
  }

  lemma NoPower()
    ensures Pow(2, 0) == 1
  {
  }

  lemma LowestBit(x: nat)
    ensures BitOf(x, 0) == (x % 2 == 1)
  {
  }

  lemma NoBits(j: nat)
    ensures !BitOf(0, j)
  {
  }

  // ---------- Poly1305 ----------

  /** The mask of section 2.5 of RFC 8439. */
  const MASK: nat := 0x0FFF_FFFC_0FFF_FFFC_0FFF_FFFC_0FFF_FFFF

  const MASK_BYTES: ByteString :=
    [255, 255, 255, 15, 252, 255, 255, 15, 252, 255, 255, 15, 252, 255, 255, 15]

  lemma FourBytes(w: ByteString)
    requires |w| == 4
    ensures var a: nat, b: nat, c: nat, d: nat := w[0], w[1], w[2], w[3];
            LeValue(w) == a + 0x100 * b + 0x1_0000 * c + 0x100_0000 * d
  {
    assert w[1..][1..] == w[2..] && w[2..][1..] == w[3..] && w[3..][1..] == [];
    assert LeValue(w[3..]) == w[3];
  }

  lemma MaskSpelt()
    ensures LeValue(MASK_BYTES) == MASK
  {
    hide LeValue, Pow;
    var m := MASK_BYTES;
    var a, b := [255, 255, 255, 15], [252, 255, 255, 15];
    FourBytes(a);
    FourBytes(b);
    LeConcat(b, b);
    LeConcat(b, b + b);
    LeConcat(a, b + (b + b));
    assert m == a + (b + (b + b));
    assert Pow(256, 4) == 0x1_0000_0000 by { PowAdd(256, 2, 2); Squared(); }
  }

  lemma Squared()
    ensures Pow(256, 2) == 0x1_0000
  {
  }

  lemma MaskBit(x: Byte, m: Byte, j: nat)
    requires m in {15, 252, 255} && j < 8
    ensures BitOf(m, j) == if m == 15 then j < 4 else if m == 252 then j >= 2 else true
  {
    SmallPowers(j);
  }

  lemma ClampedByte(b: ByteString, i: nat, j: nat)
    requires |b| == 16 && i < 16 && j < 8
    ensures BitOf(Poly1305.Clamp(b)[i], j) == (BitOf(b[i], j) && BitOf(MASK_BYTES[i], j))
  {
    hide BitOf;
    MaskBit(b[i], MASK_BYTES[i], j);
    LowCut(b[i], 4, j);
    LowCut(b[i], 2, j);
    assert Pow(2, 2) == 4 && Pow(2, 4) == 16;
  }

  /** The number r of a key is the first half of the key, bitwise and the mask. */
  lemma ClampIsMask(key: ByteString, k: nat)
    requires |key| == 32 && k < 128
    ensures BitOf(Poly1305.KeyR(key), k) == (BitOf(LeValue(key[..16]), k) && BitOf(MASK, k))
  {
    hide BitOf, LeValue, Poly1305.Clamp;
    ClampedByte(key[..16], k / 8, k % 8);
    BitOfNumber(Poly1305.Clamp(key[..16]), k);
    BitOfNumber(key[..16], k);
    BitOfNumber(MASK_BYTES, k);
    MaskSpelt();
  }

  // ---------- X25519 ----------

  /** A clamped scalar keeps its bits from 3 to 253; of the others only bit 254 is set. */
  lemma ScalarBits(scalar: ByteString, k: nat)
    requires |scalar| == 32 && k < 256
    ensures BitOf(LeValue(X25519.Clamp(scalar)), k)
            == if 3 <= k < 254 then BitOf(LeValue(scalar), k) else k == 254
  {
    hide BitOf, LeValue, X25519.Clamp;
    BitOfNumber(scalar, k);
    BitOfNumber(X25519.Clamp(scalar), k);
    var i, j := k / 8, k % 8;
    ScalarBytes(scalar, i);
    if i == 0 {
      Eight();
      LowCut(scalar[0], 3, j);
    } else if i == 31 {
      TopBits(scalar[31], j);
    }
  }

  lemma Eight()
    ensures Pow(2, 3) == 8
  {
  }

  lemma ScalarBytes(scalar: ByteString, i: nat)
    requires |scalar| == 32 && i < 32
    ensures var b := scalar[i];
            X25519.Clamp(scalar)[i] == if i == 0 then b - b % 8 else if i == 31 then b % 64 + 64 else b
  {
  }

  lemma TopBits(x: Byte, j: nat)
    requires j < 8
    ensures BitOf(x % 64 + 64, j) == if j < 6 then BitOf(x, j) else j == 6
  {
    hide BitOf;
    var y := x % 64;
    assert Pow(2, 6) == 64;
    LowCut(x, 6, j);
    LowCut(y + 64, 6, j);
    if j >= 6 { HighBits(y + 64, j); }
  }

  lemma HighBits(x: nat, j: nat)
    requires 64 <= x < 128 && j in {6, 7}
    ensures BitOf(x, j) == (j == 6)
  {
    SmallPowers(j);
  }
}
