/** RSASSA-PSS verification (crates/otter-crypto/src/rsa.rs, sections 8.1.2 and 9.1 of RFC 8017)
    over an arbitrary hash: what it accepts is exactly what encoding can give. */
module Pss {
  import opened Bytes
  import opened BitStreams
  import opened BitPolynomials
  import opened Congruence
  import opened Endian

  type Hash = ByteString -> ByteString

  ghost predicate HashOf(hash: Hash, hLen: nat) { forall m :: |hash(m)| == hLen }

  // ---------- exclusive or of bytes ----------

  function XorByte(a: Byte, b: Byte): (r: Byte)
    ensures ByteBits(r) == Xor(ByteBits(a), ByteBits(b))
  {
    var x := Xor(ByteBits(a), ByteBits(b));
    LsbBound(x);
    WholeByteValue();
    SpelledBits(x);
    LsbValue(x)
  }

  lemma SpelledBits(x: Bits)
    requires |x| == 8
    ensures LsbValue(x) < 256 && ByteBits(LsbValue(x)) == x
  {
    LsbBound(x);
    WholeByteValue();
    BitsOfValue(x);
    WholeByte(LsbValue(x));
  }

  lemma SameBits(a: Byte, b: Byte)
    requires ByteBits(a) == ByteBits(b)
    ensures a == b
  {
    LsbOfByte(a);
    LsbOfByte(b);
  }

  lemma XorTwice(a: Byte, m: Byte)
    ensures XorByte(XorByte(a, m), m) == a && XorByte(a, m) == XorByte(m, a)
  {
    hide ByteBits;
    var x, y := ByteBits(a), ByteBits(m);
    assert Xor(Xor(x, y), y) == x && Xor(x, y) == Xor(y, x);
    SameBits(XorByte(XorByte(a, m), m), a);
    SameBits(XorByte(a, m), XorByte(m, a));
  }

  /** The lowest j bits of a byte, the others cleared. */
  function Kept(b: Byte, j: nat): (r: Byte)
    requires j <= 8
    ensures r < Pow(2, j) && (b < Pow(2, j) ==> r == b)
  {
    KeptBelow(b, Pow(2, j));
    b % Pow(2, j)
  }

  lemma KeptBelow(b: nat, p: nat)
    requires p > 0
    ensures b % p < p && b % p <= b && (b < p ==> b % p == b)
  {
    if b < p { QuotientIs(b, p, 0, b); }
    assert b == p * (b / p) + b % p;
    MulAtLeast(p, b / p);
  }

  /** Clearing the top bits of a byte's bits. */
  lemma KeptIs(b: Byte, j: nat)
    requires j <= 8
    ensures ByteBits(Kept(b, j)) == ByteBits(b)[..j] + Zeros(8 - j)
  {
    hide LsbValue, Pow, ByteBits, Zeros;
    var x := ByteBits(b);
    var low, z := LsbValue(x[..j]), x[..j] + Zeros(8 - j);
    LsbConcat(x[..j], x[j..]);
    assert x == x[..j] + x[j..];
    LsbOfByte(b);
    LsbBound(x[..j]);
    RemainderIs(b, Pow(2, j), LsbValue(x[j..]), low);
    LsbConcat(x[..j], Zeros(8 - j));
    ZerosValue(8 - j);
    SpelledBits(z);
  }

  lemma KeptBits(b: Byte, j: nat, i: nat)
    requires j <= 8 && i < 8
    ensures ByteBits(Kept(b, j))[i] == (i < j && ByteBits(b)[i])
  {
    hide ByteBits, Kept;
    KeptIs(b, j);
  }

  lemma {:induction false} ZerosValue(n: nat)
    ensures LsbValue(Zeros(n)) == 0
    decreases n
  {
    if n > 0 {
      assert Zeros(n)[1..] == Zeros(n - 1);
      ZerosValue(n - 1);
    }
  }

  /** Masking and unmasking the first byte with its top bits cleared each time. */
  lemma KeptXor(a: Byte, m: Byte, j: nat)
    requires j <= 8
    ensures Kept(XorByte(Kept(XorByte(m, a), j), m), j) == Kept(a, j)
  {
    hide ByteBits, Kept, XorByte;
    var x, y := Kept(XorByte(Kept(XorByte(m, a), j), m), j), Kept(a, j);
    forall i: nat | i < 8 ensures ByteBits(x)[i] == ByteBits(y)[i] {
      KeptBits(XorByte(Kept(XorByte(m, a), j), m), j, i);
      KeptBits(XorByte(m, a), j, i);
      KeptBits(a, j, i);
    }
    SameBits(x, y);
  }

  // ---------- mask generation ----------

  /** The first n blocks of the mask: the hash of the seed and a four-byte counter. */
  function MaskBlocks(hash: Hash, seed: ByteString, n: nat): ByteString {
    if n == 0 then [] else MaskBlocks(hash, seed, n - 1) + hash(seed + BeBytes(n - 1, 4))
  }

  lemma {:induction false} MaskBlocksLength(hash: Hash, hLen: nat, seed: ByteString, n: nat)
    requires HashOf(hash, hLen)
    ensures |MaskBlocks(hash, seed, n)| == Times(hLen, n)
    decreases n
  {
    if n > 0 {
      MaskBlocksLength(hash, hLen, seed, n - 1);
      assert hLen * n == hLen * (n - 1) + hLen;
    }
  }

  /** Blocks enough for len bytes. */
  function BlockCount(hLen: nat, len: nat): nat
    requires hLen > 0
  {
    (len + hLen - 1) / hLen
  }

  lemma BlockCountIs(hLen: nat, len: nat, n: nat)
    requires hLen > 0 && n > 0 && Times(hLen, n - 1) < len <= Times(hLen, n)
    ensures BlockCount(hLen, len) == n
  {
    assert hLen * n == hLen * (n - 1) + hLen;
    QuotientIs(len + hLen - 1, hLen, n, len + hLen - 1 - hLen * n);
  }

  /** MGF1 (appendix B.2.1 of RFC 8017): the exact prefix of the concatenated blocks. */
  ghost function Mask(hash: Hash, hLen: nat, seed: ByteString, len: nat): (m: ByteString)
    requires HashOf(hash, hLen) && hLen > 0
    ensures |m| == len
  {
    MaskBlocksLength(hash, hLen, seed, BlockCount(hLen, len));
    EnoughBlocks(hLen, len);
    MaskBlocks(hash, seed, BlockCount(hLen, len))[..len]
  }

  lemma EnoughBlocks(hLen: nat, len: nat)
    requires hLen > 0
    ensures Times(hLen, BlockCount(hLen, len)) >= len
  {
    var n := BlockCount(hLen, len);
    assert len + hLen - 1 == hLen * n + (len + hLen - 1) % hLen;
  }

  method Mgf1(hash: Hash, hLen: nat, seed: ByteString, len: nat) returns (out: ByteString)
    requires HashOf(hash, hLen) && hLen > 0
    ensures out == Mask(hash, hLen, seed, len)
  {
    hide BeBytes, Times, BlockCount;
    out := [];
    var counter: nat := 0;
    StartTimes(hLen);
    while |out| < len
      invariant |out| <= len && |MaskBlocks(hash, seed, counter)| == Times(hLen, counter)
      invariant |out| <= Times(hLen, counter) && out == MaskBlocks(hash, seed, counter)[..|out|]
      invariant if |out| < len then |out| == Times(hLen, counter) else len == 0 || BlockCount(hLen, len) == counter
      decreases len - |out|
    {
      var block := hash(seed + BeBytes(counter, 4));
      var take := if hLen < len - |out| then hLen else len - |out|;
      MaskBlocksLength(hash, hLen, seed, counter + 1);
      NextTimes(hLen, counter);
      if take == len - |out| { BlockCountIs(hLen, len, counter + 1); }
      out := out + block[..take];
      counter := counter + 1;
    }
  }

  lemma StartTimes(hLen: nat)
    ensures Times(hLen, 0) == 0
  {
  }

  lemma NextTimes(hLen: nat, n: nat)
    ensures Times(hLen, n + 1) == Times(hLen, n) + hLen
  {
    assert hLen * (n + 1) == hLen * n + hLen;
  }

  // ---------- encoding and verifying ----------

  function XorBytes(a: ByteString, b: ByteString): (r: ByteString)
    requires |a| == |b|
    ensures |r| == |a|
  {
    seq(|a|, i requires 0 <= i < |a| => XorByte(a[i], b[i]))
  }

  function EmLen(emBits: nat): nat { (emBits + 7) / 8 }

  /** Bits of the leftmost byte that may be set. */
  function FirstBits(emBits: nat): (j: nat)
    requires emBits > 0
    ensures 1 <= j <= 8
  {
    8 - (8 * EmLen(emBits) - emBits)
  }

  function CutFirst(b: ByteString, j: nat): (r: ByteString)
    requires |b| > 0 && j <= 8
    ensures |r| == |b|
  {
    b[0 := Kept(b[0], j)]
  }

  predicate Fits(hLen: nat, emBits: nat) { hLen > 0 && emBits > 0 && EmLen(emBits) >= 2 * hLen + 2 }

  /** The hash of the salted digest. */
  function SaltedHash(hash: Hash, digest: ByteString, salt: ByteString): ByteString {
    hash(seq(8, _ => 0) + digest + salt)
  }

  /** Eight zeros, the digest, the salt. */
  predicate IsSalted(m: ByteString, digest: ByteString, salt: ByteString) {
    && |m| == 8 + |digest| + |salt| && (forall i :: 0 <= i < 8 ==> m[i] == 0)
    && m[8..8 + |digest|] == digest && m[8 + |digest|..] == salt
  }

  lemma SaltedIs(hash: Hash, m: ByteString, digest: ByteString, salt: ByteString)
    requires IsSalted(m, digest, salt)
    ensures SaltedHash(hash, digest, salt) == hash(m)
  {
    assert m == m[..8] + m[8..8 + |digest|] + m[8 + |digest|..];
    assert m[..8] == seq(8, _ => 0);
  }

  lemma SaltedExists(hash: Hash, digest: ByteString, salt: ByteString) returns (m: ByteString)
    ensures IsSalted(m, digest, salt) && SaltedHash(hash, digest, salt) == hash(m)
  {
    m := seq(8, _ => 0) + digest + salt;
  }

  /** Zeros, a one, the salt. */
  function DataBlock(hLen: nat, emBits: nat, salt: ByteString): (db: ByteString)
    requires Fits(hLen, emBits) && |salt| == hLen
    ensures |db| == EmLen(emBits) - hLen - 1
  {
    seq(EmLen(emBits) - 2 * hLen - 2, _ => 0) + [1] + salt
  }

  /** EMSA-PSS-ENCODE with a given salt (section 9.1.1 of RFC 8017). */
  ghost function Encoded(hash: Hash, hLen: nat, emBits: nat, digest: ByteString, salt: ByteString): (em: ByteString)
    requires HashOf(hash, hLen) && Fits(hLen, emBits) && |salt| == hLen
    ensures |em| == EmLen(emBits)
  {
    var h := SaltedHash(hash, digest, salt);
    var db := DataBlock(hLen, emBits, salt);
    CutFirst(XorBytes(db, Mask(hash, hLen, h, |db|)), FirstBits(emBits)) + h + [0xBC]
  }

  /** The parts of an encoded message. */
  function MaskedPart(hLen: nat, em: ByteString): (b: ByteString)
    requires |em| >= 2 * hLen + 2
    ensures |b| == |em| - hLen - 1
  {
    em[..|em| - hLen - 1]
  }

  function HashPart(hLen: nat, em: ByteString): (b: ByteString)
    requires |em| >= 2 * hLen + 2
    ensures |b| == hLen
  {
    em[|em| - hLen - 1..|em| - 1]
  }

  /** The data block behind the mask, its unused top bits cleared. */
  ghost function Unmasked(hash: Hash, hLen: nat, emBits: nat, em: ByteString): (db: ByteString)
    requires HashOf(hash, hLen) && Fits(hLen, emBits) && |em| == EmLen(emBits)
    ensures |db| == |em| - hLen - 1
  {
    var masked := MaskedPart(hLen, em);
    CutFirst(XorBytes(Mask(hash, hLen, HashPart(hLen, em), |masked|), masked), FirstBits(emBits))
  }

  /** What the verifier checks, step by step (section 9.1.2). */
  ghost predicate Checks(hash: Hash, hLen: nat, emBits: nat, digest: ByteString, em: ByteString)
    requires HashOf(hash, hLen) && hLen > 0 && emBits > 0 && |em| == EmLen(emBits)
  {
    && Fits(hLen, emBits) && em[|em| - 1] == 0xBC && em[0] < Pow(2, FirstBits(emBits))
    && var db := Unmasked(hash, hLen, emBits, em);
       var zeros := |em| - 2 * hLen - 2;
       (forall i :: 0 <= i < zeros ==> db[i] == 0) && db[zeros] == 1
       && SaltedHash(hash, digest, db[zeros + 1..]) == HashPart(hLen, em)
  }

  lemma BlockShape(hLen: nat, emBits: nat, db: ByteString)
    requires Fits(hLen, emBits) && |db| == EmLen(emBits) - hLen - 1
    requires forall i :: 0 <= i < EmLen(emBits) - 2 * hLen - 2 ==> db[i] == 0
    requires db[EmLen(emBits) - 2 * hLen - 2] == 1
    ensures db == DataBlock(hLen, emBits, db[EmLen(emBits) - 2 * hLen - 1..])
  {
  }

  /** Masking the unmasked block again, first byte cut each time. */
  lemma Remasked(a: ByteString, m: ByteString, j: nat)
    requires |a| == |m| > 0 && j <= 8 && a[0] < Pow(2, j)
    ensures CutFirst(XorBytes(CutFirst(XorBytes(m, a), j), m), j) == a
  {
    hide XorByte, Kept, Pow;
    forall i: nat | 0 < i < |a| ensures XorByte(XorByte(m[i], a[i]), m[i]) == a[i] { XorTwice(a[i], m[i]); }
    KeptXor(a[0], m[0], j);
  }

  lemma OneFits(j: nat, b: Byte)
    requires 1 <= j && b <= 1
    ensures b < Pow(2, j)
  {
    PowMonotone(2, 1, j);
    assert Pow(2, 0) == 1 && Pow(2, 1) == 2;
  }

  /** An accepted message is the encoding of the digest with the salt it carries. */
  lemma ChecksEncode(hash: Hash, hLen: nat, emBits: nat, digest: ByteString, em: ByteString)
    requires HashOf(hash, hLen) && hLen > 0 && emBits > 0 && |em| == EmLen(emBits)
    requires Checks(hash, hLen, emBits, digest, em)
    ensures exists salt: ByteString :: |salt| == hLen && Encoded(hash, hLen, emBits, digest, salt) == em
  {
    hide Mask, XorBytes, CutFirst, Pow, SaltedHash;
    var db, masked, h := Unmasked(hash, hLen, emBits, em), MaskedPart(hLen, em), HashPart(hLen, em);
    var salt := db[|em| - 2 * hLen - 1..];
    BlockShape(hLen, emBits, db);
    var j, mask := FirstBits(emBits), Mask(hash, hLen, h, |masked|);
    XorBytesCommute(mask, masked);
    Remasked(masked, mask, j);
    assert em == masked + h + [0xBC];
    assert Encoded(hash, hLen, emBits, digest, salt) == em;
  }

  lemma XorBytesCommute(a: ByteString, b: ByteString)
    requires |a| == |b|
    ensures XorBytes(a, b) == XorBytes(b, a)
  {
    hide XorByte;
    forall i: nat | i < |a| ensures XorByte(a[i], b[i]) == XorByte(b[i], a[i]) { XorTwice(a[i], b[i]); }
  }

  /** Every encoding of the digest is accepted. */
  lemma EncodedChecks(hash: Hash, hLen: nat, emBits: nat, digest: ByteString, salt: ByteString)
    requires HashOf(hash, hLen) && Fits(hLen, emBits) && |salt| == hLen
    ensures Checks(hash, hLen, emBits, digest, Encoded(hash, hLen, emBits, digest, salt))
  {
    hide Mask, XorBytes, Pow, SaltedHash;
    var em := Encoded(hash, hLen, emBits, digest, salt);
    var h, db := SaltedHash(hash, digest, salt), DataBlock(hLen, emBits, salt);
    var j, mask := FirstBits(emBits), Mask(hash, hLen, h, |db|);
    var masked := CutFirst(XorBytes(db, mask), j);
    assert |h| == hLen by { HashLength(hash, hLen, digest, salt); }
    assert MaskedPart(hLen, em) == masked && HashPart(hLen, em) == h;
    XorBytesCommute(db, mask);
    XorBytesCommute(mask, masked);
    OneFits(j, db[0]);
    Remasked(db, mask, j);
    assert Unmasked(hash, hLen, emBits, em) == db;
    assert db[|em| - 2 * hLen - 1..] == salt;
  }

  lemma HashLength(hash: Hash, hLen: nat, digest: ByteString, salt: ByteString)
    requires HashOf(hash, hLen)
    ensures |SaltedHash(hash, digest, salt)| == hLen
  {
  }

  // ---------- the encoding by its positions ----------

  /** A counter as four bytes, most significant first, its higher digits dropped. */
  function CounterBytes(c: nat): ByteString { [c / 0x100_0000 % 256, c / 0x1_0000 % 256, c / 0x100 % 256, c % 256] }

  lemma CounterIs(c: nat)
    ensures BeBytes(c, 4) == CounterBytes(c)
  {
    hide BeBytes;
    assert Pow(256, 0) == 1 && Pow(256, 1) == 0x100 && Pow(256, 2) == 0x1_0000 && Pow(256, 3) == 0x100_0000;
    BeByteAt(c, 4, 0);
    BeByteAt(c, 4, 1);
    BeByteAt(c, 4, 2);
    BeByteAt(c, 4, 3);
  }

  /** Byte i of the mask is in the hash of the seed and the number of the block it falls in. */
  lemma MaskAt(hash: Hash, hLen: nat, seed: ByteString, len: nat, i: nat)
    requires HashOf(hash, hLen) && hLen > 0 && i < len
    ensures Mask(hash, hLen, seed, len)[i] == hash(seed + CounterBytes(i / hLen))[i % hLen]
  {
    hide BeBytes, Times, CounterBytes, BlockCount;
    CounterIs(i / hLen);
    EnoughBlocks(hLen, len);
    MaskBlockAt(hash, hLen, seed, BlockCount(hLen, len), i);
  }

  lemma {:induction false} MaskBlockAt(hash: Hash, hLen: nat, seed: ByteString, n: nat, i: nat)
    requires HashOf(hash, hLen) && hLen > 0 && i < Times(hLen, n)
    ensures |MaskBlocks(hash, seed, n)| == Times(hLen, n)
    ensures MaskBlocks(hash, seed, n)[i] == hash(seed + BeBytes(i / hLen, 4))[i % hLen]
    decreases n
  {
    hide BeBytes;
    MaskBlocksLength(hash, hLen, seed, n);
    NextTimes(hLen, n - 1);
    MaskBlocksLength(hash, hLen, seed, n - 1);
    if i < Times(hLen, n - 1) {
      MaskBlockAt(hash, hLen, seed, n - 1, i);
    } else {
      var r := i - hLen * (n - 1);
      QuotientIs(i, hLen, n - 1, r);
      RemainderIs(i, hLen, n - 1, r);
    }
  }

  /** Byte i of the data block: zeros, then one, then the salt. */
  function DataByte(hLen: nat, len: nat, salt: ByteString, i: nat): Byte
    requires |salt| == hLen && len >= hLen + 1 && i < len
  {
    if i < len - hLen - 1 then 0 else if i == len - hLen - 1 then 1 else salt[i - (len - hLen)]
  }

  /** EMSA-PSS byte by byte: an encoded message of emBits bits in as few bytes as hold them, its last
      byte BC, before it the hash h of m, and before that the data block under the mask of h, with
      the bits beyond emBits cleared; m is eight zeros, the digest and the salt. */
  ghost predicate IsPss(hash: Hash, hLen: nat, emBits: nat, digest: ByteString, salt: ByteString, m: ByteString,
                        em: ByteString)
    requires HashOf(hash, hLen) && hLen > 0
  {
    && |em| >= 2 * hLen + 2 && 8 * (|em| - 1) < emBits <= 8 * |em| && |salt| == hLen && IsSalted(m, digest, salt)
    && em[|em| - 1] == 0xBC && em[|em| - hLen - 1..|em| - 1] == hash(m)
    && forall i: nat, k: nat :: i < |em| - hLen - 1 && k < 8 ==>
         IsMaskedBit(hash, hLen, emBits, salt, hash(m), em, i, k)
  }

  /** Bit k of byte i: that of the data block, changed where the mask has a one, and no bit of the
      first byte beyond emBits. */
  ghost predicate IsMaskedBit(hash: Hash, hLen: nat, emBits: nat, salt: ByteString, h: ByteString, em: ByteString,
                              i: nat, k: nat)
    requires HashOf(hash, hLen) && hLen > 0 && |salt| == hLen && |em| >= 2 * hLen + 2 && i < |em| - hLen - 1
    requires |h| == hLen
  {
    var len := |em| - hLen - 1;
    BitOf(em[i], k) == ((i > 0 || 8 * (|em| - 1) + k < emBits)
                        && BitOf(DataByte(hLen, len, salt, i), k) != BitOf(Mask(hash, hLen, h, len)[i], k))
  }

  /** A message is an encoding of the digest with a salt exactly if it is one byte by byte. */
  lemma EncodedByPosition(hash: Hash, hLen: nat, emBits: nat, digest: ByteString, salt: ByteString, em: ByteString)
    requires HashOf(hash, hLen) && hLen > 0 && emBits > 0 && |salt| == hLen
    ensures Fits(hLen, emBits) && Encoded(hash, hLen, emBits, digest, salt) == em
            <==> exists m :: IsPss(hash, hLen, emBits, digest, salt, m, em)
  {
    hide Mask, Encoded, BitOf, DataByte;
    if Fits(hLen, emBits) && Encoded(hash, hLen, emBits, digest, salt) == em {
      var m := SaltedExists(hash, digest, salt);
      EncodedParts(hash, hLen, emBits, digest, salt);
      forall i: nat, k: nat | i < |em| - hLen - 1 && k < 8
        ensures IsMaskedBit(hash, hLen, emBits, salt, hash(m), em, i, k)
      {
        EncodedBit(hash, hLen, emBits, digest, salt, i, k);
      }
      assert IsPss(hash, hLen, emBits, digest, salt, m, em);
    }
    if m :| IsPss(hash, hLen, emBits, digest, salt, m, em) {
      SaltedIs(hash, m, digest, salt);
      PssIsEncoded(hash, hLen, emBits, digest, salt, m, em);
    }
  }

  lemma EncodedParts(hash: Hash, hLen: nat, emBits: nat, digest: ByteString, salt: ByteString)
    requires HashOf(hash, hLen) && Fits(hLen, emBits) && |salt| == hLen
    ensures var em := Encoded(hash, hLen, emBits, digest, salt);
            && |em| == EmLen(emBits) && 8 * (|em| - 1) < emBits <= 8 * |em|
            && em[|em| - 1] == 0xBC && em[|em| - hLen - 1..|em| - 1] == SaltedHash(hash, digest, salt)
  {
    hide Mask, XorByte, Kept;
    HashLength(hash, hLen, digest, salt);
  }

  lemma EncodedBit(hash: Hash, hLen: nat, emBits: nat, digest: ByteString, salt: ByteString, i: nat, k: nat)
    requires HashOf(hash, hLen) && Fits(hLen, emBits) && |salt| == hLen && i < EmLen(emBits) - hLen - 1 && k < 8
    ensures IsMaskedBit(hash, hLen, emBits, salt, SaltedHash(hash, digest, salt),
                        Encoded(hash, hLen, emBits, digest, salt), i, k)
  {
    hide Mask, XorByte, Kept, BitOf;
    HashLength(hash, hLen, digest, salt);
    var h, db := SaltedHash(hash, digest, salt), DataBlock(hLen, emBits, salt);
    var mask := Mask(hash, hLen, h, |db|);
    var em := Encoded(hash, hLen, emBits, digest, salt);
    assert db[i] == DataByte(hLen, |db|, salt, i);
    XorBitAt(db[i], mask[i], k);
    if i == 0 {
      KeptBits(XorByte(db[0], mask[0]), FirstBits(emBits), k);
      assert em[0] == Kept(XorByte(db[0], mask[0]), FirstBits(emBits));
    } else {
      assert em[i] == XorByte(db[i], mask[i]);
    }
  }

  lemma XorBitAt(a: Byte, m: Byte, k: nat)
    requires k < 8
    ensures BitOf(XorByte(a, m), k) == (BitOf(a, k) != BitOf(m, k))
  {
    hide BitOf, XorByte;
    assert ByteBits(XorByte(a, m))[k] == Xor(ByteBits(a), ByteBits(m))[k];
  }

  /** Position by position there is only one such message. */
  lemma PssIsEncoded(hash: Hash, hLen: nat, emBits: nat, digest: ByteString, salt: ByteString, m: ByteString,
                     em: ByteString)
    requires HashOf(hash, hLen) && hLen > 0 && IsPss(hash, hLen, emBits, digest, salt, m, em)
    requires SaltedHash(hash, digest, salt) == hash(m)
    ensures Fits(hLen, emBits) && Encoded(hash, hLen, emBits, digest, salt) == em
  {
    hide Mask, Encoded, BitOf, DataByte, IsSalted, SaltedHash;
    assert EmLen(emBits) == |em|;
    EncodedParts(hash, hLen, emBits, digest, salt);
    var en := Encoded(hash, hLen, emBits, digest, salt);
    forall i: nat | i < |em| - hLen - 1 ensures en[i] == em[i] {
      forall k: nat | k < 8 ensures BitOf(en[i], k) == BitOf(em[i], k) {
        EncodedBit(hash, hLen, emBits, digest, salt, i, k);
        assert IsMaskedBit(hash, hLen, emBits, salt, hash(m), em, i, k);
      }
      SameBitsAt(en[i], em[i]);
    }
    var n := |em| - hLen - 1;
    assert en[..n] == em[..n] && en == en[..n] + en[n..|em| - 1] + [en[|em| - 1]];
    assert em == em[..n] + em[n..|em| - 1] + [em[|em| - 1]];
  }

  lemma SameBitsAt(a: Byte, b: Byte)
    requires forall k: nat :: k < 8 ==> BitOf(a, k) == BitOf(b, k)
    ensures a == b
  {
    hide BitOf;
    assert ByteBits(a) == ByteBits(b);
    SameBits(a, b);
  }

  // ---------- the verifier ----------

  /** EMSA-PSS-VERIFY on the encoded message. */
  method VerifyEncoded(hash: Hash, hLen: nat, emBits: nat, digest: ByteString, em: ByteString) returns (ok: bool)
    requires HashOf(hash, hLen) && hLen > 0 && emBits > 0 && |em| == EmLen(emBits)
    ensures ok == Checks(hash, hLen, emBits, digest, em)
  {
    hide Mask, XorByte, Kept, Pow, SaltedHash;
    if |em| < hLen + hLen + 2 || em[|em| - 1] != 0xBC {
      return false;
    }
    var dbLen := |em| - hLen - 1;
    var masked, h := em[..dbLen], em[dbLen..|em| - 1];
    if masked[0] >= Pow(2, FirstBits(emBits)) {
      return false;
    }
    var mask := Mgf1(hash, hLen, h, dbLen);
    var db := XorBytes(mask, masked);
    db := CutFirst(db, FirstBits(emBits));
    var zeros := dbLen - hLen - 1;
    for i := 0 to zeros
      invariant forall k :: 0 <= k < i ==> db[k] == 0
    {
      if db[i] != 0 {
        return false;
      }
    }
    if db[zeros] != 1 {
      return false;
    }
    var salt := db[zeros + 1..];
    var mPrime := new Byte[8 + |digest| + |salt|](_ => 0);
    forall i | 0 <= i < |digest| {
      mPrime[8 + i] := digest[i];
    }
    forall i | 0 <= i < |salt| {
      mPrime[8 + |digest| + i] := salt[i];
    }
    SaltedIs(hash, mPrime[..], digest, salt);
    var hPrime := hash(mPrime[..]);
    ok := hPrime == h;
  }

  /** The modulus has exactly this many bits. */
  predicate HasBits(n: nat, bits: nat) { bits > 0 && Pow(2, bits - 1) <= n < Pow(2, bits) }

  /** The integer a signature recovers. */
  function Recovered(n: nat, e: nat, sig: ByteString): nat
    requires n > 0
  {
    Pow(BeValue(sig), e) % n
  }

  /** A signature whose integer is in range and recovers an encoding of the digest with some salt. */
  ghost predicate Genuine(hash: Hash, hLen: nat, n: nat, bits: nat, e: nat, digest: ByteString, sig: ByteString)
    requires HashOf(hash, hLen) && HasBits(n, bits) && bits > 1
  {
    && |sig| == EmLen(bits) && BeValue(sig) < n && Fits(hLen, bits - 1)
    && exists salt: ByteString ::
         |salt| == hLen && Recovered(n, e, sig) == BeValue(Encoded(hash, hLen, bits - 1, digest, salt))
  }

  lemma GenuineFits(hash: Hash, hLen: nat, n: nat, bits: nat, e: nat, digest: ByteString, sig: ByteString, m: nat)
    requires HashOf(hash, hLen) && HasBits(n, bits) && bits > 1 && m == Recovered(n, e, sig)
    ensures Genuine(hash, hLen, n, bits, e, digest, sig) ==> m < Pow(256, EmLen(bits - 1))
  {
    hide Pow, BeValue, Encoded, Recovered;
    if Genuine(hash, hLen, n, bits, e, digest, sig) {
      var salt: ByteString :|
        |salt| == hLen && Recovered(n, e, sig) == BeValue(Encoded(hash, hLen, bits - 1, digest, salt));
      BeBound(Encoded(hash, hLen, bits - 1, digest, salt));
    }
  }

  lemma GenuineIffChecks(hash: Hash, hLen: nat, n: nat, bits: nat, e: nat, digest: ByteString, sig: ByteString, m: nat)
    requires HashOf(hash, hLen) && hLen > 0 && HasBits(n, bits) && bits > 1 && m == Recovered(n, e, sig)
    requires |sig| == EmLen(bits) && BeValue(sig) < n && m < Pow(256, EmLen(bits - 1))
    ensures Genuine(hash, hLen, n, bits, e, digest, sig)
            <==> Checks(hash, hLen, bits - 1, digest, BeBytes(m, EmLen(bits - 1)))
  {
    hide Pow, BeValue, BeBytes, Encoded, Recovered, Checks;
    var em := BeBytes(m, EmLen(bits - 1));
    BeRoundTrip(m, EmLen(bits - 1));
    if Checks(hash, hLen, bits - 1, digest, em) {
      CheckedFits(hash, hLen, bits - 1, digest, em);
      ChecksEncode(hash, hLen, bits - 1, digest, em);
    }
    if Genuine(hash, hLen, n, bits, e, digest, sig) {
      var salt: ByteString :|
        |salt| == hLen && Recovered(n, e, sig) == BeValue(Encoded(hash, hLen, bits - 1, digest, salt));
      BeUnique(Encoded(hash, hLen, bits - 1, digest, salt));
      EncodedChecks(hash, hLen, bits - 1, digest, salt);
    }
  }

  lemma CheckedFits(hash: Hash, hLen: nat, emBits: nat, digest: ByteString, em: ByteString)
    requires HashOf(hash, hLen) && hLen > 0 && emBits > 0 && |em| == EmLen(emBits)
    requires Checks(hash, hLen, emBits, digest, em)
    ensures Fits(hLen, emBits)
  {
  }
}
