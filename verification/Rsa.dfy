/** RSA signature verification (crates/otter-crypto/src/rsa.rs) on the big integers: both
    schemes accept exactly the signatures RFC 8017 does. */
module Rsa {
  import opened Bytes
  import opened Options
  import opened Congruence
  import opened Endian
  import opened Montgomery
  import opened Pss
  import L = Limbs
  import LimbBytes
  import M = ModularArithmetic

  datatype PublicKey = PublicKey(modulus: M.Modulus, e: BigUint, k: nat)

  datatype KeyResult = Key(key: PublicKey) | InvalidKey

  datatype Verdict = Accepted | InvalidDigestLength | InvalidSignature | VerificationFailed

  ghost function N(key: PublicKey): nat { L.Value(key.modulus.n) }

  ghost function E(key: PublicKey): nat { L.Value(key.e) }

  /** A usable key whose modulus has this many bits. */
  ghost predicate ValidKey(key: PublicKey, bits: nat) {
    && key.modulus.Valid() && HasBits(N(key), bits) && 2048 <= bits <= 4096 && key.k == EmLen(bits)
    && E(key) >= 3 && E(key) % 2 == 1
  }

  /** The byte strings that make a key. */
  predicate KeyBytes(n: ByteString, e: ByteString) {
    && |n| <= 8 * LIMBS && |e| <= 8 * LIMBS
    && Pow(2, 2047) <= BeValue(n) < Pow(2, 4096) && BeValue(n) % 2 == 1
    && BeValue(e) >= 3 && BeValue(e) % 2 == 1
  }

  /** The bit length lies in a range exactly when the number lies between the powers. */
  lemma BitRange(x: nat, bits: nat, lo: nat, hi: nat)
    requires M.IsBitLength(x, bits) && 0 < lo <= hi
    ensures lo <= bits <= hi <==> Pow(2, lo - 1) <= x < Pow(2, hi)
  {
    hide Pow;
    if bits < lo { PowMonotone(2, bits, lo - 1); } else { PowMonotone(2, lo - 1, bits - 1); }
    if bits > hi { PowMonotone(2, hi, bits - 1); } else { PowMonotone(2, bits, hi); }
  }

  /** Moduli of 2048 to 4096 bits and odd exponents from three on; everything else is refused. */
  method FromComponents(n: ByteString, e: ByteString) returns (r: KeyResult, ghost bits: nat)
    ensures r.Key? <==> KeyBytes(n, e)
    ensures r.Key? ==> ValidKey(r.key, bits) && N(r.key) == BeValue(n) && E(r.key) == BeValue(e)
  {
    hide Pow, BeValue, L.Value, L.Weight, M.Modulus.Valid;
    bits := 0;
    var big := LimbBytes.FromBeBytes(n);
    if big.None? {
      return InvalidKey, bits;
    }
    var len := M.BitLength(big.value);
    BitRange(BeValue(n), len, 2048, 4096);
    if len < 2048 || len > 4096 {
      return InvalidKey, bits;
    }
    var exponent := LimbBytes.FromBeBytes(e);
    if exponent.None? {
      return InvalidKey, bits;
    }
    var three := M.ONE[0 := 3];
    ThreeValue();
    var order := L.Compare(exponent.value, three);
    M.ParityIsLow(exponent.value);
    if order == -1 || exponent.value[0] % 2 == 0 {
      return InvalidKey, bits;
    }
    var modulus := M.NewModulus(big.value);
    if modulus.InvalidModulus? {
      return InvalidKey, bits;
    }
    bits := len;
    r := Key(PublicKey(modulus.value, exponent.value, (len + 7) / 8));
  }

  lemma ThreeValue()
    ensures L.Value(M.ONE[0 := 3]) == 3
  {
    hide L.Value;
    var three: BigUint := M.ONE[0 := 3];
    L.ValueHead(three);
    LimbBytes.ZeroLimbs(three[1..]);
  }

  /** The range check and the public operation. */
  method RsaVp1(key: PublicKey, sig: ByteString, ghost bits: nat) returns (r: Option<BigUint>)
    requires ValidKey(key, bits)
    ensures r.Some? <==> |sig| == key.k && BeValue(sig) < N(key)
    ensures r.Some? ==> L.Value(r.value) == Recovered(N(key), E(key), sig)
  {
    hide Pow, BeValue, L.Value, L.Weight, HasBits;
    if |sig| != key.k {
      return None;
    }
    var s := LimbBytes.FromBeBytes(sig);
    if s.None? {
      return None;
    }
    var order := L.Compare(s.value, key.modulus.n);
    if order != -1 {
      return None;
    }
    var m := M.PowMod(key.modulus, s.value, key.e);
    r := Some(m);
  }

  lemma SameBits(n: nat, a: nat, b: nat)
    requires M.IsBitLength(n, a) && HasBits(n, b)
    ensures a == b
  {
    hide Pow;
    if a < b { PowMonotone(2, a, b - 1); }
    if b < a { PowMonotone(2, b, a - 1); }
  }

  /** RSASSA-PSS-VERIFY accepts exactly the genuine signatures over digests of the right length. */
  method VerifyPss(hash: Hash, hLen: nat, key: PublicKey, digest: ByteString, sig: ByteString,
                     ghost bits: nat)
    returns (v: Verdict)
    requires HashOf(hash, hLen) && hLen > 0 && ValidKey(key, bits)
    ensures v == Accepted <==> |digest| == hLen && Genuine(hash, hLen, N(key), bits, E(key), digest, sig)
    ensures v == InvalidDigestLength <==> |digest| != hLen
    ensures v == InvalidSignature <==> |digest| == hLen && (|sig| != key.k || BeValue(sig) >= N(key))
  {
    hide Pow, BeValue, BeBytes, Encoded, Recovered, Checks, L.Value, L.Weight, HasBits, M.IsBitLength, M.Modulus.Valid;
    if |digest| != hLen {
      return InvalidDigestLength;
    }
    var recovered := RsaVp1(key, sig, bits);
    if recovered.None? {
      return InvalidSignature;
    }
    var modBits := M.BitLength(key.modulus.n);
    SameBits(N(key), modBits, bits);
    var emBits := modBits - 1;
    GenuineFits(hash, hLen, N(key), bits, E(key), digest, sig, L.Value(recovered.value));
    var em := LimbBytes.ToBeBytes(recovered.value, EmLen(emBits));
    if em.None? {
      return VerificationFailed;
    }
    var ok := VerifyEncoded(hash, hLen, emBits, digest, em.value);
    GenuineIffChecks(hash, hLen, N(key), bits, E(key), digest, sig, L.Value(recovered.value));
    return if ok then Accepted else VerificationFailed;
  }

  // ---------- PKCS #1 version 1.5 ----------

  /** Zero, one, at least eight bytes FF, zero, and the digest behind its algorithm (section 9.2 of RFC 8017). */
  function Pkcs1Encoded(k: nat, prefix: ByteString, digest: ByteString): (em: ByteString)
    requires k >= |prefix| + |digest| + 11
    ensures |em| == k
  {
    [0, 1] + seq(k - |prefix| - |digest| - 3, _ => 0xFF) + [0] + prefix + digest
  }

  /** The encoding by its positions. */
  predicate IsPkcs1(prefix: ByteString, digest: ByteString, em: ByteString) {
    var d := |em| - |digest|;
    var p := d - |prefix|;
    && p >= 11 && em[0] == 0 && em[1] == 1 && (forall i :: 2 <= i < p - 1 ==> em[i] == 0xFF) && em[p - 1] == 0
    && em[p..d] == prefix && em[d..] == digest
  }

  lemma Pkcs1ByPosition(k: nat, prefix: ByteString, digest: ByteString, em: ByteString)
    requires k >= |prefix| + |digest| + 11
    ensures em == Pkcs1Encoded(k, prefix, digest) <==> |em| == k && IsPkcs1(prefix, digest, em)
  {
    var e := Pkcs1Encoded(k, prefix, digest);
    var d := k - |digest|;
    var p := d - |prefix|;
    assert e[p..d] == prefix && e[d..] == digest;
    if |em| == k && IsPkcs1(prefix, digest, em) {
      assert em == em[..p] + em[p..d] + em[d..];
      assert em[..p] == [0, 1] + seq(p - 3, _ => 0xFF) + [0];
    }
  }

  /** The expected encoding, filled in part by part. */
  method ExpectedPkcs1(k: nat, prefix: ByteString, digest: ByteString) returns (em: ByteString)
    requires k >= |prefix| + |digest| + 11
    ensures em == Pkcs1Encoded(k, prefix, digest)
  {
    hide Pkcs1Encoded;
    var psLen := k - (|prefix| + |digest|) - 3;
    var out := new Byte[k](_ => 0);
    out[1] := 1;
    forall i | 2 <= i < 2 + psLen {
      out[i] := 0xFF;
    }
    out[2 + psLen] := 0;
    forall i | 0 <= i < |prefix| {
      out[3 + psLen + i] := prefix[i];
    }
    forall i | 0 <= i < |digest| {
      out[3 + psLen + |prefix| + i] := digest[i];
    }
    em := out[..];
    Pkcs1ByPosition(k, prefix, digest, em);
  }

  /** The verifier builds the one encoding and compares all of it. */
  method VerifyPkcs1(hLen: nat, prefix: ByteString, key: PublicKey, digest: ByteString, sig: ByteString,
                     ghost bits: nat)
    returns (v: Verdict)
    requires ValidKey(key, bits)
    ensures v == Accepted <==>
              && |digest| == hLen && |sig| == key.k && BeValue(sig) < N(key) && key.k >= |prefix| + |digest| + 11
              && Recovered(N(key), E(key), sig) == BeValue(Pkcs1Encoded(key.k, prefix, digest))
    ensures v == InvalidDigestLength <==> |digest| != hLen
    ensures v == InvalidSignature <==> |digest| == hLen && (|sig| != key.k || BeValue(sig) >= N(key))
  {
    hide Pow, BeValue, BeBytes, Recovered, L.Value, L.Weight, HasBits, M.Modulus.Valid, Pkcs1Encoded;
    if |digest| != hLen {
      return InvalidDigestLength;
    }
    var recovered := RsaVp1(key, sig, bits);
    if recovered.None? {
      return InvalidSignature;
    }
    var em := LimbBytes.ToBeBytes(recovered.value, key.k);
    if key.k >= |prefix| + |digest| + 11 {
      BeBound(Pkcs1Encoded(key.k, prefix, digest));
      BeUnique(Pkcs1Encoded(key.k, prefix, digest));
    }
    if em.None? {
      return VerificationFailed;
    }
    BeRoundTrip(L.Value(recovered.value), key.k);
    if key.k < |prefix| + |digest| + 11 {
      return VerificationFailed;
    }
    var expected := ExpectedPkcs1(key.k, prefix, digest);
    return if em.value == expected then Accepted else VerificationFailed;
  }
}
