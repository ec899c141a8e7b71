/** ECDSA signature values in DER (crates/otter-crypto/src/ecc.rs): the strict parser accepts
    exactly the encodings (section 2.2.3 of RFC 3279, sections 8.3 and 10.1 of X.690). */
module DerSignatures {
  import opened Bytes
  import opened Options
  import opened Endian

  datatype Pair = Pair(r: nat, s: nat)

  datatype Parsed = Parsed(content: ByteString, rest: ByteString)

  // ---------- the encoding ----------

  /** The shortest big-endian bytes of a positive number. */
  function Magnitude(v: nat): (b: ByteString)
    ensures BeValue(b) == v && (b != [] ==> b[0] > 0) && (v > 0 ==> b != [])
    decreases v
  {
    if v == 0 then [] else
    var b := Magnitude(v / 256) + [v % 256];
    assert b[..|b| - 1] == Magnitude(v / 256);
    b
  }

  /** Two's complement content of a non-negative number: a zero byte only before a set top bit. */
  function Content(v: nat): (b: ByteString)
    ensures BeValue(b) == v && Minimal(b)
  {
    if v == 0 then (ZeroContent(); [0])
    else if Magnitude(v)[0] >= 0x80 then (LeadingZero(Magnitude(v)); [0] + Magnitude(v))
    else Magnitude(v)
  }

  lemma ZeroContent()
    ensures BeValue([0]) == 0
  {
    assert [0][..0] == [];
  }

  lemma {:induction false} LeadingZero(b: ByteString)
    ensures BeValue([0] + b) == BeValue(b)
  {
    if b == [] {
      assert [0] + b == [0];
      ZeroContent();
    } else {
      LeadingZero(b[..|b| - 1]);
      assert ([0] + b)[..|b|] == [0] + b[..|b| - 1];
    }
  }

  /** Nonempty, not negative, and not longer than needed. */
  predicate Minimal(b: ByteString) {
    |b| > 0 && b[0] < 0x80 && (|b| > 1 && b[0] == 0 ==> b[1] >= 0x80)
  }

  function EncodeInteger(v: nat): ByteString
    requires |Content(v)| < 0x80
  {
    [0x02, |Content(v)|] + Content(v)
  }

  predicate Encodable(p: Pair) {
    |Content(p.r)| < 0x80 && |Content(p.s)| < 0x80
    && |EncodeInteger(p.r)| + |EncodeInteger(p.s)| < 0x80
  }

  function EncodeSignature(p: Pair): ByteString
    requires Encodable(p)
  {
    var body := EncodeInteger(p.r) + EncodeInteger(p.s);
    [0x30, |body|] + body
  }

  // ---------- numbers have one minimal content ----------

  lemma {:induction false} MagnitudeUnique(b: ByteString)
    requires b == [] || b[0] > 0
    ensures Magnitude(BeValue(b)) == b
  {
    hide Magnitude;
    EmptyMagnitude();
    if b != [] {
      var init, last := b[..|b| - 1], b[|b| - 1];
      if init != [] { assert init[0] == b[0]; }
      MagnitudeUnique(init);
      NotZero(b);
      MagnitudeStep(BeValue(init), last);
      assert init + [last] == b;
    }
  }

  lemma EmptyMagnitude()
    ensures Magnitude(0) == []
  {
  }

  lemma MagnitudeStep(v: nat, last: Byte)
    ensures 256 * v + last > 0 ==> Magnitude(256 * v + last) == Magnitude(v) + [last]
  {
    LastDigit(last, v);
  }

  lemma {:induction false} NotZero(b: ByteString)
    requires b != [] && b[0] > 0
    ensures BeValue(b) > 0
  {
    if |b| > 1 {
      assert b[..|b| - 1][0] == b[0];
      NotZero(b[..|b| - 1]);
    }
  }

  lemma ContentUnique(b: ByteString)
    requires Minimal(b)
    ensures Content(BeValue(b)) == b
  {
    if b[0] == 0 {
      var tail := b[1..];
      assert b == [0] + tail;
      LeadingZero(tail);
      if tail == [] {
        assert b == [0];
      } else {
        MagnitudeUnique(tail);
        NotZero(tail);
      }
    } else {
      MagnitudeUnique(b);
      NotZero(b);
    }
  }

  // ---------- the parser ----------

  /** One INTEGER from the front of a buffer: its content bytes and what follows. */
  function ParseInteger(buf: ByteString): Option<Parsed> {
    if |buf| < 3 || buf[0] != 0x02 then None else
    var len: nat := buf[1];
    if len >= 0x80 || len == 0 then None
    else if |buf| < 2 + len then None
    else
      var value := buf[2..2 + len];
      if value[0] >= 0x80 then None
      else if len > 1 && value[0] == 0 && value[1] < 0x80 then None
      else Some(Parsed(value, buf[2 + len..]))
  }

  /** A strict SEQUENCE of two INTEGERs and nothing else. */
  function ParseSignature(sig: ByteString): Option<Pair> {
    if |sig| < 8 || sig[0] != 0x30 then None else
    var len: nat := sig[1];
    if len >= 0x80 then None
    else if |sig| != 2 + len then None
    else
      match ParseInteger(sig[2..])
      case None => None
      case Some(r) =>
        match ParseInteger(r.rest)
        case None => None
        case Some(s) => if s.rest != [] then None else Some(Pair(BeValue(r.content), BeValue(s.content)))
  }

  /** An INTEGER is parsed exactly when the buffer begins with the encoding of its value. */
  lemma IntegerIff(buf: ByteString, v: nat, rest: ByteString)
    ensures ParseInteger(buf) == Some(Parsed(Content(v), rest))
            <==> |Content(v)| < 0x80 && buf == EncodeInteger(v) + rest
  {
    hide Content, BeValue;
    if |Content(v)| < 0x80 && buf == EncodeInteger(v) + rest {
      var len := |Content(v)|;
      assert buf[2..2 + len] == Content(v) && buf[2 + len..] == rest;
    }
    if ParseInteger(buf) == Some(Parsed(Content(v), rest)) {
      var len: nat := buf[1];
      assert buf == [buf[0], buf[1]] + buf[2..2 + len] + buf[2 + len..];
    }
  }

  /** What is parsed is always the content of its value. */
  lemma ParsedContent(buf: ByteString)
    ensures ParseInteger(buf).Some? ==>
              var c := ParseInteger(buf).value.content; Content(BeValue(c)) == c
  {
    if ParseInteger(buf).Some? { ContentUnique(ParseInteger(buf).value.content); }
  }

  /** The parser accepts exactly the short-form encodings, and returns what they encode. */
  lemma SignatureIff(sig: ByteString, p: Pair)
    ensures ParseSignature(sig) == Some(p) <==> Encodable(p) && sig == EncodeSignature(p)
  {
    hide Content, BeValue, ParseInteger;
    if Encodable(p) && sig == EncodeSignature(p) {
      var body := EncodeInteger(p.r) + EncodeInteger(p.s);
      assert sig[2..] == body;
      IntegerIff(body, p.r, EncodeInteger(p.s));
      IntegerIff(EncodeInteger(p.s), p.s, []);
      assert EncodeInteger(p.s) + [] == EncodeInteger(p.s);
      ContentValues(p);
    }
    if ParseSignature(sig) == Some(p) {
      var r := ParseInteger(sig[2..]).value;
      var s := ParseInteger(r.rest).value;
      ParsedContent(sig[2..]);
      ParsedContent(r.rest);
      IntegerIff(sig[2..], p.r, r.rest);
      IntegerIff(r.rest, p.s, []);
      assert EncodeInteger(p.s) + [] == EncodeInteger(p.s);
      assert sig == [sig[0], sig[1]] + sig[2..];
    }
  }

  lemma ContentValues(p: Pair)
    ensures BeValue(Content(p.r)) == p.r && BeValue(Content(p.s)) == p.s
    ensures |Content(p.r)| > 0 && |Content(p.s)| > 0
  {
  }

  /** Parsing undoes encoding, and encoding undoes parsing. */
  lemma MutualInverses(p: Pair, sig: ByteString)
    ensures Encodable(p) ==> ParseSignature(EncodeSignature(p)) == Some(p)
    ensures ParseSignature(sig).Some? ==>
              Encodable(ParseSignature(sig).value) && EncodeSignature(ParseSignature(sig).value) == sig
  {
    hide Content, ParseSignature;
    if Encodable(p) { SignatureIff(EncodeSignature(p), p); }
    if ParseSignature(sig).Some? { SignatureIff(sig, ParseSignature(sig).value); }
  }
}
