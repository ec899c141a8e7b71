/** One byte against a string, integer, literal or boolean frame: the reaction of the
    frame is the derivative of its language. */
module StringDerivatives {
  import opened Bytes
  import opened Options
  import opened Schema
  import opened ToolCallLanguage
  import opened MatcherFrames
  import opened FrameLanguages

  /** What a reaction must do for it to be the derivative of the frame's language by b. */
  ghost predicate Derives(g: Grammar, r: Reaction, f: Frame, b: Byte, u: ByteString) {
    match r
    case Reject => !FrameLang(g, f, [b] + u)
    case Consume(fs) =>
      if fs == [] then FrameLang(g, f, [b] + u) <==> u == []
      else |fs| == 1 && (FrameLang(g, f, [b] + u) <==> FrameLang(g, fs[0], u))
    case Finish => FrameLang(g, f, [b] + u) <==> u == []
    case CloseEnum(_) => FrameLang(g, f, [b] + u) <==> u == []
    case Retry(fs) =>
      if fs == [] then !FrameLang(g, f, [b] + u)
      else if |fs| == 1 then FrameLang(g, f, [b] + u) <==> FrameLang(g, fs[0], [b] + u)
      else |fs| == 2 && (FrameLang(g, f, [b] + u) <==> Then(g, fs[1], fs[0], [b] + u))
    case TakeEnum(_) => true
  }

  /** Frame f1 reads a prefix and frame f2 the rest. */
  ghost predicate Then(g: Grammar, f1: Frame, f2: Frame, w: ByteString) {
    exists k :: 0 <= k <= |w| && FrameLang(g, f1, w[..k]) && FrameLang(g, f2, w[k..])
  }

  lemma Front(b: Byte, u: ByteString, k: nat)
    requires 1 <= k <= |u| + 1
    ensures ([b] + u)[..k] == [b] + u[..k - 1] && ([b] + u)[k..] == u[k - 1..]
  {
  }

  /** Inside a multi-byte character or an escape. */
  lemma UnitDerivative(f: Frame, b: Byte, r: ByteString)
    requires f.StringFrame? && StringOk(f) && f.strPhase.Content?
    requires f.utf8Need > 0 || !f.esc.NoEscape?
    ensures var re := ReactString(f, b);
            if re.Reject? then !UnitRest(f, [b] + r)
            else re.Consume? && |re.push| == 1 && re.push[0].StringFrame?
                 && re.push[0] == f.(esc := re.push[0].esc, utf8Need := re.push[0].utf8Need,
                                     nextLo := re.push[0].nextLo, nextHi := re.push[0].nextHi)
                 && StringOk(re.push[0])
                 && (UnitRest(f, [b] + r) <==> UnitRest(re.push[0], r))
  {
    var w := [b] + r;
    assert w[0] == b && w[1..] == r;
    assert forall i :: 1 <= i < |w| ==> w[i] == r[i - 1];
    assert forall i :: 0 <= i < |r| ==> r[i] == w[i + 1];
  }

  /** At the start of a character: the units that begin with b are those whose rest the
      next frame is waiting for. */
  lemma UnitStart(f: Frame, b: Byte, r: ByteString)
    requires f.StringFrame? && StringOk(f) && f.strPhase.Content? && f.enumVals.None?
    requires f.utf8Need == 0 && f.esc.NoEscape? && b != QUOTE
    ensures var re := ReactString(f, b);
            if !Allows(f.max, f.chars + 1) then re.Reject?
            else if re.Reject? then !CharUnit([b] + r)
            else re.Consume? && |re.push| == 1 && re.push[0].StringFrame?
                 && re.push[0] == f.(esc := re.push[0].esc, utf8Need := re.push[0].utf8Need,
                                     nextLo := re.push[0].nextLo, nextHi := re.push[0].nextHi,
                                     chars := f.chars + 1)
                 && StringOk(re.push[0])
                 && (CharUnit([b] + r) <==> UnitRest(re.push[0], r))
  {
    var w := [b] + r;
    assert w[0] == b && w[1..] == r;
    assert forall i :: 0 <= i < |r| ==> r[i] == w[i + 1];
  }

  lemma QuoteStartsNoUnit(u: ByteString)
    ensures !CharUnit([QUOTE] + u)
  {
    assert ([QUOTE] + u)[0] == QUOTE;
  }

  lemma FreeStringDerivative(g: Grammar, f: Frame, b: Byte, u: ByteString)
    requires f.StringFrame? && StringOk(f) && f.enumVals.None?
    ensures Derives(g, ReactString(f, b), f, b, u)
    ensures forall p <- Pushed(ReactString(f, b)) :: FrameOk(g, p)
  {
    var w := [b] + u;
    assert w[0] == b && w[1..] == u && w[0..] == w;
    var re := ReactString(f, b);
    if f.strPhase.StrStart? {
      if b == QUOTE {
        assert u[..0] == [] && u[0..] == u;
        assert UnitRest(re.push[0], u[..0]);
      }
    } else if f.utf8Need > 0 || !f.esc.NoEscape? {
      UnitDerivative(f, b, []);
      assert !UnitRest(f, w[..0]);
      forall k: nat | 1 <= k <= |w|
        ensures UnitRest(f, w[..k]) <==> (!re.Reject? && UnitRest(re.push[0], u[..k - 1]))
        ensures w[k..] == u[k - 1..]
      {
        Front(b, u, k);
        UnitDerivative(f, b, u[..k - 1]);
      }
      if !re.Reject? && FrameLang(g, re.push[0], u) {
        var k :| 0 <= k <= |u| && UnitRest(re.push[0], u[..k]) && StringTail(f.max, f.chars, u[k..]);
        assert UnitRest(f, w[..k + 1]) && w[k + 1..] == u[k..];
      }
    } else {
      assert FreeRest(f, w) <==> StringTail(f.max, f.chars, w) by {
        assert w[..0] == [];
      }
      if b == QUOTE {
        forall k | 1 <= k <= |w| ensures !CharUnit(w[..k]) { Front(b, u, k); QuoteStartsNoUnit(u[..k - 1]); }
      } else {
        FreeStringUnit(g, f, b, u);
      }
    }
  }

  lemma FreeStringUnit(g: Grammar, f: Frame, b: Byte, u: ByteString)
    requires f.StringFrame? && StringOk(f) && f.enumVals.None? && f.strPhase.Content?
    requires f.utf8Need == 0 && f.esc.NoEscape? && b != QUOTE
    ensures var re := ReactString(f, b);
            if re.Reject? then !StringTail(f.max, f.chars, [b] + u)
            else re.Consume? && |re.push| == 1 && re.push[0].StringFrame? && StringOk(re.push[0])
                 && re.push[0].strPhase.Content? && re.push[0].enumVals.None?
                 && (StringTail(f.max, f.chars, [b] + u) <==> FreeRest(re.push[0], u))
  {
    var w := [b] + u;
    var re := ReactString(f, b);
    UnitStart(f, b, []);
    assert w[0] == b;
    forall k: nat | 1 <= k <= |w|
      ensures Allows(f.max, f.chars + 1) ==>
                (CharUnit(w[..k]) <==> (!re.Reject? && UnitRest(re.push[0], u[..k - 1])))
      ensures w[k..] == u[k - 1..]
    {
      Front(b, u, k);
      UnitStart(f, b, u[..k - 1]);
    }
    if !re.Reject? && FreeRest(re.push[0], u) {
      var k :| 0 <= k <= |u| && UnitRest(re.push[0], u[..k]) && StringTail(f.max, f.chars + 1, u[k..]);
      assert CharUnit(w[..k + 1]) && w[k + 1..] == u[k..];
    }
  }

  /** One byte of a fixed text. */
  lemma TextDerivative(p: ByteString, b: Byte, u: ByteString)
    requires |p| > 0
    ensures [b] + u == p <==> b == p[0] && u == p[1..]
    ensures p <= [b] + u <==> b == p[0] && p[1..] <= u
    ensures p <= [b] + u ==> ([b] + u)[|p|..] == u[|p| - 1..]
  {
    var w := [b] + u;
    assert w[0] == b && w[1..] == u && p == [p[0]] + p[1..];
    if p <= w { assert u[..|p| - 1] == w[..|p|][1..]; }
    if b == p[0] && p[1..] <= u { assert w[..|p|] == [b] + u[..|p| - 1]; }
  }

  /** One byte of a fixed text that was read up to pos. */
  lemma FixedText(text: ByteString, pos: nat, b: Byte, u: ByteString)
    requires pos < |text|
    ensures text[pos..] <= [b] + u <==> b == text[pos] && text[pos + 1..] <= u
    ensures text[pos..] <= [b] + u ==> ([b] + u)[|text| - pos..] == u[|text| - pos - 1..]
    ensures pos + 1 == |text| ==> text[pos + 1..] == [] && u[0..] == u
  {
    TextDerivative(text[pos..], b, u);
    assert text[pos..][1..] == text[pos + 1..];
  }

  /** An enum frame against one of its values; `b` is the value's next byte or its quote. */
  lemma EnumValueDerivative(f: Frame, v: ByteString, b: Byte, u: ByteString)
    requires f.StringFrame? && f.enumVals.Some? && f.strPhase.Content? && Plain(v)
    ensures var buf := f.enumVals.value.buf;
            EnumRest(f, v, [b] + u) <==>
              if b == QUOTE then u == [] && v == buf
              else EnumRest(f.(enumVals := Some(f.enumVals.value.(buf := buf + [b]))), v, u)
  {
    var buf := f.enumVals.value.buf;
    assert buf + [b] <= v ==> buf <= v;
    if buf <= v {
      TextDerivative(v[|buf|..] + [QUOTE], b, u);
      if |buf| < |v| {
        assert (v[|buf|..] + [QUOTE])[0] == v[|buf|];
        assert (v[|buf|..] + [QUOTE])[1..] == v[|buf| + 1..] + [QUOTE];
        assert v[..|buf| + 1] == v[..|buf|] + [v[|buf|]];
        assert buf + [b] <= v <==> b == v[|buf|];
      } else {
        assert v == buf && v[|buf|..] == [];
      }
    }
  }

  lemma EnumStartDerivative(f: Frame, v: ByteString, b: Byte, u: ByteString)
    requires f.StringFrame? && f.enumVals.Some? && f.strPhase.StrStart? && StringOk(f)
    ensures EnumRest(f, v, [b] + u) <==> b == QUOTE && EnumRest(f.(strPhase := Content), v, u)
  {
    TextDerivative([QUOTE] + v + [QUOTE], b, u);
    assert ([QUOTE] + v + [QUOTE])[1..] == v + [QUOTE] && v[0..] == v;
  }

  /** An enum frame that has read a lead byte can no longer spell any plain value. */
  lemma SpoiltEnum(f: Frame, v: ByteString, w: ByteString)
    requires f.StringFrame? && f.enumVals.Some? && StringOk(f) && !Plain(f.enumVals.value.buf) && Plain(v)
    ensures f.strPhase.Content? && !EnumRest(f, v, w)
  {
    var buf := f.enumVals.value.buf;
    var i :| 0 <= i < |buf| && !PlainByte(buf[i]);
  }

  /** The enum frame rejects b only when no plain value goes on with b. */
  lemma EnumReject(f: Frame, v: ByteString, b: Byte, u: ByteString)
    requires f.StringFrame? && f.enumVals.Some? && StringOk(f) && f.strPhase.Content?
    requires v in f.enumVals.value.values && Usable(f.max, v)
    requires ReactString(f, b).Reject?
    ensures !EnumRest(f, v, [b] + u)
  {
    var es := f.enumVals.value;
    if !Plain(es.buf) {
      SpoiltEnum(f, v, [b] + u);
    } else {
      EnumValueDerivative(f, v, b, u);
      if b != QUOTE && es.buf + [b] <= v {
        assert v[|es.buf|] == b && PlainByte(b);
        assert EnumPrefix(es.(buf := es.buf + [b]));
      }
    }
  }

  /** No lead byte is read in the middle of a value, so the frame stays well-formed. */
  lemma EnumBufGrows(f: Frame, b: Byte)
    requires f.StringFrame? && f.enumVals.Some? && StringOk(f) && f.strPhase.Content?
    requires f.utf8Need == 0 && b != QUOTE && ReactString(f, b).Consume?
    ensures Plain(f.enumVals.value.buf)
    ensures EnumBufOk(f.enumVals.value.buf + [b])
    ensures b >= 0x80 ==> !Plain(f.enumVals.value.buf + [b])
  {
    var es := f.enumVals.value;
    var buf' := es.buf + [b];
    var i :| 0 <= i < |es.values| && buf' <= es.values[i];
    var v := es.values[i];
    assert v[|es.buf|] == b;
    assert es.buf != [] ==> v[|es.buf| - 1] == es.buf[|es.buf| - 1];
    assert buf'[|es.buf|] == b;
  }

  /** Closing the quote is possible exactly at a plain value. */
  lemma EnumClose(f: Frame)
    requires f.StringFrame? && f.enumVals.Some? && StringOk(f) && f.strPhase.Content?
    requires ReactString(f, QUOTE).CloseEnum?
    ensures Usable(f.max, f.enumVals.value.buf) && f.enumVals.value.buf in f.enumVals.value.values
  {
    var es := f.enumVals.value;
    var i := FirstEqual(es.values, es.buf, 0).value;
    assert LeadsFollowed(es.values[i]);
  }

  /** Against each usable value the reaction of an enum frame is exactly right. */
  lemma EnumValueStep(g: Grammar, f: Frame, v: ByteString, b: Byte, u: ByteString)
    requires f.StringFrame? && f.enumVals.Some? && StringOk(f)
    requires v in f.enumVals.value.values && Usable(f.max, v)
    ensures match ReactString(f, b)
            case Reject => !EnumRest(f, v, [b] + u)
            case Consume(fs) => |fs| == 1 && fs[0].StringFrame? && fs[0].enumVals.Some?
                                && (EnumRest(f, v, [b] + u) <==> EnumRest(fs[0], v, u))
            case CloseEnum(_) => EnumRest(f, v, [b] + u) <==> u == [] && v == f.enumVals.value.buf
            case _ => false
  {
    if f.strPhase.StrStart? {
      EnumStartDerivative(f, v, b, u);
    } else if ReactString(f, b).Reject? {
      EnumReject(f, v, b, u);
    } else if f.utf8Need > 0 {
      var f' := ReactString(f, b).push[0];
      SpoiltEnum(f, v, [b] + u);
      SpoiltEnum(f, v, u);
    } else {
      EnumValueDerivative(f, v, b, u);
    }
  }

  lemma EnumFrameOk(g: Grammar, f: Frame, b: Byte)
    requires f.StringFrame? && f.enumVals.Some? && StringOk(f)
    ensures forall p <- Pushed(ReactString(f, b)) :: p.StringFrame? && StringOk(p)
              && p.enumVals.Some? && p.max == f.max && p.enumVals.value.values == f.enumVals.value.values
  {
    if f.strPhase.Content? && f.utf8Need == 0 && b != QUOTE && ReactString(f, b).Consume? {
      EnumBufGrows(f, b);
    }
  }

  lemma EnumDerivative(g: Grammar, f: Frame, b: Byte, u: ByteString)
    requires f.StringFrame? && f.enumVals.Some? && StringOk(f)
    ensures Derives(g, ReactString(f, b), f, b, u)
    ensures forall p <- Pushed(ReactString(f, b)) :: FrameOk(g, p)
  {
    var vals := f.enumVals.value.values;
    EnumFrameOk(g, f, b);
    forall i | 0 <= i < |vals| && Usable(f.max, vals[i])
      ensures match ReactString(f, b)
              case Reject => !EnumRest(f, vals[i], [b] + u)
              case Consume(fs) => |fs| == 1 && fs[0].StringFrame? && fs[0].enumVals.Some?
                                  && (EnumRest(f, vals[i], [b] + u) <==> EnumRest(fs[0], vals[i], u))
              case CloseEnum(_) => EnumRest(f, vals[i], [b] + u) <==> u == [] && vals[i] == f.enumVals.value.buf
              case _ => false
    {
      EnumValueStep(g, f, vals[i], b, u);
    }
    match ReactString(f, b)
    case CloseEnum(_) =>
      assert b == QUOTE;
      EnumClose(f);
    case Consume(fs) =>
      assert fs[0].enumVals.value.values == vals;
      assert FrameLang(g, f, [b] + u) ==> FrameLang(g, fs[0], u);
    case _ =>
  }

  /** Digits one at a time. */
  lemma MagnitudeDerivative(b: Byte, u: ByteString)
    ensures Magnitude([b] + u) <==>
              IsDigit(b) && if b == ZERO then u == [] else Digits(u) && |u| <= 17
  {
    var w := [b] + u;
    assert w[0] == b && forall i :: 0 <= i < |u| ==> u[i] == w[i + 1];
    assert forall i :: 1 <= i < |w| ==> w[i] == u[i - 1];
  }

  lemma IntegerDerivative(g: Grammar, st: IntState, b: Byte, u: ByteString)
    requires FrameOk(g, IntegerFrame(st))
    ensures Derives(g, ReactInteger(st, b), IntegerFrame(st), b, u)
    ensures forall p <- Pushed(ReactInteger(st, b)) :: FrameOk(g, p)
  {
    var w := [b] + u;
    assert w[0] == b && w[1..] == u;
    MagnitudeDerivative(b, u);
    assert Digits(w) <==> IsDigit(b) && Digits(u) by {
      assert forall i :: 0 <= i < |u| ==> u[i] == w[i + 1];
      assert forall i :: 1 <= i < |w| ==> w[i] == u[i - 1];
    }
  }

  lemma WordDerivative(g: Grammar, bytes: ByteString, pos: nat, b: Byte, u: ByteString)
    requires pos < |bytes|
    ensures Derives(g, React(g, None, WordFrame(bytes, pos), b), WordFrame(bytes, pos), b, u)
    ensures forall p <- Pushed(React(g, None, WordFrame(bytes, pos), b)) :: FrameOk(g, p)
  {
    TextDerivative(bytes[pos..], b, u);
    assert bytes[pos..][1..] == bytes[pos + 1..];
  }

  lemma BooleanDerivative(g: Grammar, isTrue: Option<bool>, pos: nat, b: Byte, u: ByteString)
    requires FrameOk(g, BooleanFrame(isTrue, pos))
    ensures Derives(g, ReactBoolean(isTrue, pos, b), BooleanFrame(isTrue, pos), b, u)
    ensures forall p <- Pushed(ReactBoolean(isTrue, pos, b)) :: FrameOk(g, p)
  {
    match isTrue
    case None =>
      TextDerivative(TRUE_WORD, b, u);
      TextDerivative(FALSE_WORD, b, u);
      assert BoolWord(true)[1..] != [] && BoolWord(false)[1..] != [];
    case Some(v) =>
      TextDerivative(BoolWord(v)[pos..], b, u);
      assert BoolWord(v)[pos..][1..] == BoolWord(v)[pos + 1..];
  }
}
