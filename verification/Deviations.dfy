/** Where the matcher departs from the promise it documents, and exactly when. */
module Deviations {
  import opened Bytes
  import opened Options
  import opened Schema
  import opened ToolCallLanguage
  import opened MatcherFrames
  import opened StackDerivatives
  import opened MatcherTheorems
  import opened Liveness
  import opened SpelledTexts
  import DeadEnds

  // ---------- escapes ----------

  /** The code unit spelt by four hexadecimal digits. */
  function CodeUnit(a: Byte, b: Byte, c: Byte, d: Byte): nat {
    HexValue(a) * 0x1000 + HexValue(b) * 0x100 + HexValue(c) * 0x10 + HexValue(d)
  }

  /** The surrogates, and two ranges of ordinary code units whose first two digits look like theirs. */
  predicate Refused(u: nat) { 0xD800 <= u <= 0xDFFF || 0xE800 <= u <= 0xEFFF || 0xF800 <= u <= 0xFFFF }

  lemma RefusedDigits(a: Byte, b: Byte, c: Byte, d: Byte)
    requires IsHex(a) && IsHex(b) && IsHex(c) && IsHex(d)
    ensures HexPairOk(HexValue(a), HexValue(b)) <==> !Refused(CodeUnit(a, b, c, d))
  {
    hide HexValue;
  }

  /** A string without fixed values, between two characters, with room for one more. */
  predicate HasRoom(f: Frame) {
    && f.StringFrame? && f.strPhase.Content? && f.enumVals.None? && f.utf8Need == 0 && f.esc.NoEscape?
    && Allows(f.max, f.chars + 1)
  }

  /** One byte read by a string frame on top of any stack. */
  lemma StringByte(g: Grammar, s: State, f: Frame, b: Byte, w: ByteString)
    requires AllInBounds(s.frames) && |s.frames| > 0 && s.frames[|s.frames| - 1] == f && f.StringFrame?
    ensures var r := ReactString(f, b);
            && (r.Reject? ==> !Run(g, s, [b] + w).ok)
            && (r.Consume? && |r.push| == 1 ==>
                  var s' := s.(frames := s.frames[|s.frames| - 1 := r.push[0]]);
                  AllInBounds(s'.frames) && Run(g, s, [b] + w) == Run(g, s', w))
  {
    hide ReactString;
    var n, r := |s.frames| - 1, ReactString(f, b);
    StepAgain(g, s, b);
    assert ([b] + w)[1..] == w;
    if r.Consume? && |r.push| == 1 {
      assert s.frames[..n] + r.push == s.frames[n := r.push[0]];
    }
  }

  /** The backslash, the u and the first digit. */
  lemma EscapeOpens(g: Grammar, s: State, f: Frame, a: Byte, w: ByteString)
    requires AllInBounds(s.frames) && |s.frames| > 0 && s.frames[|s.frames| - 1] == f && HasRoom(f) && IsHex(a)
    ensures var s' := s.(frames := s.frames[|s.frames| - 1 := f.(chars := f.chars + 1, esc := Hex(3, HexValue(a)))]);
            AllInBounds(s'.frames) && Run(g, s, [BACKSLASH, LOWER_U, a] + w) == Run(g, s', w)
  {
    hide Run, HexValue;
    var n := |s.frames| - 1;
    var f1 := f.(chars := f.chars + 1, esc := Backslash);
    var f2 := f1.(esc := Hex(4, 0));
    assert [BACKSLASH, LOWER_U, a] + w == [BACKSLASH] + ([LOWER_U] + ([a] + w));
    StringByte(g, s, f, BACKSLASH, [LOWER_U] + ([a] + w));
    var s1 := s.(frames := s.frames[n := f1]);
    StringByte(g, s1, f1, LOWER_U, [a] + w);
    assert s1.frames[n := f2] == s.frames[n := f2];
    var s2 := s.(frames := s.frames[n := f2]);
    StringByte(g, s2, f2, a, w);
    assert s2.frames[n := f1.(esc := Hex(3, HexValue(a)))] == s.frames[n := f1.(esc := Hex(3, HexValue(a)))];
  }

  /** The last three digits. */
  lemma EscapeCloses(g: Grammar, s: State, f: Frame, b: Byte, c: Byte, d: Byte)
    requires AllInBounds(s.frames) && |s.frames| > 0 && s.frames[|s.frames| - 1] == f && f.StringFrame?
    requires f.strPhase.Content? && f.utf8Need == 0 && f.esc.Hex? && f.esc.n == 3 && IsHex(b) && IsHex(c) && IsHex(d)
    ensures var o := Run(g, s, [b, c, d]);
            && (o.ok <==> HexPairOk(f.esc.first, HexValue(b)))
            && (o.ok ==> o.state == s.(frames := s.frames[|s.frames| - 1 := f.(esc := NoEscape)]))
  {
    hide Run, HexValue;
    var n := |s.frames| - 1;
    assert [b, c, d] == [b] + [c, d];
    StringByte(g, s, f, b, [c, d]);
    if HexPairOk(f.esc.first, HexValue(b)) {
      var f1, f2, f3 := f.(esc := Hex(2, f.esc.first)), f.(esc := Hex(1, f.esc.first)), f.(esc := NoEscape);
      var s1, s2 := s.(frames := s.frames[n := f1]), s.(frames := s.frames[n := f2]);
      assert [c, d] == [c] + [d] && s1.frames[n := f2] == s2.frames;
      StringByte(g, s1, f1, c, [d]);
      assert [d] == [d] + [] && s2.frames[n := f3] == s.frames[n := f3];
      StringByte(g, s2, f2, d, []);
      NothingRead(g, s.(frames := s.frames[n := f3]));
    }
  }

  /** In a string with room for a character the matcher reads a \u escape exactly if its code
      unit is in none of the three ranges, and then counts one character. */
  lemma EscapesRefused(g: Grammar, s: State, f: Frame, a: Byte, b: Byte, c: Byte, d: Byte)
    requires AllInBounds(s.frames) && |s.frames| > 0 && s.frames[|s.frames| - 1] == f && HasRoom(f)
    requires IsHex(a) && IsHex(b) && IsHex(c) && IsHex(d)
    ensures var o := Run(g, s, [BACKSLASH, LOWER_U, a, b, c, d]);
            && (o.ok <==> !Refused(CodeUnit(a, b, c, d)))
            && (o.ok ==> o.state == s.(frames := s.frames[|s.frames| - 1 := f.(chars := f.chars + 1)]))
  {
    hide Run, HexValue, CodeUnit, Refused;
    var n, hex := |s.frames| - 1, f.(chars := f.chars + 1, esc := Hex(3, HexValue(a)));
    RefusedDigits(a, b, c, d);
    assert [BACKSLASH, LOWER_U, a, b, c, d] == [BACKSLASH, LOWER_U, a] + [b, c, d];
    EscapeOpens(g, s, f, a, [b, c, d]);
    EscapeCloses(g, s.(frames := s.frames[n := hex]), hex, b, c, d);
    assert s.frames[n := hex][n := f.(chars := f.chars + 1)] == s.frames[n := f.(chars := f.chars + 1)];
  }

  lemma NothingRead(g: Grammar, s: State)
    requires AllInBounds(s.frames)
    ensures Run(g, s, []) == Outcome(s, true)
  {
  }

  /** U+E800, an ordinary character of the Private Use Area, cannot be escaped. */
  lemma PrivateUseRefused(g: Grammar, s: State, f: Frame)
    requires AllInBounds(s.frames) && |s.frames| > 0 && s.frames[|s.frames| - 1] == f && HasRoom(f)
    ensures !Run(g, s, [BACKSLASH, LOWER_U, 0x45, 0x38, ZERO, ZERO]).ok
  {
    EscapesRefused(g, s, f, 0x45, 0x38, ZERO, ZERO);
  }

  /** One character of a string as section 7 of RFC 8259 writes it. */
  predicate JsonChar(u: ByteString) {
    || (|u| == 1 && PlainByte(u[0]))
    || Utf8Multi(u)
    || (|u| == 2 && u[0] == BACKSLASH && SimpleEscape(u[1]))
    || IsUnicodeEscape(u)
  }

  predicate IsUnicodeEscape(u: ByteString) {
    |u| == 6 && u[0] == BACKSLASH && u[1] == LOWER_U && IsHex(u[2]) && IsHex(u[3]) && IsHex(u[4]) && IsHex(u[5])
  }

  /** Nothing else sets the characters the matcher reads apart from those of the standard. */
  lemma CharactersRead(u: ByteString)
    ensures CharUnit(u) <==> JsonChar(u) && (IsUnicodeEscape(u) ==> !Refused(CodeUnit(u[2], u[3], u[4], u[5])))
  {
    hide HexValue, CodeUnit, Refused, SimpleEscape;
    if IsUnicodeEscape(u) { RefusedDigits(u[2], u[3], u[4], u[5]); }
  }

  // ---------- values outside ASCII ----------

  /** Reading a value up to and including the first byte of a character outside ASCII leads to
      a frame no text can finish: the continuation bytes are never recorded. */
  lemma NonAsciiValueIsDeadEnd(g: Grammar, max: Option<nat>, vals: seq<ByteString>, i: nat, k: nat) returns (f: Frame)
    requires i < |vals| && k < |vals[i]| && Plain(vals[i][..k]) && Allows(max, k + 1)
    requires LeadByte(vals[i][k], 0x80, 0xBF).Some?
    ensures Goes(g, [NewString(max, Some(vals))], [QUOTE] + vals[i][..k + 1], [f])
    ensures DeadEnds.Dead(g, f) && !EnumLive(max, vals)
  {
    hide Goes;
    var p := vals[i][..k + 1];
    assert forall j :: 0 <= j < k ==> p[j] == vals[i][..k][j];
    assert Readable(max, p) && !PlainByte(p[k]);
    assert forall j | 0 <= j < |vals| && p <= vals[j] :: vals[j][k] == p[k];
    var start := NewString(max, Some(vals));
    var content := start.(strPhase := Content);
    OneByte(g, start, QUOTE);
    f := DeadEnds.FollowPrefix(g, content, vals[i], k + 1);
    assert vals[i][0..k + 1] == p;
    GoesOn(g, [start], [QUOTE], [content], p, [f]);
    DeadEnds.DeadEnumIsDead(g, f);
  }

  // ---------- spaces in the outer object ----------

  function Spaces(n: nat): (w: ByteString)
    ensures |w| == n
  {
    seq(n, _ => SPACE)
  }

  /** Before the comma and before the closing brace of the call the matcher reads at most one space. */
  lemma OneOuterSpace(g: Grammar, s: State, f: Frame, n: nat)
    requires s.frames == [f] && f.ToolCallFrame? && (f.callPhase.AfterName? || f.callPhase.AfterInput?) && !f.callSpace
    ensures AllInBounds(s.frames) && (Run(g, s, Spaces(n)).ok <==> n <= 1)
  {
    hide Step;
    if n > 0 {
      var f' := f.(callSpace := true);
      var s' := s.(frames := [f']);
      SpaceStep(g, s, f);
      assert Spaces(n)[1..] == Spaces(n - 1);
      if n > 1 { SpaceStep(g, s', f'); }
    }
  }

  /** The first such space is taken, a second one refused. */
  lemma SpaceStep(g: Grammar, s: State, f: Frame)
    requires s.frames == [f] && f.ToolCallFrame? && (f.callPhase.AfterName? || f.callPhase.AfterInput?)
    ensures AllInBounds(s.frames)
    ensures f.callSpace ==> !Step(g, s, SPACE).ok
    ensures !f.callSpace ==> Step(g, s, SPACE) == Outcome(s.(frames := [f.(callSpace := true)]), true)
  {
    StepAgain(g, s, SPACE);
    var f' := f.(callSpace := true);
    assert s.frames[..0] + [f'] == [f'];
  }

  /** A call of tool i with spaces before the comma and before the closing brace, and no others. */
  function SpacedCall(g: Grammar, i: nat, input: ByteString, before: nat, after: nat): ByteString
    requires i < |g.toolNames|
  {
    CallText(g, Gaps([], [], Spaces(before), [], [], Spaces(after)), g.toolNames[i], input)
  }

  /** Either space is accepted, though the documentation lists neither. */
  lemma OuterSpacesAccepted(g: Grammar, i: nat, input: ByteString, before: nat, after: nat)
    requires WellFormed(g) && Callable(g, i) && Conforms(g.toolSchemas[i], input) && before <= 1 && after <= 1
    ensures var o := Run(g, INITIAL, SpacedCall(g, i, input, before, after)); o.ok && Complete(o.state)
  {
    hide Run, Conforms, CallText;
    var w, s := SpacedCall(g, i, input, before, after), Gaps([], [], Spaces(before), [], [], Spaces(after));
    assert AllGaps(s) && Names(g, i, g.toolNames[i]);
    PartsCall(g, s, i, input, w);
    AcceptsExactlyToolCalls(g, w);
  }
}
