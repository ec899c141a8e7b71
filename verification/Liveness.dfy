/** When the matcher never paints itself into a corner: for a live grammar every state it
    reaches can be driven to completion. */
module Liveness {
  import opened Bytes
  import opened Options
  import opened Schema
  import opened ToolCallLanguage
  import opened MatcherFrames
  import opened FrameLanguages
  import opened StringDerivatives
  import opened FrameDerivatives
  import opened StackDerivatives
  import opened MatcherTheorems

  // ---------- the condition on the grammar ----------

  /** Some plain value within the length bound starts with p. */
  predicate Extends(max: Option<nat>, vals: seq<ByteString>, p: ByteString) {
    exists j :: 0 <= j < |vals| && Usable(max, vals[j]) && p <= vals[j]
  }

  /** p can be read: within the bound, and plain except perhaps for a final lead byte. */
  predicate Readable(max: Option<nat>, p: ByteString) { EnumBufOk(p) && Allows(max, |p|) }

  /** Whatever can be read of a value goes on to a plain value within the bound. */
  predicate EnumLive(max: Option<nat>, vals: seq<ByteString>) {
    && Extends(max, vals, [])
    && (forall i, k :: 0 <= i < |vals| && 0 <= k <= |vals[i]| && Readable(max, vals[i][..k])
          ==> Extends(max, vals, vals[i][..k]))
  }

  predicate LiveNode(s: Node) {
    match s
    case Object(props) => forall i :: 0 <= i < |props| ==> LiveNode(props[i].schema)
    case String(max, Some(vals)) => EnumLive(max, vals)
    case Array(items, _) => LiveNode(items)
    case _ => true
  }

  predicate Callable(g: Grammar, i: nat) {
    FirstOf(g.toolNames, i) && Plain(g.toolNames[i]) && i < |g.toolSchemas|
  }

  /** The number of a tool that can be called. */
  ghost predicate Numbered(g: Grammar, n: nat) { exists i: nat :: Callable(g, i) && Number(i) == n }

  /** The condition under which no accepted bytes are a dead end. */
  predicate LiveGrammar(g: Grammar) {
    && EnumLive(None, g.toolNames)
    && (forall i: nat :: i < |g.toolNames| && Callable(g, i) ==> LiveNode(g.toolSchemas[i]))
  }

  // ---------- driving the frames on top of a stack ----------

  predicate EndsWith(a: seq<Frame>, fs: seq<Frame>) { |fs| <= |a| && a[|a| - |fs|..] == fs }

  /** Reading p turns the frames fs on top of any stack into fs'. */
  ghost predicate Goes(g: Grammar, fs: seq<Frame>, p: ByteString, fs': seq<Frame>) {
    forall st: State :: AllInBounds(st.frames) && EndsWith(st.frames, fs) ==>
      var o := Run(g, st, p);
      o.ok && o.state.frames == st.frames[..|st.frames| - |fs|] + fs'
  }

  lemma {:induction false} RunConcat(g: Grammar, s: State, p: ByteString, q: ByteString)
    requires AllInBounds(s.frames)
    ensures Run(g, s, p + q) == if Run(g, s, p).ok then Run(g, Run(g, s, p).state, q) else Run(g, s, p)
    decreases |p|
  {
    hide Step;
    if p == [] {
      assert p + q == q;
    } else {
      assert (p + q)[1..] == p[1..] + q;
      if Step(g, s, p[0]).ok { RunConcat(g, Step(g, s, p[0]).state, p[1..], q); }
    }
  }

  lemma GoesOn(g: Grammar, fs: seq<Frame>, p: ByteString, fs': seq<Frame>, q: ByteString, fs'': seq<Frame>)
    requires Goes(g, fs, p, fs') && Goes(g, fs', q, fs'')
    ensures Goes(g, fs, p + q, fs'')
  {
    forall st: State | AllInBounds(st.frames) && EndsWith(st.frames, fs)
      ensures var o := Run(g, st, p + q); o.ok && o.state.frames == st.frames[..|st.frames| - |fs|] + fs''
    {
      RunConcat(g, st, p, q);
      var mid := Run(g, st, p).state;
      assert EndsWith(mid.frames, fs');
      assert mid.frames[..|mid.frames| - |fs'|] == st.frames[..|st.frames| - |fs|];
    }
  }

  lemma GoesNowhere(g: Grammar, fs: seq<Frame>)
    ensures Goes(g, fs, [], fs)
  {
    forall st: State | AllInBounds(st.frames) && EndsWith(st.frames, fs)
      ensures st.frames == st.frames[..|st.frames| - |fs|] + fs
    {
    }
  }

  lemma EndsWithAbove(a: seq<Frame>, below: seq<Frame>, fs: seq<Frame>)
    requires EndsWith(a, below + fs)
    ensures EndsWith(a, fs)
    ensures a[..|a| - |fs|] == a[..|a| - |below + fs|] + below
  {
    var m, n := |a| - |below + fs|, |a| - |fs|;
    assert a[m..] == below + fs;
    assert a[n..] == a[m..][|below|..] == fs;
    assert a[..n] == a[..m] + a[m..][..|below|];
  }

  lemma GoesAbove(g: Grammar, below: seq<Frame>, fs: seq<Frame>, p: ByteString, fs': seq<Frame>)
    requires Goes(g, fs, p, fs')
    ensures Goes(g, below + fs, p, below + fs')
  {
    hide Run, EndsWith;
    forall st: State | AllInBounds(st.frames) && EndsWith(st.frames, below + fs)
      ensures |below + fs| <= |st.frames|
      ensures var o := Run(g, st, p);
              o.ok && o.state.frames == st.frames[..|st.frames| - |below + fs|] + (below + fs')
    {
      EndsLength(st.frames, below + fs);
      EndsWithAbove(st.frames, below, fs);
      EndsLength(st.frames, fs);
    }
  }

  lemma EndsLength(a: seq<Frame>, fs: seq<Frame>)
    requires EndsWith(a, fs)
    ensures |fs| <= |a|
  {
  }

  lemma OneByte(g: Grammar, f: Frame, b: Byte)
    requires InBounds(f) && !IsNameValue(f)
    requires var r := React(g, None, f, b); r.Consume? || r.CloseEnum? || r.Finish?
    ensures Goes(g, [f], [b], Pushed(React(g, None, f, b)))
  {
    forall st: State | AllInBounds(st.frames) && EndsWith(st.frames, [f])
      ensures var o := Run(g, st, [b]);
              o.ok && o.state.frames == st.frames[..|st.frames| - 1] + Pushed(React(g, None, f, b))
    {
      LastDoesNotMatter(g, st.lastEnum, f, b);
      assert st.frames[|st.frames| - 1] == f;
      assert [b][1..] == [];
    }
  }

  lemma LastDoesNotMatter(g: Grammar, last: Option<nat>, f: Frame, b: Byte)
    requires InBounds(f) && !IsNameValue(f)
    ensures React(g, last, f, b) == React(g, None, f, b)
  {
  }

  /** A frame that passes the first byte on goes where the pushed frames go. */
  lemma PassedOn(g: Grammar, f: Frame, p: ByteString, fs: seq<Frame>, fs': seq<Frame>)
    requires InBounds(f) && !IsNameValue(f) && |p| > 0
    requires React(g, None, f, p[0]) == Retry(fs) && Goes(g, fs, p, fs')
    ensures Goes(g, [f], p, fs')
  {
    hide React;
    forall st: State | AllInBounds(st.frames) && EndsWith(st.frames, [f])
      ensures var o := Run(g, st, p); o.ok && o.state.frames == st.frames[..|st.frames| - 1] + fs'
    {
      LastDoesNotMatter(g, st.lastEnum, f, p[0]);
      var n := |st.frames| - 1;
      assert st.frames[n] == f;
      StepAgain(g, st, p[0]);
      var st' := st.(frames := st.frames[..n] + fs);
      assert EndsWith(st'.frames, fs) && st'.frames[..|st'.frames| - |fs|] == st.frames[..n];
      assert Run(g, st, p) == Run(g, st', p);
    }
  }

  /** A frame that may end without a byte gives way to the frame below it. */
  lemma EndedGivesWay(g: Grammar, f: Frame, m: seq<Frame>, p: ByteString, fs': seq<Frame>)
    requires InBounds(f) && Ended(m) && Goes(g, [f], p, fs') && |p| > 0 && !IsDigit(p[0])
    ensures Goes(g, [f] + m, p, fs')
  {
    hide Run;
    if m == [] {
      assert [f] + m == [f];
    } else {
      assert m == [m[0]];
      forall st: State | AllInBounds(st.frames) && EndsWith(st.frames, [f] + m)
        ensures var o := Run(g, st, p); o.ok && o.state.frames == st.frames[..|st.frames| - 2] + fs'
      {
        EndsWithAbove(st.frames, [f], m);
        IntegerPops(g, st, m[0], p);
        var n := |st.frames| - 1;
        var st' := st.(frames := st.frames[..n]);
        assert st'.frames == st.frames[..n - 1] + [f];
        assert EndsWith(st'.frames, [f]) && st'.frames[..|st'.frames| - 1] == st.frames[..n - 1];
      }
    }
  }

  lemma IntegerPops(g: Grammar, st: State, f: Frame, p: ByteString)
    requires AllInBounds(st.frames) && EndsWith(st.frames, [f]) && MayEnd(f) && |p| > 0 && !IsDigit(p[0])
    ensures Run(g, st, p) == Run(g, st.(frames := st.frames[..|st.frames| - 1]), p)
  {
    var n := |st.frames| - 1;
    assert st.frames[n] == f && React(g, st.lastEnum, f, p[0]) == Retry([]);
    StepAgain(g, st, p[0]);
    assert st.frames[..n] + [] == st.frames[..n];
  }

  predicate Ended(m: seq<Frame>) {
    m == [] || (|m| == 1 && MayEnd(m[0]) && (m[0].st.IntDigits? ==> m[0].st.n <= 18))
  }

  /** p takes the frame off the stack, up to an integer that only awaits another byte. */
  ghost predicate Drains(g: Grammar, f: Frame, p: ByteString) {
    exists m: seq<Frame> :: Ended(m) && Goes(g, [f], p, m)
  }

  // ---------- strings ----------

  /** Bytes still owed before the character in progress is finished. */
  function Owed(f: Frame): nat
    requires f.StringFrame?
  {
    f.utf8Need + match f.esc case NoEscape => 0 case Backslash => 1 case Hex(n, _) => n
  }

  lemma {:induction false} DrainContent(g: Grammar, f: Frame) returns (p: ByteString)
    requires f.StringFrame? && StringOk(f) && f.enumVals.None? && f.strPhase.Content?
    ensures Goes(g, [f], p, [])
    decreases Owed(f)
  {
    hide Goes;
    if Owed(f) == 0 {
      p := [QUOTE];
      OneByte(g, f, QUOTE);
    } else {
      var b: Byte := if f.utf8Need > 0 then f.nextLo else if f.esc.Backslash? then LOWER_N else ZERO;
      UnitDerivative(f, b, []);
      OneByte(g, f, b);
      var f' := ReactString(f, b).push[0];
      var q := DrainContent(g, f');
      p := [b] + q;
      GoesOn(g, [f], [b], [f'], q, []);
    }
  }

  /** Spelling out the rest of a plain value. */
  lemma {:induction false} FollowEnum(g: Grammar, f: Frame, v: ByteString)
    requires f.StringFrame? && f.enumVals.Some? && f.strPhase.Content? && f.utf8Need == 0 && f.esc.NoEscape?
    requires f.chars == |f.enumVals.value.buf|
    requires v in f.enumVals.value.values && Usable(f.max, v) && f.enumVals.value.buf <= v
    ensures Goes(g, [f], v[|f.enumVals.value.buf|..] + [QUOTE], [])
    decreases |v| - |f.enumVals.value.buf|
  {
    hide Goes;
    var es := f.enumVals.value;
    if es.buf == v {
      assert v[|es.buf|..] + [QUOTE] == [QUOTE];
      OneByte(g, f, QUOTE);
    } else {
      var b := v[|es.buf|];
      assert es.buf + [b] <= v && PlainByte(b);
      OneByte(g, f, b);
      var f' := ReactString(f, b).push[0];
      FollowEnum(g, f', v);
      GoesOn(g, [f], [b], [f'], v[|es.buf| + 1..] + [QUOTE], []);
      assert [b] + (v[|es.buf| + 1..] + [QUOTE]) == v[|es.buf|..] + [QUOTE];
    }
  }

  /** In a live grammar the bytes read of an enum value always lead to a plain value. */
  lemma EnumGoesOn(f: Frame) returns (v: ByteString)
    requires f.StringFrame? && f.enumVals.Some? && StringOk(f) && f.strPhase.Content?
    requires EnumLive(f.max, f.enumVals.value.values)
    ensures f.utf8Need == 0 && v in f.enumVals.value.values && Usable(f.max, v) && f.enumVals.value.buf <= v
  {
    var es := f.enumVals.value;
    assert Readable(f.max, es.buf);
    if es.buf != [] {
      var i :| 0 <= i < |es.values| && es.buf <= es.values[i];
      assert es.values[i][..|es.buf|] == es.buf;
    }
    assert Extends(f.max, es.values, es.buf);
    var j :| 0 <= j < |es.values| && Usable(f.max, es.values[j]) && es.buf <= es.values[j];
    v := es.values[j];
    assert Plain(es.buf);
  }

  lemma DrainString(g: Grammar, f: Frame) returns (p: ByteString)
    requires f.StringFrame? && StringOk(f)
    requires f.enumVals.Some? ==> EnumLive(f.max, f.enumVals.value.values)
    ensures Goes(g, [f], p, [])
    ensures f.strPhase.StrStart? ==> |p| > 0 && p[0] == QUOTE
    decreases f.strPhase.StrStart?
  {
    hide Goes, EnumLive;
    if f.strPhase.StrStart? {
      OneByte(g, f, QUOTE);
      var f' := f.(strPhase := Content);
      var q := DrainString(g, f');
      p := [QUOTE] + q;
      GoesOn(g, [f], [QUOTE], [f'], q, []);
    } else if f.enumVals.None? {
      p := DrainContent(g, f);
    } else {
      var v := EnumGoesOn(f);
      p := v[|f.enumVals.value.buf|..] + [QUOTE];
      FollowEnum(g, f, v);
    }
  }

  // ---------- fixed words ----------

  lemma {:induction false} DrainWord(g: Grammar, bytes: ByteString, pos: nat) returns (p: ByteString)
    requires pos < |bytes|
    ensures Goes(g, [WordFrame(bytes, pos)], p, []) && |p| > 0 && p[0] == bytes[pos]
    decreases |bytes| - pos
  {
    hide Goes;
    OneByte(g, WordFrame(bytes, pos), bytes[pos]);
    p := [bytes[pos]];
    if pos + 1 < |bytes| {
      var q := DrainWord(g, bytes, pos + 1);
      GoesOn(g, [WordFrame(bytes, pos)], p, [WordFrame(bytes, pos + 1)], q, []);
      p := p + q;
    }
  }

  lemma {:induction false} DrainBoolean(g: Grammar, v: bool, pos: nat) returns (p: ByteString)
    requires 1 <= pos < |BoolWord(v)|
    ensures Goes(g, [BooleanFrame(Some(v), pos)], p, [])
    decreases |BoolWord(v)| - pos
  {
    hide Goes;
    var f, b := BooleanFrame(Some(v), pos), BoolWord(v)[pos];
    OneByte(g, f, b);
    p := [b];
    if pos + 1 < |BoolWord(v)| {
      var q := DrainBoolean(g, v, pos + 1);
      GoesOn(g, [f], p, [BooleanFrame(Some(v), pos + 1)], q, []);
      p := p + q;
    }
  }

  // ---------- objects ----------

  /** Spelling out the rest of the key of property i. */
  lemma {:induction false} FollowKey(g: Grammar, f: Frame, i: nat)
    requires f.ObjectFrame? && f.node.Object? && KeysOk(f.node.properties) && i < |f.node.properties|
    requires f.objPhase.Key? && i in f.objPhase.cands && f.objPhase.keyPos == |f.objPhase.keyBuf|
    requires f.objPhase.keyBuf <= f.node.properties[i].name
    ensures Goes(g, [f], f.node.properties[i].name[|f.objPhase.keyBuf|..] + [QUOTE],
                 [f.(nextProp := i + 1, objPhase := AfterKey)])
    decreases |f.node.properties[i].name| - |f.objPhase.keyBuf|
  {
    hide Goes;
    var name, buf, cands := f.node.properties[i].name, f.objPhase.keyBuf, f.objPhase.cands;
    if buf == name {
      assert name[|buf|..] + [QUOTE] == [QUOTE];
      OneByte(g, f, QUOTE);
    } else {
      var b := name[|buf|];
      assert buf + [b] <= name && KeyByte(b);
      OneByte(g, f, b);
      var f' := f.(objPhase := Key(cands, |buf| + 1, buf + [b]));
      FollowKey(g, f', i);
      GoesOn(g, [f], [b], [f'], name[|buf| + 1..] + [QUOTE], [f.(nextProp := i + 1, objPhase := AfterKey)]);
      assert [b] + (name[|buf| + 1..] + [QUOTE]) == name[|buf|..] + [QUOTE];
    }
  }

  /** Opening and reading the key of the next property in order. */
  lemma NextKey(g: Grammar, f: Frame, i: nat)
    requires f.ObjectFrame? && f.node.Object? && KeysOk(f.node.properties) && i < |f.node.properties|
    requires f.objPhase.ObjAfterOpen? || f.objPhase.ObjAfterComma?
    requires Candidate(f.node.properties, f.nextProp, i)
    ensures Goes(g, [f], [QUOTE] + (f.node.properties[i].name + [QUOTE]),
                 [f.(nextProp := i + 1, objPhase := AfterKey, objSpace := false)])
  {
    hide Goes;
    var props := f.node.properties;
    var cands := Candidates(props, f.nextProp);
    assert i in cands;
    OneByte(g, f, QUOTE);
    var f' := f.(objPhase := Key(cands, 0, []), objSpace := false);
    FollowKey(g, f', i);
    assert props[i].name[0..] == props[i].name;
    GoesOn(g, [f], [QUOTE], [f'], props[i].name + [QUOTE],
           [f.(nextProp := i + 1, objPhase := AfterKey, objSpace := false)]);
  }

  /** The value above a frame that waits for it, and then the rest of that frame. */
  lemma ValueAndRest(g: Grammar, f: Frame, waiting: Frame, s: Node, p: ByteString, q: ByteString)
    requires InBounds(f) && !IsNameValue(f) && InBounds(waiting) && |p| > 0 && |q| > 0 && !IsDigit(q[0])
    requires React(g, None, f, p[0]) == Retry([waiting, ValueFrame(s)])
    requires Drains(g, ValueFrame(s), p) && Goes(g, [waiting], q, [])
    ensures Goes(g, [f], p + q, [])
  {
    hide Goes, React;
    var m: seq<Frame> :| Ended(m) && Goes(g, [ValueFrame(s)], p, m);
    GoesAbove(g, [waiting], [ValueFrame(s)], p, m);
    assert [waiting] + [ValueFrame(s)] == [waiting, ValueFrame(s)];
    PassedOn(g, f, p, [waiting, ValueFrame(s)], [waiting] + m);
    EndedGivesWay(g, waiting, m, q, []);
    GoesOn(g, [f], p, [waiting] + m, q, []);
  }

  lemma {:induction false} DrainAfterKey(g: Grammar, f: Frame) returns (p: ByteString)
    requires f.ObjectFrame? && ObjectOk(g, f) && LiveNode(f.node) && f.objPhase.AfterKey?
    ensures Goes(g, [f], p, [])
    decreases f.node, 0, |f.node.properties| - f.nextProp, 2
  {
    hide Goes;
    OneByte(g, f, COLON);
    var f' := f.(objPhase := AfterColon, objSpace := false);
    var q := DrainAfterColon(g, f');
    p := [COLON] + q;
    GoesOn(g, [f], [COLON], [f'], q, []);
  }

  lemma {:induction false} DrainAfterColon(g: Grammar, f: Frame) returns (p: ByteString)
    requires f.ObjectFrame? && ObjectOk(g, f) && LiveNode(f.node) && f.objPhase.AfterColon?
    ensures Goes(g, [f], p, [])
    decreases f.node, 0, |f.node.properties| - f.nextProp, 1
  {
    hide Goes;
    var s := f.node.properties[f.nextProp - 1].schema;
    var v := DrainValue(g, s);
    var q := DrainAfterValue(g, f.(objPhase := AfterValue));
    p := v + q;
    ValueAndRest(g, f, f.(objPhase := AfterValue), s, v, q);
  }

  lemma {:induction false} DrainAfterValue(g: Grammar, f: Frame) returns (p: ByteString)
    requires f.ObjectFrame? && ObjectOk(g, f) && LiveNode(f.node) && f.objPhase.AfterValue?
    ensures Goes(g, [f], p, []) && |p| > 0 && !IsDigit(p[0])
    decreases f.node, 0, |f.node.properties| - f.nextProp, 0
  {
    hide Goes;
    var props, i := f.node.properties, f.nextProp;
    if i == |props| {
      p := [RBRACE];
      OneByte(g, f, RBRACE);
    } else {
      assert i in Candidates(props, i);
      OneByte(g, f, COMMA);
      var f1 := f.(objPhase := ObjAfterComma, objSpace := false);
      NextKey(g, f1, i);
      var f2 := f.(nextProp := i + 1, objPhase := AfterKey, objSpace := false);
      var q := DrainAfterKey(g, f2);
      GoesOn(g, [f1], [QUOTE] + (props[i].name + [QUOTE]), [f2], q, []);
      GoesOn(g, [f], [COMMA], [f1], [QUOTE] + (props[i].name + [QUOTE]) + q, []);
      p := [COMMA] + ([QUOTE] + (props[i].name + [QUOTE]) + q);
    }
  }

  lemma {:induction false} DrainAfterOpen(g: Grammar, f: Frame) returns (p: ByteString)
    requires f.ObjectFrame? && ObjectOk(g, f) && LiveNode(f.node) && f.objPhase.ObjAfterOpen?
    ensures Goes(g, [f], p, [])
    decreases f.node, 0, |f.node.properties| - f.nextProp, 3
  {
    hide Goes;
    var props := f.node.properties;
    if props == [] {
      p := [RBRACE];
      OneByte(g, f, RBRACE);
    } else {
      NextKey(g, f, 0);
      var f' := f.(nextProp := 1, objPhase := AfterKey, objSpace := false);
      var q := DrainAfterKey(g, f');
      p := [QUOTE] + (props[0].name + [QUOTE]) + q;
      GoesOn(g, [f], [QUOTE] + (props[0].name + [QUOTE]), [f'], q, []);
    }
  }

  /** Any value of a live schema can be written down to its end. */
  lemma {:induction false} DrainValue(g: Grammar, s: Node) returns (p: ByteString)
    requires NodeOk(s, g.suffix == []) && LiveNode(s)
    ensures Drains(g, ValueFrame(s), p) && |p| > 0 && p[0] != SPACE && p[0] != RBRACKET
    decreases s, 1
  {
    hide Goes;
    var f := ValueFrame(s);
    match s
    case Object(props) =>
      OneByte(g, f, LBRACE);
      var f' := f.(objPhase := ObjAfterOpen);
      var q := DrainAfterOpen(g, f');
      p := [LBRACE] + q;
      GoesOn(g, [f], [LBRACE], [f'], q, []);
    case String(_, vals) => p := DrainString(g, f);
    case Integer =>
      p := [ZERO];
      OneByte(g, f, ZERO);
      assert Ended([IntegerFrame(IntZero)]);
    case Boolean =>
      OneByte(g, f, LOWER_T);
      var q := DrainBoolean(g, true, 1);
      p := [LOWER_T] + q;
      GoesOn(g, [f], [LOWER_T], [BooleanFrame(Some(true), 1)], q, []);
    case Null => p := DrainWord(g, NULL_WORD, 0);
    case Array(items, max) =>
      OneByte(g, f, LBRACKET);
      var f' := f.(arrPhase := ArrAfterOpen);
      OneByte(g, f', RBRACKET);
      p := [LBRACKET] + [RBRACKET];
      GoesOn(g, [f], [LBRACKET], [f'], [RBRACKET], []);
  }

  // ---------- the invariant of liveness ----------

  ghost predicate LiveFrame(g: Grammar, f: Frame) {
    match f
    case ToolCallFrame(AfterName, tool, _) => tool.Some? && Numbered(g, tool.value)
    case ToolCallFrame(AfterComma, tool, _) => tool.Some? && Numbered(g, tool.value)
    case ToolCallFrame(InputKey(_), tool, _) => tool.Some? && Numbered(g, tool.value)
    case ToolCallFrame(InputColon, tool, _) => tool.Some? && Numbered(g, tool.value)
    case ToolCallFrame(AfterInputColon, tool, _) => tool.Some? && Numbered(g, tool.value)
    case ObjectFrame(node, _, _, _) => LiveNode(node)
    case StringFrame(max, _, Some(es), _, _, _, _, _) => EnumLive(max, es.values)
    case ArrayFrame(items, _, _, _, _) => LiveNode(items)
    case _ => true
  }

  ghost predicate LiveState(g: Grammar, s: State) {
    && StateOk(g, s)
    && (forall i :: 0 <= i < |s.frames| ==> LiveFrame(g, s.frames[i]))
    && (|s.frames| == 1 && IsNameValue(s.frames[0]) ==> s.lastEnum.Some? && Numbered(g, s.lastEnum.value))
  }

  /** A number leads to the live schema of its tool. */
  lemma NumberedLive(g: Grammar, n: nat)
    requires WellFormed(g) && LiveGrammar(g) && Numbered(g, n)
    ensures n < |g.toolSchemas| && LiveNode(g.toolSchemas[n])
  {
    var i: nat :| Callable(g, i) && Number(i) == n;
  }

  lemma LiveValueFrame(g: Grammar, s: Node)
    requires LiveNode(s)
    ensures LiveFrame(g, ValueFrame(s))
  {
    hide EnumLive;
  }

  lemma ReactionStaysLive(g: Grammar, last: Option<nat>, f: Frame, b: Byte)
    requires WellFormed(g) && LiveGrammar(g) && FrameOk(g, f) && LiveFrame(g, f) && InBounds(f)
    requires IsNameValue(f) ==> last.Some? && Numbered(g, last.value)
    ensures forall p <- Pushed(React(g, last, f, b)) :: LiveFrame(g, p)
  {
    hide EnumLive, LeadsFollowed, KeysOk, ReactObject, ReactCall, ReactString;
    match f
    case ObjectFrame(_, _, _, _) => ObjectStaysLive(g, f, b);
    case ArrayFrame(items, _, _, _, _) => LiveValueFrame(g, items);
    case ToolCallFrame(_, _, _) => CallStaysLive(g, last, f, b);
    case StringFrame(_, _, _, _, _, _, _, _) => StringStaysLive(g, f, b);
    case _ =>
  }

  lemma ObjectStaysLive(g: Grammar, f: Frame, b: Byte)
    requires f.ObjectFrame? && ObjectOk(g, f) && LiveNode(f.node)
    ensures forall p <- Pushed(ReactObject(g, f, b)) :: LiveFrame(g, p)
  {
    hide EnumLive, LeadsFollowed, KeysOk;
    if f.objPhase.AfterColon? { LiveValueFrame(g, f.node.properties[f.nextProp - 1].schema); }
  }

  lemma CallStaysLive(g: Grammar, last: Option<nat>, f: Frame, b: Byte)
    requires WellFormed(g) && LiveGrammar(g) && f.ToolCallFrame? && CallOk(g, f) && LiveFrame(g, f) && InBounds(f)
    requires IsNameValue(f) ==> last.Some? && Numbered(g, last.value)
    ensures forall p <- Pushed(ReactCall(g, last, f, b)) :: LiveFrame(g, p)
  {
    hide EnumLive, LeadsFollowed, KeysOk;
    if f.callPhase.AfterInputColon? {
      NumberedLive(g, f.tool.value);
      LiveValueFrame(g, g.toolSchemas[f.tool.value]);
    }
  }

  lemma StringStaysLive(g: Grammar, f: Frame, b: Byte)
    requires f.StringFrame? && LiveFrame(g, f)
    ensures forall p <- Pushed(ReactString(f, b)) :: LiveFrame(g, p)
  {
    hide EnumLive;
  }

  /** A byte that is passed on leaves a well-formed state. */
  lemma PassedOnOk(g: Grammar, s: State, b: Byte)
    requires WellFormed(g) && StateOk(g, s) && s.frames != []
    ensures AllInBounds(s.frames)
    ensures var n := |s.frames| - 1;
            match React(g, s.lastEnum, s.frames[n], b)
            case Retry(fs) => StateOk(g, s.(frames := s.frames[..n] + fs))
            case TakeEnum(fs) => n == 0 && StateOk(g, s.(frames := s.frames[..n] + fs, lastEnum := None))
            case _ => true
  {
    hide React, StateLang, StackOk, FrameOk;
    StateShape(g, s);
    var n := |s.frames| - 1;
    var f := s.frames[n];
    if IsNameValue(s.frames[0]) && n == 1 {
      NameFrameKinds(g, s, b);
    } else if IsNameValue(s.frames[0]) {
      NameReaction(g, s, b);
      NameTaken(g, s, b, [b]);
    } else if f.ToolCallFrame? && f.callPhase.AfterNameColon? && b == QUOTE {
      NameReaction(g, s, b);
      NameOpened(g, s, [b]);
    } else {
      OrdinaryStep(g, s, b, []);
    }
  }

  lemma NameFrameKinds(g: Grammar, s: State, b: Byte)
    requires WellFormed(g) && StateOk(g, s) && |s.frames| == 2 && IsNameValue(s.frames[0])
    ensures AllInBounds(s.frames)
    ensures var r := React(g, s.lastEnum, s.frames[1], b);
            && !r.Retry? && !r.TakeEnum? && !r.Finish?
            && (r.Consume? ==> |r.push| == 1)
            && (r.CloseEnum? ==> Numbered(g, r.index))
  {
    OkInBounds(g, s.frames);
    var f := s.frames[1];
    NameReactionKinds(g, f, b);
    if ReactString(f, b).CloseEnum? {
      var j := NameCloses(g, f, b, []);
      EnumCloseOf(f, b);
      assert Callable(g, j);
    }
  }

  /** The last frame to name a tool is below a string frame or holds a callable index. */
  lemma StillCallable(g: Grammar, s: State, b: Byte)
    requires WellFormed(g) && StateOk(g, s) && s.frames != []
    ensures AllInBounds(s.frames)
    ensures var n := |s.frames| - 1;
            var r := React(g, s.lastEnum, s.frames[n], b);
            var fs := s.frames[..n] + Pushed(r);
            !r.Reject? && |fs| == 1 && IsNameValue(fs[0]) ==> r.CloseEnum? && Numbered(g, r.index)
  {
    hide React, FrameOk;
    StateShape(g, s);
    var n := |s.frames| - 1;
    var f := s.frames[n];
    var r := React(g, s.lastEnum, f, b);
    if IsNameValue(s.frames[0]) && n == 1 {
      NameFrameKinds(g, s, b);
    } else if IsNameValue(s.frames[0]) || (f.ToolCallFrame? && f.callPhase.AfterNameColon? && b == QUOTE) {
      NameReaction(g, s, b);
    } else if !r.Reject? {
      assert s.frames == s.frames[..n] + [f];
      NotNaming(g, s.lastEnum, s.frames[..n], f, b);
    }
  }

  lemma {:induction false} StepStaysLive(g: Grammar, s: State, b: Byte)
    requires WellFormed(g) && LiveGrammar(g) && LiveState(g, s)
    ensures AllInBounds(s.frames)
    ensures Step(g, s, b).ok ==> LiveState(g, Step(g, s, b).state)
    decreases StackWeight(s.frames)
  {
    hide React, Step, StackOk, FrameOk, LiveGrammar, StackWeight, Callable, LiveFrame, StateLang;
    StateShape(g, s);
    StepDerivative(g, s, b, []);
    if s.frames == [] {
      StepAtEnd(g, s, b, []);
    } else {
      var n := |s.frames| - 1;
      StepAgain(g, s, b);
      ReactionStaysLive(g, s.lastEnum, s.frames[n], b);
      StillCallable(g, s, b);
      PassedOnOk(g, s, b);
      PassingOn(g, s, b);
      match React(g, s.lastEnum, s.frames[n], b)
      case Retry(fs) => StepStaysLive(g, s.(frames := s.frames[..n] + fs), b);
      case TakeEnum(fs) => StepStaysLive(g, s.(frames := s.frames[..n] + fs, lastEnum := None), b);
      case _ => assert s.frames[..n] + [] == s.frames[..n];
    }
  }

  lemma {:induction false} RunStaysLive(g: Grammar, s: State, w: ByteString)
    requires WellFormed(g) && LiveGrammar(g) && LiveState(g, s)
    ensures AllInBounds(s.frames)
    ensures Run(g, s, w).ok ==> LiveState(g, Run(g, s, w).state)
    decreases |w|
  {
    hide LiveState, LiveGrammar, Step;
    LiveBounds(g, s);
    if w != [] {
      StepStaysLive(g, s, w[0]);
      if Step(g, s, w[0]).ok { RunStaysLive(g, Step(g, s, w[0]).state, w[1..]); }
    }
  }

  lemma LiveBounds(g: Grammar, s: State)
    requires LiveState(g, s)
    ensures AllInBounds(s.frames)
  {
    OkBounds(g, s);
  }

  // ---------- driving a whole state to completion ----------

  lemma DrainFrame(g: Grammar, f: Frame) returns (p: ByteString)
    requires IsValueFrame(f) && FrameOk(g, f) && LiveFrame(g, f)
    ensures Drains(g, f, p)
    ensures Waiting(f) ==> |p| > 0 && !IsDigit(p[0]) && Goes(g, [f], p, [])
  {
    hide Goes;
    match f
    case ObjectFrame(_, _, _, _) => p := DrainObject(g, f);
    case ArrayFrame(_, _, _, _, _) => p := DrainArray(g, f);
    case StringFrame(_, _, _, _, _, _, _, _) => p := DrainString(g, f);
    case WordFrame(bytes, pos) => p := DrainWord(g, bytes, pos);
    case BooleanFrame(None, _) => p := DrainValue(g, Boolean);
    case BooleanFrame(Some(v), pos) => p := DrainBoolean(g, v, pos);
    case IntegerFrame(st) =>
      if MayEnd(f) {
        p := [];
        GoesNowhere(g, [f]);
        assert Ended([f]);
      } else {
        p := [ZERO];
        OneByte(g, f, ZERO);
        assert Ended([IntegerFrame(IntZero)]);
      }
  }

  lemma DrainObject(g: Grammar, f: Frame) returns (p: ByteString)
    requires f.ObjectFrame? && ObjectOk(g, f) && LiveNode(f.node)
    ensures Goes(g, [f], p, [])
    ensures Waiting(f) ==> |p| > 0 && !IsDigit(p[0])
  {
    hide Goes;
    var props := f.node.properties;
    match f.objPhase
    case AfterKey => p := DrainAfterKey(g, f);
    case AfterColon => p := DrainAfterColon(g, f);
    case AfterValue => p := DrainAfterValue(g, f);
    case ObjAfterOpen => p := DrainAfterOpen(g, f);
    case ObjStart =>
      OneByte(g, f, LBRACE);
      var f' := f.(objPhase := ObjAfterOpen);
      var q := DrainAfterOpen(g, f');
      p := [LBRACE] + q;
      GoesOn(g, [f], [LBRACE], [f'], q, []);
    case ObjAfterComma =>
      var i :| i in Candidates(props, f.nextProp);
      NextKey(g, f, i);
      var f' := f.(nextProp := i + 1, objPhase := AfterKey, objSpace := false);
      var q := DrainAfterKey(g, f');
      p := [QUOTE] + (props[i].name + [QUOTE]) + q;
      GoesOn(g, [f], [QUOTE] + (props[i].name + [QUOTE]), [f'], q, []);
    case Key(cands, _, buf) =>
      var i :| 0 <= i < |props| && i in cands && buf <= props[i].name;
      FollowKey(g, f, i);
      var f' := f.(nextProp := i + 1, objPhase := AfterKey);
      var q := DrainAfterKey(g, f');
      p := props[i].name[|buf|..] + [QUOTE] + q;
      GoesOn(g, [f], props[i].name[|buf|..] + [QUOTE], [f'], q, []);
  }

  lemma DrainArray(g: Grammar, f: Frame) returns (p: ByteString)
    requires f.ArrayFrame? && FrameOk(g, f) && LiveNode(f.items)
    ensures Goes(g, [f], p, [])
    ensures Waiting(f) ==> |p| > 0 && !IsDigit(p[0])
  {
    hide Goes;
    match f.arrPhase
    case ArrStart =>
      OneByte(g, f, LBRACKET);
      var f' := f.(arrPhase := ArrAfterOpen);
      OneByte(g, f', RBRACKET);
      p := [LBRACKET] + [RBRACKET];
      GoesOn(g, [f], [LBRACKET], [f'], [RBRACKET], []);
    case ArrAfterComma =>
      var v := DrainValue(g, f.items);
      var item := f.(arrPhase := ArrAfterItem, arrSpace := false);
      OneByte(g, item, RBRACKET);
      p := v + [RBRACKET];
      ValueAndRest(g, f, item, f.items, v, [RBRACKET]);
    case _ =>
      p := [RBRACKET];
      OneByte(g, f, RBRACKET);
  }

  /** The values on the stack can be closed one after another. */
  lemma {:induction false} DrainStack(g: Grammar, base: Frame, fs: seq<Frame>) returns (p: ByteString, m: seq<Frame>)
    requires forall i :: 0 <= i < |fs| ==> IsValueFrame(fs[i]) && FrameOk(g, fs[i]) && LiveFrame(g, fs[i])
    requires forall i :: 0 <= i < |fs| - 1 ==> Waiting(fs[i])
    ensures Ended(m) && Goes(g, [base] + fs, p, [base] + m)
  {
    hide Goes, FrameOk, LiveFrame;
    if fs == [] {
      p, m := [], [];
      GoesNowhere(g, [base]);
      assert [base] + fs == [base] == [base] + m;
    } else {
      var n := |fs| - 1;
      var q := DrainFrame(g, fs[n]);
      var e: seq<Frame> :| Ended(e) && Goes(g, [fs[n]], q, e);
      GoesAbove(g, [base] + fs[..n], [fs[n]], q, e);
      assert [base] + fs[..n] + [fs[n]] == [base] + fs;
      if n == 0 {
        p, m := q, e;
        assert [base] + fs[..n] + e == [base] + e;
      } else {
        p, m := DrainBelow(g, base, fs[..n], e);
        GoesOn(g, [base] + fs, q, [base] + fs[..n] + e, p, [base] + m);
        p := q + p;
      }
    }
  }

  lemma {:induction false} DrainBelow(g: Grammar, base: Frame, fs: seq<Frame>, e: seq<Frame>)
    returns (p: ByteString, m: seq<Frame>)
    requires fs != [] && Ended(e)
    requires forall i :: 0 <= i < |fs| ==>
               IsValueFrame(fs[i]) && FrameOk(g, fs[i]) && LiveFrame(g, fs[i]) && Waiting(fs[i])
    ensures Ended(m) && Goes(g, [base] + fs + e, p, [base] + m)
  {
    hide Goes, FrameOk, LiveFrame;
    var n := |fs| - 1;
    var q := DrainFrame(g, fs[n]);
    EndedGivesWay(g, fs[n], e, q, []);
    GoesAbove(g, [base] + fs[..n], [fs[n]] + e, q, []);
    assert [base] + fs[..n] + ([fs[n]] + e) == [base] + fs + e;
    assert [base] + fs[..n] + [] == [base] + fs[..n];
    p, m := DrainStack(g, base, fs[..n]);
    GoesOn(g, [base] + fs + e, q, [base] + fs[..n], p, [base] + m);
    p := q + p;
  }

  /** A live schema has a value. */
  lemma SomeConforming(g: Grammar, s: Node) returns (x: ByteString)
    requires WellFormed(g) && g.toolSchemas != [] && NodeOk(s, g.suffix == []) && LiveNode(s)
    ensures Conforms(s, x)
  {
    hide Goes, FrameLang, Conforms, Close, LiveNode;
    var base, f := Call(AfterInput, Some(0), false), ValueFrame(s);
    var st := State([base, f], false, None);
    assert StateOk(g, st) by { ValueFrameOk(g, s); }
    LiveValueFrame(g, s);
    assert [f][0] == f;
    var p, m := DrainStack(g, base, [f]);
    assert [base] + [f] == st.frames;
    GoesFrom(g, st, p, [base] + m);
    var close := [RBRACE] + g.suffix;
    RunDerivative(g, st, p, close);
    CloseAfter(g, base, m, close);
    OrdinaryState(g, st.frames, None, p + close);
    OrdinaryState(g, [base] + m, Run(g, st, p).state.lastEnum, close);
    assert [base, f] == [base] + [f];
    Pushing(g, [base], f, p + close);
    var k: nat :| k <= |p + close| && Split(g, f, [base], k, p + close);
    x := (p + close)[..k];
    ValueFrameLang(g, s, x);
  }

  /** What a state does on its own frames. */
  lemma GoesFrom(g: Grammar, st: State, p: ByteString, fs': seq<Frame>)
    requires AllInBounds(st.frames) && Goes(g, st.frames, p, fs')
    ensures Run(g, st, p).ok && Run(g, st, p).state.frames == fs'
  {
    assert EndsWith(st.frames, st.frames);
    assert st.frames[..0] + fs' == fs';
  }

  /** The closing bytes of a call, under an integer that may have to end first. */
  lemma CloseAfter(g: Grammar, base: Frame, m: seq<Frame>, w: ByteString)
    requires base.ToolCallFrame? && base.callPhase.AfterInput? && HasTool(g, base.tool) && Ended(m)
    requires w == [RBRACE] + g.suffix
    ensures StackLang(g, [base] + m, w)
  {
    Single(g, base, w);
    assert w[0] == RBRACE;
    if m == [] {
      assert [base] + m == [base];
    } else {
      assert [base] + m == [base] + [m[0]];
      Pushing(g, [base], m[0], w);
      assert w[..0] == [] && w[0..] == w;
      assert Split(g, m[0], [base], 0, w);
    }
  }

  // The text a call still needs, from its end backwards.

  lemma SomeInputText(g: Grammar, tool: nat) returns (w: ByteString)
    requires WellFormed(g) && LiveGrammar(g) && tool < |g.toolSchemas| && LiveNode(g.toolSchemas[tool])
    ensures InputThenClose(g, tool, w)
  {
    hide Conforms;
    var x := SomeConforming(g, g.toolSchemas[tool]);
    w := x + ([RBRACE] + g.suffix);
    assert w[..|x|] == x && w[|x|..] == [RBRACE] + g.suffix;
    assert SkipSpace(w[|x|..]) == w[|x|..];
  }

  lemma SomeAfterName(g: Grammar, tool: nat) returns (w: ByteString)
    requires WellFormed(g) && LiveGrammar(g) && tool < |g.toolSchemas| && LiveNode(g.toolSchemas[tool])
    ensures |w| > 0 && CommaThenInput(g, tool, w) && SkipSpace(w) == w
    ensures INPUT_KEY <= w[1..] && AfterInputKey(g, tool, w[1..][|INPUT_KEY|..])
    ensures SkipSpace(w[1..]) == w[1..]
  {
    hide InputThenClose;
    var t := SomeInputText(g, tool);
    InputTextStart(g, tool, t);
    var r := [COLON] + t;
    assert r[1..] == t;
    w := [COMMA] + (INPUT_KEY + r);
    assert w[1..] == INPUT_KEY + r && w[1..][|INPUT_KEY|..] == r;
  }

  lemma InputTextStart(g: Grammar, tool: nat, w: ByteString)
    requires WellFormed(g) && tool < |g.toolSchemas| && InputThenClose(g, tool, w)
    ensures |w| > 0 && w[0] == LBRACE
  {
    hide Conforms;
    var k :| 0 <= k <= |w| && Conforms(g.toolSchemas[tool], w[..k]);
    ObjectStart(g.toolSchemas[tool], w[..k]);
  }

  /** A name to call, with its quotes, and everything after it. */
  lemma SomeNameText(g: Grammar) returns (w: ByteString)
    requires WellFormed(g) && LiveGrammar(g)
    ensures NameThenInput(g, w) && |w| > 0 && w[0] == QUOTE
  {
    hide AfterNameValue;
    var j :| 0 <= j < |g.toolNames| && Plain(g.toolNames[j]);
    var i := FirstEqual(g.toolNames, g.toolNames[j], 0).value;
    assert Callable(g, i);
    var t := SomeAfterName(g, i);
    assert AfterNameValue(g, i, t) by { AfterNameIs(g, i, t); }
    w := [QUOTE] + g.toolNames[i] + [QUOTE] + t;
    assert w[|g.toolNames[i]| + 2..] == t;
  }

  lemma AfterNameIs(g: Grammar, i: nat, t: ByteString)
    requires i < |g.toolSchemas| && CommaThenInput(g, i, t) && SkipSpace(t) == t
    ensures AfterNameValue(g, i, t)
  {
  }

  lemma SomeCallObject(g: Grammar) returns (w: ByteString)
    requires WellFormed(g) && LiveGrammar(g)
    ensures CallObject(g, w) && |w| > 0 && w[0] == LBRACE
    ensures NAME_KEY <= w[1..] && AfterNameKey(g, w[1..][|NAME_KEY|..])
  {
    hide NameThenInput;
    var t := SomeNameText(g);
    var r := [COLON] + t;
    assert r[1..] == t;
    w := [LBRACE] + (NAME_KEY + r);
    assert w[1..] == NAME_KEY + r && w[1..][|NAME_KEY|..] == r;
  }

  /** The bottom frame alone can always be completed. */
  lemma SomeBaseText(g: Grammar, f: Frame) returns (w: ByteString)
    requires WellFormed(g) && LiveGrammar(g) && FrameOk(g, f) && LiveFrame(g, f)
    requires !IsValueFrame(f) && !IsNameValue(f)
    ensures FrameLang(g, f, w)
  {
    hide CallObject, AfterNameKey, NameThenInput, CommaThenInput, AfterInputKey, InputThenClose;
    match f
    case Literal(Prefix, pos) =>
      var t := SomeCallObject(g);
      w := g.prefix[pos..] + t;
      assert w[|g.prefix| - pos..] == t;
    case Literal(Suffix, pos) => w := g.suffix[pos..];
    case ToolCallFrame(_, _, _) => w := SomeCallText(g, f);
  }

  lemma SomeCallText(g: Grammar, f: Frame) returns (w: ByteString)
    requires WellFormed(g) && LiveGrammar(g) && f.ToolCallFrame? && CallOk(g, f) && LiveFrame(g, f) && !IsNameValue(f)
    ensures CallLang(g, f, w)
  {
    hide AfterNameKey, NameThenInput, AfterInputKey, InputThenClose, Numbered, LiveGrammar, LiveNode;
    if f.tool.Some? && Numbered(g, f.tool.value) { NumberedLive(g, f.tool.value); }
    match f.callPhase
    case NameValue =>
    case AfterInput => w := [RBRACE] + g.suffix;
    case Open => w := SomeCallObject(g);
    case AfterOpen =>
      var t := SomeCallObject(g);
      w := t[1..];
    case NameKey(pos) =>
      var t := SomeCallObject(g);
      w := t[1..][pos..];
      assert w[|NAME_KEY| - pos..] == t[1..][|NAME_KEY|..];
    case NameColon =>
      var t := SomeCallObject(g);
      w := t[1..][|NAME_KEY|..];
    case AfterNameColon => w := SomeNameText(g);
    case AfterName => w := SomeAfterName(g, f.tool.value);
    case AfterComma =>
      var t := SomeAfterName(g, f.tool.value);
      w := t[1..];
    case InputKey(pos) =>
      var t := SomeAfterName(g, f.tool.value);
      w := t[1..][pos..];
      assert w[|INPUT_KEY| - pos..] == t[1..][|INPUT_KEY|..];
    case InputColon =>
      var t := SomeAfterName(g, f.tool.value);
      w := t[1..][|INPUT_KEY|..];
    case AfterInputColon =>
      w := SomeInputText(g, f.tool.value);
      InputTextStart(g, f.tool.value, w);
  }

  /** The tool name in progress can be finished, and a call of that tool written. */
  lemma SomeRestOfName(g: Grammar, s: State) returns (w: ByteString)
    requires WellFormed(g) && LiveGrammar(g) && LiveState(g, s) && |s.frames| == 2 && IsNameValue(s.frames[0])
    ensures StateLang(g, s.frames, s.lastEnum, w)
  {
    hide AfterNameValue;
    var f := s.frames[1];
    var v: ByteString;
    if f.strPhase.StrStart? {
      var j :| 0 <= j < |g.toolNames| && Plain(g.toolNames[j]);
      v := g.toolNames[j];
    } else {
      v := EnumGoesOn(f);
    }
    var j :| 0 <= j < |g.toolNames| && g.toolNames[j] == v;
    var i := FirstEqual(g.toolNames, v, 0).value;
    assert Callable(g, i);
    var t := SomeAfterName(g, i);
    AfterNameIs(g, i, t);
    var rest := if f.strPhase.StrStart? then [QUOTE] + v + [QUOTE] else v[|f.enumVals.value.buf|..] + [QUOTE];
    w := rest + t;
    assert w[..|rest|] == rest && w[|rest|..] == t;
    assert NameSplit(g, f, i, |rest|, w);
  }

  /** Every live state has a completion. */
  lemma StateGoesOn(g: Grammar, s: State) returns (v: ByteString)
    requires WellFormed(g) && LiveGrammar(g) && LiveState(g, s)
    ensures StateLang(g, s.frames, s.lastEnum, v)
  {
    hide Goes, FrameOk, FrameLang, LiveGrammar, LiveFrame, AfterNameValue;
    var fs := s.frames;
    if fs == [] {
      v := [];
    } else if IsNameValue(fs[0]) && |fs| == 2 {
      v := SomeRestOfName(g, s);
    } else if IsNameValue(fs[0]) {
      NumberedLive(g, s.lastEnum.value);
      v := SomeAfterName(g, s.lastEnum.value);
      AfterNameIs(g, s.lastEnum.value, v);
    } else if |fs| == 1 {
      v := SomeBaseText(g, fs[0]);
      assert fs == [fs[0]];
      Single(g, fs[0], v);
    } else {
      v := StackGoesOn(g, s);
    }
  }

  lemma StackGoesOn(g: Grammar, s: State) returns (v: ByteString)
    requires WellFormed(g) && LiveGrammar(g) && LiveState(g, s)
    requires |s.frames| > 1 && !IsNameValue(s.frames[0])
    ensures StateLang(g, s.frames, s.lastEnum, v)
  {
    hide Goes, FrameOk, FrameLang, LiveGrammar, LiveFrame, StackLang;
    var fs := s.frames;
    var base := fs[0];
    var p, m := DrainStack(g, base, fs[1..]);
    assert [base] + fs[1..] == fs;
    OkBounds(g, s);
    GoesFrom(g, s, p, [base] + m);
    var close := [RBRACE] + g.suffix;
    BaseHasTool(g, s);
    CloseAfter(g, base, m, close);
    RunDerivative(g, s, p, close);
    OrdinaryState(g, [base] + m, Run(g, s, p).state.lastEnum, close);
    v := p + close;
  }

  lemma BaseHasTool(g: Grammar, s: State)
    requires StateOk(g, s) && |s.frames| > 1 && !IsNameValue(s.frames[0])
    ensures s.frames[0].ToolCallFrame? && s.frames[0].callPhase.AfterInput? && HasTool(g, s.frames[0].tool)
  {
  }

  lemma InitialLive(g: Grammar)
    ensures LiveState(g, INITIAL)
  {
    InitialOk(g, []);
  }

  /** No dead ends: in a live grammar whatever was accepted is the beginning of a tool call. */
  lemma NoDeadEnds(g: Grammar, w: ByteString) returns (v: ByteString)
    requires WellFormed(g) && LiveGrammar(g)
    requires Run(g, INITIAL, w).ok
    ensures ToolCall(g, w + v)
    ensures Run(g, INITIAL, w + v).ok && Complete(Run(g, INITIAL, w + v).state)
  {
    InitialLive(g);
    RunStaysLive(g, INITIAL, w);
    v := StateGoesOn(g, Run(g, INITIAL, w).state);
    KeepsEveryContinuation(g, w, v);
    AcceptsExactlyToolCalls(g, w + v);
  }
}
