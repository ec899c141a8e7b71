/** The other half: a grammar that is not live has a dead end, and what the reader of the
    grammar can check decides which it is. */
module DeadEnds {
  import opened Bytes
  import opened Options
  import opened Schema
  import opened ToolCallLanguage
  import opened MatcherFrames
  import opened FrameLanguages
  import opened StackDerivatives
  import opened MatcherTheorems
  import opened Liveness

  /** Nothing finishes this frame. */
  ghost predicate Dead(g: Grammar, f: Frame) { IsValueFrame(f) && forall w :: !FrameLang(g, f, w) }

  /** No usable value goes on from what the enum frame has read. */
  predicate DeadEnum(f: Frame) {
    && f.StringFrame? && f.enumVals.Some? && f.strPhase.Content?
    && !Extends(f.max, f.enumVals.value.values, f.enumVals.value.buf)
  }

  lemma DeadEnumIsDead(g: Grammar, f: Frame)
    requires DeadEnum(f)
    ensures Dead(g, f)
  {
    forall w ensures !StringLang(f, w) {
    }
  }

  /** Reading the first k bytes of a value. */
  lemma {:induction false} FollowPrefix(g: Grammar, f: Frame, v: ByteString, k: nat) returns (f': Frame)
    requires f.StringFrame? && f.enumVals.Some? && f.strPhase.Content? && f.esc.NoEscape?
    requires f.chars == |f.enumVals.value.buf| <= k <= |v|
    requires f.utf8Need == 0 || f.chars == k
    requires f.utf8Need == 0 ==> f.nextLo == 0x80 && f.nextHi == 0xBF
    requires v in f.enumVals.value.values && f.enumVals.value.buf == v[..f.chars] && Readable(f.max, v[..k])
    ensures f'.StringFrame? && f'.enumVals.Some? && f'.strPhase.Content? && f'.max == f.max
    ensures f'.enumVals.value == EnumState(f.enumVals.value.values, v[..k])
    ensures Goes(g, [f], v[f.chars..k], [f'])
    decreases k - f.chars
  {
    hide Goes;
    var es, j := f.enumVals.value, f.chars;
    if j == k {
      f' := f;
      GoesNowhere(g, [f]);
    } else {
      var b := v[j];
      assert v[..k][j] == b && v[..j + 1] == es.buf + [b];
      assert j + 1 < k ==> PlainByte(b);
      OneByte(g, f, b);
      var next := ReactString(f, b).push[0];
      f' := FollowPrefix(g, next, v, k);
      GoesOn(g, [f], [b], [next], v[j + 1..k], [f']);
      assert [b] + v[j + 1..k] == v[j..k];
    }
  }

  /** An enum list that is not live has a prefix that can be read and not finished. */
  lemma DeadString(g: Grammar, max: Option<nat>, vals: seq<ByteString>) returns (p: ByteString, f: Frame)
    requires !EnumLive(max, vals)
    ensures Goes(g, [NewString(max, Some(vals))], p, [f]) && |p| > 0 && p[0] == QUOTE
    ensures DeadEnum(f) && f.max == max && f.enumVals.value.values == vals
  {
    hide Goes;
    var start := NewString(max, Some(vals));
    OneByte(g, start, QUOTE);
    var content := start.(strPhase := Content);
    if !Extends(max, vals, []) {
      p, f := [QUOTE], content;
    } else {
      var i, k :| 0 <= i < |vals| && 0 <= k <= |vals[i]| && Readable(max, vals[i][..k])
                  && !Extends(max, vals, vals[i][..k]);
      f := FollowPrefix(g, content, vals[i], k);
      p := [QUOTE] + vals[i][0..k];
      GoesOn(g, [start], [QUOTE], [content], vals[i][0..k], [f]);
    }
  }

  lemma KeyColon(g: Grammar, f: Frame, i: nat) returns (p: ByteString)
    requires f.ObjectFrame? && f.node.Object? && KeysOk(f.node.properties) && i < |f.node.properties|
    requires f.objPhase.ObjAfterOpen? || f.objPhase.ObjAfterComma?
    requires Candidate(f.node.properties, f.nextProp, i)
    ensures Goes(g, [f], p, [f.(nextProp := i + 1, objPhase := AfterColon, objSpace := false)])
  {
    hide Goes;
    NextKey(g, f, i);
    var key := [QUOTE] + (f.node.properties[i].name + [QUOTE]);
    var f' := f.(nextProp := i + 1, objPhase := AfterKey, objSpace := false);
    OneByte(g, f', COLON);
    p := key + [COLON];
    GoesOn(g, [f], key, [f'], [COLON], [f'.(objPhase := AfterColon)]);
  }

  /** Past any live properties the value of property i can be reached. */
  lemma {:induction false} ReachProperty(g: Grammar, node: Node, i: nat) returns (p: ByteString)
    requires node.Object? && NodeOk(node, g.suffix == []) && i < |node.properties|
    requires forall j :: 0 <= j < i ==> LiveNode(node.properties[j].schema)
    ensures Goes(g, [ValueFrame(node)], p, [ObjectFrame(node, i + 1, AfterColon, false)])
    ensures |p| > 0 && p[0] == LBRACE
  {
    hide Goes;
    var f := ValueFrame(node);
    if i == 0 {
      OneByte(g, f, LBRACE);
      var open := f.(objPhase := ObjAfterOpen);
      var q := KeyColon(g, open, 0);
      p := [LBRACE] + q;
      GoesOn(g, [f], [LBRACE], [open], q, [ObjectFrame(node, 1, AfterColon, false)]);
    } else {
      var q := ReachProperty(g, node, i - 1);
      var r := NextColon(g, node, i);
      p := q + r;
      GoesOn(g, [f], q, [ObjectFrame(node, i, AfterColon, false)], r, [ObjectFrame(node, i + 1, AfterColon, false)]);
    }
  }

  /** From one value to the next: the value, a comma and the next key. */
  lemma NextColon(g: Grammar, node: Node, i: nat) returns (p: ByteString)
    requires node.Object? && NodeOk(node, g.suffix == []) && 0 < i < |node.properties|
    requires LiveNode(node.properties[i - 1].schema)
    ensures Goes(g, [ObjectFrame(node, i, AfterColon, false)], p, [ObjectFrame(node, i + 1, AfterColon, false)])
  {
    hide Goes;
    var s := node.properties[i - 1].schema;
    var colon := ObjectFrame(node, i, AfterColon, false);
    var waiting := ObjectFrame(node, i, AfterValue, false);
    var comma := ObjectFrame(node, i, ObjAfterComma, false);
    var v := DrainValue(g, s);
    var m: seq<Frame> :| Ended(m) && Goes(g, [ValueFrame(s)], v, m);
    GoesAbove(g, [waiting], [ValueFrame(s)], v, m);
    assert [waiting] + [ValueFrame(s)] == [waiting, ValueFrame(s)];
    PassedOn(g, colon, v, [waiting, ValueFrame(s)], [waiting] + m);
    assert i in Candidates(node.properties, i);
    OneByte(g, waiting, COMMA);
    EndedGivesWay(g, waiting, m, [COMMA], [comma]);
    var q := KeyColon(g, comma, i);
    GoesOn(g, [waiting] + m, [COMMA], [comma], q, [ObjectFrame(node, i + 1, AfterColon, false)]);
    GoesOn(g, [colon], v, [waiting] + m, [COMMA] + q, [ObjectFrame(node, i + 1, AfterColon, false)]);
    p := v + ([COMMA] + q);
  }

  /** A schema that is not live has a beginning that is accepted and cannot be finished. */
  lemma {:induction false} DeadValue(g: Grammar, s: Node) returns (p: ByteString, more: seq<Frame>)
    requires NodeOk(s, g.suffix == []) && !LiveNode(s)
    ensures Goes(g, [ValueFrame(s)], p, more) && |p| > 0 && p[0] != SPACE && p[0] != RBRACKET
    ensures |more| > 0 && Dead(g, more[|more| - 1]) && (s.Object? ==> p[0] == LBRACE)
  {
    hide Goes, Dead;
    match s
    case String(max, Some(vals)) =>
      var f;
      p, f := DeadString(g, max, vals);
      DeadEnumIsDead(g, f);
      more := [f];
    case Array(items, max) =>
      var q, top := DeadValue(g, items);
      var start := ValueFrame(s);
      var open := start.(arrPhase := ArrAfterOpen);
      var item := start.(arrPhase := ArrAfterItem);
      OneByte(g, start, LBRACKET);
      GoesAbove(g, [item], [ValueFrame(items)], q, top);
      assert [item] + [ValueFrame(items)] == [item, ValueFrame(items)];
      PassedOn(g, open, q, [item, ValueFrame(items)], [item] + top);
      p, more := [LBRACKET] + q, [item] + top;
      GoesOn(g, [start], [LBRACKET], [open], q, more);
    case Object(props) =>
      var i := FirstNotLive(props, 0);
      var q := ReachProperty(g, s, i);
      var r, top := DeadValue(g, props[i].schema);
      var colon := ObjectFrame(s, i + 1, AfterColon, false);
      var waiting := ObjectFrame(s, i + 1, AfterValue, false);
      GoesAbove(g, [waiting], [ValueFrame(props[i].schema)], r, top);
      assert [waiting] + [ValueFrame(props[i].schema)] == [waiting, ValueFrame(props[i].schema)];
      PassedOn(g, colon, r, [waiting, ValueFrame(props[i].schema)], [waiting] + top);
      p, more := q + r, [waiting] + top;
      GoesOn(g, [ValueFrame(s)], q, [colon], r, more);
  }

  lemma FirstNotLive(props: seq<Property>, from: nat) returns (i: nat)
    requires exists j :: from <= j < |props| && !LiveNode(props[j].schema)
    ensures from <= i < |props| && !LiveNode(props[i].schema)
    ensures forall j :: from <= j < i ==> LiveNode(props[j].schema)
    decreases |props| - from
  {
    if LiveNode(props[from].schema) { i := FirstNotLive(props, from + 1); } else { i := from; }
  }

  // ---------- from the beginning of the call ----------

  lemma {:induction false} ReachPrefix(g: Grammar, pos: nat)
    requires pos < |g.prefix| || (pos == 0 && g.prefix == [])
    ensures Goes(g, [Literal(Prefix, pos)], g.prefix[pos..] + [LBRACE], [Call(AfterOpen, None, false)])
    decreases |g.prefix| - pos
  {
    hide Goes;
    var f, open, after := Literal(Prefix, pos), Call(Open, None, false), Call(AfterOpen, None, false);
    OneByte(g, open, LBRACE);
    if g.prefix == [] {
      assert g.prefix[pos..] + [LBRACE] == [LBRACE];
      PassedOn(g, f, [LBRACE], [open], [after]);
    } else {
      var b := g.prefix[pos];
      OneByte(g, f, b);
      var rest := g.prefix[pos + 1..] + [LBRACE];
      assert [b] + rest == g.prefix[pos..] + [LBRACE];
      if pos + 1 == |g.prefix| {
        assert rest == [LBRACE];
        GoesOn(g, [f], [b], [open], rest, [after]);
      } else {
        ReachPrefix(g, pos + 1);
        GoesOn(g, [f], [b], [Literal(Prefix, pos + 1)], rest, [after]);
      }
    }
  }

  /** The rest of "name" or "input", with its colon. */
  lemma {:induction false} ReachColon(g: Grammar, f: Frame)
    requires f.ToolCallFrame? && CallOk(g, f) && (f.callPhase.NameKey? || f.callPhase.InputKey?)
    ensures var key := if f.callPhase.NameKey? then NAME_KEY else INPUT_KEY;
            var phase := if f.callPhase.NameKey? then AfterNameColon else AfterInputColon;
            Goes(g, [f], key[f.callPhase.pos..] + [COLON], [Call(phase, f.tool, false)])
    decreases 7 - f.callPhase.pos
  {
    hide Goes;
    var isName := f.callPhase.NameKey?;
    var key := if isName then NAME_KEY else INPUT_KEY;
    var last := Call(if isName then AfterNameColon else AfterInputColon, f.tool, false);
    var pos := f.callPhase.pos;
    OneByte(g, f, key[pos]);
    var rest := key[pos + 1..] + [COLON];
    assert [key[pos]] + rest == key[pos..] + [COLON];
    if pos + 1 == |key| {
      var colon := f.(callPhase := if isName then NameColon else InputColon);
      OneByte(g, colon, COLON);
      assert rest == [COLON];
      GoesOn(g, [f], [key[pos]], [colon], rest, [last]);
    } else {
      var f' := f.(callPhase := if isName then NameKey(pos + 1) else InputKey(pos + 1));
      ReachColon(g, f');
      GoesOn(g, [f], [key[pos]], [f'], rest, [last]);
    }
  }

  /** Up to the value of "name". */
  lemma ReachName(g: Grammar) returns (p: ByteString)
    ensures Goes(g, [Literal(Prefix, 0)], p, [Call(AfterNameColon, None, false)])
  {
    hide Goes;
    ReachPrefix(g, 0);
    var open, key := Call(AfterOpen, None, false), Call(NameKey(1), None, false);
    OneByte(g, open, QUOTE);
    ReachColon(g, key);
    var q := NAME_KEY[1..] + [COLON];
    GoesOn(g, [open], [QUOTE], [key], q, [Call(AfterNameColon, None, false)]);
    var start := g.prefix[0..] + [LBRACE];
    GoesOn(g, [Literal(Prefix, 0)], start, [open], [QUOTE] + q, [Call(AfterNameColon, None, false)]);
    p := start + ([QUOTE] + q);
  }

  /** From the comma after the name up to the input. */
  lemma ReachInput(g: Grammar, tool: nat) returns (p: ByteString)
    requires tool < |g.toolSchemas|
    ensures Goes(g, [Call(AfterName, Some(tool), false)], p, [Call(AfterInputColon, Some(tool), false)])
    ensures |p| > 0
  {
    hide Goes;
    var name, comma, key, last :=
      Call(AfterName, Some(tool), false), Call(AfterComma, Some(tool), false),
      Call(InputKey(1), Some(tool), false), Call(AfterInputColon, Some(tool), false);
    OneByte(g, name, COMMA);
    OneByte(g, comma, QUOTE);
    ReachColon(g, key);
    var q := INPUT_KEY[1..] + [COLON];
    GoesOn(g, [comma], [QUOTE], [key], q, [last]);
    GoesOn(g, [name], [COMMA], [comma], [QUOTE] + q, [last]);
    p := [COMMA] + ([QUOTE] + q);
  }

  /** Closing the quote of a name records the first tool of that name. */
  lemma {:induction false} RunName(g: Grammar, s: State, i: nat)
    requires WellFormed(g) && Callable(g, i) && |s.frames| == 2 && IsNameValue(s.frames[0])
    requires var f := s.frames[1];
             && f.StringFrame? && f.enumVals.Some? && f.strPhase.Content? && f.utf8Need == 0 && f.esc.NoEscape?
             && f.max.None? && f.enumVals.value.values == g.toolNames && f.enumVals.value.buf <= g.toolNames[i]
    ensures AllInBounds(s.frames)
    ensures Run(g, s, g.toolNames[i][|s.frames[1].enumVals.value.buf|..] + [QUOTE])
            == Outcome(s.(frames := [s.frames[0]], lastEnum := Some(Number(i))), true)
    decreases |g.toolNames[i]| - |s.frames[1].enumVals.value.buf|
  {
    hide Step, React;
    var f, v := s.frames[1], g.toolNames[i];
    var es := f.enumVals.value;
    var w := v[|es.buf|..] + [QUOTE];
    NameByte(g, s, i);
    if es.buf == v {
      assert w == [QUOTE] && w[1..] == [];
    } else {
      var b := v[|es.buf|];
      assert w[0] == b && w[1..] == v[|es.buf| + 1..] + [QUOTE];
      var s' := Step(g, s, b).state;
      assert Run(g, s, w) == Run(g, s', w[1..]);
      RunName(g, s', i);
    }
  }

  /** The next byte of the name, or its closing quote. */
  lemma NameByte(g: Grammar, s: State, i: nat)
    requires WellFormed(g) && Callable(g, i) && |s.frames| == 2 && IsNameValue(s.frames[0])
    requires var f := s.frames[1];
             && f.StringFrame? && f.enumVals.Some? && f.strPhase.Content? && f.utf8Need == 0 && f.esc.NoEscape?
             && f.max.None? && f.enumVals.value.values == g.toolNames && f.enumVals.value.buf <= g.toolNames[i]
    ensures AllInBounds(s.frames)
    ensures var f, v := s.frames[1], g.toolNames[i];
            var es := f.enumVals.value;
            if es.buf == v then
              Step(g, s, QUOTE) == Outcome(s.(frames := [s.frames[0]], lastEnum := Some(Number(i))), true)
            else var b := v[|es.buf|];
                 var f' := f.(chars := f.chars + 1, enumVals := Some(es.(buf := es.buf + [b])));
                 Step(g, s, b) == Outcome(s.(frames := [s.frames[0], f']), true) && es.buf + [b] <= v
  {
    hide Step;
    var f, v := s.frames[1], g.toolNames[i];
    var es := f.enumVals.value;
    if es.buf == v {
      StepAgain(g, s, QUOTE);
      assert FirstEqual(g.toolNames, v, 0) == Some(i);
      assert s.frames[..1] == [s.frames[0]];
    } else {
      var b := v[|es.buf|];
      assert es.buf + [b] <= v && PlainByte(b);
      StepAgain(g, s, b);
      var f' := ReactString(f, b).push[0];
      assert s.frames[..1] + [f'] == [s.frames[0], f'];
    }
  }

  /** The call of tool i up to its input. */
  lemma CallTool(g: Grammar, i: nat) returns (p: ByteString)
    requires WellFormed(g) && Callable(g, i)
    ensures Run(g, INITIAL, p).ok && Run(g, INITIAL, p).state.frames == [Call(AfterInputColon, Some(Number(i)), false)]
  {
    hide Goes, React, StackOk;
    var a := ReachName(g);
    GoesFrom(g, INITIAL, a, [Call(AfterNameColon, None, false)]);
    var s1 := Run(g, INITIAL, a).state;
    var b := OpenName(g, s1, i);
    var s2 := Run(g, s1, b).state;
    var c := ReachInput(g, Number(i));
    TakeName(g, s2, Number(i), c);
    RunConcat(g, INITIAL, a, b + c);
    RunConcat(g, s1, b, c);
    p := a + (b + c);
  }

  lemma OpenName(g: Grammar, s: State, i: nat) returns (p: ByteString)
    requires WellFormed(g) && Callable(g, i) && s.frames == [Call(AfterNameColon, None, false)]
    ensures Run(g, s, p) == Outcome(s.(frames := [Call(NameValue, None, false)], lastEnum := Some(Number(i))), true)
  {
    var base, str := Call(NameValue, None, false), NewString(None, Some(g.toolNames));
    var v := g.toolNames[i];
    p := [QUOTE] + (v + [QUOTE]);
    assert p[1..] == v + [QUOTE] && v[0..] == v;
    StepAgain(g, s, QUOTE);
    var s' := s.(frames := [base, str]);
    assert s.frames[..0] + [base, str] == [base, str];
    assert [base, str][..1] + [str.(strPhase := Content)] == [base, str.(strPhase := Content)];
    assert Step(g, s', QUOTE) == Outcome(s.(frames := [base, str.(strPhase := Content)]), true);
    RunName(g, s.(frames := [base, str.(strPhase := Content)]), i);
  }

  /** The first byte after the name is read by the phase that follows it. */
  lemma TakeName(g: Grammar, s: State, i: nat, p: ByteString)
    requires s.frames == [Call(NameValue, None, false)] && s.lastEnum == Some(i) && |p| > 0
    requires Goes(g, [Call(AfterName, Some(i), false)], p, [Call(AfterInputColon, Some(i), false)])
    ensures Run(g, s, p).ok && Run(g, s, p).state.frames == [Call(AfterInputColon, Some(i), false)]
  {
    hide Goes;
    StepAgain(g, s, p[0]);
    var s' := s.(frames := [Call(AfterName, Some(i), false)], lastEnum := None);
    assert s.frames[..0] + [Call(AfterName, Some(i), false)] == s'.frames;
    assert Run(g, s, p) == Run(g, s', p);
    GoesFrom(g, s', p, [Call(AfterInputColon, Some(i), false)]);
  }

  /** A grammar that is not live accepts some bytes that no tool call begins with. */
  lemma DeadEnd(g: Grammar) returns (w: ByteString)
    requires WellFormed(g) && !LiveGrammar(g)
    ensures Run(g, INITIAL, w).ok && forall v :: !ToolCall(g, w + v)
  {
    if !EnumLive(None, g.toolNames) {
      w := DeadName(g);
    } else {
      var i: nat :| i < |g.toolNames| && Callable(g, i) && !LiveNode(g.toolSchemas[i]);
      w := DeadInput(g, i);
    }
  }

  lemma DeadName(g: Grammar) returns (w: ByteString)
    requires WellFormed(g) && !EnumLive(None, g.toolNames)
    ensures Run(g, INITIAL, w).ok && forall v :: !ToolCall(g, w + v)
  {
    hide Goes, EnumLive, Run, ToolCall, WellFormed, DeadEnum;
    var a := ReachName(g);
    var colon, base := Call(AfterNameColon, None, false), Call(NameValue, None, false);
    var str := NewString(None, Some(g.toolNames));
    var p, f := DeadString(g, None, g.toolNames);
    GoesAbove(g, [base], [str], p, [f]);
    assert [base] + [str] == [base, str] && [base] + [f] == [base, f];
    PassedOn(g, colon, p, [base, str], [base, f]);
    GoesOn(g, [Literal(Prefix, 0)], a, [colon], p, [base, f]);
    w := a + p;
    GoesFrom(g, INITIAL, w, [base, f]);
    forall v ensures !ToolCall(g, w + v) {
      KeepsEveryContinuation(g, w, v);
      DeadNameLang(g, f, v);
    }
  }

  lemma DeadNameLang(g: Grammar, f: Frame, v: ByteString)
    requires DeadEnum(f) && f.max.None? && f.enumVals.value.values == g.toolNames
    ensures !NameLang(g, f, v)
  {
    hide AfterNameValue;
    forall i: nat, k: nat | k <= |v| ensures !NameSplit(g, f, i, k, v) {
      assert i < |g.toolNames| && Plain(g.toolNames[i]) ==> Usable(None, g.toolNames[i]);
    }
  }

  lemma DeadInput(g: Grammar, i: nat) returns (w: ByteString)
    requires WellFormed(g) && Callable(g, i) && !LiveNode(g.toolSchemas[i])
    ensures Run(g, INITIAL, w).ok && forall v :: !ToolCall(g, w + v)
  {
    hide Goes, Dead, LiveNode, FrameLang;
    var a := CallTool(g, i);
    var s := g.toolSchemas[i];
    var colon, base := Call(AfterInputColon, Some(Number(i)), false), Call(AfterInput, Some(Number(i)), false);
    var p, more := DeadValue(g, s);
    GoesAbove(g, [base], [ValueFrame(s)], p, more);
    assert [base] + [ValueFrame(s)] == [base, ValueFrame(s)];
    PassedOn(g, colon, p, [base, ValueFrame(s)], [base] + more);
    GoesFrom(g, Run(g, INITIAL, a).state, p, [base] + more);
    w := a + p;
    RunConcat(g, INITIAL, a, p);
    var fs := [base] + more;
    forall v ensures !ToolCall(g, w + v) {
      KeepsEveryContinuation(g, w, v);
      OrdinaryState(g, fs, Run(g, INITIAL, w).state.lastEnum, v);
      DeadStack(g, fs, v);
    }
  }

  lemma DeadStack(g: Grammar, fs: seq<Frame>, v: ByteString)
    requires |fs| > 0 && Dead(g, fs[|fs| - 1])
    ensures !StackLang(g, fs, v)
  {
    hide FrameLang;
    assert !Above(g, fs[|fs| - 1], fs[..|fs| - 1], v);
  }

  /** The matcher never paints itself into a corner exactly when the grammar is live. */
  lemma NoDeadEndsIffLive(g: Grammar)
    requires WellFormed(g)
    ensures LiveGrammar(g) <==> forall w :: Run(g, INITIAL, w).ok ==> exists v :: ToolCall(g, w + v)
  {
    hide ToolCall, Run, LiveGrammar;
    if LiveGrammar(g) {
      forall w | Run(g, INITIAL, w).ok ensures exists v :: ToolCall(g, w + v) {
        var v := NoDeadEnds(g, w);
      }
    } else {
      var w := DeadEnd(g);
    }
  }

  /** In a live grammar the bytes accepted are exactly the beginnings of tool calls. */
  lemma AcceptsExactlyPrefixes(g: Grammar, w: ByteString)
    requires WellFormed(g) && LiveGrammar(g)
    ensures Run(g, INITIAL, w).ok <==> exists v :: ToolCall(g, w + v)
  {
    hide ToolCall, LiveGrammar, Run;
    if Run(g, INITIAL, w).ok { var v := NoDeadEnds(g, w); }
    if v :| ToolCall(g, w + v) { KeepsEveryContinuation(g, w, v); }
  }
}
