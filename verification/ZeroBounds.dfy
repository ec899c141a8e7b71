/** Arrays with `maxItems` 0. The matcher counts an item only at the comma after it, so it
    reads such a bound as 1: what it accepts under any grammar, and when that is right. */
module ZeroBounds {
  import opened Bytes
  import opened Options
  import opened Schema
  import opened ToolCallLanguage
  import opened MatcherFrames
  import opened FrameLanguages
  import opened StackDerivatives
  import opened MatcherTheorems
  import opened Liveness
  import DeadEnds

  // ---------- two ways to get rid of a bound 0 ----------

  /** As the matcher takes it, with the bound 1, or as it is meant, without any item. */
  datatype Reading = AsOne | AsNone

  /** A schema without values. */
  const NOTHING: Node := String(None, Some([]))

  function ReadItems(m: Reading, items: Node, max: Option<nat>): Node
    decreases items, 1
  {
    if max == Some(0) && m.AsNone? then NOTHING else ReadNode(m, items)
  }

  function ReadBound(max: Option<nat>): Option<nat> { if max == Some(0) then Some(1) else max }

  function ReadNode(m: Reading, s: Node): Node
    decreases s, 0
  {
    match s
    case Object(props) => Object(ReadProperties(m, props))
    case Array(items, max) => Array(ReadItems(m, items, max), ReadBound(max))
    case _ => s
  }

  function ReadProperties(m: Reading, props: seq<Property>): (r: seq<Property>)
    ensures |r| == |props|
    ensures forall i :: 0 <= i < |props| ==>
              r[i] == Property(props[i].name, ReadNode(m, props[i].schema), props[i].required)
    decreases props, 1
  {
    seq(|props|, i requires 0 <= i < |props| =>
      Property(props[i].name, ReadNode(m, props[i].schema), props[i].required))
  }

  function Reread(m: Reading, g: Grammar): Grammar {
    g.(toolSchemas := seq(|g.toolSchemas|, i requires 0 <= i < |g.toolSchemas| => ReadNode(m, g.toolSchemas[i])))
  }

  function ReadFrame(m: Reading, f: Frame): (r: Frame)
    ensures Weight(r) == Weight(f) && (InBounds(r) <==> InBounds(f))
  {
    match f
    case ObjectFrame(node, _, _, _) => f.(node := ReadNode(m, node))
    case ArrayFrame(items, _, max, _, _) => f.(items := ReadItems(m, items, max), maxItems := ReadBound(max))
    case _ => f
  }

  function ReadFrames(m: Reading, fs: seq<Frame>): (r: seq<Frame>)
    ensures AllInBounds(r) <==> AllInBounds(fs)
  {
    var r := seq(|fs|, i requires 0 <= i < |fs| => ReadFrame(m, fs[i]));
    assert forall i :: 0 <= i < |fs| ==> (InBounds(r[i]) <==> InBounds(fs[i]));
    r
  }

  function ReadReaction(m: Reading, r: Reaction): Reaction {
    match r
    case Consume(fs) => Consume(ReadFrames(m, fs))
    case Retry(fs) => Retry(ReadFrames(m, fs))
    case TakeEnum(fs) => TakeEnum(ReadFrames(m, fs))
    case _ => r
  }

  function ReadState(m: Reading, s: State): State { s.(frames := ReadFrames(m, s.frames)) }

  function ReadOutcome(m: Reading, o: Outcome): Outcome { o.(state := ReadState(m, o.state)) }

  // ---------- the matcher on either grammar ----------

  /** The frame begins an item in an array that should have none. */
  predicate Fills(f: Frame, b: Byte) { f.ArrayFrame? && f.maxItems == Some(0) && ReactArray(f, b).Retry? }

  /** Rejected, or inside a value of the schema that has none. */
  predicate Stuck(o: Outcome) {
    o.ok ==> o.state.frames != [] && HasNoValue(o.state.frames[|o.state.frames| - 1])
  }

  predicate HasNoValue(f: Frame) {
    f.StringFrame? && f.utf8Need == 0 && f.esc.NoEscape? && f.enumVals.Some? && f.enumVals.value.values == []
  }

  lemma ReadValueFrame(m: Reading, s: Node)
    ensures ValueFrame(ReadNode(m, s)) == ReadFrame(m, ValueFrame(s))
  {
  }

  /** An object's keys stay as they are. */
  lemma SameKeys(m: Reading, props: seq<Property>, next: nat)
    ensures var r := ReadProperties(m, props);
            && LooksLikeCall(r) == LooksLikeCall(props) && NoRequiredFrom(r, next) == NoRequiredFrom(props, next)
            && Candidates(r, next) == Candidates(props, next)
            && (forall i: nat :: Candidate(r, next, i) == Candidate(props, next, i))
  {
    var r := ReadProperties(m, props);
    if NoRequiredFrom(r, next) {
      forall i | next <= i < |props| ensures !props[i].required { assert !r[i].required; }
    }
    forall i: nat ensures Candidate(r, next, i) == Candidate(props, next, i) {
      if Candidate(r, next, i) {
        forall j | next <= j < i ensures !props[j].required { assert !r[j].required; }
      }
    }
  }

  lemma {:induction false} SameMatch(props: seq<Property>, raised: seq<Property>, cands: set<nat>,
                                     key: ByteString, i: nat)
    requires |props| == |raised| && forall j :: 0 <= j < |props| ==> raised[j].name == props[j].name
    requires i <= |props|
    ensures MatchingKey(raised, cands, key, i) == MatchingKey(props, cands, key, i)
    ensures KeyPrefix(raised, cands, key) == KeyPrefix(props, cands, key)
    decreases |props| - i
  {
    if i < |props| { SameMatch(props, raised, cands, key, i + 1); }
  }

  lemma KindKept(m: Reading, s: Node)
    ensures ReadNode(m, s).Object? == s.Object?
    ensures s.Object? ==> ReadNode(m, s).properties == ReadProperties(m, s.properties)
  {
  }

  lemma ReadWildcard(m: Reading, b: Byte)
    ensures WildcardValue(b).Some? ==> ReadFrame(m, WildcardValue(b).value) == WildcardValue(b).value
  {
  }

  lemma ReadOne(m: Reading, x: Frame)
    ensures ReadFrames(m, [x]) == [ReadFrame(m, x)] && ReadFrames(m, []) == []
  {
  }

  lemma ReadTwo(m: Reading, x: Frame, y: Frame)
    ensures ReadFrames(m, [x, y]) == [ReadFrame(m, x), ReadFrame(m, y)]
  {
  }

  /** Frames without a schema stay as they are. */
  lemma KeptFrames(m: Reading, r: Reaction)
    requires forall f <- Pushed(r) :: !f.ObjectFrame? && !f.ArrayFrame?
    ensures ReadReaction(m, r) == r
  {
    assert ReadFrames(m, Pushed(r)) == Pushed(r);
  }

  /** An object frame that keeps its schema and pushes only itself. */
  lemma KeptObject(m: Reading, f: Frame, r: Reaction)
    requires f.ObjectFrame? && r.Consume? && |r.push| == 1 && r.push[0].ObjectFrame? && r.push[0].node == f.node
    ensures ReadReaction(m, r) == Consume([r.push[0].(node := ReadNode(m, f.node))])
  {
    ReadOne(m, r.push[0]);
    assert r.push == [r.push[0]];
  }

  lemma ReadKey(m: Reading, g: Grammar, f: Frame, b: Byte)
    requires f.ObjectFrame? && f.node.Object? && f.objPhase.Key?
    ensures ReactObject(Reread(m, g), ReadFrame(m, f), b) == ReadReaction(m, ReactObject(g, f, b))
  {
    hide ReadProperties, Candidates, KeyPrefix, ReadFrames;
    var props, r := f.node.properties, ReadProperties(m, f.node.properties);
    var pos, buf := f.objPhase.keyPos, f.objPhase.keyBuf;
    SameMatch(props, r, f.objPhase.cands, if pos >= |buf| then buf + [b] else buf, 0);
    SameMatch(props, r, f.objPhase.cands, buf, 0);
    if ReactObject(g, f, b).Consume? { KeptObject(m, f, ReactObject(g, f, b)); }
  }

  lemma ReadColon(m: Reading, g: Grammar, f: Frame, b: Byte)
    requires f.ObjectFrame? && f.node.Object? && f.objPhase.AfterColon? && InBounds(f)
    ensures ReactObject(Reread(m, g), ReadFrame(m, f), b) == ReadReaction(m, ReactObject(g, f, b))
  {
    hide ValueFrame, ReadFrames, WildcardValue;
    var props, r := f.node.properties, ReadProperties(m, f.node.properties);
    var re, waiting := ReactObject(g, f, b), f.(objPhase := AfterValue);
    ReadWildcard(m, b);
    assert ReadNode(m, f.node) == Object(r);
    assert r == [] <==> props == [];
    if re.Consume? {
      KeptObject(m, f, re);
    } else if re.Retry? && props == [] {
      ReadTwo(m, waiting, WildcardValue(b).value);
    } else if re.Retry? {
      ReadValueFrame(m, props[f.nextProp - 1].schema);
      ReadTwo(m, waiting, ValueFrame(props[f.nextProp - 1].schema));
    }
  }

  lemma ReadObject(m: Reading, g: Grammar, f: Frame, b: Byte)
    requires f.ObjectFrame? && InBounds(f)
    ensures ReactObject(Reread(m, g), ReadFrame(m, f), b) == ReadReaction(m, ReactObject(g, f, b))
  {
    hide ReactObject;
    KindKept(m, f.node);
    if !f.node.Object? {
      ReadNoObject(m, g, f, b);
    } else if f.objPhase.Key? {
      ReadKey(m, g, f, b);
    } else if f.objPhase.AfterColon? {
      ReadColon(m, g, f, b);
    } else {
      ReadBetween(m, g, f, b);
    }
  }

  lemma ReadNoObject(m: Reading, g: Grammar, f: Frame, b: Byte)
    requires f.ObjectFrame? && InBounds(f) && !f.node.Object?
    ensures ReactObject(Reread(m, g), ReadFrame(m, f), b) == ReadReaction(m, ReactObject(g, f, b))
  {
    hide ReadFrames, ReadNode;
    KindKept(m, f.node);
    var r := ReactObject(g, f, b);
    if r.Consume? && r.push != [] { KeptObject(m, f, r); } else { KeptFrames(m, r); }
  }

  lemma ReadBetween(m: Reading, g: Grammar, f: Frame, b: Byte)
    requires f.ObjectFrame? && f.node.Object? && InBounds(f) && !f.objPhase.Key? && !f.objPhase.AfterColon?
    ensures ReactObject(Reread(m, g), ReadFrame(m, f), b) == ReadReaction(m, ReactObject(g, f, b))
  {
    hide ReadNode, ReadProperties, Candidates, NoRequiredFrom, LooksLikeCall, ReadFrames;
    KindKept(m, f.node);
    SameKeys(m, f.node.properties, f.nextProp);
    var r := ReactObject(g, f, b);
    if r.Consume? && |r.push| == 1 && r.push[0].ObjectFrame? { KeptObject(m, f, r); } else { KeptFrames(m, r); }
  }

  lemma ReadArray(m: Reading, f: Frame, b: Byte)
    requires f.ArrayFrame? && (m.AsNone? ==> !Fills(f, b))
    ensures ReactArray(ReadFrame(m, f), b) == ReadReaction(m, ReactArray(f, b))
  {
    hide ReadNode, ValueFrame, ReadFrames;
    ReadValueFrame(m, f.items);
    var r := ReactArray(f, b);
    if r.Retry? {
      ReadTwo(m, r.push[0], ValueFrame(f.items));
    } else if r.Consume? && r.push != [] {
      ReadOne(m, r.push[0]);
      assert r.push == [r.push[0]];
    } else {
      KeptFrames(m, r);
    }
  }

  lemma ReadOthers(m: Reading, g: Grammar, last: Option<nat>, f: Frame, b: Byte)
    requires InBounds(f) && !f.ObjectFrame? && !f.ArrayFrame?
    ensures React(Reread(m, g), last, f, b) == ReadReaction(m, React(g, last, f, b))
  {
    hide ReactCall, ReactString, ReadReaction;
    if f.ToolCallFrame? {
      ReadCall(m, g, last, f, b);
    } else if f.StringFrame? {
      ReadString(m, f, b);
    } else {
      KeptFrames(m, React(g, last, f, b));
    }
  }

  lemma ReadCall(m: Reading, g: Grammar, last: Option<nat>, f: Frame, b: Byte)
    requires f.ToolCallFrame? && InBounds(f)
    ensures ReactCall(Reread(m, g), last, f, b) == ReadReaction(m, ReactCall(g, last, f, b))
  {
    hide ReadFrames;
    var r := ReactCall(g, last, f, b);
    if f.callPhase.AfterInputColon? && r.Retry? {
      ReadTwo(m, r.push[0], r.push[1]);
      assert r.push == [r.push[0], r.push[1]];
    } else {
      KeptFrames(m, r);
    }
  }

  lemma ReadString(m: Reading, f: Frame, b: Byte)
    requires f.StringFrame?
    ensures ReactString(f, b) == ReadReaction(m, ReactString(f, b))
  {
    KeptFrames(m, ReactString(f, b));
  }

  lemma ReadReact(m: Reading, g: Grammar, last: Option<nat>, f: Frame, b: Byte)
    requires InBounds(f) && (m.AsNone? ==> !Fills(f, b))
    ensures React(Reread(m, g), last, ReadFrame(m, f), b) == ReadReaction(m, React(g, last, f, b))
  {
    hide ReactObject, ReactArray;
    match f
    case ObjectFrame(_, _, _, _) => ReadObject(m, g, f, b);
    case ArrayFrame(_, _, _, _, _) => ReadArray(m, f, b);
    case _ => ReadOthers(m, g, last, f, b);
  }

  lemma ReadConcat(m: Reading, fs: seq<Frame>, more: seq<Frame>)
    ensures ReadFrames(m, fs + more) == ReadFrames(m, fs) + ReadFrames(m, more)
  {
  }

  /** One byte: the machines stay in step, unless an item is begun that should not be. */
  lemma {:induction false} ReadStep(m: Reading, g: Grammar, s: State, b: Byte)
    requires AllInBounds(s.frames)
    ensures || Step(Reread(m, g), ReadState(m, s), b) == ReadOutcome(m, Step(g, s, b))
            || (m.AsNone? && Stuck(Step(Reread(m, g), ReadState(m, s), b)))
    decreases StackWeight(s.frames)
  {
    hide React, Step, ReadFrame, Reread, Stuck, Fills;
    if s.frames == [] {
      EmptyStep(g, s, b);
      EmptyStep(Reread(m, g), ReadState(m, s), b);
    } else {
      var n, t := |s.frames| - 1, ReadState(m, s);
      var below, f := s.frames[..n], s.frames[n];
      assert t.frames[..n] == ReadFrames(m, below) && |t.frames| == n + 1;
      if m.AsNone? && Fills(f, b) {
        NothingFits(Reread(m, g), t, f, b);
      } else {
        ReadReact(m, g, s.lastEnum, f, b);
        StepAgain(g, s, b);
        StepAgain(Reread(m, g), t, b);
        PassingOn(g, s, b);
        var r := React(g, s.lastEnum, f, b);
        ReadConcat(m, below, Pushed(r));
        if r.Retry? { ReadStep(m, g, s.(frames := below + r.push), b); }
        if r.TakeEnum? { ReadStep(m, g, s.(frames := below + r.push, lastEnum := None), b); }
      }
    }
  }

  /** No byte begins a value of the schema that has none, except the quote of a string. */
  lemma NothingFits(g: Grammar, t: State, f: Frame, b: Byte)
    requires AllInBounds(t.frames) && t.frames != [] && t.frames[|t.frames| - 1] == ReadFrame(AsNone, f) && Fills(f, b)
    ensures Stuck(Step(g, t, b))
  {
    var n := |t.frames| - 1;
    var r := ReadFrame(AsNone, f);
    var item, nothing := r.(arrPhase := ArrAfterItem, arrSpace := false), ValueFrame(NOTHING);
    assert React(g, t.lastEnum, r, b) == Retry([item, nothing]);
    StepAgain(g, t, b);
    var t' := t.(frames := t.frames[..n] + [item, nothing]);
    assert t'.frames[n + 1] == nothing && t'.frames[..n + 1] == t.frames[..n] + [item];
    StepAgain(g, t', b);
  }

  /** There is no way out of a value that does not exist. */
  lemma {:induction false} StuckStays(g: Grammar, s: State, w: ByteString)
    requires AllInBounds(s.frames) && Stuck(Outcome(s, true))
    ensures Stuck(Run(g, s, w))
    decreases |w|
  {
    if w != [] {
      var n := |s.frames| - 1;
      StepAgain(g, s, w[0]);
      var o := Step(g, s, w[0]);
      if o.ok {
        assert Stuck(o);
        StuckStays(g, o.state, w[1..]);
      }
    }
  }

  /** Whole runs stay in step in the same way. */
  lemma {:induction false} ReadRun(m: Reading, g: Grammar, s: State, w: ByteString)
    requires AllInBounds(s.frames)
    ensures AllInBounds(ReadState(m, s).frames)
    ensures || Run(Reread(m, g), ReadState(m, s), w) == ReadOutcome(m, Run(g, s, w))
            || (m.AsNone? && Stuck(Run(Reread(m, g), ReadState(m, s), w)))
    decreases |w|
  {
    hide Step, Reread, ReadFrames, Stuck;
    if w != [] {
      ReadStep(m, g, s, w[0]);
      var o, t := Step(g, s, w[0]), Step(Reread(m, g), ReadState(m, s), w[0]);
      if m.AsNone? && Stuck(t) {
        if t.ok { StuckStays(Reread(m, g), t.state, w[1..]); }
      } else if o.ok {
        ReadRun(m, g, o.state, w[1..]);
      }
    }
  }

  /** Under any grammar the matcher accepts exactly the tool calls of the grammar in which
      every `maxItems` 0 is replaced by 1. */
  lemma ReadsZeroAsOne(g: Grammar, w: ByteString)
    requires WellFormed(Reread(AsOne, g))
    ensures Run(g, INITIAL, w).ok && Complete(Run(g, INITIAL, w).state) <==> ToolCall(Reread(AsOne, g), w)
  {
    hide Run, ToolCall, Reread, WellFormed;
    AcceptsExactlyToolCalls(Reread(AsOne, g), w);
    ReadRun(AsOne, g, INITIAL, w);
    assert ReadState(AsOne, INITIAL) == INITIAL;
  }

  // ---------- an array without items has the same values ----------

  predicate NoZero(s: Node) {
    match s
    case Object(props) => forall i :: 0 <= i < |props| ==> NoZero(props[i].schema)
    case Array(items, max) => max != Some(0) && NoZero(items)
    case _ => true
  }

  lemma {:induction false} ReadNothing(m: Reading, s: Node)
    requires NoZero(s)
    ensures ReadNode(m, s) == s
  {
    match s
    case Object(props) =>
      forall i | 0 <= i < |props| ensures ReadProperties(m, props)[i] == props[i] { ReadNothing(m, props[i].schema); }
      assert ReadProperties(m, props) == props;
    case Array(items, _) => ReadNothing(m, items);
    case _ =>
  }

  lemma NothingConforms(w: ByteString)
    ensures !Conforms(NOTHING, w)
  {
  }

  /** Without any item, a bound 0 says what it is meant to say. */
  lemma {:induction false} SameConforms(s: Node, w: ByteString)
    ensures Conforms(ReadNode(AsNone, s), w) <==> Conforms(s, w)
    decreases s, |w|, 3
  {
    match s
    case Object(props) => if |w| > 0 { SameBody(props, SkipSpace(w[1..])); }
    case Array(items, max) => if |w| > 0 { SameArrayBody(items, max, SkipSpace(w[1..])); }
    case _ =>
  }

  lemma {:induction false} SameBody(props: seq<Property>, w: ByteString)
    ensures ObjectBody(ReadProperties(AsNone, props), w) <==> ObjectBody(props, w)
    decreases props, |w|, 2
  {
    SameKeys(AsNone, props, 0);
    SameMember(props, 0, w);
  }

  lemma {:induction false} SameMember(props: seq<Property>, next: nat, w: ByteString)
    ensures Member(ReadProperties(AsNone, props), next, w) <==> Member(props, next, w)
    decreases props, |w|, 1
  {
    hide Candidate, KeyedValue;
    SameKeys(AsNone, props, next);
    var r := ReadProperties(AsNone, props);
    forall i: nat | i < |props| && [QUOTE] + props[i].name + [QUOTE] <= w
      ensures KeyedValue(r, i, w[|props[i].name| + 2..]) == KeyedValue(props, i, w[|props[i].name| + 2..])
    {
      SameKeyed(props, i, w[|props[i].name| + 2..]);
    }
    CandidateBound(props, next);
    CandidateBound(r, next);
  }

  lemma CandidateBound(props: seq<Property>, next: nat)
    ensures forall i: nat :: Candidate(props, next, i) ==> i < |props|
  {
  }

  lemma {:induction false} SameKeyed(props: seq<Property>, i: nat, w: ByteString)
    ensures KeyedValue(ReadProperties(AsNone, props), i, w) <==> KeyedValue(props, i, w)
    decreases props, |w|, 2
  {
    if |w| > 0 { SameValue(props, i, SkipSpace(w[1..])); }
  }

  lemma {:induction false} SameValue(props: seq<Property>, i: nat, w: ByteString)
    ensures ValueThenTail(ReadProperties(AsNone, props), i, w) <==> ValueThenTail(props, i, w)
    decreases props, |w|, 1
  {
    if i < |props| {
      var r := ReadProperties(AsNone, props);
      forall k: nat | k <= |w|
        ensures Conforms(r[i].schema, w[..k]) == Conforms(props[i].schema, w[..k])
        ensures ObjectTail(r, i + 1, w[k..]) == ObjectTail(props, i + 1, w[k..])
      {
        SameConforms(props[i].schema, w[..k]);
        SameTail(props, i + 1, w[k..]);
      }
    }
  }

  lemma {:induction false} SameTail(props: seq<Property>, next: nat, w: ByteString)
    ensures ObjectTail(ReadProperties(AsNone, props), next, w) <==> ObjectTail(props, next, w)
    decreases props, |w|, 0
  {
    SameKeys(AsNone, props, next);
    if |w| > 0 { SameMember(props, next, SkipSpace(w[1..])); }
  }

  lemma {:induction false} SameArrayBody(items: Node, max: Option<nat>, w: ByteString)
    ensures ArrayBody(ReadItems(AsNone, items, max), ReadBound(max), w) <==> ArrayBody(items, max, w)
    decreases items, |w|, 5
  {
    if max == Some(0) {
      forall k: nat | k <= |w| ensures !Conforms(NOTHING, w[..k]) { NothingConforms(w[..k]); }
    } else {
      SameItem(items, max, 0, w);
    }
  }

  lemma {:induction false} SameItem(items: Node, max: Option<nat>, commas: nat, w: ByteString)
    requires max != Some(0)
    ensures ItemThenTail(ReadNode(AsNone, items), max, commas, w) <==> ItemThenTail(items, max, commas, w)
    decreases items, |w|, 4
  {
    forall k: nat | k <= |w|
      ensures Conforms(ReadNode(AsNone, items), w[..k]) == Conforms(items, w[..k])
      ensures ArrayTail(ReadNode(AsNone, items), max, commas, w[k..]) == ArrayTail(items, max, commas, w[k..])
    {
      SameConforms(items, w[..k]);
      SameArrayTail(items, max, commas, w[k..]);
    }
  }

  lemma {:induction false} SameArrayTail(items: Node, max: Option<nat>, commas: nat, w: ByteString)
    requires max != Some(0)
    ensures ArrayTail(ReadNode(AsNone, items), max, commas, w) <==> ArrayTail(items, max, commas, w)
    decreases items, |w|, 3
  {
    if |w| > 0 && w[0] == COMMA { SameItem(items, max, commas + 1, SkipSpace(w[1..])); }
  }

  /** Grammars that agree on the inputs of every callable tool have the same tool calls. */
  lemma SameInputs(g: Grammar, h: Grammar, w: ByteString)
    requires h == g.(toolSchemas := h.toolSchemas) && |h.toolSchemas| == |g.toolSchemas|
    requires forall i: nat, x :: Callable(g, i) ==> (Conforms(h.toolSchemas[i], x) <==> Conforms(g.toolSchemas[i], x))
    ensures ToolCall(h, w) <==> ToolCall(g, w)
  {
    hide Conforms, AfterNameValue;
    forall i: nat, x | Callable(g, i) ensures AfterNameValue(h, i, x) == AfterNameValue(g, i, x) {
      SameAfterName(g, h, i, x);
    }
    forall x ensures NameThenInput(h, x) == NameThenInput(g, x) {
      assert forall i: nat :: Callable(g, i) == Callable(h, i);
    }
  }

  lemma SameAfterName(g: Grammar, h: Grammar, i: nat, w: ByteString)
    requires h == g.(toolSchemas := h.toolSchemas) && i < |h.toolSchemas| == |g.toolSchemas|
    requires forall x :: Conforms(h.toolSchemas[i], x) <==> Conforms(g.toolSchemas[i], x)
    ensures AfterNameValue(h, i, w) <==> AfterNameValue(g, i, w)
  {
    hide Conforms, InputThenClose;
    var t := SkipSpace(w);
    if |t| > 0 {
      var r := SkipSpace(t[1..]);
      if INPUT_KEY <= r {
        var q := r[|INPUT_KEY|..];
        if |q| > 0 { SameInput(g, h, i, SkipSpace(q[1..])); }
      }
    }
  }

  lemma SameInput(g: Grammar, h: Grammar, i: nat, w: ByteString)
    requires h == g.(toolSchemas := h.toolSchemas) && i < |h.toolSchemas| == |g.toolSchemas|
    requires forall x :: Conforms(h.toolSchemas[i], x) <==> Conforms(g.toolSchemas[i], x)
    ensures InputThenClose(h, i, w) <==> InputThenClose(g, i, w)
  {
    hide Conforms;
  }

  lemma AsNoneIsMeant(g: Grammar, w: ByteString)
    ensures ToolCall(Reread(AsNone, g), w) <==> ToolCall(g, w)
  {
    hide Conforms;
    forall i: nat, x | Callable(g, i)
      ensures Conforms(Reread(AsNone, g).toolSchemas[i], x) <==> Conforms(g.toolSchemas[i], x)
    {
      SameConforms(g.toolSchemas[i], x);
    }
    SameInputs(g, Reread(AsNone, g), w);
  }

  // ---------- a run that fills such an array ----------

  /** What is left of an array without items, once it is open. */
  const EMPTY_ARRAY: Frame := ArrayFrame(NOTHING, 0, Some(1), ArrAfterOpen, false)

  lemma {:induction false} StillOk(s: Node, suffixEmpty: bool)
    requires NodeOk(ReadNode(AsOne, s), suffixEmpty)
    ensures NodeOk(ReadNode(AsNone, s), suffixEmpty)
  {
    match s
    case Object(props) =>
      var one, none := ReadProperties(AsOne, props), ReadProperties(AsNone, props);
      SameKeys(AsOne, props, 0);
      SameKeys(AsNone, props, 0);
      assert forall i :: 0 <= i < |props| ==> none[i].name == one[i].name;
      forall i | 0 <= i < |props| ensures NodeOk(none[i].schema, suffixEmpty) {
        assert NodeOk(one[i].schema, suffixEmpty);
        StillOk(props[i].schema, suffixEmpty);
      }
    case Array(items, max) =>
      assert ReadNode(AsOne, s) == Array(ReadNode(AsOne, items), ReadBound(max));
      if max != Some(0) { StillOk(items, suffixEmpty); }
    case _ =>
  }

  lemma StillWellFormed(g: Grammar)
    requires WellFormed(Reread(AsOne, g)) && NumbersTell(g)
    ensures WellFormed(Reread(AsNone, g))
  {
    hide NodeOk, ReadNode;
    var one, none := Reread(AsOne, g), Reread(AsNone, g);
    forall i | 0 <= i < |g.toolSchemas|
      ensures none.toolSchemas[i].Object? && NodeOk(none.toolSchemas[i], none.suffix == [])
    {
      assert one.toolSchemas[i].Object? && NodeOk(one.toolSchemas[i], one.suffix == []);
      KindKept(AsOne, g.toolSchemas[i]);
      KindKept(AsNone, g.toolSchemas[i]);
      StillOk(g.toolSchemas[i], g.suffix == []);
    }
  }

  /** A schema with a bound 0 somewhere leads to an open array of that kind. */
  lemma {:induction false} ReachEmptyArray(g: Grammar, s: Node) returns (p: ByteString, more: seq<Frame>)
    requires NodeOk(ReadNode(AsNone, s), g.suffix == []) && LiveNode(ReadNode(AsOne, s)) && !NoZero(s)
    ensures Goes(g, [ValueFrame(ReadNode(AsNone, s))], p, more) && |p| > 0 && p[0] != SPACE && p[0] != RBRACKET
    ensures |more| > 0 && more[|more| - 1] == EMPTY_ARRAY && (s.Object? ==> p[0] == LBRACE)
  {
    hide Goes, ValueFrame;
    match s
    case Array(items, max) =>
      if max == Some(0) {
        p, more := [LBRACKET], [EMPTY_ARRAY];
        OpensEmpty(g, s);
      } else {
        ItemsStill(g, items, max);
        var q, top := ReachEmptyArray(g, items);
        p, more := InFirstItem(g, ReadNode(AsNone, s), q, top);
      }
    case Object(props) =>
      var i := FirstWithZero(props, 0);
      SiblingsLive(props, i);
      var r, top := ReachEmptyArray(g, props[i].schema);
      p, more := InProperty(g, ReadNode(AsNone, s), i, r, top);
  }

  lemma OpensEmpty(g: Grammar, s: Node)
    requires s.Array? && s.maxItems == Some(0)
    ensures Goes(g, [ValueFrame(ReadNode(AsNone, s))], [LBRACKET], [EMPTY_ARRAY])
  {
    hide Goes;
    OneByte(g, ValueFrame(ReadNode(AsNone, s)), LBRACKET);
  }

  lemma ItemsStill(g: Grammar, items: Node, max: Option<nat>)
    requires max != Some(0)
    ensures ReadNode(AsNone, Array(items, max)) == Array(ReadNode(AsNone, items), max)
    ensures ReadNode(AsOne, Array(items, max)) == Array(ReadNode(AsOne, items), max)
  {
  }

  /** Into the first item of an array. */
  lemma InFirstItem(g: Grammar, s: Node, q: ByteString, top: seq<Frame>) returns (p: ByteString, more: seq<Frame>)
    requires s.Array? && Goes(g, [ValueFrame(s.items)], q, top) && |top| > 0
    requires |q| > 0 && q[0] != SPACE && q[0] != RBRACKET
    ensures Goes(g, [ValueFrame(s)], p, more) && |p| > 0 && p[0] == LBRACKET
    ensures |more| > 0 && more[1..] == top
  {
    hide Goes;
    var start, value := ValueFrame(s), ValueFrame(s.items);
    var open, item := start.(arrPhase := ArrAfterOpen), start.(arrPhase := ArrAfterItem);
    OneByte(g, start, LBRACKET);
    GoesAbove(g, [item], [value], q, top);
    assert [item] + [value] == [item, value];
    PassedOn(g, open, q, [item, value], [item] + top);
    p, more := [LBRACKET] + q, [item] + top;
    GoesOn(g, [start], [LBRACKET], [open], q, more);
  }

  /** Into the value of property i of an object. */
  lemma InProperty(g: Grammar, s: Node, i: nat, r: ByteString, top: seq<Frame>)
    returns (p: ByteString, more: seq<Frame>)
    requires s.Object? && NodeOk(s, g.suffix == []) && i < |s.properties|
    requires forall j :: 0 <= j < i ==> LiveNode(s.properties[j].schema)
    requires Goes(g, [ValueFrame(s.properties[i].schema)], r, top) && |top| > 0 && |r| > 0 && r[0] != SPACE
    ensures Goes(g, [ValueFrame(s)], p, more) && |p| > 0 && p[0] == LBRACE
    ensures |more| > 0 && more[1..] == top
  {
    hide Goes;
    var q := DeadEnds.ReachProperty(g, s, i);
    var start, value := ValueFrame(s), ValueFrame(s.properties[i].schema);
    var colon, waiting := ObjectFrame(s, i + 1, AfterColon, false), ObjectFrame(s, i + 1, AfterValue, false);
    GoesAbove(g, [waiting], [value], r, top);
    assert [waiting] + [value] == [waiting, value];
    PassedOn(g, colon, r, [waiting, value], [waiting] + top);
    p, more := q + r, [waiting] + top;
    GoesOn(g, [start], q, [colon], r, more);
  }

  lemma FirstWithZero(props: seq<Property>, from: nat) returns (i: nat)
    requires exists j :: from <= j < |props| && !NoZero(props[j].schema)
    ensures from <= i < |props| && !NoZero(props[i].schema)
    ensures forall j :: from <= j < i ==> NoZero(props[j].schema)
    decreases |props| - from
  {
    if NoZero(props[from].schema) { i := FirstWithZero(props, from + 1); } else { i := from; }
  }

  lemma SiblingsLive(props: seq<Property>, i: nat)
    requires LiveNode(Object(ReadProperties(AsOne, props))) && i <= |props|
    requires forall j :: 0 <= j < i ==> NoZero(props[j].schema)
    ensures forall j :: 0 <= j < i ==> LiveNode(ReadProperties(AsNone, props)[j].schema)
  {
    forall j | 0 <= j < i ensures LiveNode(ReadProperties(AsNone, props)[j].schema) {
      assert LiveNode(ReadProperties(AsOne, props)[j].schema);
      ReadNothing(AsOne, props[j].schema);
      ReadNothing(AsNone, props[j].schema);
    }
  }

  /** From the start to such an array in the input of tool i, with no item read so far. */
  lemma ReachFromStart(g: Grammar, i: nat) returns (w: ByteString)
    requires WellFormed(Reread(AsNone, g)) && Callable(g, i) && !NoZero(g.toolSchemas[i])
    requires g.toolSchemas[i].Object? && LiveNode(ReadNode(AsOne, g.toolSchemas[i]))
    ensures var o := Run(Reread(AsNone, g), INITIAL, w);
            o.ok && o.state.frames != [] && o.state.frames[|o.state.frames| - 1] == EMPTY_ARRAY
  {
    hide Goes, LiveNode, ReadNode, NodeOk;
    var h := Reread(AsNone, g);
    var a := DeadEnds.CallTool(h, i);
    var s := h.toolSchemas[i];
    var colon, base := Call(AfterInputColon, Some(Number(i)), false), Call(AfterInput, Some(Number(i)), false);
    var p, more := ReachEmptyArray(h, g.toolSchemas[i]);
    GoesAbove(h, [base], [ValueFrame(s)], p, more);
    assert [base] + [ValueFrame(s)] == [base, ValueFrame(s)];
    PassedOn(h, colon, p, [base, ValueFrame(s)], [base] + more);
    GoesFrom(h, Run(h, INITIAL, a).state, p, [base] + more);
    RunConcat(h, INITIAL, a, p);
    w := a + p;
  }

  lemma NothingIsNotLive()
    ensures !LiveNode(NOTHING)
  {
    assert !Extends(None, [], []);
  }

  /** Where the grammar without items has the empty array, the grammar itself has an array bounded by 0. */
  lemma BoundIsZero(g: Grammar, f: Frame)
    requires ReadFrame(AsNone, f) == EMPTY_ARRAY
    requires FrameOk(g, ReadFrame(AsOne, f)) && LiveFrame(g, ReadFrame(AsOne, f))
    ensures f == ArrayFrame(f.items, 0, Some(0), ArrAfterOpen, false)
    ensures NodeOk(ReadNode(AsOne, f.items), g.suffix == []) && LiveNode(ReadNode(AsOne, f.items))
  {
    hide LiveNode;
    NothingIsNotLive();
    match f
    case ArrayFrame(items, _, _, _, _) => OnlyNothing(items);
    case _ =>
  }

  lemma OnlyNothing(items: Node)
    ensures ReadNode(AsNone, items) == NOTHING ==> items == NOTHING && ReadNode(AsOne, items) == NOTHING
  {
    match items
    case String(_, _) =>
    case _ =>
  }

  /** A first item in an open array. */
  lemma FillItem(g: Grammar, s: State, items: Node) returns (v: ByteString)
    requires AllInBounds(s.frames) && s.frames != [] && NodeOk(items, g.suffix == []) && LiveNode(items)
    requires s.frames[|s.frames| - 1] == ArrayFrame(items, 0, Some(1), ArrAfterOpen, false)
    ensures Run(g, s, v).ok && Run(g, s, v).state.frames != [] && |v| > 0 && v[0] != SPACE && v[0] != RBRACKET
  {
    hide Run;
    var n := |s.frames| - 1;
    var f := s.frames[n];
    var item, value := f.(arrPhase := ArrAfterItem), ValueFrame(items);
    v := DrainValue(g, items);
    var m: seq<Frame> :| Ended(m) && Goes(g, [value], v, m);
    GoesAbove(g, [item], [value], v, m);
    assert [item] + [value] == [item, value];
    PassedOn(g, f, v, [item, value], [item] + m);
    assert EndsWith(s.frames, [f]);
    assert (s.frames[..n] + ([item] + m))[n] == item;
  }

  /** The machine of the grammar without items never completes such a run. */
  lemma NeverWithoutItems(g: Grammar, s: State, f: Frame, w: ByteString)
    requires AllInBounds(s.frames) && s.frames != [] && s.frames[|s.frames| - 1] == ReadFrame(AsNone, f)
    requires |w| > 0 && Fills(f, w[0])
    ensures Stuck(Run(g, s, w))
  {
    hide Step, Stuck;
    NothingFits(g, s, f, w[0]);
    var o := Step(g, s, w[0]);
    if o.ok { StuckStays(g, o.state, w[1..]); }
  }

  /** Up to the first item of an array bounded by 0: the grammar with the bound 1 reads it,
      and the grammar without items is stuck, whatever follows. */
  lemma ItemRead(g: Grammar, i: nat) returns (a: ByteString)
    requires WellFormed(Reread(AsOne, g)) && LiveGrammar(Reread(AsOne, g)) && NumbersTell(g)
    requires Callable(g, i) && !NoZero(g.toolSchemas[i])
    ensures Run(Reread(AsOne, g), INITIAL, a).ok && Run(Reread(AsOne, g), INITIAL, a).state.frames != []
    ensures forall u :: Stuck(Run(Reread(AsNone, g), INITIAL, a + u))
  {
    hide Run, FrameOk, LiveFrame, ReadNode, LiveNode, NodeOk, Stuck, Fills, WellFormed, LiveGrammar;
    var one, none := Reread(AsOne, g), Reread(AsNone, g);
    StillWellFormed(g);
    ToolIsLive(g, i);
    var p := ReachFromStart(g, i);
    var s := BothReach(g, p);
    var n := |s.frames| - 1;
    InitialLive(one);
    RunStaysLive(one, INITIAL, p);
    var t := Run(one, INITIAL, p).state;
    assert t.frames[n] == ReadFrame(AsOne, s.frames[n]);
    BoundIsZero(one, s.frames[n]);
    var v := FillItem(one, t, ReadNode(AsOne, s.frames[n].items));
    RunConcat(one, INITIAL, p, v);
    a := p + v;
    assert Fills(s.frames[n], v[0]) by { BeginsItem(s.frames[n], v[0]); }
    forall u ensures Stuck(Run(none, INITIAL, a + u)) {
      RunConcat(none, INITIAL, p, v + u);
      assert p + (v + u) == a + u && (v + u)[0] == v[0];
      NeverWithoutItems(none, Run(none, INITIAL, p).state, s.frames[n], v + u);
    }
  }

  lemma BeginsItem(f: Frame, b: Byte)
    requires f.ArrayFrame? && f == ArrayFrame(f.items, 0, Some(0), ArrAfterOpen, false) && b != SPACE && b != RBRACKET
    ensures Fills(f, b)
  {
  }

  lemma ToolIsLive(g: Grammar, i: nat)
    requires WellFormed(Reread(AsOne, g)) && LiveGrammar(Reread(AsOne, g)) && Callable(g, i)
    ensures g.toolSchemas[i].Object? && LiveNode(ReadNode(AsOne, g.toolSchemas[i]))
  {
    hide ReadNode, LiveNode, NodeOk;
    var one := Reread(AsOne, g);
    assert one.toolSchemas[i].Object? && Callable(one, i);
    KindKept(AsOne, g.toolSchemas[i]);
  }

  /** Where one machine meets the empty array, the other and the matcher itself are in step. */
  lemma BothReach(g: Grammar, p: ByteString) returns (s: State)
    requires var o := Run(Reread(AsNone, g), INITIAL, p);
             o.ok && o.state.frames != [] && o.state.frames[|o.state.frames| - 1] == EMPTY_ARRAY
    ensures Run(Reread(AsNone, g), INITIAL, p) == ReadOutcome(AsNone, Outcome(s, true))
    ensures Run(Reread(AsOne, g), INITIAL, p) == ReadOutcome(AsOne, Outcome(s, true))
    ensures s.frames != [] && ReadFrame(AsNone, s.frames[|s.frames| - 1]) == EMPTY_ARRAY
  {
    hide Run, Reread;
    assert ReadState(AsNone, INITIAL) == INITIAL && ReadState(AsOne, INITIAL) == INITIAL;
    ReadRun(AsNone, g, INITIAL, p);
    ReadRun(AsOne, g, INITIAL, p);
    s := Run(g, INITIAL, p).state;
  }

  /** A callable tool whose input has such an array somewhere: some accepted text is no tool call. */
  lemma FilledArray(g: Grammar, i: nat) returns (w: ByteString)
    requires WellFormed(Reread(AsOne, g)) && LiveGrammar(Reread(AsOne, g)) && NumbersTell(g)
    requires Callable(g, i) && !NoZero(g.toolSchemas[i])
    ensures Run(g, INITIAL, w).ok && Complete(Run(g, INITIAL, w).state) && !ToolCall(g, w)
  {
    hide Run, ToolCall, NoZero, Reread, Callable, WellFormed, LiveGrammar;
    var a := ItemRead(g, i);
    var u := NoDeadEnds(Reread(AsOne, g), a);
    w := a + u;
    ReadsZeroAsOne(g, w);
    StillWellFormed(g);
    AcceptsExactlyToolCalls(Reread(AsNone, g), w);
    AsNoneIsMeant(g, w);
  }

  /** The matcher keeps to its grammar exactly when no input of a callable tool has an array
      bounded by 0: otherwise some text it accepts is not a tool call. */
  lemma SoundIffNoZero(g: Grammar)
    requires WellFormed(Reread(AsOne, g)) && LiveGrammar(Reread(AsOne, g)) && NumbersTell(g)
    ensures (forall w :: Run(g, INITIAL, w).ok && Complete(Run(g, INITIAL, w).state) ==> ToolCall(g, w))
            <==> (forall i: nat :: Callable(g, i) ==> NoZero(g.toolSchemas[i]))
  {
    hide Run, ToolCall, WellFormed, LiveGrammar, NoZero, ReadNode, Conforms;
    if forall i: nat :: Callable(g, i) ==> NoZero(g.toolSchemas[i]) {
      forall i: nat, x | Callable(g, i)
        ensures Conforms(Reread(AsOne, g).toolSchemas[i], x) <==> Conforms(g.toolSchemas[i], x)
      {
        ReadNothing(AsOne, g.toolSchemas[i]);
      }
      forall w ensures Run(g, INITIAL, w).ok && Complete(Run(g, INITIAL, w).state) ==> ToolCall(g, w) {
        ReadsZeroAsOne(g, w);
        SameInputs(g, Reread(AsOne, g), w);
      }
    } else {
      var i: nat :| Callable(g, i) && !NoZero(g.toolSchemas[i]);
      var w := FilledArray(g, i);
    }
  }
}
