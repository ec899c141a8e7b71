/** Which schema the matcher holds a tool's input against: it keeps sixteen bits of the tool's
    number, and takes a schema that is not an object for an object without properties. */
module ToolInputs {
  import opened Bytes
  import opened Options
  import opened Schema
  import opened ToolCallLanguage
  import opened MatcherFrames
  import opened StackDerivatives
  import opened MatcherTheorems
  import opened Liveness
  import Deviations

  function TakenSchema(s: Node): Node { if s.Object? then s else Object([]) }

  /** The grammar whose tool calls the matcher accepts. */
  function Taken(g: Grammar): Grammar {
    g.(toolSchemas := seq(|g.toolSchemas|, i requires 0 <= i < |g.toolSchemas| =>
      TakenSchema(g.toolSchemas[Number(i)])))
  }

  function TakenFrame(f: Frame): (r: Frame)
    ensures Weight(r) == Weight(f) && (InBounds(r) <==> InBounds(f))
  {
    if f.ObjectFrame? then f.(node := TakenSchema(f.node)) else f
  }

  function TakenFrames(fs: seq<Frame>): (r: seq<Frame>)
    ensures AllInBounds(r) <==> AllInBounds(fs)
  {
    var r := seq(|fs|, i requires 0 <= i < |fs| => TakenFrame(fs[i]));
    assert forall i :: 0 <= i < |fs| ==> (InBounds(r[i]) <==> InBounds(fs[i]));
    r
  }

  function TakenReaction(r: Reaction): Reaction {
    match r
    case Consume(fs) => Consume(TakenFrames(fs))
    case Retry(fs) => Retry(TakenFrames(fs))
    case TakeEnum(fs) => TakeEnum(TakenFrames(fs))
    case _ => r
  }

  function TakenState(s: State): State { s.(frames := TakenFrames(s.frames)) }

  function TakenOutcome(o: Outcome): Outcome { o.(state := TakenState(o.state)) }

  /** A frame for a schema that is no object is just being opened; tool numbers have sixteen bits. */
  predicate Tame(f: Frame) {
    && (f.ObjectFrame? && !f.node.Object? ==> f.objPhase.ObjStart? || f.objPhase.ObjAfterOpen?)
    && (f.ToolCallFrame? && f.tool.Some? ==> f.tool.value < 0x1_0000)
  }

  predicate AllTame(fs: seq<Frame>) { forall f <- fs :: Tame(f) }

  predicate SmallNumber(last: Option<nat>) { last.Some? ==> last.value < 0x1_0000 }

  predicate TameState(s: State) { AllTame(s.frames) && SmallNumber(s.lastEnum) }

  /** Frames of other kinds are the same for both grammars. */
  lemma KeptFrames(r: Reaction)
    requires forall f <- Pushed(r) :: f.ObjectFrame? ==> f.node.Object?
    ensures TakenReaction(r) == r
  {
    assert TakenFrames(Pushed(r)) == Pushed(r);
  }

  lemma TakenObject(g: Grammar, f: Frame, b: Byte)
    requires f.ObjectFrame? && InBounds(f) && Tame(f)
    ensures ReactObject(Taken(g), TakenFrame(f), b) == TakenReaction(ReactObject(g, f, b))
    ensures AllTame(Pushed(ReactObject(g, f, b))) && !ReactObject(g, f, b).CloseEnum?
  {
    hide ReactObject;
    if f.node.Object? { SameObject(g, f, b); } else { TakenNoObject(g, f, b); }
  }

  lemma SameObject(g: Grammar, f: Frame, b: Byte)
    requires f.ObjectFrame? && InBounds(f) && f.node.Object?
    ensures ReactObject(Taken(g), f, b) == ReactObject(g, f, b) == TakenReaction(ReactObject(g, f, b))
    ensures AllTame(Pushed(ReactObject(g, f, b))) && !ReactObject(g, f, b).CloseEnum?
  {
    hide TakenFrames, TakenReaction, Candidates, NoRequiredFrom, KeyPrefix, LooksLikeCall;
    KeptFrames(ReactObject(g, f, b));
  }

  lemma TakenNoObject(g: Grammar, f: Frame, b: Byte)
    requires f.ObjectFrame? && InBounds(f) && Tame(f) && !f.node.Object?
    ensures ReactObject(Taken(g), TakenFrame(f), b) == TakenReaction(ReactObject(g, f, b))
    ensures AllTame(Pushed(ReactObject(g, f, b))) && !ReactObject(g, f, b).CloseEnum?
  {
    hide TakenFrames;
    var r := ReactObject(g, f, b);
    assert Candidates([], f.nextProp) == {};
    if r.Consume? && r.push != [] {
      assert r.push == [r.push[0]];
      OneTaken(r.push[0]);
    } else {
      KeptFrames(r);
    }
  }

  lemma OneTaken(f: Frame)
    ensures TakenFrames([f]) == [TakenFrame(f)]
  {
  }

  lemma TakenCall(g: Grammar, last: Option<nat>, f: Frame, b: Byte)
    requires f.ToolCallFrame? && InBounds(f) && Tame(f) && SmallNumber(last)
    ensures ReactCall(Taken(g), last, f, b) == TakenReaction(ReactCall(g, last, f, b))
    ensures AllTame(Pushed(ReactCall(g, last, f, b))) && !ReactCall(g, last, f, b).CloseEnum?
  {
    hide TakenFrames;
    var r := ReactCall(g, last, f, b);
    if f.callPhase.AfterInputColon? && r.Retry? {
      InputTaken(g, last, f, b);
    } else {
      hide TakenReaction;
      KeptFrames(r);
    }
  }

  lemma InputTaken(g: Grammar, last: Option<nat>, f: Frame, b: Byte)
    requires f.ToolCallFrame? && Tame(f) && f.callPhase.AfterInputColon? && ReactCall(g, last, f, b).Retry?
    ensures ReactCall(Taken(g), last, f, b) == TakenReaction(ReactCall(g, last, f, b))
  {
    hide TakenFrames;
    var r := ReactCall(g, last, f, b);
    assert r.push == [r.push[0], r.push[1]] && Number(f.tool.value) == f.tool.value;
    TwoTaken(r.push[0], r.push[1]);
  }

  lemma TwoTaken(f: Frame, h: Frame)
    ensures TakenFrames([f, h]) == [TakenFrame(f), TakenFrame(h)]
  {
  }

  lemma TakenOthers(g: Grammar, last: Option<nat>, f: Frame, b: Byte)
    requires InBounds(f) && !f.ObjectFrame? && !f.ToolCallFrame?
    ensures React(Taken(g), last, f, b) == TakenReaction(React(g, last, f, b))
    ensures AllTame(Pushed(React(g, last, f, b)))
    ensures var r := React(g, last, f, b); r.CloseEnum? ==> r.index < 0x1_0000
  {
    KeptFrames(React(g, last, f, b));
  }

  lemma TakenReact(g: Grammar, last: Option<nat>, f: Frame, b: Byte)
    requires InBounds(f) && Tame(f) && SmallNumber(last)
    ensures React(Taken(g), last, TakenFrame(f), b) == TakenReaction(React(g, last, f, b))
    ensures AllTame(Pushed(React(g, last, f, b)))
    ensures var r := React(g, last, f, b); r.CloseEnum? ==> r.index < 0x1_0000
  {
    hide ReactObject, ReactCall, AllTame, Tame;
    match f
    case ObjectFrame(_, _, _, _) => TakenObject(g, f, b);
    case ToolCallFrame(_, _, _) => TakenCall(g, last, f, b);
    case _ => TakenOthers(g, last, f, b);
  }

  lemma TakenConcat(fs: seq<Frame>, more: seq<Frame>)
    ensures TakenFrames(fs + more) == TakenFrames(fs) + TakenFrames(more)
    ensures AllTame(fs) && AllTame(more) ==> AllTame(fs + more)
  {
  }

  /** One byte through both grammars. */
  lemma {:induction false} TakenStep(g: Grammar, s: State, b: Byte)
    requires AllInBounds(s.frames) && TameState(s)
    ensures Step(Taken(g), TakenState(s), b) == TakenOutcome(Step(g, s, b))
    ensures Step(g, s, b).ok ==> TameState(Step(g, s, b).state)
    decreases StackWeight(s.frames)
  {
    hide React, Step, TakenFrame, Taken, Tame;
    if s.frames != [] {
      var n, t := |s.frames| - 1, TakenState(s);
      var below, f := s.frames[..n], s.frames[n];
      assert t.frames[..n] == TakenFrames(below) && |t.frames| == n + 1 && AllTame(below);
      TakenReact(g, s.lastEnum, f, b);
      StepAgain(g, s, b);
      StepAgain(Taken(g), t, b);
      PassingOn(g, s, b);
      var r := React(g, s.lastEnum, f, b);
      TakenConcat(below, Pushed(r));
      if r.Retry? { TakenStep(g, s.(frames := below + r.push), b); }
      if r.TakeEnum? { TakenStep(g, s.(frames := below + r.push, lastEnum := None), b); }
    } else {
      EmptyStep(g, s, b);
      EmptyStep(Taken(g), TakenState(s), b);
    }
  }

  lemma {:induction false} TakenRun(g: Grammar, s: State, w: ByteString)
    requires AllInBounds(s.frames) && TameState(s)
    ensures AllInBounds(TakenState(s).frames)
    ensures Run(Taken(g), TakenState(s), w) == TakenOutcome(Run(g, s, w))
    decreases |w|
  {
    hide Step, Taken, TakenFrames, TameState;
    if w != [] {
      TakenStep(g, s, w[0]);
      if Step(g, s, w[0]).ok { TakenRun(g, Step(g, s, w[0]).state, w[1..]); }
    }
  }

  /** Under any grammar, however many tools it has and whatever their schemas are, the matcher
      accepts exactly the tool calls whose input is one for the schema found under the tool's
      sixteen-bit number, or the empty object when that schema is no object. */
  lemma TakesInputsOf(g: Grammar, w: ByteString)
    requires WellFormed(Taken(g))
    ensures Run(g, INITIAL, w).ok && Complete(Run(g, INITIAL, w).state) <==> ToolCall(Taken(g), w)
  {
    hide Run, ToolCall, WellFormed, Taken;
    AcceptsExactlyToolCalls(Taken(g), w);
    assert TakenState(INITIAL) == INITIAL && TameState(INITIAL);
    TakenRun(g, INITIAL, w);
  }

  /** A call of a tool with any input of that schema goes through: tool 65536 with inputs of tool 0. */
  lemma WrappedToolCalled(g: Grammar, i: nat, input: ByteString)
    requires WellFormed(Taken(g)) && Callable(g, i)
    requires Conforms(TakenSchema(g.toolSchemas[Number(i)]), input)
    ensures var o := Run(g, INITIAL, Deviations.SpacedCall(g, i, input, 0, 0)); o.ok && Complete(o.state)
  {
    hide Run, ToolCall, WellFormed, Conforms;
    var h, w := Taken(g), Deviations.SpacedCall(g, i, input, 0, 0);
    assert Callable(h, i) && Deviations.SpacedCall(h, i, input, 0, 0) == w;
    Deviations.OuterSpacesAccepted(h, i, input, 0, 0);
    AcceptsExactlyToolCalls(h, w);
    TakesInputsOf(g, w);
  }

  /** The only inputs of a tool whose schema is no object are the empty objects. */
  lemma OnlyEmptyObjects(s: Node, input: ByteString)
    requires !s.Object?
    ensures Conforms(TakenSchema(s), input) <==> input == [LBRACE, RBRACE] || input == [LBRACE, SPACE, RBRACE]
  {
    if |input| > 0 { NoMembers(SkipSpace(input[1..])); }
    if input == [LBRACE, RBRACE] { assert input[1..] == [RBRACE]; }
    if input == [LBRACE, SPACE, RBRACE] { assert input[1..] == [SPACE, RBRACE] && input[1..][1..] == [RBRACE]; }
    if Conforms(TakenSchema(s), input) {
      var r := SkipSpace(input[1..]);
      assert input == [LBRACE] + input[1..];
      assert r == [RBRACE];
      assert input[1..] == r || input[1..] == [SPACE] + r;
    }
  }

  lemma NoMembers(w: ByteString)
    ensures ObjectBody([], w) <==> w == [RBRACE]
  {
    assert forall i: nat :: !Candidate([], 0, i);
  }
}
