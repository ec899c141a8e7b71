/** Whole runs of the matcher: the bytes it accepts are exactly the tool calls of its
    grammar, and nothing is rejected that could still become one. */
module MatcherTheorems {
  import opened Bytes
  import opened Options
  import opened Schema
  import opened ToolCallLanguage
  import opened MatcherFrames
  import opened FrameLanguages
  import opened StringDerivatives
  import opened FrameDerivatives
  import opened StackDerivatives

  // ---------- reading the tool name ----------

  /** The quote that opens the tool name is passed on to a string frame over the names. */
  lemma NameOpens(g: Grammar, f: Frame, last: Option<nat>, w: ByteString)
    requires WellFormed(g) && f.ToolCallFrame? && f.callPhase.AfterNameColon? && |w| > 0 && w[0] == QUOTE
    ensures FrameLang(g, f, w) <==>
              StateLang(g, [Call(NameValue, f.tool, false), NewString(None, Some(g.toolNames))], last, w)
  {
    hide AfterNameValue;
    var s := NewString(None, Some(g.toolNames));
    if NameThenInput(g, w) {
      var i: nat :| FirstOf(g.toolNames, i) && Plain(g.toolNames[i])
        && [QUOTE] + g.toolNames[i] + [QUOTE] <= w && AfterNameValue(g, i, w[|g.toolNames[i]| + 2..]);
      assert NameSplit(g, s, i, |g.toolNames[i]| + 2, w);
    }
    if NameLang(g, s, w) {
      var i: nat, k: nat :| k <= |w| && NameSplit(g, s, i, k, w);
      assert w[..k] == [QUOTE] + g.toolNames[i] + [QUOTE];
    }
  }

  /** One byte of the string frame, against tool i and a split after k bytes. */
  lemma NameSplitStep(g: Grammar, f: Frame, b: Byte, u: ByteString, i: nat, k: nat)
    requires WellFormed(g) && f.StringFrame? && StringOk(f) && f.enumVals.Some? && f.max.None?
    requires f.enumVals.value.values == g.toolNames && k <= |u| + 1
    ensures NameSplit(g, f, i, k, [b] + u) ==> k > 0
    ensures k > 0 ==>
              match ReactString(f, b)
              case Reject => !NameSplit(g, f, i, k, [b] + u)
              case Consume(fs) => |fs| == 1 && fs[0].StringFrame? && fs[0].enumVals.Some?
                                  && (NameSplit(g, f, i, k, [b] + u) <==> NameSplit(g, fs[0], i, k - 1, u))
              case CloseEnum(_) => NameSplit(g, f, i, k, [b] + u)
                                   <==> k == 1 && FirstOf(g.toolNames, i) && Plain(g.toolNames[i])
                                        && g.toolNames[i] == f.enumVals.value.buf && AfterNameValue(g, i, u)
              case _ => false
  {
    hide AfterNameValue, StringOk, ReactString;
    if i < |g.toolNames| && Plain(g.toolNames[i]) {
      if k > 0 {
        Front(b, u, k);
        EnumValueStep(g, f, g.toolNames[i], b, u[..k - 1]);
        assert u[0..] == u;
      }
    } else if k > 0 {
      NameReactionKinds(g, f, b);
    }
  }

  lemma EnumCloseOf(f: Frame, b: Byte)
    requires f.StringFrame? && f.enumVals.Some? && StringOk(f) && ReactString(f, b).CloseEnum?
    ensures Usable(f.max, f.enumVals.value.buf)
  {
    EnumClose(f);
  }

  lemma NameReactionKinds(g: Grammar, f: Frame, b: Byte)
    requires f.StringFrame? && StringOk(f) && f.enumVals.Some?
    ensures match ReactString(f, b)
            case Reject => true
            case Consume(fs) => |fs| == 1 && fs[0].StringFrame? && fs[0].enumVals.Some?
            case CloseEnum(_) => true
            case _ => false
  {
  }

  lemma NameBytes(g: Grammar, f: Frame, b: Byte, u: ByteString)
    requires WellFormed(g) && f.StringFrame? && StringOk(f) && f.enumVals.Some? && f.max.None?
    requires f.enumVals.value.values == g.toolNames
    ensures match ReactString(f, b)
            case Reject => !NameLang(g, f, [b] + u)
            case Consume(fs) => |fs| == 1 && fs[0].StringFrame? && fs[0].enumVals.Some?
                                && (NameLang(g, f, [b] + u) <==> NameLang(g, fs[0], u))
            case CloseEnum(i) => i < |g.toolSchemas| && (NameLang(g, f, [b] + u) <==> AfterNameValue(g, i, u))
            case _ => false
  {
    hide AfterNameValue, StringOk, ReactString, NameSplit;
    var r := ReactString(f, b);
    NameReactionKinds(g, f, b);
    if r.CloseEnum? {
      var j := NameCloses(g, f, b, u);
      EnumCloseOf(f, b);
      NameSplitStep(g, f, b, u, j, 1);
    }
    if NameLang(g, f, [b] + u) {
      var i: nat, k: nat :| k <= |u| + 1 && NameSplit(g, f, i, k, [b] + u);
      NameSplitStep(g, f, b, u, i, k);
    }
    if r.Consume? && NameLang(g, r.push[0], u) {
      var i: nat, k: nat :| k <= |u| && NameSplit(g, r.push[0], i, k, u);
      NameSplitStep(g, f, b, u, i, k + 1);
    }
  }

  /** The recorded number is that of the first tool of that name, and leads to its schema. */
  lemma NameCloses(g: Grammar, f: Frame, b: Byte, u: ByteString) returns (j: nat)
    requires WellFormed(g) && f.StringFrame? && f.enumVals.Some? && f.enumVals.value.values == g.toolNames
    requires ReactString(f, b).CloseEnum?
    ensures b == QUOTE && FirstOf(g.toolNames, j) && g.toolNames[j] == f.enumVals.value.buf && j < |g.toolSchemas|
    ensures var i := ReactString(f, b).index;
            i == Number(j) && i < |g.toolSchemas| && (AfterNameValue(g, i, u) <==> AfterNameValue(g, j, u))
  {
    j := FirstEqual(g.toolNames, f.enumVals.value.buf, 0).value;
    SameTool(g, Number(j), j, u);
  }

  /** What follows the name depends on the tool's schema alone. */
  lemma SameTool(g: Grammar, i: nat, j: nat, w: ByteString)
    requires i < |g.toolSchemas| && j < |g.toolSchemas| && g.toolSchemas[i] == g.toolSchemas[j]
    ensures AfterNameValue(g, i, w) <==> AfterNameValue(g, j, w)
  {
    hide Conforms;
    assert forall x :: InputThenClose(g, i, x) == InputThenClose(g, j, x);
  }

  // ---------- one byte ----------

  /** A value frame pushes value frames; of two, the lower one waits. */
  predicate ValueShape(r: Reaction) {
    var fs := Pushed(r);
    && !r.TakeEnum? && |fs| <= 2 && (forall i :: 0 <= i < |fs| ==> IsValueFrame(fs[i]))
    && (|fs| == 2 ==> Waiting(fs[0]))
  }

  /** The bottom frame is replaced by another, or waits below the input of the call. */
  predicate BaseShape(r: Reaction) {
    var fs := Pushed(r);
    || r.Reject? || r.Finish?
    || (!r.TakeEnum? && |fs| == 1 && !IsValueFrame(fs[0]) && !IsNameValue(fs[0]))
    || (!r.TakeEnum? && |fs| == 2 && fs[0].ToolCallFrame? && fs[0].callPhase.AfterInput? && IsValueFrame(fs[1]))
  }

  lemma ObjectShape(g: Grammar, f: Frame, b: Byte)
    requires f.ObjectFrame? && ObjectOk(g, f)
    ensures ValueShape(ReactObject(g, f, b))
  {
  }

  lemma OtherShapes(g: Grammar, f: Frame, b: Byte)
    ensures f.StringFrame? ==> ValueShape(ReactString(f, b))
    ensures f.ArrayFrame? ==> ValueShape(ReactArray(f, b))
    ensures f.IntegerFrame? ==> ValueShape(ReactInteger(f.st, b))
    ensures f.BooleanFrame? ==> ValueShape(ReactBoolean(f.isTrue, f.pos, b))
    ensures f.Literal? ==> BaseShape(ReactLiteral(g, f.which, f.pos, b))
  {
  }

  lemma CallShape(g: Grammar, last: Option<nat>, f: Frame, b: Byte)
    requires WellFormed(g) && f.ToolCallFrame? && Plainly(g, f, b) && InBounds(f)
    ensures BaseShape(ReactCall(g, last, f, b))
  {
  }

  /** What kinds of frames a reaction pushes. */
  lemma FrameShapes(g: Grammar, last: Option<nat>, f: Frame, b: Byte)
    requires WellFormed(g) && Plainly(g, f, b) && InBounds(f)
    ensures if IsValueFrame(f) then ValueShape(React(g, last, f, b)) else BaseShape(React(g, last, f, b))
  {
    hide ReactObject, ReactString, ReactArray, ReactInteger, ReactBoolean, ReactLiteral, ReactCall;
    OtherShapes(g, f, b);
    if f.ObjectFrame? { ObjectShape(g, f, b); }
    if f.ToolCallFrame? { CallShape(g, last, f, b); }
  }

  /** The reaction of the top frame keeps the invariant of the stack. */
  lemma StackStaysOk(g: Grammar, last: Option<nat>, below: seq<Frame>, f: Frame, b: Byte)
    requires WellFormed(g) && StackOk(g, below + [f], last)
    requires |below| == 0 || !IsNameValue(below[0])
    requires Plainly(g, f, b)
    ensures InBounds(f) && DigitGuard(below, f, g)
    ensures var r := React(g, last, f, b);
            !r.TakeEnum? && (!r.Reject? ==> StackOk(g, below + Pushed(r), if r.CloseEnum? then Some(r.index) else last))
    ensures var r := React(g, last, f, b);
            !r.Reject? && below + Pushed(r) == [] ==> r.Finish?
  {
    hide FrameOk, React;
    var fs := below + [f];
    assert forall i :: 0 <= i < |below| ==> below[i] == fs[i];
    assert fs[|below|] == f;
    FrameDerivative(g, last, f, b, []);
    FrameShapes(g, last, f, b);
    assert MayEnd(f) ==> |below| > 0 && NoDigit(below[|below| - 1]);
  }

  /** The postcondition of one byte. */
  ghost predicate StepIsDerivative(g: Grammar, s: State, r: Outcome, b: Byte, w: ByteString) {
    if r.ok then
      && StateOk(g, r.state)
      && (StateLang(g, s.frames, s.lastEnum, [b] + w) <==> StateLang(g, r.state.frames, r.state.lastEnum, w))
    else !StateLang(g, s.frames, s.lastEnum, [b] + w)
  }

  /** Passing the byte on to other frames changes neither the language nor the invariant. */
  ghost predicate SameLanguage(g: Grammar, s: State, s': State, w: ByteString) {
    && StateOk(g, s')
    && (StateLang(g, s.frames, s.lastEnum, w) <==> StateLang(g, s'.frames, s'.lastEnum, w))
  }

  lemma NameStep(g: Grammar, s: State, b: Byte, w: ByteString)
    requires WellFormed(g) && StateOk(g, s) && |s.frames| == 2 && IsNameValue(s.frames[0])
    ensures AllInBounds(s.frames) && StepIsDerivative(g, s, Step(g, s, b), b, w)
  {
    hide AfterNameValue, ReactString, StringOk;
    OkInBounds(g, s.frames);
    var below, f := s.frames[..1], s.frames[1];
    NameBytes(g, f, b, w);
    EnumFrameOk(g, f, b);
    match ReactString(f, b)
    case Consume(fs) =>
      assert (below + fs)[1] == fs[0] && (below + fs)[0] == s.frames[0];
    case CloseEnum(i) => assert below[0] == s.frames[0];
    case _ =>
  }

  /** The name has been read: the call frame takes the recorded index over. */
  lemma NameTaken(g: Grammar, s: State, b: Byte, w: ByteString)
    requires WellFormed(g) && StateOk(g, s) && |s.frames| == 1 && IsNameValue(s.frames[0])
    ensures SameLanguage(g, s, s.(frames := s.frames[..0] + [Call(AfterName, s.lastEnum, false)], lastEnum := None), w)
  {
    hide CommaThenInput;
    var f := Call(AfterName, s.lastEnum, false);
    assert s.frames[..0] + [f] == [f];
    Single(g, f, w);
  }

  lemma NameOpened(g: Grammar, s: State, w: ByteString)
    requires WellFormed(g) && StateOk(g, s) && |s.frames| > 0
    requires var f := s.frames[|s.frames| - 1]; f.ToolCallFrame? && f.callPhase.AfterNameColon?
    requires |w| > 0 && w[0] == QUOTE
    ensures var f := s.frames[|s.frames| - 1];
            SameLanguage(g, s, s.(frames := s.frames[..|s.frames| - 1]
                                            + [Call(NameValue, f.tool, false), NewString(None, Some(g.toolNames))]), w)
  {
    hide NameThenInput, StateLang, FrameOk;
    var f := s.frames[|s.frames| - 1];
    assert |s.frames| == 1 && s.frames == [f];
    var fs := [Call(NameValue, f.tool, false), NewString(None, Some(g.toolNames))];
    assert s.frames[..0] + fs == fs;
    Single(g, f, w);
    OrdinaryState(g, s.frames, s.lastEnum, w);
    NameOpens(g, f, s.lastEnum, w);
    NewNameStack(g, f, s.lastEnum);
  }

  lemma OrdinaryState(g: Grammar, fs: seq<Frame>, last: Option<nat>, w: ByteString)
    requires fs != [] ==> !IsNameValue(fs[0])
    ensures StateLang(g, fs, last, w) <==> StackLang(g, fs, w)
  {
  }

  lemma NewNameStack(g: Grammar, f: Frame, last: Option<nat>)
    requires WellFormed(g) && f.ToolCallFrame?
    ensures StackOk(g, [Call(NameValue, f.tool, false), NewString(None, Some(g.toolNames))], last)
  {
  }

  /** The step of the matcher is the derivative of the language of its state: after an
      accepted byte exactly the remainders of the old state's completions are left, and a
      byte is rejected only when no completion starts with it. */
  lemma {:induction false} StepDerivative(g: Grammar, s: State, b: Byte, w: ByteString)
    requires WellFormed(g) && StateOk(g, s)
    ensures AllInBounds(s.frames) && StepIsDerivative(g, s, Step(g, s, b), b, w)
    decreases StackWeight(s.frames)
  {
    hide React, Step, StateLang, StackOk, FrameOk, StackWeight;
    StateShape(g, s);
    var fs := s.frames;
    if fs != [] {
      var n := |fs| - 1;
      PassingOn(g, s, b);
      StepAgain(g, s, b);
      var r := React(g, s.lastEnum, fs[n], b);
      if IsNameValue(fs[0]) && n == 1 {
        NameStep(g, s, b, w);
      } else if IsNameValue(fs[0]) {
        NameReaction(g, s, b);
        NameTaken(g, s, b, [b] + w);
        StepDerivative(g, s.(frames := fs[..n] + r.push, lastEnum := None), b, w);
      } else if fs[n].ToolCallFrame? && fs[n].callPhase.AfterNameColon? && b == QUOTE {
        NameReaction(g, s, b);
        NameOpened(g, s, [b] + w);
        StepDerivative(g, s.(frames := fs[..n] + r.push), b, w);
      } else {
        OrdinaryStep(g, s, b, w);
        if r.Retry? {
          StepDerivative(g, s.(frames := fs[..n] + r.push), b, w);
        }
      }
    } else {
      StepAtEnd(g, s, b, w);
    }
  }

  lemma StepAtEnd(g: Grammar, s: State, b: Byte, w: ByteString)
    requires s.frames == []
    ensures !Step(g, s, b).ok && StepIsDerivative(g, s, Step(g, s, b), b, w)
  {
  }

  lemma StateShape(g: Grammar, s: State)
    requires StateOk(g, s)
    ensures AllInBounds(s.frames)
    ensures var n := |s.frames| - 1;
            n >= 0 ==>
              && FrameOk(g, s.frames[n])
              && (IsNameValue(s.frames[0]) ==> n == 0 || (n == 1 && s.frames[1].StringFrame?))
              && (!IsNameValue(s.frames[0]) ==> !IsNameValue(s.frames[n]))
  {
    OkInBounds(g, s.frames);
  }

  lemma NameReaction(g: Grammar, s: State, b: Byte)
    requires StateOk(g, s) && s.frames != [] && AllInBounds(s.frames)
    ensures var f := s.frames[|s.frames| - 1];
            && (IsNameValue(f) && |s.frames| == 1 ==>
                  React(g, s.lastEnum, f, b) == TakeEnum([Call(AfterName, s.lastEnum, false)]))
            && (f.ToolCallFrame? && f.callPhase.AfterNameColon? && b == QUOTE ==>
                  React(g, s.lastEnum, f, b)
                  == Retry([Call(NameValue, f.tool, false), NewString(None, Some(g.toolNames))]))
  {
  }

  /** One reaction of a frame that is not concerned with the tool name. */
  lemma OrdinaryStep(g: Grammar, s: State, b: Byte, w: ByteString)
    requires WellFormed(g) && StateOk(g, s) && s.frames != [] && AllInBounds(s.frames)
    requires !IsNameValue(s.frames[0]) && Plainly(g, s.frames[|s.frames| - 1], b)
    ensures var n := |s.frames| - 1;
            var r := React(g, s.lastEnum, s.frames[n], b);
            match r
            case Retry(fs) => SameLanguage(g, s, s.(frames := s.frames[..n] + fs), [b] + w)
            case TakeEnum(_) => false
            case _ => Step(g, s, b).ok == !r.Reject? && StepIsDerivative(g, s, Step(g, s, b), b, w)
  {
    hide React, Step, FrameLang, FrameOk, StateLang, StackOk, WellFormed;
    var n := |s.frames| - 1;
    var below, f := s.frames[..n], s.frames[n];
    assert s.frames == below + [f];
    assert below == below + [];
    assert |below| == 0 || below[0] == s.frames[0];
    StepAgain(g, s, b);
    OrdinaryState(g, s.frames, s.lastEnum, [b] + w);
    StackStaysOk(g, s.lastEnum, below, f, b);
    TopConsumes(g, s.lastEnum, below, f, b, w);
    var r := React(g, s.lastEnum, f, b);
    if r.Retry? { TopRetries(g, s.lastEnum, below, f, b, w); }
    if !r.Reject? {
      NotNaming(g, s.lastEnum, below, f, b);
      var last := if r.CloseEnum? then Some(r.index) else s.lastEnum;
      OrdinaryState(g, below + Pushed(r), last, if r.Retry? then [b] + w else w);
    }
  }

  /** The new stack is not one that reads a tool name. */
  lemma NotNaming(g: Grammar, last: Option<nat>, below: seq<Frame>, f: Frame, b: Byte)
    requires WellFormed(g) && Plainly(g, f, b) && InBounds(f) && StackOk(g, below + [f], last)
    requires |below| == 0 || !IsNameValue(below[0])
    ensures var fs := below + Pushed(React(g, last, f, b));
            |fs| > 0 ==> !IsNameValue(fs[0])
  {
    hide React, FrameOk;
    FrameShapes(g, last, f, b);
    assert (below + [f])[|below|] == f;
    var fs := below + Pushed(React(g, last, f, b));
    if |below| == 0 {
      assert (below + [f])[0] == f && !IsValueFrame(f);
      assert fs == Pushed(React(g, last, f, b));
    } else {
      assert fs[0] == below[0];
    }
  }

  // ---------- whole runs ----------

  /** Bytes one after another, up to the first rejected one. */
  function Run(g: Grammar, s: State, w: ByteString): (r: Outcome)
    requires AllInBounds(s.frames)
    ensures AllInBounds(r.state.frames)
    decreases |w|
  {
    if w == [] then Outcome(s, true)
    else
      var r := Step(g, s, w[0]);
      if r.ok then Run(g, r.state, w[1..]) else r
  }

  /** A fresh matcher expects the prefix. */
  const INITIAL: State := State([Literal(Prefix, 0)], false, None)

  predicate Complete(s: State) { s.done && s.frames == [] }

  lemma {:induction false} RunDerivative(g: Grammar, s: State, w: ByteString, v: ByteString)
    requires WellFormed(g) && StateOk(g, s)
    ensures AllInBounds(s.frames)
    ensures var r := Run(g, s, w);
            if r.ok then
              && StateOk(g, r.state)
              && (StateLang(g, s.frames, s.lastEnum, w + v) <==> StateLang(g, r.state.frames, r.state.lastEnum, v))
            else !StateLang(g, s.frames, s.lastEnum, w + v)
    decreases |w|
  {
    hide StateLang, StackOk, Step;
    StateShape(g, s);
    OkBounds(g, s);
    if w == [] {
      assert w + v == v;
    } else {
      assert w + v == [w[0]] + (w[1..] + v);
      StepDerivative(g, s, w[0], w[1..] + v);
      var r := Step(g, s, w[0]);
      if r.ok { RunDerivative(g, r.state, w[1..], v); }
    }
  }

  lemma OkBounds(g: Grammar, s: State)
    requires StateOk(g, s)
    ensures AllInBounds(s.frames)
  {
    OkInBounds(g, s.frames);
  }

  lemma InitialOk(g: Grammar, w: ByteString)
    ensures StateOk(g, INITIAL)
    ensures StateLang(g, INITIAL.frames, INITIAL.lastEnum, w) <==> ToolCall(g, w)
  {
    hide CallObject;
    Single(g, Literal(Prefix, 0), w);
    assert g.prefix[0..] == g.prefix;
  }

  /** Nothing is left to read exactly when the matcher says it is complete. */
  lemma NothingLeft(g: Grammar, s: State)
    requires StateOk(g, s)
    ensures StateLang(g, s.frames, s.lastEnum, []) <==> Complete(s)
  {
    hide FrameLang, FrameOk;
    if s.frames != [] {
      EmptyStack(g, s.frames);
      if IsNameValue(s.frames[0]) && |s.frames| == 2 { EmptyName(g, s.frames[1]); }
    }
  }

  /** The bottom frame always has something left to read. */
  lemma {:induction false} EmptyStack(g: Grammar, fs: seq<Frame>)
    requires fs != [] && (forall i :: 0 <= i < |fs| ==> FrameOk(g, fs[i])) && !IsValueFrame(fs[0])
    ensures !StackLang(g, fs, [])
  {
    hide FrameLang, FrameOk;
    var n := |fs| - 1;
    var none: ByteString := [];
    assert none[..0] == none && none[0..] == none;
    if n == 0 { EmptyRest(g, fs[0]); } else { EmptyStack(g, fs[..n]); }
    assert !Split(g, fs[n], fs[..n], 0, none);
  }

  lemma EmptyName(g: Grammar, f: Frame)
    requires f.StringFrame? && f.enumVals.Some?
    ensures !NameLang(g, f, [])
  {
    hide AfterNameValue;
    var none: ByteString := [];
    forall i: nat, k: nat | k <= |none| ensures !NameSplit(g, f, i, k, none) {
      assert none[..k] == [];
    }
  }

  /** Soundness and completeness: a byte string is accepted to completion exactly when it
      is a tool call of the grammar. */
  lemma AcceptsExactlyToolCalls(g: Grammar, w: ByteString)
    requires WellFormed(g)
    ensures AllInBounds(INITIAL.frames)
    ensures Run(g, INITIAL, w).ok && Complete(Run(g, INITIAL, w).state) <==> ToolCall(g, w)
  {
    InitialOk(g, w);
    RunDerivative(g, INITIAL, w, []);
    assert w + [] == w;
    if Run(g, INITIAL, w).ok { NothingLeft(g, Run(g, INITIAL, w).state); }
  }

  /** No prefix of a tool call is ever rejected, and what completes the state reached is
      exactly what completes the prefix. */
  lemma KeepsEveryContinuation(g: Grammar, w: ByteString, v: ByteString)
    requires WellFormed(g)
    ensures ToolCall(g, w + v) <==>
              Run(g, INITIAL, w).ok
              && var s := Run(g, INITIAL, w).state; StateLang(g, s.frames, s.lastEnum, v)
  {
    InitialOk(g, w + v);
    RunDerivative(g, INITIAL, w, v);
  }
}
