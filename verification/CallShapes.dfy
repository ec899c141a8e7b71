/** Objects shaped like the outer call. The matcher takes the end of a schema object with the
    properties `name` and `input`, in that order, for the end of the call, and reads the suffix
    there; what that does to the language of a grammar. */
module CallShapes {
  import opened Bytes
  import opened Options
  import opened Schema
  import opened ToolCallLanguage
  import opened MatcherFrames
  import opened FrameLanguages
  import opened StackDerivatives
  import opened MatcherTheorems
  import opened Liveness
  import DeadEnds
  import SpelledTexts
  import ZeroBounds

  /** The properties are `name` and `input`, in that order. */
  predicate NamedLikeCall(props: seq<Property>) {
    var names := seq(|props|, i requires 0 <= i < |props| => props[i].name);
    names == [SpelledTexts.Ascii("name"), SpelledTexts.Ascii("input")]
  }

  lemma ShapeIs(props: seq<Property>)
    ensures LooksLikeCall(props) <==> NamedLikeCall(props)
  {
    var names := seq(|props|, i requires 0 <= i < |props| => props[i].name);
    SpelledTexts.StructuralCharacters();
    if NamedLikeCall(props) {
      assert names[0] == NAME && names[1] == INPUT;
    }
    if LooksLikeCall(props) {
      assert names == [NAME, INPUT];
    }
  }

  predicate NoCallShape(s: Node) {
    match s
    case Object(props) => !NamedLikeCall(props) && forall i :: 0 <= i < |props| ==> NoCallShape(props[i].schema)
    case Array(items, _) => NoCallShape(items)
    case _ => true
  }

  /** The grammar without its suffix, under which the shape is harmless. */
  function Bare(g: Grammar): Grammar { g.(suffix := []) }

  // ---------- one byte with and without the suffix ----------

  predicate NoSuffix(fs: seq<Frame>) { forall f <- fs :: f.Literal? ==> f.which.Prefix? }

  /** The frame ends what it takes for the call: it leaves the suffix to be read, or nothing. */
  predicate ClosesCall(g: Grammar, last: Option<nat>, f: Frame, b: Byte)
    requires InBounds(f)
  {
    React(g, last, f, b) == Consume([Literal(Suffix, 0)]) && React(Bare(g), last, f, b) == Finish
  }

  /** The reaction is the same without the suffix, and no part of it is about the suffix. */
  predicate SuffixApart(r: Reaction, bare: Reaction) {
    r == bare && !r.Finish? && NoSuffix(Pushed(r)) && (r.TakeEnum? ==> r.push != [])
  }

  lemma BareReact(g: Grammar, last: Option<nat>, f: Frame, b: Byte)
    requires InBounds(f) && NoSuffix([f]) && g.suffix != []
    ensures ClosesCall(g, last, f, b) || SuffixApart(React(g, last, f, b), React(Bare(g), last, f, b))
    ensures ClosesCall(g, last, f, b) ==> f.ObjectFrame? || (f.ToolCallFrame? && f.callPhase.AfterInput?)
  {
    hide ReactObject, ReactCall, ReactString, ReactArray;
    assert f in [f];
    match f
    case ObjectFrame(_, _, _, _) => BareObject(g, f, b);
    case ToolCallFrame(_, _, _) => BareCallFrame(g, last, f, b);
    case _ => BareOthers(g, last, f, b);
  }

  lemma BareObject(g: Grammar, f: Frame, b: Byte)
    requires f.ObjectFrame? && InBounds(f) && g.suffix != []
    ensures var r, bare := ReactObject(g, f, b), ReactObject(Bare(g), f, b);
            SuffixApart(r, bare) || (r == Consume([Literal(Suffix, 0)]) && bare == Finish)
  {
    hide Candidates, NoRequiredFrom, LooksLikeCall, KeyPrefix;
  }

  lemma BareCallFrame(g: Grammar, last: Option<nat>, f: Frame, b: Byte)
    requires f.ToolCallFrame? && InBounds(f) && g.suffix != []
    ensures var r, bare := ReactCall(g, last, f, b), ReactCall(Bare(g), last, f, b);
            || SuffixApart(r, bare)
            || (r == Consume([Literal(Suffix, 0)]) && bare == Finish && f.callPhase.AfterInput?)
  {
  }

  lemma BareOthers(g: Grammar, last: Option<nat>, f: Frame, b: Byte)
    requires InBounds(f) && !f.ObjectFrame? && !f.ToolCallFrame? && NoSuffix([f])
    ensures SuffixApart(React(g, last, f, b), React(Bare(g), last, f, b))
    ensures React(g, last, f, b) != Consume([Literal(Suffix, 0)])
  {
    assert f in [f];
  }

  /** A frame that was just pushed for a byte passed on to it. */
  predicate Fresh(f: Frame) {
    match f
    case ToolCallFrame(phase, _, _) => phase.Open? || phase.AfterName?
    case ObjectFrame(_, _, phase, _) => phase.ObjStart?
    case StringFrame(_, _, _, _, _, _, _, phase) => phase.StrStart?
    case IntegerFrame(st) => st.IntStart?
    case ArrayFrame(_, _, _, phase, _) => phase.ArrStart?
    case Literal(_, _) => false
    case _ => true
  }

  lemma FreshTop(g: Grammar, last: Option<nat>, f: Frame, b: Byte)
    requires InBounds(f)
    ensures var r := React(g, last, f, b);
            (r.Retry? || r.TakeEnum?) && Pushed(r) != [] ==> Fresh(Pushed(r)[|Pushed(r)| - 1])
  {
  }

  lemma FreshReacts(g: Grammar, last: Option<nat>, f: Frame, b: Byte)
    requires InBounds(f) && Fresh(f)
    ensures var r := React(g, last, f, b); r.Consume? || r.Reject?
    ensures g.suffix != [] ==> !ClosesCall(g, last, f, b)
  {
  }

  /** The byte ends the call, or an object taken for it, at frame k. */
  predicate ClosesAt(g: Grammar, s: State, b: Byte, k: nat)
    requires AllInBounds(s.frames)
  {
    && k < |s.frames| && ClosesCall(g, s.lastEnum, s.frames[k], b)
    && Step(g, s, b) == Outcome(s.(frames := s.frames[..k] + [Literal(Suffix, 0)]), true)
    && Step(Bare(g), s, b) == Outcome(s.(frames := s.frames[..k], done := true), true)
  }

  /** Nothing depends on the suffix in this step. */
  predicate Agrees(g: Grammar, s: State, b: Byte)
    requires AllInBounds(s.frames)
  {
    var o := Step(g, s, b);
    o == Step(Bare(g), s, b) && (o.ok ==> NoSuffix(o.state.frames) && o.state.done == s.done)
  }

  lemma {:induction false} EitherStep(g: Grammar, s: State, b: Byte)
    requires AllInBounds(s.frames) && NoSuffix(s.frames) && g.suffix != []
    ensures Agrees(g, s, b) || exists k: nat :: ClosesAt(g, s, b, k)
    decreases |s.frames|
  {
    hide React, Step, ClosesCall, Fresh;
    if s.frames == [] {
      EmptyStep(g, s, b);
      EmptyStep(Bare(g), s, b);
    } else {
      var n := |s.frames| - 1;
      var below, f := s.frames[..n], s.frames[n];
      assert NoSuffix(below) && NoSuffix([f]);
      BareReact(g, s.lastEnum, f, b);
      StepAgain(g, s, b);
      StepAgain(Bare(g), s, b);
      var r := React(g, s.lastEnum, f, b);
      if ClosesCall(g, s.lastEnum, f, b) {
        assert ClosesAt(g, s, b, n) by { ClosedAt(g, s, b); }
      } else if r == Retry([]) {
        var s' := s.(frames := below);
        assert below + [] == below;
        EitherStep(g, s', b);
        if k: nat :| ClosesAt(g, s', b, k) {
          assert below[..k] == s.frames[..k] && below[k] == s.frames[k];
          assert ClosesAt(g, s, b, k);
        }
      } else if r.Retry? || r.TakeEnum? {
        AfterPush(g, s, b);
      } else {
        SuffixConcat(below, Pushed(r));
      }
    }
  }

  lemma ClosedAt(g: Grammar, s: State, b: Byte)
    requires AllInBounds(s.frames) && s.frames != [] && ClosesCall(g, s.lastEnum, s.frames[|s.frames| - 1], b)
    ensures ClosesAt(g, s, b, |s.frames| - 1)
  {
    hide React;
    StepAgain(g, s, b);
    StepAgain(Bare(g), s, b);
  }

  lemma SuffixConcat(fs: seq<Frame>, more: seq<Frame>)
    ensures NoSuffix(fs + more) <==> NoSuffix(fs) && NoSuffix(more)
  {
    assert forall f :: f in fs + more <==> f in fs || f in more;
  }

  /** A byte passed on to new frames is read or rejected by them. */
  lemma AfterPush(g: Grammar, s: State, b: Byte)
    requires AllInBounds(s.frames) && s.frames != [] && NoSuffix(s.frames) && g.suffix != []
    requires var f := s.frames[|s.frames| - 1];
             var r := React(g, s.lastEnum, f, b);
             && (r.Retry? || r.TakeEnum?) && Pushed(r) != [] && NoSuffix(Pushed(r))
             && r == React(Bare(g), s.lastEnum, f, b)
    ensures Agrees(g, s, b)
  {
    hide React, Step, ClosesCall, Fresh;
    var n := |s.frames| - 1;
    var below, r := s.frames[..n], React(g, s.lastEnum, s.frames[n], b);
    var fs := below + Pushed(r);
    var s' := if r.Retry? then s.(frames := fs) else s.(frames := fs, lastEnum := None);
    var top := fs[|fs| - 1];
    assert NoSuffix(below) && top == Pushed(r)[|Pushed(r)| - 1];
    SuffixConcat(below, Pushed(r));
    StepAgain(g, s, b);
    StepAgain(Bare(g), s, b);
    FreshTop(g, s.lastEnum, s.frames[n], b);
    FreshReacts(g, s'.lastEnum, top, b);
    assert NoSuffix([top]);
    BareReact(g, s'.lastEnum, top, b);
    StepAgain(g, s', b);
    StepAgain(Bare(g), s', b);
    SuffixConcat(fs[..|fs| - 1], Pushed(React(g, s'.lastEnum, top, b)));
    assert NoSuffix(fs[..|fs| - 1]);
  }

  // ---------- whole runs ----------

  /** The run reads everything and leaves no frame. */
  predicate Ends(g: Grammar, s: State, w: ByteString)
    requires AllInBounds(s.frames)
  {
    Run(g, s, w).ok && Run(g, s, w).state.frames == []
  }

  lemma {:induction false} DoneAside(g: Grammar, s: State, done: bool, b: Byte)
    requires AllInBounds(s.frames)
    ensures var o, t := Step(g, s, b), Step(g, s.(done := done), b);
            t.ok == o.ok && (t.state == o.state || t == o.(state := o.state.(done := done)))
    decreases StackWeight(s.frames)
  {
    hide React, Step;
    if s.frames == [] {
      EmptyStep(g, s, b);
      EmptyStep(g, s.(done := done), b);
    } else {
      var n := |s.frames| - 1;
      StepAgain(g, s, b);
      StepAgain(g, s.(done := done), b);
      PassingOn(g, s, b);
      var r := React(g, s.lastEnum, s.frames[n], b);
      if r.Retry? { DoneAside(g, s.(frames := s.frames[..n] + r.push), done, b); }
      if r.TakeEnum? { DoneAside(g, s.(frames := s.frames[..n] + r.push, lastEnum := None), done, b); }
    }
  }

  /** What is read does not depend on whether the matcher has been done before. */
  lemma {:induction false} DoneAsideRun(g: Grammar, s: State, done: bool, w: ByteString)
    requires AllInBounds(s.frames)
    ensures Ends(g, s.(done := done), w) <==> Ends(g, s, w)
    decreases |w|
  {
    hide Step;
    if w != [] {
      DoneAside(g, s, done, w[0]);
      var o, t := Step(g, s, w[0]), Step(g, s.(done := done), w[0]);
      if o.ok && t.state != o.state { DoneAsideRun(g, o.state, done, w[1..]); }
    }
  }

  /** Above other frames the suffix is read byte by byte and leaves them as they were. */
  lemma {:induction false} SuffixRun(g: Grammar, s: State, pos: nat, w: ByteString)
    requires AllInBounds(s.frames) && s.frames != [] && s.frames[|s.frames| - 1] == Literal(Suffix, pos)
    requires pos < |g.suffix|
    ensures var after := s.(frames := s.frames[..|s.frames| - 1], done := true);
            if g.suffix[pos..] <= w then Run(g, s, w) == Run(g, after, w[|g.suffix| - pos..]) else !Ends(g, s, w)
    decreases |w|
  {
    hide Step;
    var n, rest := |s.frames| - 1, g.suffix[pos..];
    if w != [] {
      StepAgain(g, s, w[0]);
      assert rest <= w <==> w[0] == g.suffix[pos] && g.suffix[pos + 1..] <= w[1..] by {
        TextPrefix(rest, w);
        assert rest[1..] == g.suffix[pos + 1..];
      }
      if w[0] == g.suffix[pos] && pos + 1 < |g.suffix| {
        var s' := s.(frames := s.frames[..n] + [Literal(Suffix, pos + 1)]);
        assert s'.frames[..n] == s.frames[..n];
        SuffixRun(g, s', pos + 1, w[1..]);
        assert rest <= w ==> w[1..][|g.suffix| - pos - 1..] == w[|g.suffix| - pos..];
      }
    }
  }

  lemma TextPrefix(p: ByteString, w: ByteString)
    requires p != [] && w != []
    ensures p <= w <==> p[0] == w[0] && p[1..] <= w[1..]
  {
    if p[0] == w[0] && p[1..] <= w[1..] {
      assert p == [p[0]] + p[1..] && w == [w[0]] + w[1..];
      assert forall i :: 0 < i < |p| ==> p[i] == p[1..][i - 1] == w[1..][i - 1] == w[i];
    }
    if p <= w { assert p[1..] == w[1..][..|p| - 1]; }
  }

  /** The state of a run before its last frame is gone. */
  predicate Going(g: Grammar, s: State) {
    WellFormed(Bare(g)) && g.suffix != [] && StackOk(Bare(g), s.frames, s.lastEnum) && s.frames != []
    && NoSuffix(s.frames)
  }

  /** One byte of such a run: with the suffix and without, or the end of a call-shaped object. */
  lemma GoingOn(g: Grammar, s: State, b: Byte) returns (k: nat)
    requires Going(g, s) && !s.done
    ensures AllInBounds(s.frames)
    ensures || (Agrees(g, s, b) && (Step(g, s, b).ok ==> Going(g, Step(g, s, b).state)))
            || (ClosesAt(g, s, b, k) && (k > 0 ==> Going(g, s.(frames := s.frames[..k]))))
  {
    hide Step, ClosesCall, WellFormed, StackOk;
    k := 0;
    assert StateOk(Bare(g), s);
    OkBounds(Bare(g), s);
    StepDerivative(Bare(g), s, b, []);
    EitherStep(g, s, b);
    if !Agrees(g, s, b) {
      k :| ClosesAt(g, s, b, k);
      assert s.frames == s.frames[..k] + s.frames[k..];
      SuffixConcat(s.frames[..k], s.frames[k..]);
    }
  }

  /** Taking out the suffix after every object taken for the call gives a run without a suffix. */
  lemma {:induction false} Strip(g: Grammar, s: State, w: ByteString) returns (x: ByteString)
    requires Going(g, s) && AllInBounds(s.frames) && Ends(g, s, w)
    ensures Ends(Bare(g), s, x) && |x| + |g.suffix| <= |w|
    decreases |w|
  {
    hide Step, Going, ClosesCall;
    assert w != [] && g.suffix != [] by { NotOver(g, s, w); }
    var s0, b := s.(done := false), w[0];
    assert Going(g, s0) by { StillGoing(g, s); }
    DoneAsideRun(g, s, false, w);
    var k := GoingOn(g, s0, b);
    if Agrees(g, s0, b) {
      var y := Strip(g, Step(g, s0, b).state, w[1..]);
      x := [b] + y;
      assert x[1..] == y;
    } else {
      var t := s0.(frames := s0.frames[..k], done := true);
      SuffixRun(g, s0.(frames := s0.frames[..k] + [Literal(Suffix, 0)]), 0, w[1..]);
      assert g.suffix[0..] == g.suffix;
      assert (s0.frames[..k] + [Literal(Suffix, 0)])[..k] == s0.frames[..k];
      var y := w[1..][|g.suffix|..];
      assert Ends(g, t, y);
      if k == 0 {
        x := [b];
        assert x[1..] == [];
        NothingLeftToRead(Bare(g), t);
      } else {
        DoneAsideRun(g, t, false, y);
        var z := Strip(g, t.(done := false), y);
        DoneAsideRun(Bare(g), t, false, z);
        x := [b] + z;
        assert x[1..] == z;
      }
    }
    DoneAsideRun(Bare(g), s, false, x);
  }

  lemma NotOver(g: Grammar, s: State, w: ByteString)
    requires Going(g, s) && AllInBounds(s.frames) && Ends(g, s, w)
    ensures w != [] && g.suffix != []
  {
  }

  lemma StillGoing(g: Grammar, s: State)
    requires Going(g, s)
    ensures Going(g, s.(done := false)) && Going(g, s.(done := true))
  {
  }

  lemma NothingLeftToRead(g: Grammar, s: State)
    requires s.frames == []
    ensures Ends(g, s, [])
  {
  }

  /** Putting the suffix in after every object taken for the call gives a run of the matcher. */
  lemma {:induction false} Insert(g: Grammar, s: State, w: ByteString) returns (x: ByteString)
    requires Going(g, s) && AllInBounds(s.frames) && Ends(Bare(g), s, w)
    ensures x != [] && Ends(g, s, x)
    decreases |w|
  {
    hide Step, Going, ClosesCall;
    assert w != [] && g.suffix != [] by { NotOverBare(g, s, w); }
    var s0, b := s.(done := false), w[0];
    assert Going(g, s0) by { StillGoing(g, s); }
    DoneAsideRun(Bare(g), s, false, w);
    var k := GoingOn(g, s0, b);
    if Agrees(g, s0, b) {
      var y := Insert(g, Step(g, s0, b).state, w[1..]);
      x := [b] + y;
      assert x[1..] == y;
    } else {
      var t := s0.(frames := s0.frames[..k], done := true);
      var y: ByteString := [];
      if k > 0 {
        DoneAsideRun(Bare(g), t, false, w[1..]);
        y := Insert(g, t.(done := false), w[1..]);
        DoneAsideRun(g, t, false, y);
      } else {
        NothingLeftToRead(g, t);
      }
      x := [b] + (g.suffix + y);
      assert x[1..] == g.suffix + y && (g.suffix + y)[|g.suffix|..] == y && g.suffix[0..] == g.suffix;
      assert (s0.frames[..k] + [Literal(Suffix, 0)])[..k] == s0.frames[..k];
      SuffixRun(g, s0.(frames := s0.frames[..k] + [Literal(Suffix, 0)]), 0, g.suffix + y);
    }
    DoneAsideRun(g, s, false, x);
  }

  lemma NotOverBare(g: Grammar, s: State, w: ByteString)
    requires Going(g, s) && AllInBounds(s.frames) && Ends(Bare(g), s, w)
    ensures w != [] && g.suffix != []
  {
  }

  lemma {:induction false} StepStaysDone(g: Grammar, s: State, b: Byte)
    requires AllInBounds(s.frames) && s.done
    ensures Step(g, s, b).state.done
    decreases StackWeight(s.frames)
  {
    hide React, Step;
    if s.frames == [] {
      EmptyStep(g, s, b);
    } else {
      var n := |s.frames| - 1;
      StepAgain(g, s, b);
      PassingOn(g, s, b);
      var r := React(g, s.lastEnum, s.frames[n], b);
      if r.Retry? { StepStaysDone(g, s.(frames := s.frames[..n] + r.push), b); }
      if r.TakeEnum? { StepStaysDone(g, s.(frames := s.frames[..n] + r.push, lastEnum := None), b); }
    }
  }

  lemma {:induction false} StaysDone(g: Grammar, s: State, w: ByteString)
    requires AllInBounds(s.frames) && s.done
    ensures Run(g, s, w).state.done
    decreases |w|
  {
    hide Step;
    if w != [] {
      StepStaysDone(g, s, w[0]);
      if Step(g, s, w[0]).ok { StaysDone(g, Step(g, s, w[0]).state, w[1..]); }
    }
  }

  /** The last frame goes only with the end of the call. */
  lemma {:induction false} EndsDone(g: Grammar, s: State, w: ByteString)
    requires Going(g, s) && AllInBounds(s.frames) && Ends(g, s, w)
    ensures Run(g, s, w).state.done
    decreases |w|
  {
    hide Step, Going, ClosesCall;
    assert w != [] && g.suffix != [] by { NotOver(g, s, w); }
    if s.done {
      StaysDone(g, s, w);
    } else {
      var k := GoingOn(g, s, w[0]);
      if Agrees(g, s, w[0]) {
        EndsDone(g, Step(g, s, w[0]).state, w[1..]);
      } else {
        var t := s.(frames := s.frames[..k], done := true);
        assert (s.frames[..k] + [Literal(Suffix, 0)])[..k] == s.frames[..k];
        SuffixRun(g, s.(frames := s.frames[..k] + [Literal(Suffix, 0)]), 0, w[1..]);
        StaysDone(g, t, w[1..][|g.suffix|..]);
      }
    }
  }

  lemma InitialGoing(g: Grammar)
    requires WellFormed(Bare(g)) && g.suffix != []
    ensures Going(g, INITIAL) && AllInBounds(INITIAL.frames)
  {
    InitialOk(Bare(g), []);
  }

  // ---------- the first end of a call-shaped object ----------

  /** After p bytes of w both machines are in the same state, and the next byte ends an object
      taken for the call. */
  ghost predicate InnerEnd(g: Grammar, s: State, w: ByteString, p: nat)
    requires AllInBounds(s.frames)
  {
    && p < |w| && Run(g, s, w[..p]) == Run(Bare(g), s, w[..p]) && Run(g, s, w[..p]).ok
    && var t := Run(g, s, w[..p]).state;
       Going(g, t) && exists k: nat :: k > 0 && ClosesAt(g, t, w[p], k)
  }

  lemma {:induction false} FirstInnerEnd(g: Grammar, s: State, w: ByteString, q: nat, k: nat) returns (p: nat)
    requires Going(g, s) && AllInBounds(s.frames) && !s.done && q < |w| && Run(Bare(g), s, w[..q]).ok
    requires k > 0 && ClosesAt(g, Run(Bare(g), s, w[..q]).state, w[q], k)
    ensures InnerEnd(g, s, w, p)
    decreases q
  {
    hide Step, Going, ClosesCall;
    if q == 0 {
      p := 0;
      assert w[..0] == [];
    } else {
      assert w[..q][0] == w[0] && w[..q][1..] == w[1..][..q - 1];
      var j := GoingOn(g, s, w[0]);
      if Agrees(g, s, w[0]) {
        var o := Step(g, s, w[0]);
        var p' := FirstInnerEnd(g, o.state, w[1..], q - 1, k);
        p := p' + 1;
        assert w[..p][0] == w[0] && w[..p][1..] == w[1..][..p'];
      } else {
        p := 0;
        assert w[..0] == [];
        EmptyRun(Bare(g), Step(Bare(g), s, w[0]).state, w[1..][..q - 1]);
        assert j > 0;
      }
    }
  }

  lemma EmptyRun(g: Grammar, s: State, w: ByteString)
    requires AllInBounds(s.frames)
    ensures s.frames == [] && Run(g, s, w).ok ==> w == []
  {
    if s.frames == [] && w != [] { EmptyStep(g, s, w[0]); }
  }

  // ---------- tool calls with and without the suffix ----------

  lemma SpaceBefore(w: ByteString, more: ByteString)
    requires w != []
    ensures SkipSpace(w + more) == SkipSpace(w) + more
  {
    if w[0] == SPACE { assert (w + more)[1..] == w[1..] + more; }
  }

  lemma Below(w: ByteString, more: ByteString)
    requires |w| > 1
    ensures (w + more)[0] == w[0] && SkipSpace((w + more)[1..]) == SkipSpace(w[1..]) + more
  {
    assert (w + more)[1..] == w[1..] + more;
    SpaceBefore(w[1..], more);
  }

  /** If what follows a space ends in `more`, so does the whole. */
  lemma SpaceAfter(w: ByteString, z: ByteString, more: ByteString)
    requires SkipSpace(w) == z + more && z != []
    ensures |w| >= |more| && w == w[..|w| - |more|] + more && SkipSpace(w[..|w| - |more|]) == z
  {
    var n := |w| - |more|;
    if |w| > 0 && w[0] == SPACE {
      assert w == [SPACE] + (z + more) == ([SPACE] + z) + more;
      assert w[..n] == [SPACE] + z && ([SPACE] + z)[1..] == z;
    } else {
      assert w[..n] == z && z[0] == w[0];
    }
  }

  /** The same below a first byte. */
  lemma Peel(w: ByteString, z: ByteString, more: ByteString) returns (v: ByteString)
    requires w != [] && SkipSpace(w[1..]) == z + more && z != []
    ensures w == v + more && v != [] && v[0] == w[0] && SkipSpace(v[1..]) == z
  {
    SpaceAfter(w[1..], z, more);
    var t := w[1..][..|w[1..]| - |more|];
    v := [w[0]] + t;
    assert w == [w[0]] + w[1..] && v[1..] == t;
  }

  lemma InputWithSuffix(g: Grammar, tool: nat, z: ByteString)
    requires tool < |g.toolSchemas| && InputThenClose(Bare(g), tool, z)
    ensures InputThenClose(g, tool, z + g.suffix)
  {
    hide Conforms, SkipSpace;
    var k :| 0 <= k <= |z| && Conforms(g.toolSchemas[tool], z[..k]) && Close(Bare(g), SkipSpace(z[k..]));
    var r, w := z[k..], z + g.suffix;
    NotEmptyClose(r);
    SpaceBefore(r, g.suffix);
    assert w[k..] == r + g.suffix && w[..k] == z[..k];
    assert Close(g, SkipSpace(w[k..]));
  }

  lemma NotEmptyClose(r: ByteString)
    ensures SkipSpace(r) != [] ==> r != []
  {
  }

  lemma InputWithoutSuffix(g: Grammar, tool: nat, w: ByteString) returns (z: ByteString)
    requires tool < |g.toolSchemas| && InputThenClose(g, tool, w)
    ensures w == z + g.suffix && z != [] && InputThenClose(Bare(g), tool, z)
  {
    hide Conforms, SkipSpace;
    var k :| 0 <= k <= |w| && Conforms(g.toolSchemas[tool], w[..k]) && Close(g, SkipSpace(w[k..]));
    var r := w[k..];
    SpaceAfter(r, [RBRACE], g.suffix);
    NotEmptyClose(r[..|r| - |g.suffix|]);
    z := w[..k] + r[..|r| - |g.suffix|];
    assert w == w[..k] + r;
    assert z[..k] == w[..k] && z[k..] == r[..|r| - |g.suffix|];
    assert Close(Bare(g), SkipSpace(z[k..]));
  }

  /** The rest of a call after the name, text by text from the end. */
  lemma CallWithSuffix(g: Grammar, tool: nat, w: ByteString)
    requires tool < |g.toolSchemas| && AfterNameValue(Bare(g), tool, w)
    ensures w != [] && AfterNameValue(g, tool, w + g.suffix)
  {
    hide InputThenClose, SkipSpace;
    var a := SkipSpace(w);
    var b := SkipSpace(a[1..]);
    var c := b[|INPUT_KEY|..];
    var more := g.suffix;
    InputWithSuffix(g, tool, SkipSpace(c[1..]));
    NotEmptyInput(Bare(g), tool, c[1..]);
    Below(c, more);
    assert AfterInputKey(g, tool, c + more);
    assert (b + more)[|INPUT_KEY|..] == c + more && INPUT_KEY <= b + more && InputEntry(g, tool, b + more);
    NotEmptyClose(a[1..]);
    Below(a, more);
    assert CommaThenInput(g, tool, a + more);
    NotEmptyClose(w);
    SpaceBefore(w, more);
  }

  lemma NotEmptyInput(g: Grammar, tool: nat, w: ByteString)
    requires tool < |g.toolSchemas| && InputThenClose(g, tool, SkipSpace(w))
    ensures w != []
  {
    hide Conforms;
  }

  lemma CallWithoutSuffix(g: Grammar, tool: nat, w: ByteString) returns (v: ByteString)
    requires tool < |g.toolSchemas| && AfterNameValue(g, tool, w)
    ensures w == v + g.suffix && v != [] && AfterNameValue(Bare(g), tool, v)
  {
    hide InputThenClose, SkipSpace;
    var a := SkipSpace(w);
    var b := SkipSpace(a[1..]);
    var c := b[|INPUT_KEY|..];
    var z := InputWithoutSuffix(g, tool, SkipSpace(c[1..]));
    var c' := Peel(c, z, g.suffix);
    assert AfterInputKey(Bare(g), tool, c');
    var b' := INPUT_KEY + c';
    assert b == b' + g.suffix && b'[|INPUT_KEY|..] == c' && InputEntry(Bare(g), tool, b');
    var a' := Peel(a, b', g.suffix);
    assert CommaThenInput(Bare(g), tool, a');
    SpaceAfter(w, a', g.suffix);
    v := w[..|w| - |g.suffix|];
    NotEmptyClose(v);
  }

  lemma NameWithSuffix(g: Grammar, e: ByteString)
    requires NameThenInput(Bare(g), e)
    ensures e != [] && NameThenInput(g, e + g.suffix)
  {
    hide AfterNameValue;
    var more := g.suffix;
    var i: nat :| FirstOf(g.toolNames, i) && Plain(g.toolNames[i]) && [QUOTE] + g.toolNames[i] + [QUOTE] <= e
                  && i < |g.toolSchemas| && AfterNameValue(Bare(g), i, e[|g.toolNames[i]| + 2..]);
    var n := |g.toolNames[i]| + 2;
    CallWithSuffix(g, i, e[n..]);
    assert (e + more)[n..] == e[n..] + more;
    assert [QUOTE] + g.toolNames[i] + [QUOTE] <= e + more;
  }

  lemma NameWithoutSuffix(g: Grammar, e: ByteString) returns (e': ByteString)
    requires NameThenInput(g, e)
    ensures e == e' + g.suffix && e' != [] && NameThenInput(Bare(g), e')
  {
    hide AfterNameValue;
    var i: nat :| FirstOf(g.toolNames, i) && Plain(g.toolNames[i]) && [QUOTE] + g.toolNames[i] + [QUOTE] <= e
                  && i < |g.toolSchemas| && AfterNameValue(g, i, e[|g.toolNames[i]| + 2..]);
    var name := [QUOTE] + g.toolNames[i] + [QUOTE];
    var d := CallWithoutSuffix(g, i, e[|name|..]);
    e' := name + d;
    assert e == name + e[|name|..];
    assert e'[|name|..] == d;
  }

  /** A tool call is a tool call of the grammar without suffix, and the suffix. */
  lemma WithSuffix(g: Grammar, w: ByteString)
    requires ToolCall(Bare(g), w)
    ensures ToolCall(g, w + g.suffix)
  {
    hide NameThenInput, SkipSpace;
    var more := g.suffix;
    var o := w[|g.prefix|..];
    var n := SkipSpace(o[1..]);
    var c := n[|NAME_KEY|..];
    NameWithSuffix(g, SkipSpace(c[1..]));
    NotEmptyClose(c[1..]);
    Below(c, more);
    assert AfterNameKey(g, c + more);
    assert (n + more)[|NAME_KEY|..] == c + more && NAME_KEY <= n + more && NameEntry(g, n + more);
    NotEmptyClose(o[1..]);
    Below(o, more);
    assert CallObject(g, o + more);
    assert (w + more)[|g.prefix|..] == o + more;
  }

  lemma WithoutSuffix(g: Grammar, w: ByteString) returns (v: ByteString)
    requires ToolCall(g, w)
    ensures w == v + g.suffix && ToolCall(Bare(g), v)
  {
    hide NameThenInput, SkipSpace;
    var o := w[|g.prefix|..];
    var n := SkipSpace(o[1..]);
    var c := n[|NAME_KEY|..];
    var e := NameWithoutSuffix(g, SkipSpace(c[1..]));
    var c' := Peel(c, e, g.suffix);
    assert AfterNameKey(Bare(g), c');
    var n' := NAME_KEY + c';
    assert n == n' + g.suffix && n'[|NAME_KEY|..] == c' && NameEntry(Bare(g), n');
    var o' := Peel(o, n', g.suffix);
    assert CallObject(Bare(g), o');
    v := g.prefix + o';
    assert w == g.prefix + o && v[|g.prefix|..] == o';
  }

  // ---------- a run through a call-shaped object ----------

  /** Only the closing brace is missing from the object. */
  predicate CanClose(f: Frame) {
    f.ObjectFrame? && f.node.Object? && f.objPhase.AfterValue? && LooksLikeCall(f.node.properties)
    && NoRequiredFrom(f.node.properties, f.nextProp)
  }

  /** The object at frame k, under an integer that may have to end first. */
  predicate AtClose(fs: seq<Frame>, k: nat) { k < |fs| && CanClose(fs[k]) && Ended(fs[k + 1..]) }

  lemma AtCloseAbove(f: Frame, fs: seq<Frame>, k: nat)
    requires AtClose(fs, k)
    ensures AtClose([f] + fs, k + 1)
  {
    assert ([f] + fs)[k + 2..] == fs[k + 1..];
  }

  /** The brace ends the object, and with a suffix the matcher goes on to read it. */
  lemma BraceCloses(g: Grammar, s: State, k: nat)
    requires AllInBounds(s.frames) && AtClose(s.frames, k) && g.suffix != []
    ensures ClosesAt(g, s, RBRACE, k)
  {
    hide Step;
    var n, f := |s.frames| - 1, s.frames[k];
    assert ClosesCall(g, s.lastEnum, f, RBRACE);
    if k == n {
      ClosedAt(g, s, RBRACE);
    } else {
      assert s.frames[k + 1..] == [s.frames[n]] && n == k + 1;
      var s' := s.(frames := s.frames[..n]);
      StepAgain(g, s, RBRACE);
      StepAgain(Bare(g), s, RBRACE);
      assert s.frames[..n] + [] == s.frames[..n];
      ClosedAt(g, s', RBRACE);
      assert s'.frames[..k] == s.frames[..k];
    }
  }

  /** A schema with a call-shaped object leads to the end of one. */
  lemma {:induction false} ReachClose(g: Grammar, s: Node) returns (p: ByteString, more: seq<Frame>, k: nat)
    requires g.suffix == [] && NodeOk(s, true) && LiveNode(s) && !NoCallShape(s)
    ensures Goes(g, [ValueFrame(s)], p, more) && AtClose(more, k)
    ensures |p| > 0 && p[0] != SPACE && p[0] != RBRACKET && (s.Object? ==> p[0] == LBRACE)
  {
    hide Goes, ValueFrame, AtClose;
    var q, top, j;
    match s
    case Array(items, _) =>
      q, top, j := ReachClose(g, items);
      assert |top| > 0 by { AtCloseBound(top, j); }
      p, more := ZeroBounds.InFirstItem(g, s, q, top);
      k := j + 1;
      AtCloseAbove(more[0], top, j);
      assert more == [more[0]] + top;
    case Object(props) =>
      ShapeIs(props);
      if LooksLikeCall(props) {
        p, more := CloseOf(g, s);
        k := 0;
      } else {
        var i :| 0 <= i < |props| && !NoCallShape(props[i].schema);
        q, top, j := ReachClose(g, props[i].schema);
        assert |top| > 0 by { AtCloseBound(top, j); }
        p, more := ZeroBounds.InProperty(g, s, i, q, top);
        k := j + 1;
        AtCloseAbove(more[0], top, j);
        assert more == [more[0]] + top;
      }
  }

  lemma AtCloseBound(fs: seq<Frame>, k: nat)
    requires AtClose(fs, k)
    ensures k < |fs|
  {
  }

  /** Name, input, and then the brace may come. */
  lemma CloseOf(g: Grammar, s: Node) returns (p: ByteString, more: seq<Frame>)
    requires g.suffix == [] && NodeOk(s, true) && LiveNode(s) && s.Object? && LooksLikeCall(s.properties)
    ensures Goes(g, [ValueFrame(s)], p, more) && AtClose(more, 0) && |p| > 0 && p[0] == LBRACE
  {
    hide Goes;
    var q := DeadEnds.ReachProperty(g, s, 1);
    var last := s.properties[1].schema;
    var colon, waiting := ObjectFrame(s, 2, AfterColon, false), ObjectFrame(s, 2, AfterValue, false);
    var v := DrainValue(g, last);
    var m: seq<Frame> :| Ended(m) && Goes(g, [ValueFrame(last)], v, m);
    GoesAbove(g, [waiting], [ValueFrame(last)], v, m);
    assert [waiting] + [ValueFrame(last)] == [waiting, ValueFrame(last)];
    PassedOn(g, colon, v, [waiting, ValueFrame(last)], [waiting] + m);
    p, more := q + v, [waiting] + m;
    GoesOn(g, [ValueFrame(s)], q, [colon], v, more);
    assert more[1..] == m;
  }

  /** From the start to the end of such an object in the input of tool i. */
  lemma CloseFromStart(g: Grammar, i: nat) returns (w: ByteString, k: nat)
    requires WellFormed(Bare(g)) && LiveGrammar(g) && Callable(g, i) && !NoCallShape(g.toolSchemas[i])
    ensures var o := Run(Bare(g), INITIAL, w); o.ok && AtClose(o.state.frames, k) && k > 0
  {
    hide Goes, LiveNode, NoCallShape, NodeOk, AtClose;
    var h, s := Bare(g), g.toolSchemas[i];
    assert Callable(h, i);
    var a := DeadEnds.CallTool(h, i);
    var colon, base := Call(AfterInputColon, Some(Number(i)), false), Call(AfterInput, Some(Number(i)), false);
    var p, more, j := ReachClose(h, s);
    GoesAbove(h, [base], [ValueFrame(s)], p, more);
    assert [base] + [ValueFrame(s)] == [base, ValueFrame(s)];
    PassedOn(h, colon, p, [base, ValueFrame(s)], [base] + more);
    GoesFrom(h, Run(h, INITIAL, a).state, p, [base] + more);
    RunConcat(h, INITIAL, a, p);
    AtCloseAbove(base, more, j);
    w, k := a + p, j + 1;
  }

  /** Some tool call goes through such an object, and the machines part there. */
  lemma CallThrough(g: Grammar, i: nat) returns (w: ByteString, p: nat)
    requires WellFormed(Bare(g)) && LiveGrammar(g) && g.suffix != []
    requires Callable(g, i) && !NoCallShape(g.toolSchemas[i])
    ensures AllInBounds(INITIAL.frames) && ToolCall(Bare(g), w) && InnerEnd(g, INITIAL, w, p)
  {
    hide Run, ToolCall, AtClose, WellFormed, LiveGrammar, ClosesCall, Going;
    var h := Bare(g);
    var q, k := CloseFromStart(g, i);
    var s := Run(h, INITIAL, q).state;
    BraceCloses(g, s, k);
    RunConcat(h, INITIAL, q, [RBRACE]);
    OneMore(h, s, RBRACE);
    LiveBare(g);
    var u := NoDeadEnds(h, q + [RBRACE]);
    w := q + [RBRACE] + u;
    InitialGoing(g);
    assert w[..|q|] == q && w[|q|] == RBRACE;
    p := FirstInnerEnd(g, INITIAL, w, |q|, k);
  }

  lemma LiveBare(g: Grammar)
    ensures LiveGrammar(Bare(g)) <==> LiveGrammar(g)
  {
    hide EnumLive, LiveNode;
    assert forall i: nat :: Callable(Bare(g), i) == Callable(g, i);
  }

  lemma OneMore(g: Grammar, s: State, b: Byte)
    requires AllInBounds(s.frames)
    ensures Run(g, s, [b]).ok <==> Step(g, s, b).ok
  {
    hide Step;
    assert [b][1..] == [];
  }

  // ---------- what such an object does to the language ----------

  /** A fresh matcher accepts the text and is complete. */
  predicate Accepts(g: Grammar, w: ByteString)
    requires AllInBounds(INITIAL.frames)
  {
    Run(g, INITIAL, w).ok && Complete(Run(g, INITIAL, w).state)
  }

  /** After the bytes q the grammar without suffix is in state t, and the matcher gets there by
      reading the suffix. */
  predicate ReadsOn(g: Grammar, q: ByteString, t: State, r: ByteString)
    requires AllInBounds(INITIAL.frames) && AllInBounds(t.frames)
  {
    && Run(Bare(g), INITIAL, q + r) == Run(Bare(g), t, r)
    && if g.suffix <= r then Run(g, INITIAL, q + r) == Run(g, t, r[|g.suffix|..]) else !Ends(g, INITIAL, q + r)
  }

  /** Past the object the matcher reads the suffix first. */
  lemma PastInnerEnd(g: Grammar, w: ByteString, p: nat) returns (q: ByteString, t: State)
    requires Going(g, INITIAL) && AllInBounds(INITIAL.frames) && InnerEnd(g, INITIAL, w, p)
    ensures Going(g, t) && AllInBounds(t.frames)
    ensures p < |w| && q == w[..p + 1] && forall r :: ReadsOn(g, q, t, r)
    ensures t.frames != [] && (Waiting(t.frames[|t.frames| - 1]) || EndsCall(t.frames[|t.frames| - 1]))
  {
    hide Step, Going, ClosesCall, Waiting, EndsCall, Run;
    var s, b := Run(g, INITIAL, w[..p]).state, w[p];
    var k: nat :| k > 0 && ClosesAt(g, s, b, k);
    t := s.(frames := s.frames[..k], done := true);
    CutGoing(g, s, b, k);
    q := w[..p + 1];
    forall r ensures ReadsOn(g, q, t, r) {
      assert q + r == w[..p] + ([b] + r) && ([b] + r)[1..] == r;
      RunConcat(g, INITIAL, w[..p], [b] + r);
      RunConcat(Bare(g), INITIAL, w[..p], [b] + r);
      RunFirst(g, s, [b] + r);
      RunFirst(Bare(g), s, [b] + r);
      HasSuffix(g, s);
      SuffixOnTop(g, s.(frames := s.frames[..k] + [Literal(Suffix, 0)]), t, r);
    }
  }

  lemma RunFirst(g: Grammar, s: State, w: ByteString)
    requires AllInBounds(s.frames) && w != []
    ensures Run(g, s, w) == if Step(g, s, w[0]).ok then Run(g, Step(g, s, w[0]).state, w[1..]) else Step(g, s, w[0])
  {
  }

  lemma SuffixOnTop(g: Grammar, s: State, t: State, r: ByteString)
    requires AllInBounds(s.frames) && g.suffix != []
    requires s.frames == t.frames + [Literal(Suffix, 0)] && t == s.(frames := t.frames, done := true)
    ensures AllInBounds(t.frames)
    ensures if g.suffix <= r then Run(g, s, r) == Run(g, t, r[|g.suffix|..]) else !Ends(g, s, r)
  {
    hide Run;
    assert s.frames[..|t.frames|] == t.frames && g.suffix[0..] == g.suffix;
    SuffixRun(g, s, 0, r);
  }

  lemma HasSuffix(g: Grammar, s: State)
    requires Going(g, s)
    ensures g.suffix != []
  {
  }

  predicate EndsCall(f: Frame) { f.ToolCallFrame? && f.callPhase.AfterInput? }

  /** What is below the object waits for its end. */
  lemma CutGoing(g: Grammar, s: State, b: Byte, k: nat)
    requires Going(g, s) && AllInBounds(s.frames) && 0 < k < |s.frames|
    requires ClosesCall(g, s.lastEnum, s.frames[k], b)
    ensures Going(g, s.(frames := s.frames[..k], done := true))
    ensures Waiting(s.frames[k - 1]) || EndsCall(s.frames[k - 1])
  {
    hide FrameOk, WellFormed, React;
    assert s.frames == s.frames[..k] + s.frames[k..];
    SuffixConcat(s.frames[..k], s.frames[k..]);
    SuffixConcat([s.frames[k]], s.frames[k + 1..]);
    assert s.frames[k..] == [s.frames[k]] + s.frames[k + 1..];
    BareReact(g, s.lastEnum, s.frames[k], b);
  }

  /** A finished run of the grammar without suffix is a tool call. */
  lemma BareCall(g: Grammar, w: ByteString)
    requires WellFormed(Bare(g)) && AllInBounds(INITIAL.frames) && Ends(Bare(g), INITIAL, w)
    ensures ToolCall(Bare(g), w)
  {
    hide Run, ToolCall, StackOk, WellFormed;
    InitialOk(Bare(g), []);
    RunDerivative(Bare(g), INITIAL, w, []);
    AcceptsExactlyToolCalls(Bare(g), w);
  }

  lemma SameStart(g: Grammar, w: ByteString, w': ByteString, p: nat)
    requires AllInBounds(INITIAL.frames) && InnerEnd(g, INITIAL, w, p) && p < |w'| && w'[..p + 1] == w[..p + 1]
    ensures InnerEnd(g, INITIAL, w', p)
  {
    hide Run, Going, ClosesAt;
    assert w'[..p] == w'[..p + 1][..p] == w[..p + 1][..p] == w[..p];
    assert w'[p] == w'[..p + 1][p] == w[p];
  }

  /** Not every such call is accepted: where one is, taking out the suffix that was read too
      early leaves a shorter one. */
  lemma {:induction false} Refused(g: Grammar, w: ByteString, p: nat) returns (v: ByteString)
    requires WellFormed(Bare(g)) && g.suffix != [] && AllInBounds(INITIAL.frames)
    requires ToolCall(Bare(g), w) && InnerEnd(g, INITIAL, w, p)
    ensures ToolCall(g, v) && !Accepts(g, v)
    decreases |w|
  {
    hide Run, ToolCall, Going, WellFormed, InnerEnd, Waiting, EndsCall;
    InitialGoing(g);
    WithSuffix(g, w);
    v := w + g.suffix;
    if Accepts(g, v) {
      var q, t := PastInnerEnd(g, w, p);
      var r := w[p + 1..] + g.suffix;
      assert v == q + r && ReadsOn(g, q, t, r);
      var y := r[|g.suffix|..];
      var x := Strip(g, t, y);
      assert ReadsOn(g, q, t, x);
      var w' := q + x;
      assert w'[..p + 1] == q;
      BareCall(g, w');
      SameStart(g, w, w', p);
      v := Refused(g, w', p);
    }
  }

  /** A byte that can follow a value, or the input of the call. */
  predicate FollowsValue(b: Byte) { b == SPACE || b == COMMA || b == RBRACE || b == RBRACKET }

  /** With the suffix read there and after, the call goes on to the end; if the suffix does not
      begin like what may follow a value, that is no tool call. */
  lemma Admitted(g: Grammar, w: ByteString, p: nat) returns (v: ByteString)
    requires WellFormed(Bare(g)) && g.suffix != [] && AllInBounds(INITIAL.frames)
    requires ToolCall(Bare(g), w) && InnerEnd(g, INITIAL, w, p)
    ensures Accepts(g, v) && (!FollowsValue(g.suffix[0]) ==> !ToolCall(g, v))
  {
    hide Run, ToolCall, Going, WellFormed, InnerEnd, Waiting, EndsCall, FollowsValue;
    InitialGoing(g);
    var q, t := PastInnerEnd(g, w, p);
    var r := w[p + 1..];
    assert w == q + r && ReadsOn(g, q, t, r);
    AcceptsExactlyToolCalls(Bare(g), w);
    var y := Insert(g, t, r);
    var z := g.suffix + y;
    v := q + z;
    assert z[|g.suffix|..] == y && ReadsOn(g, q, t, z);
    EndsDone(g, INITIAL, v);
    if !FollowsValue(g.suffix[0]) { NoCall(g, q, t, y); }
  }

  /** The grammar without suffix reads nothing that begins like the suffix there. */
  lemma NoCall(g: Grammar, q: ByteString, t: State, y: ByteString)
    requires WellFormed(Bare(g)) && AllInBounds(INITIAL.frames) && AllInBounds(t.frames)
    requires (forall r :: ReadsOn(g, q, t, r)) && g.suffix != [] && !FollowsValue(g.suffix[0]) && y != []
    requires t.frames != [] && (Waiting(t.frames[|t.frames| - 1]) || EndsCall(t.frames[|t.frames| - 1]))
    ensures !ToolCall(g, q + (g.suffix + y))
  {
    hide Run, ToolCall, WellFormed, Waiting, EndsCall, FollowsValue;
    var v, z := q + (g.suffix + y), g.suffix + y;
    if ToolCall(g, v) {
      var u := WithoutSuffix(g, v);
      AcceptsExactlyToolCalls(Bare(g), u);
      var x := z[..|z| - |g.suffix|];
      assert u == v[..|u|] == q + x;
      assert x != [] && x[0] == z[0] == g.suffix[0] && ReadsOn(g, q, t, x);
      NoMore(Bare(g), t, x);
    }
  }

  lemma NoMore(g: Grammar, t: State, q: ByteString)
    requires AllInBounds(t.frames) && t.frames != [] && q != [] && !FollowsValue(q[0])
    requires Waiting(t.frames[|t.frames| - 1]) || EndsCall(t.frames[|t.frames| - 1])
    ensures !Run(g, t, q).ok
  {
    StepAgain(g, t, q[0]);
  }

  // ---------- tools that cannot be called ----------

  /** Schemas that no call can reach replaced by one without properties. */
  ghost function Reachable(g: Grammar): Grammar {
    g.(toolSchemas := seq(|g.toolSchemas|, i requires 0 <= i < |g.toolSchemas| =>
      if Numbered(g, Number(i)) then g.toolSchemas[i] else Object([])))
  }

  lemma ReachableWellFormed(g: Grammar)
    requires WellFormed(Bare(g)) && (forall i: nat :: Callable(g, i) ==> NoCallShape(g.toolSchemas[i]))
    ensures WellFormed(Reachable(g)) && (LiveGrammar(g) ==> LiveGrammar(Reachable(g)))
  {
    hide NodeOk, LiveNode, NoCallShape, EnumLive;
    var h := Reachable(g);
    forall i: nat | i < |g.toolSchemas| ensures h.toolSchemas[i].Object? && NodeOk(h.toolSchemas[i], h.suffix == []) {
      EmptyObjectOk(h.suffix == []);
      if Numbered(g, Number(i)) {
        var j: nat :| Callable(g, j) && Number(j) == Number(i);
        assert Bare(g).toolSchemas[Number(i)] == Bare(g).toolSchemas[i];
        assert Bare(g).toolSchemas[Number(j)] == Bare(g).toolSchemas[j];
        assert NodeOk(Bare(g).toolSchemas[i], true);
        NoShapeOk(g.toolSchemas[i], h.suffix == []);
      }
    }
    forall i: nat | i < |g.toolSchemas| ensures h.toolSchemas[Number(i)] == h.toolSchemas[i] {
      assert Bare(g).toolSchemas[Number(i)] == Bare(g).toolSchemas[i];
    }
    forall i: nat | Callable(g, i) ensures h.toolSchemas[i] == g.toolSchemas[i] {
    }
    assert forall i: nat :: Callable(h, i) == Callable(g, i);
  }

  lemma EmptyObjectOk(suffixEmpty: bool)
    ensures NodeOk(Object([]), suffixEmpty)
  {
  }

  lemma {:induction false} NoShapeOk(s: Node, suffixEmpty: bool)
    requires NodeOk(s, true) && NoCallShape(s)
    ensures NodeOk(s, suffixEmpty)
  {
    match s
    case Object(props) =>
      ShapeIs(props);
      forall i | 0 <= i < |props| ensures NodeOk(props[i].schema, suffixEmpty) {
        NoShapeOk(props[i].schema, suffixEmpty);
      }
    case Array(items, _) => NoShapeOk(items, suffixEmpty);
    case _ =>
  }

  /** A call frame about to open the input leads to a tool that can be called. */
  ghost predicate Steered(g: Grammar, f: Frame) {
    f.ToolCallFrame? && f.callPhase.AfterInputColon? && f.tool.Some? ==> Numbered(g, f.tool.value)
  }

  lemma SteeredReact(g: Grammar, last: Option<nat>, f: Frame, b: Byte)
    requires InBounds(f) && Steered(g, f)
    ensures React(Reachable(g), last, f, b) == React(g, last, f, b)
    ensures var r := React(g, last, f, b); r.Retry? || r.TakeEnum? ==> forall p <- r.push :: Steered(g, p)
  {
    if f.ToolCallFrame? && f.callPhase.AfterInputColon? && f.tool.Some? {
      var i: nat :| Callable(g, i) && Number(i) == f.tool.value;
      assert Number(f.tool.value) == f.tool.value;
    }
  }

  lemma {:induction false} SteeredStep(g: Grammar, s: State, b: Byte)
    requires AllInBounds(s.frames) && forall f <- s.frames :: Steered(g, f)
    ensures Step(Reachable(g), s, b) == Step(g, s, b)
    decreases StackWeight(s.frames)
  {
    hide React, Step, Steered, Reachable;
    if s.frames == [] {
      EmptyStep(g, s, b);
      EmptyStep(Reachable(g), s, b);
    } else {
      var n := |s.frames| - 1;
      var below := s.frames[..n];
      assert Steered(g, s.frames[n]) && forall f <- below :: Steered(g, f);
      SteeredReact(g, s.lastEnum, s.frames[n], b);
      StepAgain(g, s, b);
      StepAgain(Reachable(g), s, b);
      PassingOn(g, s, b);
      var r := React(g, s.lastEnum, s.frames[n], b);
      if r.Retry? { SteeredStep(g, s.(frames := below + r.push), b); }
      if r.TakeEnum? { SteeredStep(g, s.(frames := below + r.push, lastEnum := None), b); }
    }
  }

  lemma {:induction false} SteeredRun(g: Grammar, s: State, w: ByteString)
    requires var h := Reachable(g); WellFormed(h) && LiveGrammar(h) && LiveState(h, s)
    ensures AllInBounds(s.frames) && Run(Reachable(g), s, w) == Run(g, s, w)
    decreases |w|
  {
    hide Step, LiveState, Reachable, LiveGrammar, WellFormed;
    var h := Reachable(g);
    LiveBounds(h, s);
    if w != [] {
      LiveSteered(g, s);
      SteeredStep(g, s, w[0]);
      StepStaysLive(h, s, w[0]);
      if Step(h, s, w[0]).ok { SteeredRun(g, Step(h, s, w[0]).state, w[1..]); }
    }
  }

  lemma LiveSteered(g: Grammar, s: State)
    requires LiveState(Reachable(g), s)
    ensures forall f <- s.frames :: Steered(g, f)
  {
    hide Callable;
    SameNumbers(g);
    forall f | f in s.frames ensures Steered(g, f) {
      var i :| 0 <= i < |s.frames| && s.frames[i] == f;
      assert LiveFrame(Reachable(g), s.frames[i]);
    }
  }

  lemma SameNumbers(g: Grammar)
    ensures forall n: nat :: Numbered(Reachable(g), n) == Numbered(g, n)
  {
    assert forall i: nat :: Callable(Reachable(g), i) == Callable(g, i);
  }

  /** Without call-shaped objects in reach the matcher is exact. */
  lemma ExactWithout(g: Grammar, w: ByteString)
    requires WellFormed(Bare(g)) && LiveGrammar(g) && AllInBounds(INITIAL.frames)
    requires forall i: nat :: Callable(g, i) ==> NoCallShape(g.toolSchemas[i])
    ensures Accepts(g, w) <==> ToolCall(g, w)
  {
    hide Run, ToolCall, WellFormed, LiveGrammar, NoCallShape, Conforms;
    var h := Reachable(g);
    ReachableWellFormed(g);
    InitialLive(h);
    SteeredRun(g, INITIAL, w);
    AcceptsExactlyToolCalls(h, w);
    assert forall i: nat :: Callable(g, i) ==> h.toolSchemas[i] == g.toolSchemas[i];
    ZeroBounds.SameInputs(g, h, w);
  }

  // ---------- the two conditions ----------

  /** In a live grammar with a suffix the matcher accepts exactly the tool calls if and only if
      no input of a callable tool has a call-shaped object; otherwise it refuses some tool call. */
  lemma ExactIffNoCallShape(g: Grammar)
    requires WellFormed(Bare(g)) && LiveGrammar(g) && g.suffix != []
    ensures AllInBounds(INITIAL.frames)
    ensures (forall w :: Accepts(g, w) <==> ToolCall(g, w))
            <==> (forall i: nat :: Callable(g, i) ==> NoCallShape(g.toolSchemas[i]))
  {
    hide Accepts, ToolCall, WellFormed, LiveGrammar, NoCallShape;
    InitialGoing(g);
    if i: nat :| Callable(g, i) && !NoCallShape(g.toolSchemas[i]) {
      var w, p := CallThrough(g, i);
      var v := Refused(g, w, p);
    } else {
      forall w ensures Accepts(g, w) <==> ToolCall(g, w) { ExactWithout(g, w); }
    }
  }

  /** If the suffix does not begin with a byte that may follow a value, the same condition says
      when everything the matcher accepts is a tool call; otherwise it accepts a text with the
      suffix inside the input. */
  lemma SoundIffNoCallShape(g: Grammar)
    requires WellFormed(Bare(g)) && LiveGrammar(g) && g.suffix != [] && !FollowsValue(g.suffix[0])
    ensures AllInBounds(INITIAL.frames)
    ensures (forall w :: Accepts(g, w) ==> ToolCall(g, w))
            <==> (forall i: nat :: Callable(g, i) ==> NoCallShape(g.toolSchemas[i]))
  {
    hide Accepts, ToolCall, WellFormed, LiveGrammar, NoCallShape;
    InitialGoing(g);
    if i: nat :| Callable(g, i) && !NoCallShape(g.toolSchemas[i]) {
      var w, p := CallThrough(g, i);
      var v := Admitted(g, w, p);
    } else {
      forall w ensures Accepts(g, w) <==> ToolCall(g, w) { ExactWithout(g, w); }
    }
  }
}
