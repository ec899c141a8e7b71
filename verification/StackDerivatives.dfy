/** One byte against a whole stack: the step of the matcher is the derivative of the
    language of its state. */
module StackDerivatives {
  import opened Bytes
  import opened Options
  import opened Schema
  import opened MatcherFrames
  import opened FrameLanguages
  import opened StringDerivatives
  import opened FrameDerivatives

  datatype State = State(frames: seq<Frame>, done: bool, lastEnum: Option<nat>)

  datatype Outcome = Outcome(state: State, ok: bool)

  /** The loop over one byte, as a function of the state. */
  function Step(g: Grammar, s: State, b: Byte): (r: Outcome)
    requires AllInBounds(s.frames)
    ensures AllInBounds(r.state.frames)
    decreases StackWeight(s.frames)
  {
    if s.frames == [] then Outcome(s, false) else
    var n := |s.frames| - 1;
    var top, below := s.frames[n], s.frames[..n];
    var r := React(g, s.lastEnum, top, b);
    PassingOn(g, s, b);
    match r
    case Reject => Outcome(s.(frames := below), false)
    case Consume(fs) => Outcome(s.(frames := below + fs), true)
    case CloseEnum(i) => Outcome(s.(frames := below, lastEnum := Some(i)), true)
    case Finish => Outcome(s.(frames := below, done := true), true)
    case Retry(fs) => Step(g, s.(frames := below + fs), b)
    case TakeEnum(fs) => Step(g, s.(frames := below + fs, lastEnum := None), b)
  }

  /** The same-byte loop ends: each pass makes the stack lighter. */
  lemma PassingOn(g: Grammar, s: State, b: Byte)
    requires AllInBounds(s.frames) && s.frames != []
    ensures var r := React(g, s.lastEnum, s.frames[|s.frames| - 1], b);
            r.Retry? || r.TakeEnum? ==>
              StackWeight(s.frames[..|s.frames| - 1] + Pushed(r)) < StackWeight(s.frames)
  {
    var n := |s.frames| - 1;
    var r := React(g, s.lastEnum, s.frames[n], b);
    if r.Retry? || r.TakeEnum? {
      RetryIsLighter(g, s.lastEnum, s.frames[n], b);
      StackWeightConcat(s.frames[..n], Pushed(r));
    }
  }

  /** A byte that is passed on is read by the stack the frame leaves. */
  lemma StepAgain(g: Grammar, s: State, b: Byte)
    requires AllInBounds(s.frames) && s.frames != []
    ensures var n := |s.frames| - 1;
            var r := React(g, s.lastEnum, s.frames[n], b);
            match r
            case Retry(fs) => Step(g, s, b) == Step(g, s.(frames := s.frames[..n] + fs), b)
            case TakeEnum(fs) => Step(g, s, b) == Step(g, s.(frames := s.frames[..n] + fs, lastEnum := None), b)
            case Reject => Step(g, s, b) == Outcome(s.(frames := s.frames[..n]), false)
            case CloseEnum(i) => Step(g, s, b) == Outcome(s.(frames := s.frames[..n], lastEnum := Some(i)), true)
            case Consume(fs) => Step(g, s, b) == Outcome(s.(frames := s.frames[..n] + fs), true)
            case Finish => Step(g, s, b) == Outcome(s.(frames := s.frames[..n], done := true), true)
  {
    hide React;
  }

  lemma EmptyStep(g: Grammar, s: State, b: Byte)
    requires s.frames == []
    ensures Step(g, s, b) == Outcome(s, false)
  {
  }

  predicate StateOk(g: Grammar, s: State) {
    StackOk(g, s.frames, s.lastEnum) && (s.frames == [] ==> s.done)
  }

  lemma OkInBounds(g: Grammar, fs: seq<Frame>)
    requires forall i :: 0 <= i < |fs| ==> FrameOk(g, fs[i])
    ensures AllInBounds(fs)
  {
  }

  // ---------- ordinary stacks ----------

  lemma Pushing(g: Grammar, below: seq<Frame>, f: Frame, w: ByteString)
    ensures StackLang(g, below + [f], w) <==> Above(g, f, below, w)
  {
    var fs := below + [f];
    assert fs[|fs| - 1] == f && fs[..|fs| - 1] == below;
  }

  lemma Single(g: Grammar, f: Frame, w: ByteString)
    ensures StackLang(g, [f], w) <==> FrameLang(g, f, w)
  {
    hide FrameLang;
    Pushing(g, [], f, w);
    assert [] + [f] == [f];
    assert w[..|w|] == w;
    if FrameLang(g, f, w) { assert Split(g, f, [], |w|, w); }
  }

  /** A frame below an integer, which ends without a byte of its own. */
  predicate NoDigit(f: Frame) { Waiting(f) || (f.ToolCallFrame? && f.callPhase.AfterInput?) }

  lemma NoDigitNext(g: Grammar, fs: seq<Frame>, b: Byte, u: ByteString)
    requires WellFormed(g) && |fs| > 0 && FrameOk(g, fs[|fs| - 1]) && NoDigit(fs[|fs| - 1]) && IsDigit(b)
    ensures !StackLang(g, fs, [b] + u)
  {
    var f, below := fs[|fs| - 1], fs[..|fs| - 1];
    EmptyRest(g, f);
    forall k: nat | k <= |u| + 1 ensures !Split(g, f, below, k, [b] + u) {
      if k > 0 {
        Front(b, u, k);
        FrameDerivative(g, None, f, b, u[..k - 1]);
      } else {
        assert ([b] + u)[..0] == [];
      }
    }
    assert !Above(g, f, below, [b] + u);
  }

  /** A frame that may react by its own language, whatever lies below it. */
  predicate Plainly(g: Grammar, f: Frame, b: Byte) {
    FrameOk(g, f) && !IsNameValue(f) && !(f.ToolCallFrame? && f.callPhase.AfterNameColon? && b == QUOTE)
  }

  /** Below a digit an integer frame cannot have ended. */
  predicate DigitGuard(below: seq<Frame>, f: Frame, g: Grammar) {
    MayEnd(f) ==> |below| > 0 && FrameOk(g, below[|below| - 1]) && NoDigit(below[|below| - 1])
  }

  /** What the pushed frame, if any, and the frames below it make of w, split at k. */
  ghost predicate AfterSplit(g: Grammar, below: seq<Frame>, after: seq<Frame>, k: nat, w: ByteString)
    requires k <= |w| && |after| <= 1
  {
    StackLang(g, below, w[k..]) && if after == [] then w[..k] == [] else FrameLang(g, after[0], w[..k])
  }

  /** Consuming a byte takes the derivative of the language of the stack. */
  lemma TopConsumes(g: Grammar, last: Option<nat>, below: seq<Frame>, f: Frame, b: Byte, w: ByteString)
    requires WellFormed(g) && Plainly(g, f, b) && DigitGuard(below, f, g) && InBounds(f)
    ensures var r := React(g, last, f, b);
            match r
            case Retry(_) => true
            case TakeEnum(_) => true
            case Reject => !StackLang(g, below + [f], [b] + w)
            case _ => StackLang(g, below + [f], [b] + w) <==> StackLang(g, below + Pushed(r), w)
  {
    hide FrameLang;
    FrameDerivative(g, last, f, b, w);
    EmptyRest(g, f);
    Pushing(g, below, f, [b] + w);
    var r := React(g, last, f, b);
    if !r.Retry? && !r.TakeEnum? {
      if MayEnd(f) { NoDigitNext(g, below, b, w); }
      var after := Pushed(r);
      assert !Split(g, f, below, 0, [b] + w) by {
        assert ([b] + w)[..0] == [] && ([b] + w)[0..] == [b] + w;
      }
      forall k: nat | 1 <= k <= |w| + 1
        ensures Split(g, f, below, k, [b] + w) <==> !r.Reject? && AfterSplit(g, below, after, k - 1, w)
      {
        Front(b, w, k);
        FrameDerivative(g, last, f, b, w[..k - 1]);
      }
      if r.Reject? {
        assert !Above(g, f, below, [b] + w);
      } else {
        TopSplits(g, below, f, after, b, w);
      }
    }
  }

  lemma AfterConsuming(g: Grammar, below: seq<Frame>, after: seq<Frame>, w: ByteString)
    requires |after| <= 1
    ensures StackLang(g, below + after, w) <==> exists k: nat :: k <= |w| && AfterSplit(g, below, after, k, w)
  {
    hide FrameLang;
    if after == [] {
      assert below + after == below && w[0..] == w && w[..0] == [];
      if StackLang(g, below, w) { assert AfterSplit(g, below, after, 0, w); }
    } else {
      assert below + after == below + [after[0]];
      Pushing(g, below, after[0], w);
      assert forall k: nat | k <= |w| :: Split(g, after[0], below, k, w) <==> AfterSplit(g, below, after, k, w);
    }
  }

  lemma TopSplits(g: Grammar, below: seq<Frame>, f: Frame, after: seq<Frame>, b: Byte, w: ByteString)
    requires |after| <= 1
    requires !Split(g, f, below, 0, [b] + w)
    requires forall k: nat | 1 <= k <= |w| + 1 ::
               Split(g, f, below, k, [b] + w) <==> AfterSplit(g, below, after, k - 1, w)
    ensures StackLang(g, below + [f], [b] + w) <==> StackLang(g, below + after, w)
  {
    hide FrameLang, AfterSplit;
    Pushing(g, below, f, [b] + w);
    AfterConsuming(g, below, after, w);
    if Above(g, f, below, [b] + w) {
      var k: nat :| k <= |w| + 1 && Split(g, f, below, k, [b] + w);
      assert AfterSplit(g, below, after, k - 1, w);
    }
    if StackLang(g, below + after, w) {
      var k: nat :| k <= |w| && AfterSplit(g, below, after, k, w);
      assert Split(g, f, below, k + 1, [b] + w);
    }
  }

  /** Only a finished integer leaves the byte to the frame below it. */
  lemma RetryKinds(g: Grammar, last: Option<nat>, f: Frame, b: Byte)
    requires InBounds(f) && React(g, last, f, b).Retry?
    ensures var fs := React(g, last, f, b).push;
            |fs| <= 2 && (fs == [] <==> MayEnd(f)) && (fs != [] ==> !MayEnd(fs[|fs| - 1]))
  {
  }

  /** What the frame reads, when it passes the byte on, is what the frames it leaves read. */
  lemma RetryPrefix(g: Grammar, last: Option<nat>, f: Frame, b: Byte, u: ByteString, k: nat)
    requires WellFormed(g) && Plainly(g, f, b) && InBounds(f) && React(g, last, f, b).Retry? && k <= |u| + 1
    ensures var fs, p := React(g, last, f, b).push, ([b] + u)[..k];
            && |fs| <= 2 && (fs == [] ==> (FrameLang(g, f, p) <==> k == 0))
            && (|fs| == 1 ==> (FrameLang(g, f, p) <==> FrameLang(g, fs[0], p)))
            && (|fs| == 2 ==> (FrameLang(g, f, p) <==> Then(g, fs[1], fs[0], p)))
  {
    hide FrameLang, FrameOk, React, WellFormed;
    var fs := React(g, last, f, b).push;
    RetryKinds(g, last, f, b);
    if k == 0 {
      assert ([b] + u)[..k] == [];
      EmptyRest(g, f);
      FrameDerivative(g, last, f, b, []);
      if fs != [] { EmptyRest(g, fs[|fs| - 1]); }
      if |fs| == 2 { assert !Then(g, fs[1], fs[0], []); }
    } else {
      Front(b, u, k);
      FrameDerivative(g, last, f, b, u[..k - 1]);
    }
  }

  /** Passing the byte on leaves the language of the stack as it is. */
  lemma TopRetries(g: Grammar, last: Option<nat>, below: seq<Frame>, f: Frame, b: Byte, u: ByteString)
    requires WellFormed(g) && Plainly(g, f, b) && InBounds(f) && React(g, last, f, b).Retry?
    ensures StackLang(g, below + [f], [b] + u) <==> StackLang(g, below + React(g, last, f, b).push, [b] + u)
  {
    hide FrameLang, FrameOk, React, WellFormed, Then;
    var fs, w := React(g, last, f, b).push, [b] + u;
    RetryPrefix(g, last, f, b, u, 0);
    Pushing(g, below, f, w);
    forall k: nat | k <= |w|
      ensures fs == [] ==> (FrameLang(g, f, w[..k]) <==> k == 0)
      ensures |fs| == 1 ==> (FrameLang(g, f, w[..k]) <==> FrameLang(g, fs[0], w[..k]))
      ensures |fs| == 2 ==> (FrameLang(g, f, w[..k]) <==> Then(g, fs[1], fs[0], w[..k]))
    {
      RetryPrefix(g, last, f, b, u, k);
    }
    if fs == [] {
      assert below + fs == below && w[0..] == w;
      assert Split(g, f, below, 0, w) <==> StackLang(g, below, w);
    } else if |fs| == 1 {
      assert below + fs == below + [fs[0]];
      Pushing(g, below, fs[0], w);
      assert forall k: nat | k <= |w| :: Split(g, f, below, k, w) <==> Split(g, fs[0], below, k, w);
    } else {
      assert below + fs == (below + [fs[0]]) + [fs[1]];
      TwoFrames(g, below, f, fs[0], fs[1], w);
    }
  }

  lemma TwoFrames(g: Grammar, below: seq<Frame>, f: Frame, lower: Frame, upper: Frame, w: ByteString)
    requires forall k: nat | k <= |w| :: FrameLang(g, f, w[..k]) <==> Then(g, upper, lower, w[..k])
    ensures StackLang(g, below + [f], w) <==> StackLang(g, (below + [lower]) + [upper], w)
  {
    hide FrameLang;
    Pushing(g, below, f, w);
    Pushing(g, below + [lower], upper, w);
    if StackLang(g, below + [f], w) {
      var k: nat :| k <= |w| && Split(g, f, below, k, w);
      var j :| 0 <= j <= k && FrameLang(g, upper, w[..k][..j]) && FrameLang(g, lower, w[..k][j..]);
      assert w[..k][..j] == w[..j] && w[..k][j..] == w[j..][..k - j] && w[j..][k - j..] == w[k..];
      Pushing(g, below, lower, w[j..]);
      assert Split(g, lower, below, k - j, w[j..]);
      assert Split(g, upper, below + [lower], j, w);
    }
    if StackLang(g, (below + [lower]) + [upper], w) {
      var j: nat :| j <= |w| && Split(g, upper, below + [lower], j, w);
      Pushing(g, below, lower, w[j..]);
      var m: nat :| m <= |w| - j && Split(g, lower, below, m, w[j..]);
      var k := j + m;
      assert w[..k][..j] == w[..j] && w[..k][j..] == w[j..][..m] && w[j..][m..] == w[k..];
      assert Then(g, upper, lower, w[..k]);
      assert Split(g, f, below, k, w);
    }
  }
}
