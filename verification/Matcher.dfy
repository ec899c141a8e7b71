/** The matcher itself: the object whose fields change byte by byte, and the token mask
    computed from it (crates/otter-grammar/src/matcher.rs and lib.rs). */
module Matcher {
  import opened Bytes
  import opened Options
  import opened Schema
  import opened ToolCallLanguage
  import opened MatcherFrames
  import opened StackDerivatives
  import opened MatcherTheorems
  import Liveness

  /** The bytes of each token, the end token, and the tokens that are never allowed. */
  datatype Vocab = Vocab(tokenBytes: seq<ByteString>, endToken: nat, special: seq<nat>)

  class TokenMask {
    var allowed: seq<bool>

    constructor (size: nat)
      ensures allowed == seq(size, _ => false)
    {
      allowed := seq(size, _ => false);
    }

    method Clear()
      modifies this
      ensures |allowed| == |old(allowed)| && forall i :: 0 <= i < |allowed| ==> !allowed[i]
    {
      allowed := seq(|allowed|, _ => false);
    }

    /** A token beyond the mask is ignored. */
    method Allow(token: nat)
      modifies this
      ensures |allowed| == |old(allowed)|
      ensures forall i :: 0 <= i < |allowed| ==> allowed[i] == (i == token || old(allowed)[i])
    {
      if token < |allowed| {
        allowed := allowed[token := true];
      }
    }
  }

  /** The mask's rule for one token in a state. */
  predicate TokenAllowed(g: Grammar, s: State, vocab: Vocab, token: nat)
    requires AllInBounds(s.frames) && token < |vocab.tokenBytes|
  {
    if token == vocab.endToken then Complete(s)
    else token !in vocab.special && Run(g, s, vocab.tokenBytes[token]).ok
  }

  /** w can still become a tool call. */
  ghost predicate Viable(g: Grammar, w: ByteString) { exists v :: ToolCall(g, w + v) }

  class Matcher {
    const grammar: Grammar
    var frames: seq<Frame>
    var done: bool
    var lastEnum: Option<nat>

    function Current(): State
      reads this
    {
      State(frames, done, lastEnum)
    }

    predicate InRange()
      reads this
    {
      AllInBounds(frames)
    }

    constructor (grammar: Grammar)
      ensures this.grammar == grammar && Current() == INITIAL && InRange()
    {
      this.grammar := grammar;
      frames := [Literal(Prefix, 0)];
      done := false;
      lastEnum := None;
    }

    method Reset()
      modifies this
      ensures Current() == INITIAL && InRange()
    {
      frames := [Literal(Prefix, 0)];
      done := false;
      lastEnum := None;
    }

    method Clone() returns (m: Matcher)
      ensures fresh(m) && m.grammar == grammar && m.Current() == Current()
    {
      m := new Matcher(grammar);
      m.frames := frames;
      m.done := done;
      m.lastEnum := lastEnum;
    }

    method IsComplete() returns (r: bool)
      ensures r == Complete(Current())
    {
      r := done && frames == [];
    }

    /** One byte: the popped frame rejects it, consumes it, or passes it on. The byte is
        the derivative of the state's language whenever the grammar and state are well formed. */
    method StepByte(byte: Byte) returns (ok: bool)
      requires InRange()
      modifies this
      ensures InRange() && Outcome(Current(), ok) == Step(grammar, old(Current()), byte)
      ensures WellFormed(grammar) && old(StateOk(grammar, Current())) ==>
                forall w :: StepIsDerivative(grammar, old(Current()), Outcome(Current(), ok), byte, w)
    {
      hide React, StateOk, StepIsDerivative, WellFormed, StackWeight;
      ghost var before := Current();
      if WellFormed(grammar) && StateOk(grammar, before) {
        forall w ensures StepIsDerivative(grammar, before, Step(grammar, before, byte), byte, w) {
          StepDerivative(grammar, before, byte, w);
        }
      }
      while true
        invariant InRange() && Step(grammar, Current(), byte) == Step(grammar, before, byte)
        decreases StackWeight(frames)
      {
        if frames == [] {
          return false;
        }
        PassingOn(grammar, Current(), byte);
        var frame := frames[|frames| - 1];
        frames := frames[..|frames| - 1];
        match React(grammar, lastEnum, frame, byte) {
          case Reject =>
            return false;
          case Consume(fs) =>
            frames := frames + fs;
            return true;
          case CloseEnum(i) =>
            lastEnum := Some(i);
            return true;
          case Finish =>
            done := true;
            return true;
          case Retry(fs) =>
            frames := frames + fs;
          case TakeEnum(fs) =>
            lastEnum := None;
            frames := frames + fs;
        }
      }
    }

    /** Bytes up to the first rejected one. */
    method AcceptBytes(bytes: ByteString) returns (ok: bool)
      requires InRange()
      modifies this
      ensures InRange() && Outcome(Current(), ok) == Run(grammar, old(Current()), bytes)
      ensures WellFormed(grammar) && old(Current()) == INITIAL ==>
                && (ok && Complete(Current()) <==> ToolCall(grammar, bytes))
                && (Viable(grammar, bytes) ==> ok)
                && (Liveness.LiveGrammar(grammar) && ok ==> Viable(grammar, bytes))
    {
      ghost var before := Current();
      ok := true;
      var i := 0;
      while ok && i < |bytes|
        invariant 0 <= i <= |bytes| && InRange()
        invariant Run(grammar, before, bytes) ==
                    if ok then Run(grammar, Current(), bytes[i..]) else Outcome(Current(), false)
      {
        ok := StepByte(bytes[i]);
        i := i + 1;
      }
      if WellFormed(grammar) && before == INITIAL { AcceptedMeans(grammar, bytes); }
    }

    /** A token of the vocabulary; an unknown one is rejected. */
    method AcceptToken(vocab: Vocab, token: nat) returns (ok: bool)
      requires InRange()
      modifies this
      ensures InRange()
      ensures if token < |vocab.tokenBytes|
              then Outcome(Current(), ok) == Run(grammar, old(Current()), vocab.tokenBytes[token])
              else !ok && Current() == old(Current())
    {
      if token >= |vocab.tokenBytes| {
        return false;
      }
      ok := AcceptBytes(vocab.tokenBytes[token]);
    }

    /** Every token is tried on a copy, so the matcher itself does not move. */
    method AllowedTokens(vocab: Vocab, mask: TokenMask)
      requires InRange()
      modifies mask
      ensures |mask.allowed| == |old(mask.allowed)|
      ensures forall t :: 0 <= t < |mask.allowed| ==>
                mask.allowed[t] == (t < |vocab.tokenBytes| && TokenAllowed(grammar, Current(), vocab, t))
    {
      hide Run, Complete, AllInBounds, ToolCall, Viable, WellFormed, Liveness.LiveGrammar;
      mask.Clear();
      ghost var state := Current();
      var id := 0;
      while id < |vocab.tokenBytes|
        invariant 0 <= id <= |vocab.tokenBytes| && |mask.allowed| == |old(mask.allowed)|
        invariant InRange() && Current() == state
        invariant forall t :: 0 <= t < |mask.allowed| ==>
                    mask.allowed[t] == (t < id && TokenAllowed(grammar, state, vocab, t))
      {
        if id == vocab.endToken {
          var complete := IsComplete();
          if complete {
            mask.Allow(id);
          }
        } else if id !in vocab.special {
          var test := Clone();
          var ok := test.AcceptBytes(vocab.tokenBytes[id]);
          if ok {
            mask.Allow(id);
          }
        }
        id := id + 1;
      }
    }
  }

  /** What acceptance by a fresh matcher says about the bytes. */
  lemma AcceptedMeans(g: Grammar, w: ByteString)
    requires WellFormed(g)
    ensures Run(g, INITIAL, w).ok && Complete(Run(g, INITIAL, w).state) <==> ToolCall(g, w)
    ensures Viable(g, w) ==> Run(g, INITIAL, w).ok
    ensures Liveness.LiveGrammar(g) && Run(g, INITIAL, w).ok ==> Viable(g, w)
  {
    AcceptsExactlyToolCalls(g, w);
    if v :| ToolCall(g, w + v) { KeepsEveryContinuation(g, w, v); }
    if Liveness.LiveGrammar(g) && Run(g, INITIAL, w).ok { var v := Liveness.NoDeadEnds(g, w); }
  }

  /** The mask is exact: after the bytes w of a live grammar the end token is allowed just
      when w is a tool call, and any other ordinary token just when a call begins with w
      followed by the token. */
  lemma MaskIsExact(g: Grammar, w: ByteString, vocab: Vocab, token: nat)
    requires WellFormed(g) && Liveness.LiveGrammar(g) && Run(g, INITIAL, w).ok && token < |vocab.tokenBytes|
    ensures TokenAllowed(g, Run(g, INITIAL, w).state, vocab, token) <==>
              if token == vocab.endToken then ToolCall(g, w)
              else token !in vocab.special && Viable(g, w + vocab.tokenBytes[token])
  {
    hide Run, ToolCall, Complete, Liveness.LiveGrammar, WellFormed, Viable;
    var bytes := vocab.tokenBytes[token];
    AcceptedMeans(g, w);
    AcceptedMeans(g, w + bytes);
    Liveness.RunConcat(g, INITIAL, w, bytes);
  }

  predicate SingleByteToken(vocab: Vocab, b: Byte) {
    exists t :: 0 <= t < |vocab.tokenBytes| && vocab.tokenBytes[t] == [b] && t != vocab.endToken && t !in vocab.special
  }

  /** In a live grammar, and with a vocabulary that has every single byte as an ordinary
      token, some token is always allowed. */
  lemma SomeTokenAllowed(g: Grammar, w: ByteString, vocab: Vocab) returns (token: nat)
    requires WellFormed(g) && Liveness.LiveGrammar(g) && Run(g, INITIAL, w).ok
    requires vocab.endToken < |vocab.tokenBytes|
    requires forall b: Byte :: SingleByteToken(vocab, b)
    ensures token < |vocab.tokenBytes| && TokenAllowed(g, Run(g, INITIAL, w).state, vocab, token)
  {
    hide Run, ToolCall, Complete, Liveness.LiveGrammar, WellFormed, TokenAllowed;
    var v := Liveness.NoDeadEnds(g, w);
    if v == [] {
      assert w + v == w;
      token := vocab.endToken;
      MaskIsExact(g, w, vocab, token);
    } else {
      assert SingleByteToken(vocab, v[0]);
      token :| 0 <= token < |vocab.tokenBytes| && vocab.tokenBytes[token] == [v[0]]
               && token != vocab.endToken && token !in vocab.special;
      assert (w + [v[0]]) + v[1..] == w + v;
      MaskIsExact(g, w, vocab, token);
    }
  }
}
