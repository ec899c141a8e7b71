/** DEFLATE streams written down from what they mean (sections 3.2.3 to 3.2.7 of RFC 1951): the
    bits of blocks with matches and of dynamic code tables, and that the format reads them back. */
module DeflateStreams {
  import opened Bytes
  import opened Congruence
  import opened BitStreams
  import opened Huffman
  import opened Inflate
  import opened Inflater

  // ---------- literals and matches ----------

  /** A byte, or a match by its two symbols and their extra bits. */
  datatype Token = Literal(b: Byte) | Match(len: nat, lenExtra: nat, dist: nat, distExtra: nat)

  predicate ValidToken(lit: Lengths, dist: Lengths, t: Token) {
    match t
    case Literal(b) => b < |lit| && lit[b] > 0
    case Match(ls, le, ds, de) =>
      && 257 <= ls <= 285 && ls < |lit| && lit[ls] > 0 && le < Pow(2, LengthExtra(ls))
      && ds < 30 && ds < |dist| && dist[ds] > 0 && de < Pow(2, DistExtra(ds))
  }

  /** How far a match reaches back, and how many bytes it copies. */
  function Distance(t: Token): nat
    requires t.Match? && t.dist < 30
  {
    DistBase(t.dist) + t.distExtra
  }

  function Length(t: Token): nat
    requires t.Match? && 257 <= t.len <= 285
  {
    LengthBase(t.len) + t.lenExtra
  }

  /** The code word of the symbol, and for a match its extra bits, the distance's word and its extra bits. */
  function TokenBits(lit: Lengths, dist: Lengths, t: Token): Bits
    requires ValidToken(lit, dist, t)
  {
    match t
    case Literal(b) => CodeWord(lit, b)
    case Match(ls, le, ds, de) =>
      CodeWord(lit, ls) + (LowBits(le, LengthExtra(ls)) + (CodeWord(dist, ds) + LowBits(de, DistExtra(ds))))
  }

  /** The tokens can be applied one after the other: no match reaches back before the output. */
  ghost predicate Applicable(lit: Lengths, dist: Lengths, ts: seq<Token>, out: ByteString)
    decreases |ts|
  {
    ts != [] ==>
      && ValidToken(lit, dist, ts[0])
      && match ts[0]
         case Literal(b) => Applicable(lit, dist, ts[1..], out + [b])
         case Match(_, _, _, _) =>
           0 < Distance(ts[0]) <= |out|
           && Applicable(lit, dist, ts[1..], CopyBack(out, Distance(ts[0]), Length(ts[0])))
  }

  /** The output after all tokens. */
  ghost function Applied(lit: Lengths, dist: Lengths, ts: seq<Token>, out: ByteString): ByteString
    requires Applicable(lit, dist, ts, out)
    decreases |ts|
  {
    if ts == [] then out else
    match ts[0]
    case Literal(b) => Applied(lit, dist, ts[1..], out + [b])
    case Match(_, _, _, _) => Applied(lit, dist, ts[1..], CopyBack(out, Distance(ts[0]), Length(ts[0])))
  }

  ghost function TokensBits(lit: Lengths, dist: Lengths, ts: seq<Token>, out: ByteString): Bits
    requires Applicable(lit, dist, ts, out)
    decreases |ts|
  {
    if ts == [] then [] else
    TokenBits(lit, dist, ts[0]) +
    match ts[0]
    case Literal(b) => TokensBits(lit, dist, ts[1..], out + [b])
    case Match(_, _, _, _) => TokensBits(lit, dist, ts[1..], CopyBack(out, Distance(ts[0]), Length(ts[0])))
  }

  lemma FieldReads(v: nat, n: nat, rest: Bits)
    requires v < Pow(2, n)
    ensures Field(LowBits(v, n) + rest, n) == Done(v, rest)
  {
    LowBitsRoundTrip(v, n);
    assert (LowBits(v, n) + rest)[..n] == LowBits(v, n) && (LowBits(v, n) + rest)[n..] == rest;
  }

  lemma LengthReads(t: Token, rest: Bits)
    requires t.Match? && 257 <= t.len <= 285 && t.lenExtra < Pow(2, LengthExtra(t.len))
    ensures MatchLength(t.len, LowBits(t.lenExtra, LengthExtra(t.len)) + rest) == Done(Length(t), rest)
  {
    hide Field, LowBits, LengthBase, LengthExtra;
    FieldReads(t.lenExtra, LengthExtra(t.len), rest);
  }

  lemma DistanceReads(dist: Lengths, t: Token, rest: Bits)
    requires Fits(dist) && t.Match? && t.dist < 30 && t.dist < |dist| && dist[t.dist] > 0
    requires t.distExtra < Pow(2, DistExtra(t.dist))
    ensures MatchDistance(dist, CodeWord(dist, t.dist) + (LowBits(t.distExtra, DistExtra(t.dist)) + rest))
            == Done(Distance(t), rest)
  {
    hide NextSymbol, CodeWord, Field, LowBits, Fits, DistBase, DistExtra;
    CodeWordDecodes(dist, t.dist, LowBits(t.distExtra, DistExtra(t.dist)) + rest);
    FieldReads(t.distExtra, DistExtra(t.dist), rest);
  }

  /** A match is read as its length and distance, and copied. */
  lemma MatchReads(lit: Lengths, dist: Lengths, t: Token, rest: Bits, out: ByteString)
    requires Fits(dist) && t.Match? && ValidToken(lit, dist, t) && 0 < Distance(t) <= |out|
    ensures BackReference(t.len, dist,
                          LowBits(t.lenExtra, LengthExtra(t.len))
                          + (CodeWord(dist, t.dist) + (LowBits(t.distExtra, DistExtra(t.dist)) + rest)), out)
            == Done(CopyBack(out, Distance(t), Length(t)), rest)
  {
    hide CodeWord, CopyBack, LowBits, Fits, MatchLength, MatchDistance, Distance, Length;
    var afterLength := CodeWord(dist, t.dist) + (LowBits(t.distExtra, DistExtra(t.dist)) + rest);
    LengthReads(t, afterLength);
    DistanceReads(dist, t, rest);
  }

  lemma LiteralStep(lit: Lengths, dist: Lengths, b: Byte, more: Bits, out: ByteString)
    requires Fits(lit) && b < |lit| && lit[b] > 0
    ensures Block(lit, dist, CodeWord(lit, b) + more, out) == Block(lit, dist, more, out + [b])
  {
    hide NextSymbol, CodeWord, Fits, BackReference;
    CodeWordDecodes(lit, b, more);
  }

  lemma MatchStep(lit: Lengths, dist: Lengths, t: Token, more: Bits, out: ByteString)
    requires Fits(lit) && Fits(dist) && t.Match? && ValidToken(lit, dist, t) && 0 < Distance(t) <= |out|
    ensures Block(lit, dist, TokenBits(lit, dist, t) + more, out)
            == Block(lit, dist, more, CopyBack(out, Distance(t), Length(t)))
  {
    hide NextSymbol, CodeWord, Fits, BackReference, LowBits, CopyBack, Distance, Length;
    var after := LowBits(t.lenExtra, LengthExtra(t.len))
                 + (CodeWord(dist, t.dist) + (LowBits(t.distExtra, DistExtra(t.dist)) + more));
    assert TokenBits(lit, dist, t) + more == CodeWord(lit, t.len) + after;
    CodeWordDecodes(lit, t.len, after);
    MatchReads(lit, dist, t, more, out);
  }

  lemma EndStep(lit: Lengths, dist: Lengths, rest: Bits, out: ByteString)
    requires Fits(lit) && |lit| > 256 && lit[256] > 0
    ensures Block(lit, dist, CodeWord(lit, 256) + rest, out) == Done(out, rest)
  {
    hide NextSymbol, CodeWord, Fits, BackReference;
    CodeWordDecodes(lit, 256, rest);
  }

  /** A block of literals and matches, to its end word, appends what they stand for. */
  lemma {:induction false} BlockReadsTokens(lit: Lengths, dist: Lengths, ts: seq<Token>, out: ByteString, rest: Bits)
    requires Fits(lit) && Fits(dist) && |lit| > 256 && lit[256] > 0 && Applicable(lit, dist, ts, out)
    ensures Block(lit, dist, TokensBits(lit, dist, ts, out) + (CodeWord(lit, 256) + rest), out)
            == Done(Applied(lit, dist, ts, out), rest)
    decreases |ts|
  {
    hide Block, CodeWord, Fits, CopyBack, TokenBits, Distance, Length;
    var end := CodeWord(lit, 256) + rest;
    var bits := TokensBits(lit, dist, ts, out) + end;
    if ts == [] {
      EndStep(lit, dist, rest, out);
      assert bits == end;
    } else {
      var t := ts[0];
      match t
      case Literal(b) =>
        var more := TokensBits(lit, dist, ts[1..], out + [b]) + end;
        LiteralToken(lit, dist, t);
        assert bits == CodeWord(lit, b) + more;
        LiteralStep(lit, dist, b, more, out);
        BlockReadsTokens(lit, dist, ts[1..], out + [b], rest);
      case Match(_, _, _, _) =>
        var out' := CopyBack(out, Distance(t), Length(t));
        var more := TokensBits(lit, dist, ts[1..], out') + end;
        assert bits == TokenBits(lit, dist, t) + more;
        MatchStep(lit, dist, t, more, out);
        BlockReadsTokens(lit, dist, ts[1..], out', rest);
    }
  }

  lemma LiteralToken(lit: Lengths, dist: Lengths, t: Token)
    requires t.Literal? && ValidToken(lit, dist, t)
    ensures TokenBits(lit, dist, t) == CodeWord(lit, t.b)
  {
  }

  // ---------- dynamic tables ----------

  /** One step of the run-length coding of code lengths: a length, the last length again three to
      six times, or a short or a long run of zeros. */
  datatype LengthStep = Plain(l: nat) | Again(n: nat) | ZeroRun(n: nat) | LongZeroRun(n: nat)

  predicate ValidStep(clc: Lengths, s: LengthStep, have: Lengths) {
    match s
    case Plain(l) => l <= 15 && l < |clc| && clc[l] > 0
    case Again(n) => 3 <= n <= 6 && have != [] && 16 < |clc| && clc[16] > 0
    case ZeroRun(n) => 3 <= n <= 10 && 17 < |clc| && clc[17] > 0
    case LongZeroRun(n) => 11 <= n <= 138 && 18 < |clc| && clc[18] > 0
  }

  /** The lengths after one step. */
  function Stepped(s: LengthStep, have: Lengths): Lengths
    requires s.Again? ==> have != []
    requires s.Plain? ==> s.l < 256
  {
    match s
    case Plain(l) => have + [l]
    case Again(n) => have + seq(n, _ => have[|have| - 1])
    case ZeroRun(n) => have + seq(n, _ => 0)
    case LongZeroRun(n) => have + seq(n, _ => 0)
  }

  function StepBits(clc: Lengths, s: LengthStep, have: Lengths): Bits
    requires ValidStep(clc, s, have)
  {
    match s
    case Plain(l) => CodeWord(clc, l)
    case Again(n) => CodeWord(clc, 16) + LowBits(n - 3, 2)
    case ZeroRun(n) => CodeWord(clc, 17) + LowBits(n - 3, 3)
    case LongZeroRun(n) => CodeWord(clc, 18) + LowBits(n - 11, 7)
  }

  /** The steps spell all the lengths in the end. */
  ghost predicate Spell(clc: Lengths, steps: seq<LengthStep>, have: Lengths, all: Lengths)
    decreases |steps|
  {
    if steps == [] then have == all
    else ValidStep(clc, steps[0], have) && Spell(clc, steps[1..], Stepped(steps[0], have), all)
  }

  ghost function StepsBits(clc: Lengths, steps: seq<LengthStep>, have: Lengths, all: Lengths): Bits
    requires Spell(clc, steps, have, all)
    decreases |steps|
  {
    if steps == [] then [] else
    StepBits(clc, steps[0], have) + StepsBits(clc, steps[1..], Stepped(steps[0], have), all)
  }

  lemma {:induction false} SpellGrows(clc: Lengths, steps: seq<LengthStep>, have: Lengths, all: Lengths)
    requires Spell(clc, steps, have, all)
    ensures |have| + |steps| <= |all|
    decreases |steps|
  {
    if steps != [] { SpellGrows(clc, steps[1..], Stepped(steps[0], have), all); }
  }

  lemma RunReads(clc: Lengths, s: LengthStep, have: Lengths, want: nat, rest: Bits)
    requires ValidStep(clc, s, have) && !s.Plain? && |Stepped(s, have)| <= want
    ensures var sym := if s.Again? then 16 else if s.ZeroRun? then 17 else 18;
            var extra := if s.Again? then LowBits(s.n - 3, 2) else if s.ZeroRun? then LowBits(s.n - 3, 3)
                         else LowBits(s.n - 11, 7);
            Run(sym, extra + rest, want, have) == Done(Stepped(s, have), rest)
  {
    hide Field, LowBits;
    SmallPowers();
    match s
    case Again(n) => FieldReads(n - 3, 2, rest);
    case ZeroRun(n) => FieldReads(n - 3, 3, rest);
    case LongZeroRun(n) => FieldReads(n - 11, 7, rest);
  }

  lemma LengthStepReads(clc: Lengths, s: LengthStep, have: Lengths, want: nat, more: Bits)
    requires Fits(clc) && ValidStep(clc, s, have) && |Stepped(s, have)| <= want
    ensures CodedLengths(clc, StepBits(clc, s, have) + more, want, have)
            == CodedLengths(clc, more, want, Stepped(s, have))
  {
    hide NextSymbol, CodeWord, Fits, LowBits, Run;
    if s.Plain? {
      CodeWordDecodes(clc, s.l, more);
    } else {
      var sym := if s.Again? then 16 else if s.ZeroRun? then 17 else 18;
      var extra := if s.Again? then LowBits(s.n - 3, 2) else if s.ZeroRun? then LowBits(s.n - 3, 3)
                   else LowBits(s.n - 11, 7);
      assert StepBits(clc, s, have) + more == CodeWord(clc, sym) + (extra + more);
      CodeWordDecodes(clc, sym, extra + more);
      RunReads(clc, s, have, want, more);
    }
  }

  /** The run-length coded lengths are read back. */
  lemma {:induction false} StepsRead(clc: Lengths, steps: seq<LengthStep>, have: Lengths, all: Lengths, rest: Bits)
    requires Fits(clc) && Spell(clc, steps, have, all) && |have| <= |all|
    ensures CodedLengths(clc, StepsBits(clc, steps, have, all) + rest, |all|, have) == Done(all, rest)
    decreases |steps|
  {
    hide Fits, StepBits, Stepped;
    var bits := StepsBits(clc, steps, have, all) + rest;
    if steps == [] {
      assert bits == rest;
    } else {
      hide CodedLengths;
      var next := Stepped(steps[0], have);
      SpellGrows(clc, steps[1..], next, all);
      var more := StepsBits(clc, steps[1..], next, all) + rest;
      assert bits == StepBits(clc, steps[0], have) + more;
      LengthStepReads(clc, steps[0], have, |all|, more);
      StepsRead(clc, steps[1..], next, all, rest);
    }
  }

  /** The first n code lengths in their stored order, three bits each, from the i-th on. */
  function StoredLengths(clc: Lengths, n: nat, i: nat): Bits
    requires |clc| == 19 && i <= n <= 19
    decreases n - i
  {
    if i == n then [] else LowBits(clc[CodeLengthSlot(i)], 3) + StoredLengths(clc, n, i + 1)
  }

  /** Lengths not stored are zero. */
  predicate OnlyStored(clc: Lengths, n: nat)
    requires n <= 19
  {
    |clc| == 19 && (forall s :: 0 <= s < 19 ==> clc[s] < 8) && forall i :: n <= i < 19 ==> clc[CodeLengthSlot(i)] == 0
  }

  /** The slots before the i-th filled in. */
  function Filled(clc: Lengths, i: nat): (have: Lengths)
    requires |clc| == 19 && i <= 19
    ensures |have| == 19
  {
    if i == 0 then Repeat(0, 19) else Filled(clc, i - 1)[CodeLengthSlot(i - 1) := clc[CodeLengthSlot(i - 1)]]
  }

  lemma {:induction false} StoredRead(clc: Lengths, n: nat, i: nat, rest: Bits)
    requires i <= n <= 19 && OnlyStored(clc, n)
    ensures CodeLengthLengths(StoredLengths(clc, n, i) + rest, n, i, Filled(clc, i)) == Done(Filled(clc, n), rest)
    decreases n - i
  {
    hide Field, LowBits, CodeLengthSlot;
    SmallPowers();
    var bits := StoredLengths(clc, n, i) + rest;
    if i == n {
      assert bits == rest;
    } else {
      var v, more := clc[CodeLengthSlot(i)], StoredLengths(clc, n, i + 1) + rest;
      assert bits == LowBits(v, 3) + more;
      FieldReads(v, 3, more);
      StoredRead(clc, n, i + 1, rest);
    }
  }

  /** Every slot has its place in the order. */
  lemma SlotOf(s: nat) returns (i: nat)
    requires s < 19
    ensures i < 19 && CodeLengthSlot(i) == s
  {
    var order := [3, 17, 15, 13, 11, 9, 7, 5, 4, 6, 8, 10, 12, 14, 16, 18, 0, 1, 2];
    i := order[s];
  }

  lemma {:induction false} FilledAt(clc: Lengths, n: nat, i: nat)
    requires |clc| == 19 && i < n <= 19
    ensures Filled(clc, n)[CodeLengthSlot(i)] == clc[CodeLengthSlot(i)]
    decreases n
  {
    if i < n - 1 { FilledAt(clc, n - 1, i); }
  }

  lemma {:induction false} NotFilled(clc: Lengths, n: nat, i: nat)
    requires |clc| == 19 && n <= i < 19
    ensures Filled(clc, n)[CodeLengthSlot(i)] == 0
    decreases n
  {
    if n > 0 {
      NotFilled(clc, n - 1, i);
      SlotsDiffer(n - 1, i);
    }
  }

  lemma SlotsDiffer(i: nat, j: nat)
    requires i < j < 19
    ensures CodeLengthSlot(i) != CodeLengthSlot(j)
  {
  }

  lemma AllFilled(clc: Lengths, n: nat)
    requires n <= 19 && OnlyStored(clc, n)
    ensures Filled(clc, n) == clc
  {
    hide CodeLengthSlot, Filled;
    forall s: nat | s < 19 ensures Filled(clc, n)[s] == clc[s] {
      var i := SlotOf(s);
      if i < n { FilledAt(clc, n, i); } else { NotFilled(clc, n, i); }
    }
  }

  /** The head of a dynamic block: how many lengths of each kind, the code lengths of the length
      alphabet, and the lengths of both codes. */
  ghost function DynamicBits(t: Tables, clc: Lengths, n: nat, steps: seq<LengthStep>): Bits
    requires 257 <= |t.lit| <= 288 && 1 <= |t.dist| <= 32 && 4 <= n <= 19 && OnlyStored(clc, n)
    requires Spell(clc, steps, [], t.lit + t.dist)
  {
    LowBits(|t.lit| - 257, 5) + (LowBits(|t.dist| - 1, 5) + (LowBits(n - 4, 4)
    + (StoredLengths(clc, n, 0) + StepsBits(clc, steps, [], t.lit + t.dist))))
  }

  lemma HeadFields(a: nat, b: nat, c: nat, more: Bits)
    requires a < 32 && b < 32 && c < 16
    ensures var bits := LowBits(a, 5) + (LowBits(b, 5) + (LowBits(c, 4) + more));
            && LsbValue(bits[..5]) == a && LsbValue(bits[5..10]) == b && LsbValue(bits[10..14]) == c
            && bits[14..] == more
  {
    hide LowBits, LsbValue;
    SmallPowers();
    LowBitsRoundTrip(a, 5);
    LowBitsRoundTrip(b, 5);
    LowBitsRoundTrip(c, 4);
    var bits := LowBits(a, 5) + (LowBits(b, 5) + (LowBits(c, 4) + more));
    assert bits[..5] == LowBits(a, 5) && bits[5..10] == LowBits(b, 5) && bits[10..14] == LowBits(c, 4);
  }

  /** The tables of a dynamic block are read back. */
  lemma DynamicReads(t: Tables, clc: Lengths, n: nat, steps: seq<LengthStep>, rest: Bits)
    requires 257 <= |t.lit| <= 288 && 1 <= |t.dist| <= 32 && 4 <= n <= 19 && OnlyStored(clc, n)
    requires Spell(clc, steps, [], t.lit + t.dist) && Fits(clc) && Fits(t.lit) && Fits(t.dist)
    ensures DynamicTables(DynamicBits(t, clc, n, steps) + rest) == Done(t, rest)
  {
    hide LowBits, LsbValue, Fits, CodeLengthLengths, CodedLengths, Filled, StoredLengths, StepsBits, Spell;
    var all := t.lit + t.dist;
    var stepped := StepsBits(clc, steps, [], all) + rest;
    var more := StoredLengths(clc, n, 0) + stepped;
    HeadFields(|t.lit| - 257, |t.dist| - 1, n - 4, more);
    assert DynamicBits(t, clc, n, steps) + rest
           == LowBits(|t.lit| - 257, 5) + (LowBits(|t.dist| - 1, 5) + (LowBits(n - 4, 4) + more));
    StoredFromStart(clc, n, stepped);
    StepsRead(clc, steps, [], all, rest);
    assert all[..|t.lit|] == t.lit && all[|t.lit|..] == t.dist;
  }

  lemma StoredFromStart(clc: Lengths, n: nat, rest: Bits)
    requires n <= 19 && OnlyStored(clc, n)
    ensures CodeLengthLengths(StoredLengths(clc, n, 0) + rest, n, 0, Repeat(0, 19)) == Done(clc, rest)
  {
    StoredRead(clc, n, 0, rest);
    AllFilled(clc, n);
  }

  // ---------- whole streams ----------

  /** One block: stored bytes are covered by StoredRoundTrip, so the codes here are fixed or dynamic. */
  datatype CodedBlock = FixedBlock(tokens: seq<Token>)
    | DynamicBlock(t: Tables, clc: Lengths, n: nat, steps: seq<LengthStep>, tokens: seq<Token>)

  function CodesOf(b: CodedBlock): Tables {
    match b
    case FixedBlock(_) => Tables(FixedLit(), FixedDist())
    case DynamicBlock(t, _, _, _, _) => t
  }

  ghost predicate ValidBlock(b: CodedBlock, out: ByteString) {
    var t := CodesOf(b);
    && |t.lit| > 256 && t.lit[256] > 0 && Fits(t.lit) && Fits(t.dist) && Applicable(t.lit, t.dist, b.tokens, out)
    && match b
       case FixedBlock(_) => true
       case DynamicBlock(_, clc, n, steps, _) =>
         && 257 <= |t.lit| <= 288 && 1 <= |t.dist| <= 32 && 4 <= n <= 19 && OnlyStored(clc, n) && Fits(clc)
         && Spell(clc, steps, [], t.lit + t.dist)
  }

  /** The final bit, the block type, the tables of a dynamic block, the tokens, the end word. */
  ghost function BlockBits(b: CodedBlock, last: bool, out: ByteString): Bits
    requires ValidBlock(b, out)
  {
    var t := CodesOf(b);
    var body := TokensBits(t.lit, t.dist, b.tokens, out) + CodeWord(t.lit, 256);
    match b
    case FixedBlock(_) => [last] + LowBits(1, 2) + body
    case DynamicBlock(_, clc, n, steps, _) => [last] + LowBits(2, 2) + (DynamicBits(t, clc, n, steps) + body)
  }

  ghost function BlockOutput(b: CodedBlock, out: ByteString): ByteString
    requires ValidBlock(b, out)
  {
    Applied(CodesOf(b).lit, CodesOf(b).dist, b.tokens, out)
  }

  ghost predicate ValidBlocks(bs: seq<CodedBlock>, out: ByteString)
    decreases |bs|
  {
    bs != [] && ValidBlock(bs[0], out) && (|bs| > 1 ==> ValidBlocks(bs[1..], BlockOutput(bs[0], out)))
  }

  ghost function BlocksBits(bs: seq<CodedBlock>, out: ByteString): Bits
    requires ValidBlocks(bs, out)
    decreases |bs|
  {
    if |bs| == 1 then BlockBits(bs[0], true, out)
    else BlockBits(bs[0], false, out) + BlocksBits(bs[1..], BlockOutput(bs[0], out))
  }

  ghost function BlocksOutput(bs: seq<CodedBlock>, out: ByteString): ByteString
    requires ValidBlocks(bs, out)
    decreases |bs|
  {
    if |bs| == 1 then BlockOutput(bs[0], out) else BlocksOutput(bs[1..], BlockOutput(bs[0], out))
  }

  lemma BlockType(v: nat, last: bool, body: Bits)
    requires v < 4
    ensures var bits := [last] + LowBits(v, 2) + body;
            |bits| >= 3 && bits[0] == last && LsbValue(bits[1..3]) == v && bits[3..] == body
  {
    SmallPowers();
    LowBitsRoundTrip(v, 2);
    var bits := [last] + LowBits(v, 2) + body;
    assert bits[1..3] == LowBits(v, 2);
  }

  lemma FixedReads(ts: seq<Token>, last: bool, out: ByteString, rest: Bits)
    requires ValidBlock(FixedBlock(ts), out)
    ensures var b := FixedBlock(ts);
            var bits := BlockBits(b, last, out) + rest;
            && |bits| >= 3 && bits[0] == last
            && BlockOfType(LsbValue(bits[1..3]), bits[3..], out) == Done(BlockOutput(b, out), rest)
  {
    hide Block, Fits, CodeWord, LowBits, LsbValue, DynamicTables, TokensBits, Applicable, Applied, FixedLit, FixedDist;
    var lit, dist := FixedLit(), FixedDist();
    var body := TokensBits(lit, dist, ts, out) + (CodeWord(lit, 256) + rest);
    BlockReadsTokens(lit, dist, ts, out, rest);
    BlockType(1, last, body);
    assert BlockBits(FixedBlock(ts), last, out) + rest == [last] + LowBits(1, 2) + body;
  }

  lemma DynamicBlockReads(t: Tables, clc: Lengths, n: nat, steps: seq<LengthStep>, ts: seq<Token>, last: bool,
                          out: ByteString, rest: Bits)
    requires ValidBlock(DynamicBlock(t, clc, n, steps, ts), out)
    ensures var b := DynamicBlock(t, clc, n, steps, ts);
            var bits := BlockBits(b, last, out) + rest;
            && |bits| >= 3 && bits[0] == last
            && BlockOfType(LsbValue(bits[1..3]), bits[3..], out) == Done(BlockOutput(b, out), rest)
  {
    hide Block, Fits, CodeWord, LowBits, LsbValue, DynamicTables, TokensBits, Applicable, Applied;
    hide Spell, OnlyStored, DynamicBits;
    var body := TokensBits(t.lit, t.dist, ts, out) + (CodeWord(t.lit, 256) + rest);
    BlockReadsTokens(t.lit, t.dist, ts, out, rest);
    BlockType(2, last, DynamicBits(t, clc, n, steps) + body);
    DynamicReads(t, clc, n, steps, body);
    assert BlockBits(DynamicBlock(t, clc, n, steps, ts), last, out) + rest
           == [last] + LowBits(2, 2) + (DynamicBits(t, clc, n, steps) + body);
  }

  /** One block is read as what it stands for. */
  lemma BlockReads(b: CodedBlock, last: bool, out: ByteString, rest: Bits)
    requires ValidBlock(b, out)
    ensures var bits := BlockBits(b, last, out) + rest;
            && |bits| >= 3 && bits[0] == last
            && BlockOfType(LsbValue(bits[1..3]), bits[3..], out) == Done(BlockOutput(b, out), rest)
  {
    hide ValidBlock, BlockBits, BlockOfType, BlockOutput, LsbValue;
    match b
    case FixedBlock(ts) => FixedReads(ts, last, out, rest);
    case DynamicBlock(t, clc, n, steps, ts) => DynamicBlockReads(t, clc, n, steps, ts, last, out, rest);
  }

  /** A stream of blocks with literals, matches and tables of its own reads back as what its
      tokens stand for, whatever follows it. */
  lemma {:induction false} StreamReads(bs: seq<CodedBlock>, out: ByteString, rest: Bits)
    requires ValidBlocks(bs, out)
    ensures Stream(BlocksBits(bs, out) + rest, out) == Done(BlocksOutput(bs, out), rest)
    decreases |bs|
  {
    hide BlockOfType, BlockBits, BlockOutput, ValidBlock, LsbValue;
    var bits := BlocksBits(bs, out) + rest;
    StreamStep(bits, out);
    if |bs| == 1 {
      BlockReads(bs[0], true, out, rest);
    } else {
      var next := BlockOutput(bs[0], out);
      var more := BlocksBits(bs[1..], next) + rest;
      assert bits == BlockBits(bs[0], false, out) + more;
      BlockReads(bs[0], false, out, more);
      StreamReads(bs[1..], next, rest);
    }
  }
}
