/** The continuous health tests of entropy sources (crates/otter-crypto/src/entropy.rs,
    sections 4.4.1 and 4.4.2 of NIST SP 800-90B) against what they say about a sample history. */
module HealthTests {
  import opened Bytes
  import opened Options

  datatype Source = RdSeed | RdRand | TscJitter

  datatype HealthFailure = RepetitionCount | AdaptiveProportion

  const APT_WINDOW: nat := 512

  function Credit(s: Source): nat {
    match s case RdSeed => 4 case RdRand => 2 case TscJitter => 1
  }

  function RepetitionCutoff(s: Source): nat {
    match s case RdSeed => 6 case RdRand => 11 case TscJitter => 21
  }

  function ProportionCutoff(s: Source): nat {
    match s case RdSeed => 62 case RdRand => 177 case TscJitter => 311
  }

  /** One more than twenty bits' worth of samples, rounded up. */
  lemma CutoffsFollowCredit(s: Source)
    ensures RepetitionCutoff(s) == 1 + (20 + Credit(s) - 1) / Credit(s)
  {
  }

  // ---------- the two tests as functions of the whole history ----------

  /** How many equal samples the history ends with. */
  function TrailingRun(h: ByteString): nat {
    if h == [] then 0
    else if |h| > 1 && h[|h| - 1] == h[|h| - 2] then TrailingRun(h[..|h| - 1]) + 1
    else 1
  }

  /** The samples of the unfinished window, the last whole one when none is begun. */
  function WindowStart(n: nat): (w: nat)
    requires n > 0
    ensures w < n && w % APT_WINDOW == 0 && n <= w + APT_WINDOW
  {
    n - 1 - (n - 1) % APT_WINDOW
  }

  function Occurrences(b: Byte, h: ByteString): nat {
    if h == [] then 0 else Occurrences(b, h[..|h| - 1]) + if h[|h| - 1] == b then 1 else 0
  }

  /** How often the current window's first sample occurs in it. */
  function WindowCount(h: ByteString): nat {
    if h == [] then 0 else Occurrences(h[WindowStart(|h|)], h[WindowStart(|h|)..])
  }

  predicate Passes(s: Source, h: ByteString) {
    TrailingRun(h) < RepetitionCutoff(s) && WindowCount(h) < ProportionCutoff(s)
  }

  /** Every sample passed when it came. */
  predicate Accepted(s: Source, h: ByteString) { forall n :: 0 < n <= |h| ==> Passes(s, h[..n]) }

  /** An accepted history nowhere holds as many equal samples in a row as the cutoff. */
  lemma {:induction false} NoLongRun(s: Source, h: ByteString, i: nat)
    requires Accepted(s, h) && i + RepetitionCutoff(s) <= |h|
    ensures exists j :: i < j < i + RepetitionCutoff(s) && h[j] != h[i]
  {
    var n := i + RepetitionCutoff(s);
    assert Passes(s, h[..n]);
    if forall j :: i < j < n ==> h[j] == h[i] { EqualRun(h[..n], RepetitionCutoff(s)); }
  }

  lemma {:induction false} EqualRun(h: ByteString, k: nat)
    requires 1 <= k <= |h| && forall j :: |h| - k <= j < |h| ==> h[j] == h[|h| - 1]
    ensures TrailingRun(h) >= k
    decreases k
  {
    if k > 1 {
      assert h[|h| - 2] == h[|h| - 1];
      EqualRun(h[..|h| - 1], k - 1);
    }
  }

  /** In no window of 512 samples of an accepted history does the first sample reach the proportion cutoff. */
  lemma NoSkewedWindow(s: Source, h: ByteString, w: nat, n: nat)
    requires Accepted(s, h) && w % 512 == 0 && w < n <= |h| && n <= w + 512
    ensures Occurrences(h[w], h[w..n]) < if s.RdSeed? then 62 else if s.RdRand? then 177 else 311
  {
    assert (n - 1) % APT_WINDOW == n - 1 - w;
    assert WindowStart(n) == w;
    assert h[..n][w..] == h[w..n];
    assert Passes(s, h[..n]);
  }

  // ---------- the counters the source keeps ----------

  /** Last sample and its count; window's first sample, its count, and how far the window is. */
  datatype Health = Health(last: Option<Byte>, repeats: nat, first: Byte, count: nat, seen: nat, healthy: bool)

  function NewHealth(): Health { Health(None, 0, 0, 0, 0, true) }

  /** The counters stand for a history. */
  predicate Tracks(t: Health, h: ByteString) {
    && t.healthy && t.repeats == TrailingRun(h)
    && (if h == [] then t.last == None else t.last == Some(h[|h| - 1]))
    && t.seen == |h| % APT_WINDOW
    && (t.seen > 0 ==> t.first == h[|h| - t.seen] && t.count == Occurrences(t.first, h[|h| - t.seen..]))
  }

  /** One sample through both tests, the repetition test first; a failure is for good. */
  function Test(s: Source, t: Health, sample: Byte): (Health, Option<HealthFailure>) {
    if !t.healthy then (t, Some(RepetitionCount)) else
    var same := t.last == Some(sample);
    var repeats := if same then t.repeats + 1 else 1;
    var t1 := t.(last := Some(sample), repeats := repeats);
    if same && repeats >= RepetitionCutoff(s) then (t1.(healthy := false), Some(RepetitionCount)) else
    var first := if t.seen == 0 then sample else t.first;
    var count := if t.seen == 0 then 1 else if sample == t.first then t.count + 1 else t.count;
    var t2 := t1.(first := first, count := count);
    if t.seen > 0 && sample == t.first && count >= ProportionCutoff(s)
    then (t2.(healthy := false), Some(AdaptiveProportion))
    else (t2.(seen := (t.seen + 1) % APT_WINDOW), None)
  }

  lemma {:induction false} TestRun(h: ByteString, sample: Byte)
    ensures TrailingRun(h + [sample]) == if h != [] && h[|h| - 1] == sample then TrailingRun(h) + 1 else 1
  {
    assert (h + [sample])[..|h|] == h;
  }

  lemma WindowGrows(h: ByteString, sample: Byte)
    ensures var n := |h| % APT_WINDOW;
            WindowStart(|h| + 1) == |h| - n && (h + [sample])[|h| - n..] == h[|h| - n..] + [sample]
  {
    var n := |h| % APT_WINDOW;
  }

  lemma OccurrencesNext(b: Byte, h: ByteString, sample: Byte)
    ensures Occurrences(b, h + [sample]) == Occurrences(b, h) + if sample == b then 1 else 0
  {
    assert (h + [sample])[..|h|] == h;
  }

  lemma TestCount(t: Health, h: ByteString, sample: Byte)
    requires Tracks(t, h)
    ensures WindowCount(h + [sample]) == if t.seen == 0 then 1 else if sample == t.first then t.count + 1 else t.count
    ensures (h + [sample])[|h| - t.seen] == if t.seen == 0 then sample else t.first
  {
    hide TrailingRun;
    var w := h[|h| - t.seen..];
    WindowGrows(h, sample);
    var b := (h + [sample])[|h| - t.seen];
    OccurrencesNext(b, w, sample);
    assert t.seen == 0 ==> w == [];
  }

  lemma {:induction false} AcceptedPrefix(s: Source, h: ByteString, sample: Byte)
    ensures Accepted(s, h + [sample]) <==> Accepted(s, h) && Passes(s, h + [sample])
  {
    hide Passes;
    var g := h + [sample];
    assert g[..|g|] == g;
    assert forall n :: 0 < n <= |h| ==> g[..n] == h[..n];
    if Accepted(s, g) {
      forall n | 0 < n <= |h| ensures Passes(s, h[..n]) { assert Passes(s, g[..n]); }
    }
  }

  /** A sample that passes is counted. */
  lemma StillTracks(s: Source, t: Health, h: ByteString, sample: Byte)
    requires Tracks(t, h) && Test(s, t, sample).1 == None
    ensures Tracks(Test(s, t, sample).0, h + [sample])
  {
    hide TrailingRun, Occurrences, WindowStart;
    TestRun(h, sample);
    TestCount(t, h, sample);
    WindowGrows(h, sample);
    NextWindow(t, h, sample);
  }

  /** The incremental tests decide exactly what the history says. */
  lemma TestDecides(s: Source, t: Health, h: ByteString, sample: Byte)
    requires Tracks(t, h) && Accepted(s, h)
    ensures var (t', failure) := Test(s, t, sample);
            && (failure == None <==> Passes(s, h + [sample]))
            && (failure == None ==> Tracks(t', h + [sample]) && Accepted(s, h + [sample]))
            && (failure == Some(RepetitionCount) <==> TrailingRun(h + [sample]) >= RepetitionCutoff(s))
            && (failure.Some? ==> !t'.healthy)
  {
    hide TrailingRun, WindowCount, Occurrences, Accepted;
    TestRun(h, sample);
    TestCount(t, h, sample);
    LastPassed(s, t, h);
    AcceptedPrefix(s, h, sample);
    if Test(s, t, sample).1 == None { StillTracks(s, t, h, sample); }
  }

  /** The tests of one source after all the samples it offered: healthy exactly if every one
      of them passed when it came. */
  predicate Follows(s: Source, t: Health, h: ByteString) {
    (t.healthy <==> Accepted(s, h)) && (t.healthy ==> Tracks(t, h))
  }

  /** One sample more keeps the tests in step with the whole history. */
  lemma TestFollows(s: Source, t: Health, h: ByteString, sample: Byte)
    requires Follows(s, t, h)
    ensures var (t', failure) := Test(s, t, sample);
            Follows(s, t', h + [sample]) && (failure == None <==> Accepted(s, h + [sample]))
  {
    hide Passes, Accepted;
    AcceptedPrefix(s, h, sample);
    if t.healthy { TestDecides(s, t, h, sample); }
  }

  /** The counters are below their cutoffs. */
  lemma LastPassed(s: Source, t: Health, h: ByteString)
    requires Tracks(t, h) && Accepted(s, h)
    ensures t.repeats < RepetitionCutoff(s) && (t.seen > 0 ==> t.count < ProportionCutoff(s))
  {
    if h != [] {
      hide TrailingRun, Occurrences;
      assert h[..|h|] == h && Passes(s, h[..|h|]);
      if t.seen > 0 { SeenInWindow(|h|, t.seen); }
    } else {
      assert TrailingRun(h) == 0;
    }
  }

  lemma SeenInWindow(n: nat, seen: nat)
    requires 0 < seen == n % APT_WINDOW
    ensures n > 0 && WindowStart(n) == n - seen
  {
    assert (n - 1) % APT_WINDOW == seen - 1;
  }

  lemma NextWindow(t: Health, h: ByteString, sample: Byte)
    requires Tracks(t, h)
    ensures var seen := (t.seen + 1) % APT_WINDOW;
            && seen == |h + [sample]| % APT_WINDOW
            && (seen > 0 ==> |h + [sample]| - seen == |h| - t.seen == WindowStart(|h| + 1))
  {
    WindowGrows(h, sample);
  }
}
