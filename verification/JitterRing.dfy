/** The ring that carries timer-interrupt jitter samples to the random generator
    (kernel/src/random.rs): interrupt writes interleaved with the steps of a drain. */
module JitterRing {
  import opened Bytes

  const SLOTS: nat := 256

  /** Where the draining thread is: before the comparison of the indices, before the load of the slot,
      or before the store of the advanced read index. */
  datatype Phase = Comparing | Loading | Advancing

  datatype Ring = Ring(slots: ByteString, write: nat, read: nat, phase: Phase, fed: ByteString)

  datatype Event = Interrupt(sample: Byte) | Thread

  predicate Valid(r: Ring) { |r.slots| == SLOTS && r.write < SLOTS && r.read < SLOTS }

  /** The next index, wrapping at 256. */
  function Next(i: nat): (n: nat)
    requires i < SLOTS
    ensures n == if i == SLOTS - 1 then 0 else i + 1
  {
    (i + 1) % SLOTS
  }

  /** The index k places before i. */
  function Back(i: nat, k: nat): (j: nat)
    requires i < SLOTS && k <= SLOTS
    ensures j < SLOTS
  {
    if k <= i then i - k else i + SLOTS - k
  }

  function Start(): Ring { Ring(seq(SLOTS, _ => 0), 0, 0, Comparing, []) }

  /** One interrupt, which the thread cannot divide, or one step of the thread. */
  function Step(r: Ring, e: Event): (n: Ring)
    requires Valid(r)
    ensures Valid(n)
  {
    match e
    case Interrupt(sample) => r.(slots := r.slots[r.write := sample], write := Next(r.write))
    case Thread =>
      match r.phase
      case Comparing => if r.read == r.write then r else r.(phase := Loading)
      case Loading => r.(phase := Advancing, fed := r.fed + [r.slots[r.read]])
      case Advancing => r.(phase := Comparing, read := Next(r.read))
  }

  function Run(r: Ring, events: seq<Event>): (n: Ring)
    requires Valid(r)
    ensures Valid(n)
    decreases |events|
  {
    if events == [] then r else Run(Step(r, events[0]), events[1..])
  }

  /** The samples of the interrupts, in order. */
  function Samples(events: seq<Event>): ByteString {
    if events == [] then []
    else if events[0].Interrupt? then [events[0].sample] + Samples(events[1..]) else Samples(events[1..])
  }

  // ---------- which sample each fed byte was ----------

  /** Samples between the read and the write index, 256 rather than 0 once the thread has passed the comparison. */
  function Ahead(r: Ring): nat
    requires Valid(r)
  {
    var d := if r.write >= r.read then r.write - r.read else r.write + SLOTS - r.read;
    if r.phase != Comparing && d == 0 then SLOTS else d
  }

  /** Samples the thread will still feed if no further interrupt comes. */
  function Pending(r: Ring): nat
    requires Valid(r)
  {
    if r.phase == Advancing then Ahead(r) - 1 else Ahead(r)
  }

  /** An account of a run: all samples, the number of each one fed, and how often the writer lapped the reader. */
  datatype Account = Account(samples: ByteString, origin: seq<int>, laps: nat)

  /** The interrupt's sample is the one that fills the last free place. */
  predicate Laps(r: Ring, e: Event)
    requires Valid(r)
  {
    e.Interrupt? && Ahead(r) == if r.phase == Comparing then SLOTS - 1 else SLOTS
  }

  function Record(r: Ring, a: Account, e: Event): Account
    requires Valid(r)
  {
    match e
    case Interrupt(sample) => Account(a.samples + [sample], a.origin, a.laps + if Laps(r, e) then 1 else 0)
    case Thread => if r.phase == Loading then a.(origin := a.origin + [|a.samples| - Ahead(r)]) else a
  }

  /** The number of the sample fed last, -1 before the first. */
  function LastFed(a: Account): int { if a.origin == [] then -1 else a.origin[|a.origin| - 1] }

  predicate Increasing(s: seq<int>) { forall i, j :: 0 <= i < j < |s| ==> s[i] < s[j] }

  /** The slot k places behind the write index holds the sample k places back. */
  predicate SlotHolds(r: Ring, a: Account, k: nat)
    requires Valid(r) && 1 <= k <= SLOTS && k <= |a.samples|
  {
    r.slots[Back(r.write, k)] == a.samples[|a.samples| - k]
  }

  predicate SlotsHold(r: Ring, a: Account)
    requires Valid(r)
  {
    forall k: nat :: 1 <= k <= SLOTS && k <= |a.samples| ==> SlotHolds(r, a, k)
  }

  /** What every interleaving keeps. */
  predicate Invariant(r: Ring, a: Account) {
    && Valid(r) && SlotsHold(r, a)
    && |a.origin| == |r.fed| && Increasing(a.origin)
    && (forall i :: 0 <= i < |r.fed| ==> 0 <= a.origin[i] < |a.samples| && r.fed[i] == a.samples[a.origin[i]])
    && (if r.phase == Advancing then LastFed(a) <= |a.samples| - Ahead(r) else LastFed(a) < |a.samples| - Ahead(r))
    && |a.samples| == |r.fed| + Pending(r) + SLOTS * a.laps
  }

  lemma StartInvariant()
    ensures Invariant(Start(), Account([], [], 0))
  {
  }

  lemma SlotsAfterWrite(r: Ring, a: Account, sample: Byte)
    requires Valid(r) && SlotsHold(r, a)
    ensures SlotsHold(Step(r, Interrupt(sample)), Record(r, a, Interrupt(sample)))
  {
    var n, b := Step(r, Interrupt(sample)), Record(r, a, Interrupt(sample));
    forall k: nat | 1 <= k <= SLOTS && k <= |b.samples| ensures SlotHolds(n, b, k) {
      if k > 1 { assert SlotHolds(r, a, k - 1) && Back(n.write, k) == Back(r.write, k - 1) != r.write; }
    }
  }

  lemma InterruptKeeps(r: Ring, a: Account, sample: Byte)
    requires Invariant(r, a)
    ensures Invariant(Step(r, Interrupt(sample)), Record(r, a, Interrupt(sample)))
  {
    hide SlotsHold, Increasing;
    SlotsAfterWrite(r, a, sample);
  }

  /** The slot being loaded holds the sample that is due, however far the writer has come since the comparison. */
  lemma LoadedSlot(r: Ring, a: Account)
    requires Invariant(r, a) && r.phase == Loading
    ensures Ahead(r) <= |a.samples| && r.slots[r.read] == a.samples[|a.samples| - Ahead(r)]
  {
    assert LastFed(a) >= -1;
    assert SlotHolds(r, a, Ahead(r)) && Back(r.write, Ahead(r)) == r.read;
  }

  lemma IncreasingAppend(s: seq<int>, x: int)
    requires Increasing(s) && (s != [] ==> s[|s| - 1] < x)
    ensures Increasing(s + [x])
  {
  }

  lemma ThreadKeeps(r: Ring, a: Account)
    requires Invariant(r, a)
    ensures Invariant(Step(r, Thread), Record(r, a, Thread))
  {
    hide SlotsHold, Increasing;
    SlotsSame(r, a);
    if r.phase == Loading {
      LoadedSlot(r, a);
      IncreasingAppend(a.origin, |a.samples| - Ahead(r));
    }
  }

  lemma SlotsSame(r: Ring, a: Account)
    requires Invariant(r, a)
    ensures SlotsHold(Step(r, Thread), Record(r, a, Thread))
  {
    var n, b := Step(r, Thread), Record(r, a, Thread);
    forall k: nat | 1 <= k <= SLOTS && k <= |b.samples| ensures SlotHolds(n, b, k) {
      assert SlotHolds(r, a, k);
    }
  }

  /** At no point of the run does an interrupt fill the last free place. */
  predicate NeverLaps(r: Ring, events: seq<Event>)
    requires Valid(r)
    decreases |events|
  {
    events == [] || (!Laps(r, events[0]) && NeverLaps(Step(r, events[0]), events[1..]))
  }

  /** Any interleaving, from any state the invariant describes, and the account it ends with. */
  lemma {:induction false} RunKeeps(r: Ring, a: Account, events: seq<Event>) returns (b: Account)
    requires Valid(r) && Invariant(r, a)
    ensures Invariant(Run(r, events), b) && b.samples == a.samples + Samples(events)
    ensures b.laps >= a.laps && (NeverLaps(r, events) <==> b.laps == a.laps)
    decreases |events|
  {
    hide Invariant, Laps, Step, Record;
    if events == [] {
      b := a;
      assert a.samples + Samples([]) == a.samples;
    } else {
      var e, rest := events[0], events[1..];
      OneKeeps(r, a, e);
      b := RunKeeps(Step(r, e), Record(r, a, e), rest);
    }
  }

  lemma OneKeeps(r: Ring, a: Account, e: Event)
    requires Valid(r) && Invariant(r, a)
    ensures Invariant(Step(r, e), Record(r, a, e))
    ensures Record(r, a, e).samples == a.samples + if e.Interrupt? then [e.sample] else []
    ensures Record(r, a, e).laps == a.laps + if Laps(r, e) then 1 else 0
  {
    match e
    case Interrupt(sample) => InterruptKeeps(r, a, sample);
    case Thread => ThreadKeeps(r, a); assert a.samples + [] == a.samples;
  }

  // ---------- what that means ----------

  /** Bytes taken from a sequence at strictly increasing places. */
  predicate TakenInOrder(fed: ByteString, samples: ByteString, origin: seq<int>) {
    && |origin| == |fed| && Increasing(origin)
    && forall i :: 0 <= i < |fed| ==> 0 <= origin[i] < |samples| && fed[i] == samples[origin[i]]
  }

  /** Every interleaving feeds interrupt samples, none invented, none twice, in the order they came;
      and what was not fed is what is pending plus 256 for each time the writer lapped the reader. */
  lemma FedInOrder(events: seq<Event>) returns (origin: seq<int>, laps: nat)
    ensures var r, samples := Run(Start(), events), Samples(events);
            && TakenInOrder(r.fed, samples, origin)
            && |samples| == |r.fed| + Pending(r) + 256 * laps
  {
    StartInvariant();
    var b := RunKeeps(Start(), Account([], [], 0), events);
    assert [] + Samples(events) == Samples(events);
    origin, laps := b.origin, b.laps;
  }

  lemma {:induction false} IncreasingAtLeast(s: seq<int>, i: nat)
    requires Increasing(s) && i < |s| && (forall j :: 0 <= j < |s| ==> s[j] >= 0)
    ensures s[i] >= i && s[|s| - 1] >= s[i] + (|s| - 1 - i)
    decreases |s|
  {
    if |s| > 1 {
      var t := s[..|s| - 1];
      IncreasingAtLeast(t, if i < |t| then i else |t| - 1);
    }
  }

  /** Nothing is lost exactly when the writer never laps the reader; then what was fed is the first samples. */
  lemma NothingLost(events: seq<Event>)
    ensures var r, samples := Run(Start(), events), Samples(events);
            && (NeverLaps(Start(), events) <==> |samples| == |r.fed| + Pending(r))
            && (NeverLaps(Start(), events) ==> r.fed <= samples)
  {
    hide NeverLaps, Run, Samples, SlotsHold, Increasing;
    StartInvariant();
    var b := RunKeeps(Start(), Account([], [], 0), events);
    assert [] + Samples(events) == Samples(events);
    var r, samples := Run(Start(), events), Samples(events);
    LastFedBound(r, b);
    if NeverLaps(Start(), events) { NoGaps(r.fed, samples, b.origin); }
  }

  /** As many places as bytes leave no gap. */
  lemma NoGaps(fed: ByteString, samples: ByteString, origin: seq<int>)
    requires TakenInOrder(fed, samples, origin) && |fed| <= |samples|
    requires fed != [] ==> origin[|fed| - 1] < |fed|
    ensures fed <= samples
  {
    forall i: nat | i < |fed| ensures fed[i] == samples[i] {
      IncreasingAtLeast(origin, i);
    }
  }

  lemma LastFedBound(r: Ring, b: Account)
    requires Invariant(r, b)
    ensures LastFed(b) < |b.samples| - Pending(r)
  {
  }

  /** A drain that finds the indices equal takes the ring for empty, though after a lap it holds 256 unread samples. */
  lemma FullLooksEmpty(samples: ByteString)
    requires |samples| == 256
    ensures var r := Run(Start(), Interrupts(samples));
            r.read == r.write && r.fed == [] && Step(r, Thread) == r && Pending(r) == 0
    ensures Samples(Interrupts(samples)) == samples
  {
    InterruptsOnly(Start(), samples);
  }

  function Interrupts(samples: ByteString): (events: seq<Event>)
    ensures |events| == |samples|
  {
    seq(|samples|, i requires 0 <= i < |samples| => Interrupt(samples[i]))
  }

  lemma {:induction false} InterruptsOnly(r: Ring, samples: ByteString)
    requires Valid(r)
    ensures var n := Run(r, Interrupts(samples));
            n.write == (r.write + |samples|) % SLOTS && n.read == r.read && n.fed == r.fed && n.phase == r.phase
    ensures Samples(Interrupts(samples)) == samples
    decreases |samples|
  {
    if samples != [] {
      var n := Step(r, Interrupt(samples[0]));
      assert Interrupts(samples)[1..] == Interrupts(samples[1..]);
      InterruptsOnly(n, samples[1..]);
      assert [samples[0]] + samples[1..] == samples;
    }
  }

  // ---------- the shared variables and the code that moves them ----------

  lemma {:induction false} RunAppend(r: Ring, events: seq<Event>, e: Event)
    requires Valid(r)
    ensures Run(r, events + [e]) == Step(Run(r, events), e)
    decreases |events|
  {
    hide Step;
    if events == [] {
      assert events + [e] == [e] && [e][1..] == [];
    } else {
      assert (events + [e])[0] == events[0] && (events + [e])[1..] == events[1..] + [e];
      RunAppend(Step(r, events[0]), events[1..], e);
    }
  }

  class Shared {
    const slots: array<Byte>
    var write: nat
    var read: nat
    /** The bytes handed to the generator so far. */
    var fed: ByteString
    ghost var events: seq<Event>

    ghost predicate At(phase: Phase)
      reads this, slots
    {
      slots.Length == SLOTS && Run(Start(), events) == Ring(slots[..], write, read, phase, fed)
    }

    constructor ()
      ensures At(Comparing) && events == [] && fresh(slots)
    {
      slots := new Byte[SLOTS](_ => 0);
      write, read, fed, events := 0, 0, [], [];
      new;
      assert slots[..] == seq(SLOTS, _ => 0);
    }

    /** The interrupt handler, at whatever point it strikes. */
    method AddJitterSample(sample: Byte, ghost phase: Phase)
      requires At(phase)
      modifies this`write, this`events, slots
      ensures At(phase) && events == old(events) + [Interrupt(sample)]
    {
      RunAppend(Start(), events, Interrupt(sample));
      var next := Next(write);
      slots[write] := sample;
      write := next;
      events := events + [Interrupt(sample)];
    }

    /** The thread's loop when no interrupt strikes: all that is pending is fed, in its own steps. */
    method Drain()
      requires At(Comparing)
      modifies this`read, this`fed, this`events
      ensures At(Comparing) && read == write && old(events) <= events
      ensures forall i :: |old(events)| <= i < |events| ==> events[i] == Thread
    {
      hide Step;
      ghost var start := |events|;
      while read != write
        invariant At(Comparing) && old(events) <= events && start == |old(events)|
        invariant forall i :: start <= i < |events| ==> events[i] == Thread
        decreases Pending(Run(Start(), events))
      {
        ghost var before := Run(Start(), events);
        ThreeSteps(before);
        RunAppend(Start(), events, Thread);
        RunAppend(Start(), events + [Thread], Thread);
        RunAppend(Start(), events + [Thread] + [Thread], Thread);
        var sample := slots[read];
        fed := fed + [sample];
        read := Next(read);
        events := events + [Thread] + [Thread] + [Thread];
      }
    }
  }

  lemma ThreeSteps(r: Ring)
    requires Valid(r) && r.phase == Comparing && r.read != r.write
    ensures var n := Step(Step(Step(r, Thread), Thread), Thread);
            && n == r.(read := Next(r.read), fed := r.fed + [r.slots[r.read]])
            && Pending(n) == Pending(r) - 1
  {
  }
}
