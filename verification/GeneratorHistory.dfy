/** Where the random bytes come from: over every run the generator is the one that section 10.1.2
    of NIST SP 800-90A builds from the hashes of the samples collected since the last spending. */
module GeneratorHistory {
  import opened Bytes
  import opened Options
  import opened Csprng
  import Drbg

  // ---------- a generator by what happens to it ----------

  /** Entropy put in, or bytes taken out. */
  datatype Event = Entropy(seed: ByteString) | Output(n: nat)

  /** Instantiated from the first entropy, reseeded from any other. */
  ghost function Next(mac: Drbg.Mac, d: Option<Drbg.State>, e: Event): Option<Drbg.State>
    requires Drbg.Is32(mac)
  {
    match e
    case Entropy(seed) => Some(if d.None? then Drbg.Seeded(mac, seed) else Drbg.Reseeded(mac, d.value, seed))
    case Output(n) =>
      if d.None? then None else
      var o := Drbg.Request(mac, d.value, n, []);
      if o.Generated? then Some(o.next) else d
  }

  ghost function Gives(mac: Drbg.Mac, d: Option<Drbg.State>, e: Event): ByteString
    requires Drbg.Is32(mac)
  {
    if e.Entropy? || d.None? then [] else
    var o := Drbg.Request(mac, d.value, e.n, []);
    if o.Generated? then o.bytes else []
  }

  /** The generator after these events, the bytes it gave, and the entropy it took. */
  ghost function Replay(mac: Drbg.Mac, d: Option<Drbg.State>, events: seq<Event>): Option<Drbg.State>
    requires Drbg.Is32(mac)
    decreases |events|
  {
    if events == [] then d else Replay(mac, Next(mac, d, events[0]), events[1..])
  }

  ghost function Given(mac: Drbg.Mac, d: Option<Drbg.State>, events: seq<Event>): ByteString
    requires Drbg.Is32(mac)
    decreases |events|
  {
    if events == [] then [] else Gives(mac, d, events[0]) + Given(mac, Next(mac, d, events[0]), events[1..])
  }

  function Seeds(events: seq<Event>): seq<ByteString> {
    if events == [] then [] else
    (if events[0].Entropy? then [events[0].seed] else []) + Seeds(events[1..])
  }

  lemma {:induction false} EventsConcat(mac: Drbg.Mac, d: Option<Drbg.State>, a: seq<Event>, b: seq<Event>)
    requires Drbg.Is32(mac)
    ensures Replay(mac, d, a + b) == Replay(mac, Replay(mac, d, a), b)
    ensures Given(mac, d, a + b) == Given(mac, d, a) + Given(mac, Replay(mac, d, a), b)
    ensures Seeds(a + b) == Seeds(a) + Seeds(b)
    decreases |a|
  {
    hide Next, Gives;
    if a == [] {
      assert a + b == b;
    } else {
      assert (a + b)[0] == a[0] && (a + b)[1..] == a[1..] + b;
      EventsConcat(mac, Next(mac, d, a[0]), a[1..], b);
    }
  }

  lemma OneEvent(mac: Drbg.Mac, d: Option<Drbg.State>, e: Event)
    requires Drbg.Is32(mac)
    ensures Replay(mac, d, [e]) == Next(mac, d, e) && Given(mac, d, [e]) == Gives(mac, d, e)
    ensures Seeds([e]) == if e.Entropy? then [e.seed] else []
  {
    hide Next, Gives;
    assert [e][1..] == [];
  }

  // ---------- the events of an operation ----------

  /** What these events do: to the generator, and the bytes and entropy that passed. */
  ghost predicate Leads(mac: Drbg.Mac, d: Option<Drbg.State>, events: seq<Event>, d': Option<Drbg.State>,
                        bytes: ByteString, seeds: seq<ByteString>)
    requires Drbg.Is32(mac)
  {
    Replay(mac, d, events) == d' && Given(mac, d, events) == bytes && Seeds(events) == seeds
  }

  lemma Joined(mac: Drbg.Mac, d: Option<Drbg.State>, a: seq<Event>, m: Option<Drbg.State>, x: ByteString,
               s: seq<ByteString>, b: seq<Event>, d': Option<Drbg.State>, y: ByteString, t: seq<ByteString>)
    requires Drbg.Is32(mac) && Leads(mac, d, a, m, x, s) && Leads(mac, m, b, d', y, t)
    ensures Leads(mac, d, a + b, d', x + y, s + t)
  {
    hide Replay, Given, Seeds;
    EventsConcat(mac, d, a, b);
  }

  /** The seed taken if the pool was spent on the way. */
  function Spent(sha: Hash, pool: ByteString, before: nat, after: nat): seq<ByteString> {
    if after > before then [sha(pool)] else []
  }

  lemma ReseedEvents(sha: Hash, mac: Drbg.Mac, s: State) returns (events: seq<Event>)
    requires Drbg.Is32(mac) && Invariant(s) && s.drbg.Some?
    ensures var r := AfterReseed(sha, mac, s);
            Leads(mac, s.drbg, events, r.drbg, [], Spent(sha, s.pool.bytes, s.reseeds, r.reseeds))
  {
    hide Drbg.Reseeded, Drbg.Seeded;
    events := if Ready(s.pool) then [Entropy(sha(s.pool.bytes))] else [];
    OneEvent(mac, s.drbg, Entropy(sha(s.pool.bytes)));
  }

  lemma ChunkEvents(mac: Drbg.Mac, s: State, n: nat)
    requires Drbg.Is32(mac) && Invariant(s) && s.drbg.Some? && !Due(s) && n <= CHUNK
    ensures var r := OneChunk(mac, s, n); Leads(mac, s.drbg, [Output(n)], r.state.drbg, r.bytes, [])
  {
    hide Drbg.Blocks, Drbg.Iterated, Drbg.Updated;
    OneEvent(mac, s.drbg, Output(n));
  }

  lemma RefreshEvents(sha: Hash, mac: Drbg.Mac, s: State) returns (events: seq<Event>)
    requires Drbg.Is32(mac) && Invariant(s) && s.drbg.Some? && Refreshed(sha, mac, s).Some?
    ensures var r := Refreshed(sha, mac, s).value;
            Leads(mac, s.drbg, events, r.drbg, [], Spent(sha, s.pool.bytes, s.reseeds, r.reseeds))
  {
    hide AfterReseed, Leads;
    if Due(s) {
      events := ReseedEvents(sha, mac, s);
    } else {
      events := [];
      NoEvents(mac, s.drbg);
    }
  }

  lemma NoEvents(mac: Drbg.Mac, d: Option<Drbg.State>)
    requires Drbg.Is32(mac)
    ensures Leads(mac, d, [], d, [], [])
  {
  }

  /** The pool is spent at most once, and as it was. */
  lemma SpentOnce(sha: Hash, mac: Drbg.Mac, s: State, r: State, t: State)
    requires Drbg.Is32(mac) && Invariant(s) && s.drbg.Some? && r.reseeds >= s.reseeds
    requires r.pool == (if r.reseeds > s.reseeds then Emptied(s.pool) else s.pool)
    requires t.reseeds >= r.reseeds && (t.reseeds > r.reseeds ==> Ready(r.pool))
    ensures Spent(sha, s.pool.bytes, s.reseeds, r.reseeds) + Spent(sha, r.pool.bytes, r.reseeds, t.reseeds)
            == Spent(sha, s.pool.bytes, s.reseeds, t.reseeds)
  {
  }

  lemma RefreshPool(sha: Hash, mac: Drbg.Mac, s: State)
    requires Drbg.Is32(mac) && Invariant(s) && s.drbg.Some? && Refreshed(sha, mac, s).Some?
    ensures var r := Refreshed(sha, mac, s).value;
            r.reseeds >= s.reseeds && r.pool == (if r.reseeds > s.reseeds then Emptied(s.pool) else s.pool)
  {
  }

  lemma {:induction false} ChunksEvents(sha: Hash, mac: Drbg.Mac, s: State, n: nat) returns (events: seq<Event>)
    requires Drbg.Is32(mac) && Invariant(s) && s.drbg.Some?
    ensures var r := Chunks(sha, mac, s, n);
            Leads(mac, s.drbg, events, r.state.drbg, r.bytes, Spent(sha, s.pool.bytes, s.reseeds, r.state.reseeds))
    decreases n
  {
    hide OneChunk, Refreshed, Leads, Spent, Emptied, Ready, Invariant;
    NoEvents(mac, s.drbg);
    NothingSpent(sha, s);
    events := [];
    if n > 0 {
      RefreshedKeeps(sha, mac, s);
      var s1 := Refreshed(sha, mac, s);
      if s1.Some? {
        var size := if n < CHUNK then n else CHUNK;
        var first := OneChunk(mac, s1.value, size);
        var rest := Chunks(sha, mac, first.state, n - |first.bytes|);
        var a := RefreshEvents(sha, mac, s);
        ChunkEvents(mac, s1.value, size);
        var c := ChunksEvents(sha, mac, first.state, n - |first.bytes|);
        RefreshPool(sha, mac, s);
        ChunksPool(sha, mac, first.state, n - |first.bytes|);
        SpentOnce(sha, mac, s, first.state, rest.state);
        var spent, later := Spent(sha, s.pool.bytes, s.reseeds, first.state.reseeds),
                            Spent(sha, first.state.pool.bytes, first.state.reseeds, rest.state.reseeds);
        Joined(mac, s.drbg, a, s1.value.drbg, [], spent, [Output(size)], first.state.drbg, first.bytes, []);
        assert spent + [] == spent && [] + first.bytes == first.bytes;
        Joined(mac, s.drbg, a + [Output(size)], first.state.drbg, first.bytes, spent, c, rest.state.drbg, rest.bytes,
               later);
        events := a + [Output(size)] + c;
      }
    }
  }

  lemma NothingSpent(sha: Hash, s: State)
    ensures Spent(sha, s.pool.bytes, s.reseeds, s.reseeds) == []
  {
  }

  lemma AnswerEvents(sha: Hash, mac: Drbg.Mac, s: State, n: nat) returns (events: seq<Event>)
    requires Drbg.Is32(mac) && Invariant(s)
    ensures var r := Answered(sha, mac, s, n);
            Leads(mac, s.drbg, events, r.state.drbg, r.bytes, Spent(sha, s.pool.bytes, s.reseeds, r.state.reseeds))
  {
    hide Chunks, Refreshed, Leads, Spent, Emptied, Ready, Invariant;
    NoEvents(mac, s.drbg);
    NothingSpent(sha, s);
    events := [];
    if s.drbg.Some? {
      RefreshedKeeps(sha, mac, s);
      var s1 := Refreshed(sha, mac, s);
      if s1.Some? {
        var rest := Chunks(sha, mac, s1.value, n);
        var a := RefreshEvents(sha, mac, s);
        var b := ChunksEvents(sha, mac, s1.value, n);
        RefreshPool(sha, mac, s);
        ChunksPool(sha, mac, s1.value, n);
        SpentOnce(sha, mac, s, s1.value, rest.state);
        Joined(mac, s.drbg, a, s1.value.drbg, [], Spent(sha, s.pool.bytes, s.reseeds, s1.value.reseeds), b,
               rest.state.drbg, rest.bytes, Spent(sha, s1.value.pool.bytes, s1.value.reseeds, rest.state.reseeds));
        assert [] + rest.bytes == rest.bytes;
        events := a + b;
      }
    }
  }

  /** The pool an operation would spend: with its own sample in it, if it is one. */
  function PoolBytes(s: State, op: Operation): ByteString {
    if op.Sample? then Sampled(s.pool, op.source, op.sample).bytes else s.pool.bytes
  }

  ghost function OpBytes(sha: Hash, mac: Drbg.Mac, s: State, op: Operation): ByteString
    requires Drbg.Is32(mac) && Invariant(s)
  {
    if op.Request? then Answered(sha, mac, s, op.n).bytes else []
  }

  lemma SampleEvents(sha: Hash, mac: Drbg.Mac, s: State, op: Operation) returns (events: seq<Event>)
    requires Drbg.Is32(mac) && Invariant(s) && op.Sample?
    ensures var r := AfterSample(sha, mac, s, op.source, op.sample);
            Leads(mac, s.drbg, events, r.drbg, [], Spent(sha, PoolBytes(s, op), s.reseeds, r.reseeds))
  {
    hide Drbg.Seeded, Sampled;
    var r := AfterSample(sha, mac, s, op.source, op.sample);
    var e := Entropy(sha(PoolBytes(s, op)));
    events := if r.reseeds > s.reseeds then [e] else [];
    OneEvent(mac, s.drbg, e);
    NoEvents(mac, s.drbg);
  }

  lemma OpEvents(sha: Hash, mac: Drbg.Mac, s: State, op: Operation) returns (events: seq<Event>)
    requires Drbg.Is32(mac) && Invariant(s)
    ensures var r := Apply(sha, mac, s, op);
            Leads(mac, s.drbg, events, r.drbg, OpBytes(sha, mac, s, op),
                  Spent(sha, PoolBytes(s, op), s.reseeds, r.reseeds))
  {
    hide Answered, AfterSample, Leads, Spent, Sampled;
    match op
    case Sample(_, _) => events := SampleEvents(sha, mac, s, op);
    case Request(n) => events := AnswerEvents(sha, mac, s, n);
    case Reseed =>
      if s.drbg.Some? {
        hide AfterReseed;
        events := ReseedEvents(sha, mac, s);
      } else {
        events := [];
        NoEvents(mac, s.drbg);
        NothingSpent(sha, s);
      }
  }

  // ---------- every run ----------

  /** All the bytes of a run. */
  ghost function RunBytes(sha: Hash, mac: Drbg.Mac, s: State, ops: seq<Operation>): ByteString
    requires Drbg.Is32(mac) && Invariant(s)
    decreases |ops|
  {
    if ops == [] then [] else
    ApplyKeeps(sha, mac, s, ops[0]);
    OpBytes(sha, mac, s, ops[0]) + RunBytes(sha, mac, Apply(sha, mac, s, ops[0]), ops[1..])
  }

  /** The credited samples of each spending, in order; `kept` are those at hand at the start. */
  ghost function Spendings(sha: Hash, mac: Drbg.Mac, s: State, before: seq<Operation>, ops: seq<Operation>,
                           kept: seq<Operation>): seq<seq<Operation>>
    requires Drbg.Is32(mac) && Invariant(s)
    decreases |ops|
  {
    if ops == [] then [] else
    ApplyKeeps(sha, mac, s, ops[0]);
    var s', fed := Apply(sha, mac, s, ops[0]), before + [ops[0]];
    var now := if Credited(fed) then kept + [ops[0]] else kept;
    if s'.reseeds > s.reseeds then [now] + Spendings(sha, mac, s', fed, ops[1..], [])
    else Spendings(sha, mac, s', fed, ops[1..], now)
  }

  /** The hashes of their samples. */
  function SeedsOf(sha: Hash, spendings: seq<seq<Operation>>): seq<ByteString> {
    seq(|spendings|, i requires 0 <= i < |spendings| => sha(Samples(spendings[i])))
  }

  /** The pool an operation finds, or makes with its sample, holds the credited samples. */
  lemma PoolIsKept(s: State, before: seq<Operation>, kept: seq<Operation>, op: Operation)
    requires PoolFollows(s.pool, before) && Holds(s.pool, kept)
    ensures PoolBytes(s, op) == Samples(if Credited(before + [op]) then kept + [op] else kept)
  {
    hide PoolFollows, Credited, Samples, Sampled;
    if op.Sample? { SampleKept(s.pool, before, kept, op); } else { OtherKept(s.pool, before, op); }
  }

  lemma SeedsFirst(sha: Hash, now: seq<Operation>, more: seq<seq<Operation>>)
    ensures SeedsOf(sha, [now] + more) == [sha(Samples(now))] + SeedsOf(sha, more)
  {
    hide Samples;
  }

  lemma {:induction false} RunEvents(sha: Hash, mac: Drbg.Mac, s: State, before: seq<Operation>, ops: seq<Operation>,
                                     kept: seq<Operation>) returns (events: seq<Event>)
    requires Drbg.Is32(mac) && Invariant(s) && PoolFollows(s.pool, before) && Holds(s.pool, kept)
    ensures Leads(mac, s.drbg, events, Run(sha, mac, s, ops).drbg, RunBytes(sha, mac, s, ops),
                  SeedsOf(sha, Spendings(sha, mac, s, before, ops, kept)))
    decreases |ops|
  {
    hide Apply, PoolFollows, Holds, Credited, Invariant, Leads, OpBytes, PoolBytes, Samples;
    if ops == [] {
      NoEvents(mac, s.drbg);
      assert SeedsOf(sha, []) == [];
      events := [];
    } else {
      var op := ops[0];
      ApplyKeeps(sha, mac, s, op);
      ApplyPool(sha, mac, s, before, kept, op);
      PoolIsKept(s, before, kept, op);
      var s', fed := Apply(sha, mac, s, op), before + [op];
      var now := if Credited(fed) then kept + [op] else kept;
      var later := if s'.reseeds > s.reseeds then [] else now;
      var a := OpEvents(sha, mac, s, op);
      var b := RunEvents(sha, mac, s', fed, ops[1..], later);
      var more := Spendings(sha, mac, s', fed, ops[1..], later);
      SeedsFirst(sha, now, more);
      Joined(mac, s.drbg, a, s'.drbg, OpBytes(sha, mac, s, op), Spent(sha, PoolBytes(s, op), s.reseeds, s'.reseeds), b,
             Run(sha, mac, s', ops[1..]).drbg, RunBytes(sha, mac, s', ops[1..]), SeedsOf(sha, more));
      assert s'.reseeds <= s.reseeds ==> [] + SeedsOf(sha, more) == SeedsOf(sha, more);
      events := a + b;
    }
  }

  /** Over every run from the start the generator, and every byte it gave, are those of a
      generator seeded with the hash of the samples credited up to the first spending and
      reseeded with the hashes of those credited up to each later one. */
  lemma FromCreditedSamples(sha: Hash, mac: Drbg.Mac, ops: seq<Operation>) returns (events: seq<Event>)
    requires Drbg.Is32(mac)
    ensures Replay(mac, None, events) == Run(sha, mac, New(), ops).drbg
    ensures Given(mac, None, events) == RunBytes(sha, mac, New(), ops)
    ensures Seeds(events) == SeedsOf(sha, Spendings(sha, mac, New(), [], ops, []))
  {
    NothingOffered();
    hide Run, RunBytes, Spendings, PoolFollows;
    events := RunEvents(sha, mac, New(), [], ops, []);
  }

  // ---------- when the samples are spent ----------

  /** The pool is spent only with 256 bits of credit, and at once when there is no generator yet. */
  lemma SpendsReady(sha: Hash, mac: Drbg.Mac, s: State, before: seq<Operation>, kept: seq<Operation>, op: Operation)
    requires Drbg.Is32(mac) && Invariant(s) && PoolFollows(s.pool, before) && Holds(s.pool, kept)
    ensures var s' := Apply(sha, mac, s, op);
            && (s'.reseeds > s.reseeds ==>
                TotalCredit(if Credited(before + [op]) then kept + [op] else kept) >= 256 && s'.drbg.Some?)
            && (s'.reseeds <= s.reseeds ==> s'.drbg.Some? == s.drbg.Some?)
  {
    hide Answered, PoolFollows, Credited, Samples, TotalCredit, Sampled, Invariant;
    match op
    case Sample(source, sample) => SampleKept(s.pool, before, kept, op);
    case Request(n) =>
      AnswerPool(sha, mac, s, n);
      AnswerSeeded(sha, mac, s, n);
      OtherKept(s.pool, before, op);
    case Reseed => OtherKept(s.pool, before, op);
  }

  lemma AnswerSeeded(sha: Hash, mac: Drbg.Mac, s: State, n: nat)
    requires Drbg.Is32(mac) && Invariant(s)
    ensures Answered(sha, mac, s, n).state.drbg.Some? <==> s.drbg.Some?
  {
    hide Chunks, Refreshed;
    if s.drbg.Some? { RefreshedKeeps(sha, mac, s); }
  }

  predicate AllReady(spendings: seq<seq<Operation>>) { forall sp <- spendings :: TotalCredit(sp) >= 256 }

  lemma {:induction false} RunSpendsReady(sha: Hash, mac: Drbg.Mac, s: State, before: seq<Operation>,
                                          ops: seq<Operation>, kept: seq<Operation>)
    requires Drbg.Is32(mac) && Invariant(s) && PoolFollows(s.pool, before) && Holds(s.pool, kept)
    ensures var spendings := Spendings(sha, mac, s, before, ops, kept);
            && AllReady(spendings)
            && (Run(sha, mac, s, ops).drbg.Some? <==> s.drbg.Some? || spendings != [])
    decreases |ops|
  {
    hide Apply, PoolFollows, Holds, Credited, Invariant, TotalCredit;
    if ops != [] {
      var op := ops[0];
      ApplyKeeps(sha, mac, s, op);
      ApplyPool(sha, mac, s, before, kept, op);
      SpendsReady(sha, mac, s, before, kept, op);
      var s', fed := Apply(sha, mac, s, op), before + [op];
      var now := if Credited(fed) then kept + [op] else kept;
      RunSpendsReady(sha, mac, s', fed, ops[1..], if s'.reseeds > s.reseeds then [] else now);
    }
  }

  /** Over every run no samples are spent with less than 256 bits of credit; and there is a
      generator as soon as the credited samples have that much, and not before. */
  lemma SpentWhenReady(sha: Hash, mac: Drbg.Mac, ops: seq<Operation>)
    requires Drbg.Is32(mac)
    ensures var s, spendings := Run(sha, mac, New(), ops), Spendings(sha, mac, New(), [], ops, []);
            && (forall sp <- spendings :: TotalCredit(sp) >= 256)
            && (s.drbg.Some? <==> spendings != [])
            && (s.drbg.None? ==> TotalCredit(Kept(sha, mac, New(), [], ops, [])) < 256)
  {
    hide Run, Spendings, PoolFollows, Kept;
    NothingOffered();
    RunSpendsReady(sha, mac, New(), [], ops, []);
    CreditOverRuns(sha, mac, ops);
  }

  /** Different samples give different generators: two that are seeded with the same key exhibit a
      collision of the hash or of the keyed hash. */
  lemma SamplesSeparate(sha: Hash, mac: Drbg.Mac, a: ByteString, b: ByteString)
    requires Drbg.Is32(mac) && a != b && Drbg.Seeded(mac, sha(a)).key == Drbg.Seeded(mac, sha(b)).key
    ensures sha(a) == sha(b) || exists k, m, k', m' :: Drbg.Collide(mac, k, m, k', m')
  {
    if sha(a) != sha(b) { Drbg.SeedsSeparate(mac, sha(a), sha(b)); }
  }
}
