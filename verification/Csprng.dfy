/** The kernel's random generator (crates/otter-crypto/src/csprng.rs with entropy.rs): when it
    seeds, when it reseeds, and how much it may produce in between. */
module Csprng {
  import opened Bytes
  import opened Options
  import opened HealthTests
  import Drbg

  const REQUESTS: nat := 0x1_0000
  const OUTPUT: nat := 0x10_0000
  const CHUNK: nat := 0x1_0000
  const SEED_BITS: nat := 256
  const U32_MAX: nat := 0xFFFF_FFFF

  type Hash = ByteString -> ByteString

  /** Collected samples, their credit, and each source's tests. */
  datatype Pool = Pool(bytes: ByteString, credited: nat, sources: map<Source, Health>)

  datatype State = State(pool: Pool, drbg: Option<Drbg.State>, bytes: nat, calls: nat, reseeds: nat)

  // ---------- the pool ----------

  function HealthOf(p: Pool, s: Source): Health { if s in p.sources then p.sources[s] else NewHealth() }

  /** A sample is kept and credited only if its source passes; the credit saturates. */
  function Sampled(p: Pool, s: Source, sample: Byte): Pool {
    var (health, failure) := Test(s, HealthOf(p, s), sample);
    var sources := p.sources[s := health];
    if failure.Some? then p.(sources := sources) else
    var credit := p.credited + Credit(s);
    Pool(p.bytes + [sample], if credit > U32_MAX then U32_MAX else credit, sources)
  }

  predicate Ready(p: Pool) { p.credited >= SEED_BITS }

  function Emptied(p: Pool): Pool { p.(bytes := [], credited := 0) }

  // ---------- what the operations do to the state ----------

  predicate Due(s: State) { s.calls >= REQUESTS || s.bytes >= OUTPUT }

  /** The first seeding, as soon as the pool has the credit. */
  function AfterSample(sha: Hash, mac: Drbg.Mac, s: State, source: Source, sample: Byte): State {
    var s1 := s.(pool := Sampled(s.pool, source, sample));
    if s1.drbg.None? && Ready(s1.pool)
    then State(Emptied(s1.pool), Some(Drbg.Seeded(mac, sha(s1.pool.bytes))), 0, 0, s1.reseeds + 1)
    else s1
  }

  /** A ready pool is spent, on the generator if there is one. */
  function AfterReseed(sha: Hash, mac: Drbg.Mac, s: State): State {
    if !Ready(s.pool) then s
    else if s.drbg.None? then s.(pool := Emptied(s.pool))
    else State(Emptied(s.pool), Some(Drbg.Reseeded(mac, s.drbg.value, sha(s.pool.bytes))), 0, 0, s.reseeds + 1)
  }

  /** Whether the request was met, the bytes written, and in how many generator requests. */
  datatype Served = Served(ok: bool, bytes: ByteString, requests: nat, state: State)

  /** The threshold check before each chunk: reseed if due, or fail. */
  function Refreshed(sha: Hash, mac: Drbg.Mac, s: State): Option<State> {
    if !Due(s) then Some(s) else if Ready(s.pool) then Some(AfterReseed(sha, mac, s)) else None
  }

  /** What every run keeps. */
  predicate Invariant(s: State) {
    && (s.drbg.Some? ==> s.drbg.value.counter == s.calls + 1 && Drbg.Sized(s.drbg.value))
    && (Ready(s.pool) ==> s.drbg.Some?)
    && s.calls <= REQUESTS && s.bytes < OUTPUT + CHUNK && s.pool.credited <= U32_MAX
  }

  lemma RefreshedKeeps(sha: Hash, mac: Drbg.Mac, s: State)
    requires Invariant(s) && Drbg.Is32(mac) && s.drbg.Some?
    ensures var r := Refreshed(sha, mac, s);
            r.Some? ==> Invariant(r.value) && r.value.drbg.Some? && !Due(r.value)
  {
  }

  /** One chunk from a generator that is not due. */
  ghost function OneChunk(mac: Drbg.Mac, s: State, n: nat): (r: Served)
    requires Drbg.Is32(mac) && Invariant(s) && s.drbg.Some? && !Due(s) && n <= CHUNK
    ensures Invariant(r.state) && r.state.drbg.Some? && |r.bytes| == n && r.ok
    ensures r.state.bytes == s.bytes + n && r.state.calls == s.calls + 1 && r.state.reseeds == s.reseeds
    ensures r.state.pool == s.pool
  {
    var g := Drbg.Request(mac, s.drbg.value, n, []);
    Drbg.RequestPrefix(mac, s.drbg.value, n, n, []);
    Served(true, g.bytes, 1, s.(drbg := Some(g.next), bytes := s.bytes + n, calls := s.calls + 1))
  }

  /** Chunk after chunk of at most 64 KiB, thresholds checked before each. */
  ghost function Chunks(sha: Hash, mac: Drbg.Mac, s: State, n: nat): (r: Served)
    requires Drbg.Is32(mac) && Invariant(s) && s.drbg.Some?
    ensures Invariant(r.state) && r.state.drbg.Some? && (r.ok ==> |r.bytes| == n)
    decreases n
  {
    if n == 0 then Served(true, [], 0, s) else
    RefreshedKeeps(sha, mac, s);
    match Refreshed(sha, mac, s)
    case None => Served(false, [], 0, s)
    case Some(s1) =>
      var first := OneChunk(mac, s1, if n < CHUNK then n else CHUNK);
      var rest := Chunks(sha, mac, first.state, n - |first.bytes|);
      Served(rest.ok, first.bytes + rest.bytes, rest.requests + 1, rest.state)
  }

  /** A whole request: nothing without a generator, and one threshold check even for no bytes. */
  ghost function Answered(sha: Hash, mac: Drbg.Mac, s: State, n: nat): (r: Served)
    requires Drbg.Is32(mac) && Invariant(s)
    ensures Invariant(r.state) && (r.ok ==> |r.bytes| == n)
  {
    if s.drbg.None? then Served(false, [], 0, s) else
    RefreshedKeeps(sha, mac, s);
    match Refreshed(sha, mac, s)
    case None => Served(false, [], 0, s)
    case Some(s1) => Chunks(sha, mac, s1, n)
  }

  // ---------- every run ----------

  datatype Operation = Sample(source: Source, sample: Byte) | Request(n: nat) | Reseed

  function New(): State { State(Pool([], 0, map[]), None, 0, 0, 0) }

  ghost function Apply(sha: Hash, mac: Drbg.Mac, s: State, op: Operation): State
    requires Drbg.Is32(mac) && Invariant(s)
  {
    match op
    case Sample(source, sample) => AfterSample(sha, mac, s, source, sample)
    case Request(n) => Answered(sha, mac, s, n).state
    case Reseed => AfterReseed(sha, mac, s)
  }

  lemma ApplyKeeps(sha: Hash, mac: Drbg.Mac, s: State, op: Operation)
    requires Drbg.Is32(mac) && Invariant(s)
    ensures Invariant(Apply(sha, mac, s, op))
  {
  }

  ghost function Run(sha: Hash, mac: Drbg.Mac, s: State, ops: seq<Operation>): (r: State)
    requires Drbg.Is32(mac) && Invariant(s)
    ensures Invariant(r)
    decreases |ops|
  {
    if ops == [] then s else
    ApplyKeeps(sha, mac, s, ops[0]);
    Run(sha, mac, Apply(sha, mac, s, ops[0]), ops[1..])
  }

  /** Bytes and generator requests of a run. */
  ghost function Produced(sha: Hash, mac: Drbg.Mac, s: State, ops: seq<Operation>): (nat, nat)
    requires Drbg.Is32(mac) && Invariant(s)
    decreases |ops|
  {
    if ops == [] then (0, 0) else
    ApplyKeeps(sha, mac, s, ops[0]);
    var (b, c) := Produced(sha, mac, Apply(sha, mac, s, ops[0]), ops[1..]);
    if ops[0].Request? then
      var r := Answered(sha, mac, s, ops[0].n);
      (b + |r.bytes|, c + r.requests)
    else (b, c)
  }

  lemma {:induction false} ChunksAccount(sha: Hash, mac: Drbg.Mac, s: State, n: nat)
    requires Drbg.Is32(mac) && Invariant(s) && s.drbg.Some?
    ensures var r := Chunks(sha, mac, s, n);
            && r.state.reseeds >= s.reseeds
            && (r.state.reseeds == s.reseeds ==>
                  r.state.bytes == s.bytes + |r.bytes| && r.state.calls == s.calls + r.requests)
    decreases n
  {
    hide OneChunk;
    if n > 0 {
      RefreshedKeeps(sha, mac, s);
      var s1 := Refreshed(sha, mac, s);
      if s1.Some? {
        var first := OneChunk(mac, s1.value, if n < CHUNK then n else CHUNK);
        ChunksAccount(sha, mac, first.state, n - |first.bytes|);
        OneChunkCounts(mac, s1.value, if n < CHUNK then n else CHUNK);
      }
    }
  }

  lemma OneChunkCounts(mac: Drbg.Mac, s: State, n: nat)
    requires Drbg.Is32(mac) && Invariant(s) && s.drbg.Some? && !Due(s) && n <= CHUNK
    ensures OneChunk(mac, s, n).requests == 1
  {
  }

  lemma AnswerAccount(sha: Hash, mac: Drbg.Mac, s: State, n: nat)
    requires Drbg.Is32(mac) && Invariant(s)
    ensures var r := Answered(sha, mac, s, n);
            && r.state.reseeds >= s.reseeds
            && (r.state.reseeds == s.reseeds ==>
                  r.state.bytes == s.bytes + |r.bytes| && r.state.calls == s.calls + r.requests)
  {
    hide Chunks;
    if s.drbg.Some? {
      RefreshedKeeps(sha, mac, s);
      var s1 := Refreshed(sha, mac, s);
      if s1.Some? { ChunksAccount(sha, mac, s1.value, n); }
    }
  }

  lemma {:induction false} RunAccount(sha: Hash, mac: Drbg.Mac, s: State, ops: seq<Operation>)
    requires Drbg.Is32(mac) && Invariant(s)
    ensures var r, (b, c) := Run(sha, mac, s, ops), Produced(sha, mac, s, ops);
            && r.reseeds >= s.reseeds
            && (r.reseeds == s.reseeds ==> r.bytes == s.bytes + b && r.calls == s.calls + c)
    decreases |ops|
  {
    hide Answered;
    if ops != [] {
      ApplyKeeps(sha, mac, s, ops[0]);
      if ops[0].Request? { AnswerAccount(sha, mac, s, ops[0].n); }
      RunAccount(sha, mac, Apply(sha, mac, s, ops[0]), ops[1..]);
    }
  }

  /** However a run is made up, between two reseeds it makes at most 2^16 requests for fewer than 2^20 + 2^16 bytes. */
  lemma BetweenReseeds(sha: Hash, mac: Drbg.Mac, before: seq<Operation>, ops: seq<Operation>)
    requires Drbg.Is32(mac)
    ensures var s := Run(sha, mac, New(), before);
            var (bytes, requests) := Produced(sha, mac, s, ops);
            Run(sha, mac, s, ops).reseeds == s.reseeds ==> requests <= 0x1_0000 && bytes < 0x10_0000 + 0x1_0000
  {
    RunAccount(sha, mac, Run(sha, mac, New(), before), ops);
  }

  // ---------- what is in the pool ----------

  /** A request leaves the pool alone, or empties it for a reseed. */
  lemma AnswerPool(sha: Hash, mac: Drbg.Mac, s: State, n: nat)
    requires Drbg.Is32(mac) && Invariant(s)
    ensures var r := Answered(sha, mac, s, n).state;
            && r.reseeds >= s.reseeds && (r.reseeds > s.reseeds ==> Ready(s.pool) && r.drbg.Some?)
            && r.pool == if r.reseeds > s.reseeds then Emptied(s.pool) else s.pool
  {
    hide Chunks;
    if s.drbg.Some? {
      RefreshedKeeps(sha, mac, s);
      var s1 := Refreshed(sha, mac, s);
      if s1.Some? { ChunksPool(sha, mac, s1.value, n); }
    }
  }

  lemma {:induction false} ChunksPool(sha: Hash, mac: Drbg.Mac, s: State, n: nat)
    requires Drbg.Is32(mac) && Invariant(s) && s.drbg.Some?
    ensures var r := Chunks(sha, mac, s, n).state;
            && r.reseeds >= s.reseeds && (r.reseeds > s.reseeds ==> Ready(s.pool))
            && r.pool == if r.reseeds > s.reseeds then Emptied(s.pool) else s.pool
    decreases n
  {
    hide OneChunk;
    if n > 0 {
      RefreshedKeeps(sha, mac, s);
      var s1 := Refreshed(sha, mac, s);
      if s1.Some? {
        var first := OneChunk(mac, s1.value, if n < CHUNK then n else CHUNK);
        ChunksPool(sha, mac, first.state, n - |first.bytes|);
      }
    }
  }

  /** The pool's credit goes down only to seed or reseed the generator: no ready pool is thrown away. */
  lemma PoolOnlySpentToSeed(sha: Hash, mac: Drbg.Mac, s: State, op: Operation)
    requires Drbg.Is32(mac) && Invariant(s)
    ensures var n := Apply(sha, mac, s, op);
            n.pool.credited < s.pool.credited ==> n.reseeds > s.reseeds && n.drbg.Some?
  {
    hide Answered;
    if op.Request? { AnswerPool(sha, mac, s, op.n); }
  }

  /** The samples a source offered among these operations, in order. */
  function Offered(ops: seq<Operation>, source: Source): ByteString {
    if ops == [] then [] else
    var last := ops[|ops| - 1];
    Offered(ops[..|ops| - 1], source) + if last.Sample? && last.source == source then [last.sample] else []
  }

  lemma OfferedNext(before: seq<Operation>, op: Operation, source: Source)
    ensures op.Sample? && op.source == source ==>
              Offered(before + [op], source) == Offered(before, source) + [op.sample]
    ensures !(op.Sample? && op.source == source) ==> Offered(before + [op], source) == Offered(before, source)
  {
    assert (before + [op])[..|before|] == before;
  }

  /** Every source's tests are those of all the samples it offered. */
  ghost predicate PoolFollows(p: Pool, ops: seq<Operation>) {
    forall source: Source :: Follows(source, HealthOf(p, source), Offered(ops, source))
  }

  /** Whether the last of these operations is a sample whose source passed every test so far. */
  predicate Credited(ops: seq<Operation>) {
    |ops| > 0 && var op := ops[|ops| - 1]; op.Sample? && Accepted(op.source, Offered(ops, op.source))
  }

  /** The credited samples since the pool was last spent, on top of those in `kept`. */
  ghost function Kept(sha: Hash, mac: Drbg.Mac, s: State, before: seq<Operation>, ops: seq<Operation>,
                      kept: seq<Operation>): seq<Operation>
    requires Drbg.Is32(mac) && Invariant(s)
    decreases |ops|
  {
    if ops == [] then kept else
    ApplyKeeps(sha, mac, s, ops[0]);
    var s', fed := Apply(sha, mac, s, ops[0]), before + [ops[0]];
    Kept(sha, mac, s', fed, ops[1..],
         if s'.reseeds > s.reseeds then [] else if Credited(fed) then kept + [ops[0]] else kept)
  }

  function Samples(kept: seq<Operation>): ByteString {
    if kept == [] then [] else
    var last := kept[|kept| - 1];
    Samples(kept[..|kept| - 1]) + if last.Sample? then [last.sample] else []
  }

  function TotalCredit(kept: seq<Operation>): nat {
    if kept == [] then 0 else
    var last := kept[|kept| - 1];
    TotalCredit(kept[..|kept| - 1]) + if last.Sample? then Credit(last.source) else 0
  }

  predicate Holds(p: Pool, kept: seq<Operation>) {
    && p.bytes == Samples(kept)
    && p.credited == if TotalCredit(kept) > 0xFFFF_FFFF then 0xFFFF_FFFF else TotalCredit(kept)
  }

  lemma OneMoreKept(kept: seq<Operation>, op: Operation)
    requires op.Sample?
    ensures Samples(kept + [op]) == Samples(kept) + [op.sample]
    ensures TotalCredit(kept + [op]) == TotalCredit(kept) + Credit(op.source)
  {
    assert (kept + [op])[..|kept|] == kept;
  }

  /** A sample is pooled and credited exactly if its source passed every test so far, this one
      included; the credit saturates. */
  lemma SampleKept(p: Pool, before: seq<Operation>, kept: seq<Operation>, op: Operation)
    requires op.Sample? && PoolFollows(p, before) && Holds(p, kept)
    ensures var q := Sampled(p, op.source, op.sample);
            PoolFollows(q, before + [op]) && Holds(q, if Credited(before + [op]) then kept + [op] else kept)
  {
    hide Test, Follows, Accepted, Offered, Samples, TotalCredit;
    var q := Sampled(p, op.source, op.sample);
    TestFollows(op.source, HealthOf(p, op.source), Offered(before, op.source), op.sample);
    forall source: Source ensures Follows(source, HealthOf(q, source), Offered(before + [op], source)) {
      OfferedNext(before, op, source);
    }
    OfferedNext(before, op, op.source);
    OneMoreKept(kept, op);
  }

  lemma OtherKept(p: Pool, before: seq<Operation>, op: Operation)
    requires !op.Sample? && PoolFollows(p, before)
    ensures PoolFollows(p, before + [op]) && PoolFollows(Emptied(p), before + [op]) && !Credited(before + [op])
  {
    hide Follows, Offered;
    forall source: Source ensures Follows(source, HealthOf(p, source), Offered(before + [op], source)) {
      OfferedNext(before, op, source);
    }
  }

  /** One operation keeps the pool in step with what was offered and credited. */
  lemma ApplyPool(sha: Hash, mac: Drbg.Mac, s: State, before: seq<Operation>, kept: seq<Operation>, op: Operation)
    requires Drbg.Is32(mac) && Invariant(s) && PoolFollows(s.pool, before) && Holds(s.pool, kept)
    ensures var s' := Apply(sha, mac, s, op);
            && PoolFollows(s'.pool, before + [op])
            && Holds(s'.pool, if s'.reseeds > s.reseeds then []
                              else if Credited(before + [op]) then kept + [op] else kept)
  {
    hide Answered, PoolFollows, Credited;
    if op.Sample? {
      SampleKept(s.pool, before, kept, op);
      SameSources(Sampled(s.pool, op.source, op.sample), before + [op]);
    } else {
      if op.Request? { AnswerPool(sha, mac, s, op.n); }
      OtherKept(s.pool, before, op);
    }
  }

  lemma SameSources(p: Pool, ops: seq<Operation>)
    ensures PoolFollows(p, ops) ==> PoolFollows(Emptied(p), ops)
  {
    hide Follows, Offered;
    assert forall source: Source :: HealthOf(Emptied(p), source) == HealthOf(p, source);
  }

  lemma {:induction false} RunPool(sha: Hash, mac: Drbg.Mac, s: State, before: seq<Operation>, ops: seq<Operation>,
                                   kept: seq<Operation>)
    requires Drbg.Is32(mac) && Invariant(s) && PoolFollows(s.pool, before) && Holds(s.pool, kept)
    ensures PoolFollows(Run(sha, mac, s, ops).pool, before + ops)
    ensures Holds(Run(sha, mac, s, ops).pool, Kept(sha, mac, s, before, ops, kept))
    decreases |ops|
  {
    hide Apply, PoolFollows, Holds, Credited, Invariant;
    if ops == [] {
      assert before + ops == before;
    } else {
      ApplyKeeps(sha, mac, s, ops[0]);
      ApplyPool(sha, mac, s, before, kept, ops[0]);
      var s', fed := Apply(sha, mac, s, ops[0]), before + [ops[0]];
      RunPool(sha, mac, s', fed, ops[1..],
              if s'.reseeds > s.reseeds then [] else if Credited(fed) then kept + [ops[0]] else kept);
      assert fed + ops[1..] == before + ops;
    }
  }

  /** After every run the pool holds exactly the samples credited since it was last spent, and
      their total credit, cut off at the largest 32-bit number. A source is healthy exactly if
      every sample it ever offered passed. */
  lemma CreditOverRuns(sha: Hash, mac: Drbg.Mac, ops: seq<Operation>)
    requires Drbg.Is32(mac)
    ensures var p := Run(sha, mac, New(), ops).pool;
            && Holds(p, Kept(sha, mac, New(), [], ops, []))
            && (forall source: Source :: HealthOf(p, source).healthy <==> Accepted(source, Offered(ops, source)))
  {
    hide Run, Kept, Accepted;
    assert PoolFollows(New().pool, []) by { NothingOffered(); }
    RunPool(sha, mac, New(), [], ops, []);
    assert [] + ops == ops;
    var p := Run(sha, mac, New(), ops).pool;
    forall source: Source ensures HealthOf(p, source).healthy <==> Accepted(source, Offered(ops, source)) {
      assert Follows(source, HealthOf(p, source), Offered(ops, source));
    }
  }

  lemma NothingOffered()
    ensures PoolFollows(New().pool, [])
  {
  }

  // ---------- when a request is met ----------

  /** Both thresholds are met before each of the chunks of n bytes. */
  predicate Fits(s: State, n: nat) {
    n > 0 ==> s.calls + (n - 1) / 0x1_0000 < 0x1_0000 && s.bytes + (n - 1) / 0x1_0000 * 0x1_0000 < 0x10_0000
  }

  /** What a generator can produce without reseeding: bytes that fit are always met, and with a
      pool that is not ready no others are. */
  lemma {:induction false} UndueServes(sha: Hash, mac: Drbg.Mac, s: State, n: nat)
    requires Drbg.Is32(mac) && Invariant(s) && s.drbg.Some?
    ensures Fits(s, n) ==> Chunks(sha, mac, s, n).ok
    ensures !Ready(s.pool) ==> (Chunks(sha, mac, s, n).ok <==> Fits(s, n))
    decreases n
  {
    hide OneChunk;
    if n > 0 && !Due(s) {
      var first := OneChunk(mac, s, if n < CHUNK then n else CHUNK);
      UndueServes(sha, mac, first.state, n - |first.bytes|);
      if n > CHUNK { OneChunkLess(n); }
    }
  }

  lemma OneChunkLess(n: nat)
    requires n > CHUNK
    ensures (n - CHUNK - 1) / CHUNK == (n - 1) / CHUNK - 1
  {
  }

  /** With a ready pool every request of at most 1 MiB is met. */
  lemma ReadyServes(sha: Hash, mac: Drbg.Mac, s: State, n: nat)
    requires Drbg.Is32(mac) && Invariant(s) && Ready(s.pool) && n <= 0x10_0000
    ensures Answered(sha, mac, s, n).ok
  {
    hide Chunks;
    RefreshedKeeps(sha, mac, s);
    var s1 := Refreshed(sha, mac, s).value;
    if Due(s) { UndueServes(sha, mac, s1, n); } else { ReadyChunks(sha, mac, s1, n); }
  }

  lemma {:induction false} ReadyChunks(sha: Hash, mac: Drbg.Mac, s: State, n: nat)
    requires Drbg.Is32(mac) && Invariant(s) && s.drbg.Some? && Ready(s.pool) && n <= OUTPUT
    ensures Chunks(sha, mac, s, n).ok
    decreases n
  {
    hide OneChunk;
    if n > 0 {
      RefreshedKeeps(sha, mac, s);
      var s1 := Refreshed(sha, mac, s).value;
      if Due(s) {
        UndueServes(sha, mac, s1, n);
      } else {
        var first := OneChunk(mac, s1, if n < CHUNK then n else CHUNK);
        ReadyChunks(sha, mac, first.state, n - |first.bytes|);
      }
    }
  }

  // ---------- the object ----------

  class Csprng {
    var pool: Pool
    var drbg: Option<Drbg.State>
    var generatedBytes: nat
    var generateCalls: nat
    var reseedCount: nat
    const sha: Hash
    const mac: Drbg.Mac

    ghost predicate Valid()
      reads this
    {
      Invariant(View()) && Drbg.Is32(mac)
    }

    ghost function View(): State
      reads this
    {
      State(pool, drbg, generatedBytes, generateCalls, reseedCount)
    }

    constructor (sha: Hash, mac: Drbg.Mac)
      requires Drbg.Is32(mac)
      ensures Valid() && View() == New() && this.sha == sha && this.mac == mac
    {
      this.sha, this.mac := sha, mac;
      pool, drbg := Pool([], 0, map[]), None;
      generatedBytes, generateCalls, reseedCount := 0, 0, 0;
    }

    /** Condenses and clears a ready pool. */
    method ExtractSeed() returns (seed: Option<ByteString>)
      modifies this`pool
      ensures seed == if Ready(old(pool)) then Some(sha(old(pool).bytes)) else None
      ensures pool == if Ready(old(pool)) then Emptied(old(pool)) else old(pool)
    {
      if pool.credited < SEED_BITS {
        return None;
      }
      seed := Some(sha(pool.bytes));
      pool := pool.(bytes := [], credited := 0);
    }

    method AddSample(source: Source, sample: Byte)
      requires Valid()
      modifies this
      ensures Valid() && View() == AfterSample(sha, mac, old(View()), source, sample)
    {
      hide Test;
      pool := Sampled(pool, source, sample);
      if drbg.None? && Ready(pool) {
        var seed := ExtractSeed();
        var d := Drbg.Instantiate(mac, seed.value, [], []);
        assert seed.value + [] + [] == seed.value;
        drbg := Some(d);
        generatedBytes := 0;
        generateCalls := 0;
        reseedCount := reseedCount + 1;
      }
    }

    method Reseed()
      requires Valid()
      modifies this
      ensures Valid() && View() == AfterReseed(sha, mac, old(View()))
    {
      var seed := ExtractSeed();
      if seed.Some? {
        if drbg.Some? {
          var d := Drbg.Reseed(mac, drbg.value, seed.value, []);
          assert seed.value + [] == seed.value;
          drbg := Some(d);
          generatedBytes := 0;
          generateCalls := 0;
          reseedCount := reseedCount + 1;
        }
      }
    }

    /** The threshold check. */
    method Refresh() returns (ok: bool)
      requires Valid() && drbg.Some?
      modifies this
      ensures Valid() && ok == Refreshed(sha, mac, old(View())).Some?
      ensures View() == if ok then Refreshed(sha, mac, old(View())).value else old(View())
    {
      if generateCalls >= REQUESTS || generatedBytes >= OUTPUT {
        if pool.credited >= SEED_BITS {
          Reseed();
        } else {
          return false;
        }
      }
      return true;
    }

    /** One generator request. */
    method Chunk(size: nat) returns (bytes: ByteString)
      requires Valid() && drbg.Some? && !Due(View()) && size <= CHUNK
      modifies this
      ensures Valid() && drbg.Some? && |bytes| == size
      ensures View() == OneChunk(mac, old(View()), size).state && bytes == OneChunk(mac, old(View()), size).bytes
    {
      var g := Drbg.Generate(mac, drbg.value, size, []);
      Drbg.RequestPrefix(mac, drbg.value, size, size, []);
      drbg := Some(g.next);
      generatedBytes := generatedBytes + size;
      generateCalls := generateCalls + 1;
      bytes := g.bytes;
    }

    /** The threshold check and one chunk of the n bytes left. */
    method NextChunk(n: nat) returns (ok: bool, bytes: ByteString)
      requires Valid() && drbg.Some? && n > 0
      modifies this
      ensures Valid() && drbg.Some? && |bytes| <= n && (ok ==> |bytes| > 0)
      ensures var r := Chunks(sha, mac, old(View()), n);
              if ok then
                var rest := Chunks(sha, mac, View(), n - |bytes|);
                r.ok == rest.ok && r.bytes == bytes + rest.bytes && r.state == rest.state
              else r.bytes == bytes == [] && !r.ok && r.state == View()
    {
      hide OneChunk, Refreshed;
      bytes := [];
      var size := if n < CHUNK then n else CHUNK;
      RefreshedKeeps(sha, mac, View());
      ok := Refresh();
      if ok {
        bytes := Chunk(size);
      }
    }

    /** Fills n bytes, or as many as it can; the generator's own error cannot occur. */
    method Generate(n: nat) returns (ok: bool, out: ByteString)
      requires Valid()
      modifies this
      ensures Valid()
      ensures var r := Answered(sha, mac, old(View()), n); ok == r.ok && out == r.bytes && View() == r.state
    {
      hide Chunks, Refreshed, Invariant;
      out := [];
      if drbg.None? {
        return false, out;
      }
      RefreshedKeeps(sha, mac, View());
      ok := Refresh();
      if !ok {
        return false, out;
      }
      ghost var whole := Chunks(sha, mac, View(), n);
      while |out| < n
        invariant Valid() && drbg.Some? && |out| <= n
        invariant var rest := Chunks(sha, mac, View(), n - |out|);
                  whole.ok == rest.ok && whole.bytes == out + rest.bytes && whole.state == rest.state
        decreases n - |out|
      {
        var more;
        ok, more := NextChunk(n - |out|);
        if !ok {
          return false, out;
        }
        out := out + more;
      }
      NoChunks(sha, mac, View());
      return true, out;
    }
  }

  lemma NoChunks(sha: Hash, mac: Drbg.Mac, s: State)
    requires Drbg.Is32(mac) && Invariant(s) && s.drbg.Some?
    ensures var r := Chunks(sha, mac, s, 0); r.ok && r.bytes == [] && r.state == s
  {
  }
}
