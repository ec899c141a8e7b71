/** HMAC_DRBG (crates/otter-crypto/src/drbg.rs, section 10.1.2 of NIST SP 800-90A) over an
    arbitrary keyed hash with 32-byte results. */
module Drbg {
  import opened Bytes

  type Mac = (ByteString, ByteString) -> ByteString

  const RESEED_INTERVAL: nat := 0x10_0000
  const MAX_REQUEST: nat := 0x1_0000

  ghost predicate Is32(mac: Mac) { forall k, m :: |mac(k, m)| == 32 }

  datatype State = State(key: ByteString, v: ByteString, counter: nat)

  datatype Outcome = Generated(bytes: ByteString, next: State) | ReseedRequired

  predicate Sized(d: State) { |d.key| == 32 && |d.v| == 32 }

  /** HMAC_Update: one round without data, two with. */
  function Updated(mac: Mac, key: ByteString, v: ByteString, data: ByteString): (ByteString, ByteString) {
    var k1 := mac(key, v + [0] + data);
    var v1 := mac(k1, v);
    if data == [] then (k1, v1) else
    var k2 := mac(k1, v1 + [1] + data);
    (k2, mac(k2, v1))
  }

  method Update(mac: Mac, d: State, data: ByteString) returns (r: State)
    ensures r == State(Updated(mac, d.key, d.v, data).0, Updated(mac, d.key, d.v, data).1, d.counter)
    ensures Is32(mac) ==> Sized(r)
  {
    var key, v := d.key, d.v;
    key := mac(key, v + [0] + data);
    v := mac(key, v);
    if data != [] {
      key := mac(key, v + [1] + data);
      v := mac(key, v);
    }
    r := State(key, v, d.counter);
  }

  /** Two different inputs with the same output. */
  ghost predicate Collide(mac: Mac, k: ByteString, m: ByteString, k': ByteString, m': ByteString) {
    (k != k' || m != m') && mac(k, m) == mac(k', m')
  }

  /** A part of the message before the separating byte and a part after it. */
  lemma Separated(v: ByteString, b: Byte, data: ByteString, v': ByteString, b': Byte, data': ByteString)
    requires |v| == |v'| && v + [b] + data == v' + [b'] + data'
    ensures v == v' && b == b' && data == data'
  {
    var m, m' := v + [b] + data, v' + [b'] + data';
    assert v == m[..|v|] && v' == m'[..|v|] && b == m[|v|] && b' == m'[|v|];
    assert data == m[|v| + 1..] && data' == m'[|v| + 1..];
  }

  /** The update loses nothing but what the keyed hash loses: updates of different states, or
      with different data, that end in the same key exhibit a collision. One round and two
      rounds are kept apart by the byte after V. */
  lemma UpdateSeparates(mac: Mac, d: State, data: ByteString, d': State, data': ByteString)
    requires Is32(mac) && |d.v| == |d'.v| == 32 && (d.key, d.v, data) != (d'.key, d'.v, data')
    requires Updated(mac, d.key, d.v, data).0 == Updated(mac, d'.key, d'.v, data').0
    ensures exists k, m, k', m' :: Collide(mac, k, m, k', m')
  {
    var m, m' := d.v + [0] + data, d'.v + [0] + data';
    var k1, k1' := mac(d.key, m), mac(d'.key, m');
    var v1, v1' := mac(k1, d.v), mac(k1', d'.v);
    var n, n' := v1 + [1] + data, v1' + [1] + data';
    if m == m' { Separated(d.v, 0, data, d'.v, 0, data'); }
    if data == [] && data' != [] {
      if m == n' { Separated(d.v, 0, data, v1', 1, data'); }
      assert Collide(mac, d.key, m, k1', n');
    } else if data != [] && data' == [] {
      if n == m' { Separated(v1, 1, data, d'.v, 0, data'); }
      assert Collide(mac, k1, n, d'.key, m');
    } else if k1 == k1' {
      assert Collide(mac, d.key, m, d'.key, m');
    } else {
      assert Collide(mac, k1, n, k1', n');
    }
  }

  /** Different seeds give different generators, unless a collision of the keyed hash is at hand. */
  lemma SeedsSeparate(mac: Mac, seed: ByteString, seed': ByteString)
    requires Is32(mac) && seed != seed' && Seeded(mac, seed).key == Seeded(mac, seed').key
    ensures exists k, m, k', m' :: Collide(mac, k, m, k', m')
  {
    var zero := State(seq(32, _ => 0), seq(32, _ => 1), 1);
    UpdateSeparates(mac, zero, seed, zero, seed');
  }

  function Seeded(mac: Mac, seed: ByteString): State {
    var (k, v) := Updated(mac, seq(32, _ => 0), seq(32, _ => 1), seed);
    State(k, v, 1)
  }

  function Reseeded(mac: Mac, d: State, seed: ByteString): State {
    var (k, v) := Updated(mac, d.key, d.v, seed);
    State(k, v, 1)
  }

  /** A reseed depends on the seed and on the old key and V alike, up to such a collision. */
  lemma ReseedsSeparate(mac: Mac, d: State, seed: ByteString, d': State, seed': ByteString)
    requires Is32(mac) && |d.v| == |d'.v| == 32 && (d.key, d.v, seed) != (d'.key, d'.v, seed')
    requires Reseeded(mac, d, seed).key == Reseeded(mac, d', seed').key
    ensures exists k, m, k', m' :: Collide(mac, k, m, k', m')
  {
    UpdateSeparates(mac, d, seed, d', seed');
  }

  method Instantiate(mac: Mac, entropy: ByteString, nonce: ByteString, personalization: ByteString) returns (d: State)
    requires Is32(mac)
    ensures d == Seeded(mac, entropy + nonce + personalization) && Sized(d)
  {
    d := Update(mac, State(seq(32, _ => 0), seq(32, _ => 1), 1), entropy + nonce + personalization);
  }

  method Reseed(mac: Mac, d: State, entropy: ByteString, additional: ByteString) returns (r: State)
    requires Is32(mac)
    ensures r == Reseeded(mac, d, entropy + additional) && Sized(r)
  {
    r := Update(mac, d.(counter := 1), entropy + additional);
  }

  /** V after n applications of the keyed hash. */
  function Iterated(mac: Mac, key: ByteString, v: ByteString, n: nat): ByteString {
    if n == 0 then v else mac(key, Iterated(mac, key, v, n - 1))
  }

  /** The first n blocks of output, one after the other. */
  function Blocks(mac: Mac, key: ByteString, v: ByteString, n: nat): ByteString {
    if n == 0 then [] else Blocks(mac, key, v, n - 1) + Iterated(mac, key, v, n)
  }

  lemma {:induction false} BlocksLength(mac: Mac, key: ByteString, v: ByteString, n: nat)
    requires Is32(mac)
    ensures |Blocks(mac, key, v, n)| == 32 * n
    decreases n
  {
    if n > 0 { BlocksLength(mac, key, v, n - 1); }
  }

  function BlockCount(len: nat): nat { (len + 31) / 32 }

  /** What a request gives (section 10.1.2.5): the exact prefix of the output blocks, then an update. */
  ghost function Request(mac: Mac, d: State, len: nat, additional: ByteString): Outcome
    requires Is32(mac)
  {
    if d.counter > RESEED_INTERVAL || len > MAX_REQUEST then ReseedRequired else
    var (k, v) := if additional == [] then (d.key, d.v) else Updated(mac, d.key, d.v, additional);
    BlocksLength(mac, k, v, BlockCount(len));
    var (k', v') := Updated(mac, k, Iterated(mac, k, v, BlockCount(len)), additional);
    Generated(Blocks(mac, k, v, BlockCount(len))[..len], State(k', v', d.counter + 1))
  }

  /** The output loop: V hashed again for every block, the last block cut. */
  method Output(mac: Mac, key: ByteString, start: ByteString, len: nat) returns (out: ByteString, v: ByteString)
    requires Is32(mac)
    ensures v == Iterated(mac, key, start, BlockCount(len))
    ensures |Blocks(mac, key, start, BlockCount(len))| >= len && out == Blocks(mac, key, start, BlockCount(len))[..len]
  {
    out, v := [], start;
    ghost var n: nat := 0;
    while |out| < len
      invariant v == Iterated(mac, key, start, n) && |out| <= len
      invariant n == BlockCount(|out|) && (|out| < len ==> |out| == 32 * n)
      invariant |Blocks(mac, key, start, n)| == 32 * n && out == Blocks(mac, key, start, n)[..|out|]
      decreases len - |out|
    {
      var digest := mac(key, v);
      v := digest;
      var chunk := if len - |out| < 32 then len - |out| else 32;
      n := n + 1;
      BlocksLength(mac, key, start, n);
      out := out + digest[..chunk];
    }
  }

  method Generate(mac: Mac, d: State, len: nat, additional: ByteString) returns (r: Outcome)
    requires Is32(mac)
    ensures r == Request(mac, d, len, additional)
  {
    hide Blocks, Iterated, Updated;
    if d.counter > RESEED_INTERVAL {
      return ReseedRequired;
    }
    if len > MAX_REQUEST {
      return ReseedRequired;
    }
    var s := d;
    if additional != [] {
      s := Update(mac, s, additional);
    }
    var out, v := Output(mac, s.key, s.v, len);
    s := Update(mac, s.(v := v), additional);
    r := Generated(out, s.(counter := s.counter + 1));
  }

  lemma {:induction false} BlockAt(mac: Mac, key: ByteString, v: ByteString, n: nat, i: nat)
    requires Is32(mac) && i < 32 * n
    ensures i < |Blocks(mac, key, v, n)| && |Iterated(mac, key, v, i / 32 + 1)| == 32
    ensures Blocks(mac, key, v, n)[i] == Iterated(mac, key, v, i / 32 + 1)[i % 32]
    decreases n
  {
    BlocksLength(mac, key, v, n - 1);
    if i < 32 * (n - 1) {
      BlockAt(mac, key, v, n - 1, i);
    } else {
      assert i / 32 == n - 1 && i % 32 == i - 32 * (n - 1);
    }
  }

  /** A request is refused exactly after 2^20 others since the seeding, or past 2^16 bytes; byte i of
      an answer is byte i % 32 of what i / 32 + 1 applications of the keyed hash make of V. */
  lemma RequestBytes(mac: Mac, d: State, len: nat, additional: ByteString)
    requires Is32(mac)
    ensures var r := Request(mac, d, len, additional);
            && (r.Generated? <==> d.counter <= 0x10_0000 && len <= 0x1_0000)
            && (r.Generated? ==>
                var (k, v) := if additional == [] then (d.key, d.v) else Updated(mac, d.key, d.v, additional);
                && |r.bytes| == len && r.next.counter == d.counter + 1
                && forall i: nat :: i < len ==> |Iterated(mac, k, v, i / 32 + 1)| == 32
                                                && r.bytes[i] == Iterated(mac, k, v, i / 32 + 1)[i % 32])
  {
    hide Blocks, Iterated, Updated;
    var (k, v) := if additional == [] then (d.key, d.v) else Updated(mac, d.key, d.v, additional);
    BlocksLength(mac, k, v, BlockCount(len));
    forall i: nat | i < len
      ensures |Iterated(mac, k, v, i / 32 + 1)| == 32
              && Blocks(mac, k, v, BlockCount(len))[i] == Iterated(mac, k, v, i / 32 + 1)[i % 32]
    {
      BlockAt(mac, k, v, BlockCount(len), i);
    }
  }

  /** A shorter request's bytes begin a longer one's. */
  lemma RequestPrefix(mac: Mac, d: State, m: nat, n: nat, additional: ByteString)
    requires Is32(mac) && m <= n <= MAX_REQUEST && d.counter <= RESEED_INTERVAL
    ensures Request(mac, d, m, additional).bytes <= Request(mac, d, n, additional).bytes
    ensures |Request(mac, d, n, additional).bytes| == n
  {
    var (k, v) := if additional == [] then (d.key, d.v) else Updated(mac, d.key, d.v, additional);
    BlocksPrefix(mac, k, v, BlockCount(m), BlockCount(n));
    BlocksLength(mac, k, v, BlockCount(m));
    BlocksLength(mac, k, v, BlockCount(n));
  }

  lemma {:induction false} BlocksPrefix(mac: Mac, key: ByteString, v: ByteString, m: nat, n: nat)
    requires m <= n
    ensures Blocks(mac, key, v, m) <= Blocks(mac, key, v, n)
    decreases n
  {
    if m < n { BlocksPrefix(mac, key, v, m, n - 1); }
  }
}
