/** Canonical Huffman codes: the encoder's codes, the decoder's table, and why decoding a
    code word gives back its symbol (crates/otter-gfx/src/inflate.rs and deflate.rs). */
module Huffman {
  import opened Bytes
  import opened Congruence
  import opened BitStreams

  const MAX_BITS: nat := 15

  type Lengths = seq<Byte>

  // ---------- the code a table of lengths stands for (section 3.2.2 of RFC 1951) ----------

  /** How many symbols have length l. */
  function Count(lengths: Lengths, l: nat): nat {
    if lengths == [] then 0
    else Count(lengths[..|lengths| - 1], l) + if lengths[|lengths| - 1] == l then 1 else 0
  }

  /** The position of a symbol among those of its length. */
  function Rank(lengths: Lengths, sym: nat): nat
    requires sym < |lengths|
  {
    Count(lengths[..sym], lengths[sym])
  }

  /** The first code of length l; length zero has no codes. */
  function First(lengths: Lengths, l: nat): nat {
    if l <= 1 then 0 else 2 * (First(lengths, l - 1) + Count(lengths, l - 1))
  }

  /** The canonical code of a symbol, as a number. */
  function Code(lengths: Lengths, sym: nat): nat
    requires sym < |lengths|
  {
    First(lengths, lengths[sym]) + Rank(lengths, sym)
  }

  /** The code word of a symbol: its code, most significant bit first. */
  function CodeWord(lengths: Lengths, sym: nat): Bits
    requires sym < |lengths|
  {
    MsbBits(Code(lengths, sym), lengths[sym])
  }

  /** No length claims more codes than the shorter ones leave. */
  predicate Fits(lengths: Lengths) {
    && (forall i :: 0 <= i < |lengths| ==> lengths[i] <= MAX_BITS)
    && (forall l :: 1 <= l <= MAX_BITS ==> First(lengths, l) + Count(lengths, l) <= Pow(2, l))
  }

  /** Symbols of lengths below l come before those of length l. */
  function Index(lengths: Lengths, l: nat): nat {
    if l <= 1 then 0 else Index(lengths, l - 1) + Count(lengths, l - 1)
  }

  // ---------- counting ----------

  lemma {:induction false} CountMonotone(lengths: Lengths, i: nat, j: nat, l: nat)
    requires i <= j <= |lengths|
    ensures Count(lengths[..i], l) <= Count(lengths[..j], l)
    decreases j
  {
    if i < j {
      assert lengths[..j][..j - 1] == lengths[..j - 1];
      CountMonotone(lengths, i, j - 1, l);
    }
  }

  lemma CountNext(lengths: Lengths, i: nat, l: nat)
    requires i < |lengths|
    ensures Count(lengths[..i + 1], l) == Count(lengths[..i], l) + if lengths[i] == l then 1 else 0
  {
    assert lengths[..i + 1][..i] == lengths[..i];
  }

  /** Ranks of one length are distinct, in symbol order, and below the count. */
  lemma RankOrder(lengths: Lengths, a: nat, b: nat)
    requires a < b < |lengths| && lengths[a] == lengths[b]
    ensures Rank(lengths, a) < Rank(lengths, b)
  {
    CountNext(lengths, a, lengths[a]);
    CountMonotone(lengths, a + 1, b, lengths[a]);
  }

  lemma RankBelowCount(lengths: Lengths, sym: nat)
    requires sym < |lengths|
    ensures Rank(lengths, sym) < Count(lengths, lengths[sym])
  {
    CountNext(lengths, sym, lengths[sym]);
    CountMonotone(lengths, sym + 1, |lengths|, lengths[sym]);
    assert lengths[..|lengths|] == lengths;
  }

  /** Every rank below the count belongs to a symbol. */
  lemma {:induction false} SymbolOfRank(lengths: Lengths, l: int, r: nat) returns (sym: nat)
    requires 0 <= l && r < Count(lengths, l)
    ensures sym < |lengths| && lengths[sym] == l && Rank(lengths, sym) == r
    decreases |lengths|
  {
    var n := |lengths| - 1;
    if lengths[n] == l && r == Count(lengths[..n], l) {
      sym := n;
    } else {
      sym := SymbolOfRank(lengths[..n], l, r);
      assert lengths[..n][..sym] == lengths[..sym];
    }
  }

  lemma {:induction false} IndexMonotone(lengths: Lengths, l: nat, m: nat)
    requires 1 <= l < m
    ensures Index(lengths, l) + Count(lengths, l) <= Index(lengths, m)
    decreases m
  {
    if l + 1 < m { IndexMonotone(lengths, l, m - 1); }
  }

  lemma {:induction false} IndexNext(lengths: Lengths, i: nat, l: nat)
    requires i < |lengths|
    ensures Index(lengths[..i + 1], l) == Index(lengths[..i], l) + if 1 <= lengths[i] < l then 1 else 0
    decreases l
  {
    if l > 1 {
      IndexNext(lengths, i, l - 1);
      CountNext(lengths, i, l - 1);
    }
  }

  lemma {:induction false} IndexBound(lengths: Lengths, i: nat, l: nat)
    requires i <= |lengths|
    ensures Index(lengths[..i], l) <= i
    decreases i
  {
    if i > 0 {
      IndexNext(lengths, i - 1, l);
      IndexBound(lengths, i - 1, l);
    } else {
      NoSymbols(l);
    }
  }

  lemma {:induction false} NoSymbols(l: nat)
    ensures Index([], l) == 0
    decreases l
  {
    if l > 1 { NoSymbols(l - 1); }
  }

  // ---------- codes of different lengths ----------

  /** A code of a longer length lies beyond all extensions of the codes of length l. */
  lemma {:induction false} LongerCodesAbove(lengths: Lengths, l: nat, m: nat)
    requires 1 <= l < m
    ensures First(lengths, m) >= Pow(2, m - l) * (First(lengths, l) + Count(lengths, l))
    decreases m
  {
    if m == l + 1 {
      assert Pow(2, 1) == 2 * Pow(2, 0) == 2;
    } else {
      LongerCodesAbove(lengths, l, m - 1);
      var p, x := Pow(2, m - 1 - l), First(lengths, l) + Count(lengths, l);
      TwiceProduct(p, x);
    }
  }

  lemma ShiftAtLeast(c: nat, p: int, x: nat)
    requires p > 0 && c >= p * x
    ensures c / p >= x
  {
    if c / p < x { MulGap(p, c / p, x); }
  }

  /** The prefix of a code word at a shorter length is past all codes of that length. */
  lemma PrefixPasses(lengths: Lengths, sym: nat, l: nat)
    requires sym < |lengths| && 1 <= l < lengths[sym]
    ensures Code(lengths, sym) / Pow(2, lengths[sym] - l) >= First(lengths, l) + Count(lengths, l)
  {
    LongerCodesAbove(lengths, l, lengths[sym]);
    ShiftAtLeast(Code(lengths, sym), Pow(2, lengths[sym] - l), First(lengths, l) + Count(lengths, l));
  }

  lemma CodeFits(lengths: Lengths, sym: nat)
    requires Fits(lengths) && sym < |lengths| && lengths[sym] > 0
    ensures Code(lengths, sym) < Pow(2, lengths[sym]) <= 0x8000
  {
    RankBelowCount(lengths, sym);
    PowMonotone(2, lengths[sym], 15);
    assert Pow(2, 15) == 0x8000 by { PowAdd(2, 7, 8); assert Pow(2, 7) == 128 && Pow(2, 8) == 256; }
  }

  // ---------- reading code words ----------

  /** The number spelt by bits, most significant first. */
  function MsbValue(bits: Bits): nat {
    if bits == [] then 0 else 2 * MsbValue(bits[..|bits| - 1]) + if bits[|bits| - 1] then 1 else 0
  }

  lemma {:induction false} WordPrefixValue(c: nat, len: nat, k: nat)
    requires c < Pow(2, len) && k <= len
    ensures MsbValue(MsbBits(c, len)[..k]) == c / Pow(2, len - k)
    decreases k
  {
    if k == 0 {
      QuotientIs(c, Pow(2, len), 0, c);
    } else {
      WordPrefixValue(c, len, k - 1);
      var w := MsbBits(c, len)[..k];
      assert w[..k - 1] == MsbBits(c, len)[..k - 1] && w[k - 1] == BitOf(c, len - k);
      var p := Pow(2, len - k);
      DivDiv(c, p, 2);
      assert Pow(2, len - (k - 1)) == 2 * p == p * 2;
    }
  }

  /** The bits begin with the code word of the symbol. */
  predicate Matches(lengths: Lengths, sym: int, bits: Bits) {
    0 <= sym < |lengths| && lengths[sym] > 0 && CodeWord(lengths, sym) <= bits
  }

  /** Reading as many bits as the word has spells its code, and at a shorter length passes
      all the codes of that length. */
  lemma MatchedPrefix(lengths: Lengths, sym: nat, bits: Bits, l: nat)
    requires Fits(lengths) && Matches(lengths, sym, bits) && 1 <= l <= lengths[sym]
    ensures l <= |bits|
    ensures l == lengths[sym] ==> MsbValue(bits[..l]) == Code(lengths, sym)
    ensures l < lengths[sym] ==> MsbValue(bits[..l]) >= First(lengths, l) + Count(lengths, l)
  {
    hide First, Count, Pow, MsbValue, Fits;
    var c, len := Code(lengths, sym), lengths[sym];
    WordAtFront(lengths, sym, bits);
    CodeFits(lengths, sym);
    WordPrefixValue(c, len, l);
    assert bits[..l] == bits[..len][..l];
    if l < len { PrefixPasses(lengths, sym, l); } else { WholeQuotient(c); }
  }

  lemma WordAtFront(lengths: Lengths, sym: nat, bits: Bits)
    requires Matches(lengths, sym, bits)
    ensures lengths[sym] <= |bits| && bits[..lengths[sym]] == MsbBits(Code(lengths, sym), lengths[sym])
  {
  }

  lemma WholeQuotient(c: nat)
    ensures c / Pow(2, 0) == c
  {
  }

  /** No code word begins another: at most one symbol matches. */
  lemma MatchesUnique(lengths: Lengths, a: nat, b: nat, bits: Bits)
    requires Fits(lengths) && Matches(lengths, a, bits) && Matches(lengths, b, bits) && lengths[a] <= lengths[b]
    ensures a == b
  {
    MatchedPrefix(lengths, a, bits, lengths[a]);
    MatchedPrefix(lengths, b, bits, lengths[a]);
    RankBelowCount(lengths, a);
    if a < b && lengths[a] == lengths[b] { RankOrder(lengths, a, b); }
    if b < a && lengths[a] == lengths[b] { RankOrder(lengths, b, a); }
  }

  /** Bits that spell a value within a length's codes match the symbol of that rank. */
  lemma ValueMatches(lengths: Lengths, sym: nat, bits: Bits)
    requires Fits(lengths) && sym < |lengths| && 0 < lengths[sym] <= |bits|
    requires MsbValue(bits[..lengths[sym]]) == Code(lengths, sym)
    ensures Matches(lengths, sym, bits)
  {
    CodeFits(lengths, sym);
    MsbInverse(bits[..lengths[sym]]);
  }

  lemma {:induction false} MsbInverse(bits: Bits)
    ensures MsbValue(bits) < Pow(2, |bits|) && MsbBits(MsbValue(bits), |bits|) == bits
  {
    if bits != [] {
      var n := |bits| - 1;
      var v, h := MsbValue(bits), MsbValue(bits[..n]);
      MsbInverse(bits[..n]);
      forall i | 0 <= i <= n ensures MsbBits(v, n + 1)[i] == bits[i] {
        if i < n {
          assert bits[i] == bits[..n][i] == MsbBits(h, n)[i] == BitOf(h, n - 1 - i);
          assert v / 2 == h;
          HalfBit(v, n - 1 - i);
          assert MsbBits(v, n + 1)[i] == BitOf(v, n - i);
        } else {
          WholeQuotient(v);
          assert MsbBits(v, n + 1)[n] == BitOf(v, 0) == (v % 2 == 1);
        }
      }
    }
  }

  // ---------- the decoder's table ----------

  /** What a parser makes of the bits: a value and the bits after it, or an error. */
  datatype Parsed<+T> = Done(value: T, rest: Bits) | Fail(error: InflateError)

  /** The symbol whose code word the bits begin with. */
  ghost function NextSymbol(lengths: Lengths, bits: Bits): (r: Parsed<nat>)
    ensures r.Done? ==> Matches(lengths, r.value, bits)
    ensures r.Done? ==> |r.rest| < |bits| && r.rest == bits[lengths[r.value]..]
  {
    if exists sym :: Matches(lengths, sym, bits) then
      var sym :| Matches(lengths, sym, bits);
      Done(sym, bits[lengths[sym]..])
    else Fail(if |bits| < MAX_BITS then UnexpectedEof else InvalidHuffmanTable)
  }

  lemma NextIs(lengths: Lengths, sym: nat, bits: Bits)
    requires Fits(lengths) && Matches(lengths, sym, bits)
    ensures NextSymbol(lengths, bits) == Done(sym, bits[lengths[sym]..])
  {
    var s := NextSymbol(lengths, bits).value;
    if lengths[s] <= lengths[sym] {
      MatchesUnique(lengths, s, sym, bits);
    } else {
      MatchesUnique(lengths, sym, s, bits);
    }
  }

  lemma NoNext(lengths: Lengths, bits: Bits)
    requires forall sym :: !Matches(lengths, sym, bits)
    ensures NextSymbol(lengths, bits) == Fail(if |bits| < MAX_BITS then UnexpectedEof else InvalidHuffmanTable)
  {
  }

  /** Decoding the code word of a symbol, whatever follows it, gives the symbol and leaves
      what follows. */
  lemma CodeWordDecodes(lengths: Lengths, sym: nat, rest: Bits)
    requires Fits(lengths) && sym < |lengths| && lengths[sym] > 0
    ensures NextSymbol(lengths, CodeWord(lengths, sym) + rest) == Done(sym, rest)
  {
    var bits := CodeWord(lengths, sym) + rest;
    assert Matches(lengths, sym, bits);
    NextIs(lengths, sym, bits);
  }

  /** Counts per length, and the symbols ordered by length and then by number. */
  datatype HuffTable = HuffTable(counts: seq<nat>, symbols: seq<nat>)

  ghost predicate TableFor(t: HuffTable, lengths: Lengths) {
    && Fits(lengths) && |t.counts| == MAX_BITS + 1
    && (forall l :: 1 <= l <= MAX_BITS ==> t.counts[l] == Count(lengths, l))
    && (forall sym :: 0 <= sym < |lengths| && lengths[sym] > 0 ==>
          var at := Index(lengths, lengths[sym]) + Rank(lengths, sym);
          at < |t.symbols| && t.symbols[at] == sym)
  }

  /** No symbol shorter than len matches. */
  ghost predicate NoneShorter(lengths: Lengths, bits: Bits, len: nat) {
    forall sym :: Matches(lengths, sym, bits) ==> lengths[sym] >= len
  }

  lemma LengthOne(lengths: Lengths, bits: Bits)
    ensures First(lengths, 1) == 0 && Index(lengths, 1) == 0 && MsbValue(bits[..0]) == 0
  {
  }

  lemma NextLength(lengths: Lengths, bits: Bits, len: nat)
    requires 1 <= len <= |bits|
    ensures MsbValue(bits[..len]) == 2 * MsbValue(bits[..len - 1]) + (if bits[len - 1] then 1 else 0)
    ensures First(lengths, len + 1) == 2 * (First(lengths, len) + Count(lengths, len))
    ensures Index(lengths, len + 1) == Index(lengths, len) + Count(lengths, len)
  {
    assert bits[..len][..len - 1] == bits[..len - 1];
  }

  lemma NoneShorterThanOne(lengths: Lengths, bits: Bits)
    ensures NoneShorter(lengths, bits, 1)
  {
  }

  /** One symbol: exactly the one whose code word the bits begin with. */
  method Decode(t: HuffTable, ghost lengths: Lengths, br: BitReader) returns (r: Result<nat>)
    requires br.Valid() && TableFor(t, lengths)
    modifies br
    ensures br.Valid()
    ensures r.Ok? ==> NextSymbol(lengths, old(br.Rest())) == Done(r.value, br.Rest())
    ensures r.Err? ==> NextSymbol(lengths, old(br.Rest())) == Fail(r.error)
  {
    hide Matches, TableFor, NoneShorter, NextSymbol, First, Index, Count, MsbValue, Fits, StreamBits, Rank;
    ghost var bits := br.Rest();
    TableBasics(t, lengths);
    NoneShorterThanOne(lengths, bits);
    LengthOne(lengths, bits);
    var code, first, index := 0, 0, 0;
    for len := 1 to MAX_BITS + 1
      invariant br.Valid() && len - 1 <= |bits| && br.Rest() == bits[len - 1..]
      invariant code == 2 * MsbValue(bits[..len - 1]) && first == First(lengths, len) && index == Index(lengths, len)
      invariant first <= code
      invariant NoneShorter(lengths, bits, len)
    {
      var bit := br.ReadBit();
      if bit.Err? {
        NothingFits(lengths, bits, len);
        NoNext(lengths, bits);
        return Err(bit.error);
      }
      code := code + bit.value;
      NextLength(lengths, bits, len);
      var count := t.counts[len];
      if code - first < count {
        ghost var sym := SymbolOfRank(lengths, len, code - first);
        EntryOfSymbol(t, lengths, sym);
        CodeIs(lengths, sym);
        ValueMatches(lengths, sym, bits);
        NextIs(lengths, sym, bits);
        return Ok(t.symbols[index + (code - first)]);
      }
      LengthPassed(lengths, bits, len);
      index := index + count;
      first := 2 * (first + count);
      code := 2 * code;
    }
    TooLong(lengths, bits);
    NoNext(lengths, bits);
    return Err(InvalidHuffmanTable);
  }

  lemma TableBasics(t: HuffTable, lengths: Lengths)
    requires TableFor(t, lengths)
    ensures Fits(lengths) && |t.counts| == MAX_BITS + 1
    ensures forall l :: 1 <= l <= MAX_BITS ==> t.counts[l] == Count(lengths, l)
  {
  }

  lemma CodeIs(lengths: Lengths, sym: nat)
    requires sym < |lengths|
    ensures Code(lengths, sym) == First(lengths, lengths[sym]) + Rank(lengths, sym)
  {
  }

  lemma EntryOfSymbol(t: HuffTable, lengths: Lengths, sym: nat)
    requires TableFor(t, lengths) && sym < |lengths| && lengths[sym] > 0
    ensures var at := Index(lengths, lengths[sym]) + Rank(lengths, sym); at < |t.symbols| && t.symbols[at] == sym
  {
    hide Index, Rank, Fits, First, Count, Pow;
    assert Placed(lengths, t.symbols, sym);
  }

  lemma NothingFits(lengths: Lengths, bits: Bits, len: nat)
    requires |bits| < len && NoneShorter(lengths, bits, len)
    ensures forall sym :: !Matches(lengths, sym, bits)
  {
  }

  lemma TooLong(lengths: Lengths, bits: Bits)
    requires Fits(lengths) && NoneShorter(lengths, bits, MAX_BITS + 1)
    ensures forall sym :: !Matches(lengths, sym, bits)
  {
  }

  lemma LengthPassed(lengths: Lengths, bits: Bits, len: nat)
    requires Fits(lengths) && 1 <= len <= |bits| && MsbValue(bits[..len]) >= First(lengths, len) + Count(lengths, len)
    requires NoneShorter(lengths, bits, len)
    ensures NoneShorter(lengths, bits, len + 1)
  {
    hide CodeWord, First, Count, MsbValue, Fits;
    forall sym | Matches(lengths, sym, bits) ensures lengths[sym] >= len + 1 {
      if lengths[sym] == len {
        MatchedPrefix(lengths, sym, bits, len);
        RankBelowCount(lengths, sym);
      }
    }
  }

  // ---------- building the table and the codes ----------

  /** Code space not yet claimed by lengths up to l; negative when they claim too much. */
  function CodesLeft(lengths: Lengths, l: nat): int {
    if l == 0 then 1 else Pow(2, l) - (First(lengths, l) + Count(lengths, l))
  }

  lemma CodesLeftStep(lengths: Lengths, l: nat)
    requires l >= 1
    ensures CodesLeft(lengths, l) == 2 * CodesLeft(lengths, l - 1) - Count(lengths, l)
    ensures CodesLeft(lengths, l) == Pow(2, l) - (First(lengths, l) + Count(lengths, l))
  {
    assert Pow(2, 0) == 1;
    if l == 1 { assert Pow(2, 1) == 2; } else { assert Pow(2, l) == 2 * Pow(2, l - 1); }
  }

  /** The decode table of a list of lengths, or an error when the lengths claim too much. */
  method BuildTable(lengths: Lengths) returns (r: Result<HuffTable>)
    requires |lengths| < 0x1_0000
    ensures r.Ok? <==> Fits(lengths)
    ensures if r.Ok? then TableFor(r.value, lengths) else r.error == InvalidHuffmanTable
  {
    hide First, Count, Pow;
    var counts := CountLengths(lengths);
    if counts.Err? {
      return Err(InvalidHuffmanTable);
    }
    var left: int := 1;
    for l := 1 to MAX_BITS + 1
      invariant left == CodesLeft(lengths, l - 1)
      invariant forall m :: 1 <= m < l ==> First(lengths, m) + Count(lengths, m) <= Pow(2, m)
    {
      CodesLeftStep(lengths, l);
      left := 2 * left - counts.value[l];
      if left < 0 {
        return Err(InvalidHuffmanTable);
      }
    }
    var symbols := PlaceSymbols(lengths, counts.value);
    r := Ok(HuffTable(counts.value, symbols));
  }

  method CountLengths(lengths: Lengths) returns (r: Result<seq<nat>>)
    ensures r.Ok? <==> forall i :: 0 <= i < |lengths| ==> lengths[i] <= MAX_BITS
    ensures r.Ok? ==> |r.value| == MAX_BITS + 1 && r.value[0] == 0
    ensures r.Ok? ==> forall l :: 1 <= l <= MAX_BITS ==> r.value[l] == Count(lengths, l)
  {
    var counts: seq<nat> := seq(MAX_BITS + 1, _ => 0);
    for i := 0 to |lengths|
      invariant |counts| == MAX_BITS + 1
      invariant forall j :: 0 <= j < i ==> lengths[j] <= MAX_BITS
      invariant forall l :: 0 <= l <= MAX_BITS ==> counts[l] == Count(lengths[..i], l)
    {
      var l := lengths[i];
      if l > MAX_BITS {
        return Err(InvalidHuffmanTable);
      }
      forall m: nat | m <= MAX_BITS
        ensures Count(lengths[..i + 1], m) == Count(lengths[..i], m) + if l == m then 1 else 0
      {
        CountNext(lengths, i, m);
      }
      counts := counts[l := counts[l] + 1];
    }
    assert lengths[..|lengths|] == lengths;
    return Ok(counts[0 := 0]);
  }

  /** Where the next symbol of each length goes, after i symbols. */
  predicate OffsetsAt(lengths: Lengths, offsets: seq<nat>, i: nat)
    requires i <= |lengths|
  {
    && |offsets| == MAX_BITS + 2
    && forall l :: 1 <= l <= MAX_BITS ==> offsets[l] == Index(lengths, l) + Count(lengths[..i], l)
  }

  predicate Placed(lengths: Lengths, symbols: seq<nat>, sym: nat)
    requires sym < |lengths|
  {
    var at := Index(lengths, lengths[sym]) + Rank(lengths, sym);
    at < |symbols| && symbols[at] == sym
  }

  predicate AllPlaced(lengths: Lengths, symbols: seq<nat>, i: nat)
    requires i <= |lengths|
  {
    |symbols| == |lengths| && forall s :: 0 <= s < i && lengths[s] > 0 ==> Placed(lengths, symbols, s)
  }

  lemma OffsetsStep(lengths: Lengths, offsets: seq<nat>, i: nat)
    requires i < |lengths| && OffsetsAt(lengths, offsets, i) && lengths[i] <= MAX_BITS
    ensures lengths[i] == 0 ==> OffsetsAt(lengths, offsets, i + 1)
    ensures lengths[i] > 0 ==>
              && offsets[lengths[i]] == Index(lengths, lengths[i]) + Rank(lengths, i) < |lengths|
              && OffsetsAt(lengths, offsets[lengths[i] := offsets[lengths[i]] + 1], i + 1)
  {
    hide Index;
    forall m: nat ensures Count(lengths[..i + 1], m) == Count(lengths[..i], m) + if lengths[i] == m then 1 else 0 {
      CountNext(lengths, i, m);
    }
    if lengths[i] > 0 { SlotInRange(lengths, i); }
  }

  lemma PlacedStep(lengths: Lengths, symbols: seq<nat>, i: nat)
    requires i < |lengths| && AllPlaced(lengths, symbols, i)
    ensures lengths[i] == 0 ==> AllPlaced(lengths, symbols, i + 1)
    ensures lengths[i] > 0 ==>
              && Index(lengths, lengths[i]) + Rank(lengths, i) < |symbols|
              && AllPlaced(lengths, symbols[Index(lengths, lengths[i]) + Rank(lengths, i) := i], i + 1)
  {
    hide Index, Rank;
    if lengths[i] > 0 {
      SlotInRange(lengths, i);
      forall s: nat | s < i && lengths[s] > 0
        ensures Index(lengths, lengths[s]) + Rank(lengths, s) != Index(lengths, lengths[i]) + Rank(lengths, i)
      {
        SlotsDiffer(lengths, s, i);
      }
    }
  }

  method StartOffsets(lengths: Lengths, counts: seq<nat>) returns (offsets: seq<nat>)
    requires |counts| == MAX_BITS + 1 && forall l :: 1 <= l <= MAX_BITS ==> counts[l] == Count(lengths, l)
    ensures OffsetsAt(lengths, offsets, 0)
  {
    offsets := seq(MAX_BITS + 2, _ => 0);
    for l := 1 to MAX_BITS + 1
      invariant |offsets| == MAX_BITS + 2 && forall m :: 1 <= m <= l ==> offsets[m] == Index(lengths, m)
    {
      offsets := offsets[l + 1 := offsets[l] + counts[l]];
    }
    assert lengths[..0] == [];
  }

  method PlaceSymbols(lengths: Lengths, counts: seq<nat>) returns (symbols: seq<nat>)
    requires |counts| == MAX_BITS + 1 && forall l :: 1 <= l <= MAX_BITS ==> counts[l] == Count(lengths, l)
    requires forall i :: 0 <= i < |lengths| ==> lengths[i] <= MAX_BITS
    ensures AllPlaced(lengths, symbols, |lengths|)
  {
    var offsets := StartOffsets(lengths, counts);
    symbols := seq(|lengths|, _ => 0);
    hide Count, Index, Rank, Placed;
    for sym := 0 to |lengths|
      invariant OffsetsAt(lengths, offsets, sym) && AllPlaced(lengths, symbols, sym)
    {
      var l := lengths[sym];
      OffsetsStep(lengths, offsets, sym);
      PlacedStep(lengths, symbols, sym);
      if l != 0 {
        symbols := symbols[offsets[l] := sym];
        offsets := offsets[l := offsets[l] + 1];
      }
    }
  }

  lemma SlotInRange(lengths: Lengths, sym: nat)
    requires sym < |lengths| && lengths[sym] > 0
    ensures Index(lengths, lengths[sym]) + Rank(lengths, sym) < |lengths|
  {
    var l: nat := lengths[sym];
    RankBelowCount(lengths, sym);
    IndexMonotone(lengths, l, l + 1);
    IndexBound(lengths, |lengths|, l + 1);
    assert lengths[..|lengths|] == lengths;
  }

  lemma SlotsDiffer(lengths: Lengths, a: nat, b: nat)
    requires a < b < |lengths| && lengths[a] > 0 && lengths[b] > 0
    ensures Index(lengths, lengths[a]) + Rank(lengths, a) != Index(lengths, lengths[b]) + Rank(lengths, b)
  {
    RankBelowCount(lengths, a);
    RankBelowCount(lengths, b);
    if lengths[a] < lengths[b] {
      IndexMonotone(lengths, lengths[a], lengths[b]);
    } else if lengths[b] < lengths[a] {
      IndexMonotone(lengths, lengths[b], lengths[a]);
    } else {
      RankOrder(lengths, a, b);
    }
  }

  /** The next code of each length, after i symbols. */
  predicate NextCodes(lengths: Lengths, next: seq<nat>, i: nat)
    requires i <= |lengths|
  {
    && |next| == MAX_BITS + 1
    && forall l :: 1 <= l <= MAX_BITS ==> next[l] == First(lengths, l) + Count(lengths[..i], l)
  }

  lemma NextCodesStep(lengths: Lengths, next: seq<nat>, i: nat)
    requires Fits(lengths) && i < |lengths| && NextCodes(lengths, next, i)
    ensures lengths[i] == 0 ==> NextCodes(lengths, next, i + 1)
    ensures lengths[i] > 0 ==>
              && next[lengths[i]] == Code(lengths, i) < 0x1_0000
              && NextCodes(lengths, next[lengths[i] := next[lengths[i]] + 1], i + 1)
  {
    hide First;
    forall m: nat ensures Count(lengths[..i + 1], m) == Count(lengths[..i], m) + if lengths[i] == m then 1 else 0 {
      CountNext(lengths, i, m);
    }
    if lengths[i] > 0 { CodeFits(lengths, i); }
  }

  method StartCodes(lengths: Lengths) returns (next: seq<nat>)
    requires Fits(lengths)
    ensures NextCodes(lengths, next, 0)
  {
    var counted := CountLengths(lengths);
    var counts: seq<nat> := counted.value;
    var code: nat := 0;
    next := seq(MAX_BITS + 1, _ => 0);
    for bits := 1 to MAX_BITS + 1
      invariant |next| == MAX_BITS + 1 && code == (if bits == 1 then 0 else First(lengths, bits - 1))
      invariant forall l :: 1 <= l < bits ==> next[l] == First(lengths, l)
    {
      code := 2 * (code + counts[bits - 1]);
      next := next[bits := code];
    }
    assert lengths[..0] == [];
  }

  /** The first n symbols have their codes, the others none yet. */
  predicate Assigned(lengths: Lengths, codes: seq<nat>, n: nat) {
    && |codes| == |lengths|
    && (forall s :: 0 <= s < n && s < |lengths| ==> codes[s] == if lengths[s] > 0 then Code(lengths, s) else 0)
    && (forall s :: n <= s < |lengths| ==> codes[s] == 0)
  }

  lemma AssignedStep(lengths: Lengths, codes: seq<nat>, n: nat)
    requires Assigned(lengths, codes, n) && n < |lengths|
    ensures lengths[n] == 0 ==> Assigned(lengths, codes, n + 1)
    ensures lengths[n] > 0 ==> Assigned(lengths, codes[n := Code(lengths, n)], n + 1)
  {
    hide Code;
  }

  /** The encoder's codes: the next code of each length, handed out in symbol order. */
  method CanonicalCodes(lengths: Lengths) returns (codes: seq<nat>)
    requires Fits(lengths)
    ensures Assigned(lengths, codes, |lengths|)
  {
    var nextCode := StartCodes(lengths);
    codes := seq(|lengths|, _ => 0);
    hide Code, First, Count, NextCodes, Fits;
    assert Assigned(lengths, codes, 0);
    hide Assigned;
    for sym := 0 to |lengths|
      invariant Assigned(lengths, codes, sym) && NextCodes(lengths, nextCode, sym) && |nextCode| == MAX_BITS + 1
      invariant |codes| == |lengths|
    {
      var l: nat := lengths[sym];
      NextCodesStep(lengths, nextCode, sym);
      AssignedStep(lengths, codes, sym);
      if l != 0 {
        codes := codes[sym := nextCode[l] % 0x1_0000];
        nextCode := nextCode[l := nextCode[l] + 1];
      }
    }
  }
}
