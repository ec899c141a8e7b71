/** What the tables of DEFLATE say, by the rules of sections 3.2.5 to 3.2.7 of RFC 1951 that
    the tables tabulate: lengths, distances, fixed code words, and an order of symbols. */
module DeflateSymbols {
  import opened Bytes
  import opened Congruence
  import opened Huffman
  import opened Inflate
  import opened Inflater

  // ---------- lengths and distances ----------

  /** Each length symbol starts where the one before it ends; four symbols to every number of
      extra bits; 285 stands for 258 alone. */
  lemma LengthSymbols(sym: nat)
    requires 257 <= sym <= 285
    ensures LengthBase(257) == 3 && LengthBase(285) == 258
    ensures sym < 284 ==> LengthBase(sym + 1) == LengthBase(sym) + Pow(2, LengthExtra(sym))
    ensures LengthExtra(sym) == if sym < 265 || sym == 285 then 0 else (sym - 261) / 4
  {
    SmallPowers();
  }

  /** Likewise for distances, two symbols to every number of extra bits. */
  lemma DistanceSymbols(sym: nat)
    requires sym < 30
    ensures DistBase(0) == 1
    ensures sym < 29 ==> DistBase(sym + 1) == DistBase(sym) + Pow(2, DistExtra(sym))
    ensures DistExtra(sym) == if sym < 4 then 0 else sym / 2 - 1
  {
    SmallPowers();
    LargePowers();
  }

  lemma LargePowers()
    ensures Pow(2, 11) == 2048 && Pow(2, 12) == 4096 && Pow(2, 13) == 8192
  {
    SmallPowers();
    PowAdd(2, 1, 10);
    PowAdd(2, 2, 10);
    PowAdd(2, 3, 10);
  }

  /** Every length from 3 to 258 has a symbol and extra bits. */
  lemma LengthSpelt(n: nat) returns (sym: nat, extra: nat)
    requires 3 <= n <= 258
    ensures 257 <= sym <= 285 && extra < Pow(2, LengthExtra(sym)) && LengthBase(sym) + extra == n
  {
    hide Pow, LengthBase, LengthExtra;
    sym := 257;
    LengthSymbols(257);
    while sym < 284 && n >= LengthBase(sym + 1)
      invariant 257 <= sym <= 284 && LengthBase(sym) <= n
    {
      sym := sym + 1;
    }
    LengthSymbols(sym);
    LastLength();
    extra := n - LengthBase(sym);
  }

  lemma LastLength()
    ensures LengthBase(284) + Pow(2, LengthExtra(284)) == 259
  {
    SmallPowers();
  }

  /** Every distance from 1 to 32768 has a symbol and extra bits. */
  lemma DistanceSpelt(n: nat) returns (sym: nat, extra: nat)
    requires 1 <= n <= 32768
    ensures sym < 30 && extra < Pow(2, DistExtra(sym)) && DistBase(sym) + extra == n
  {
    hide Pow, DistBase, DistExtra;
    sym := 0;
    DistanceSymbols(0);
    while sym < 29 && n >= DistBase(sym + 1)
      invariant sym <= 29 && DistBase(sym) <= n
    {
      sym := sym + 1;
    }
    DistanceSymbols(sym);
    LastDistance();
    extra := n - DistBase(sym);
  }

  lemma LastDistance()
    ensures DistBase(29) + Pow(2, DistExtra(29)) == 32769
  {
    LargePowers();
  }

  /** The order of the code lengths: the three repeats, zero, then outward from eight. */
  lemma CodeLengthOrder(i: nat)
    requires i < 19
    ensures CodeLengthSlot(i) == if i < 3 then 16 + i else if i == 3 then 0
                                 else if i % 2 == 0 then 8 + (i - 4) / 2 else 8 - (i - 3) / 2
  {
  }

  // ---------- the fixed codes ----------

  /** The table of section 3.2.6 of RFC 1951: code words by their numbers. */
  lemma FixedCodes(sym: nat)
    requires sym < 288
    ensures sym < 144 ==> FixedLit()[sym] == 8 && Code(FixedLit(), sym) == 0x30 + sym
    ensures 144 <= sym < 256 ==> FixedLit()[sym] == 9 && Code(FixedLit(), sym) == 0x190 + (sym - 144)
    ensures 256 <= sym < 280 ==> FixedLit()[sym] == 7 && Code(FixedLit(), sym) == sym - 256
    ensures 280 <= sym ==> FixedLit()[sym] == 8 && Code(FixedLit(), sym) == 0xC0 + (sym - 280)
  {
    FixedSpace(7);
    FixedSpace(8);
    FixedSpace(9);
    hide First;
    FixedRank(sym);
  }

  lemma FixedRank(sym: nat)
    requires sym < 288
    ensures Rank(FixedLit(), sym) ==
              if sym < 144 then sym else if sym < 256 then sym - 144 else if sym < 280 then sym - 256 else sym - 136
  {
    hide Count;
    var a, b, c, d := Repeat(8, 144), Repeat(9, 112), Repeat(7, 24), Repeat(8, 8);
    var l := FixedLit()[sym];
    CountRepeat(8, 144, l);
    CountRepeat(9, 112, l);
    CountRepeat(7, 24, l);
    if sym < 144 {
      assert FixedLit()[..sym] == Repeat(8, sym);
      CountRepeat(8, sym, l);
    } else if sym < 256 {
      assert FixedLit()[..sym] == a + Repeat(9, sym - 144);
      CountConcat(a, Repeat(9, sym - 144), l);
      CountRepeat(9, sym - 144, l);
    } else if sym < 280 {
      assert FixedLit()[..sym] == (a + b) + Repeat(7, sym - 256);
      CountConcat(a + b, Repeat(7, sym - 256), l);
      CountConcat(a, b, l);
      CountRepeat(7, sym - 256, l);
    } else {
      assert FixedLit()[..sym] == (a + b + c) + Repeat(8, sym - 280);
      CountConcat(a + b + c, Repeat(8, sym - 280), l);
      CountConcat(a + b, c, l);
      CountConcat(a, b, l);
      CountRepeat(8, sym - 280, l);
    }
  }

  /** Fixed distance codes are the five-bit numbers of the symbols. */
  lemma FixedDistanceCodes(sym: nat)
    requires sym < 30
    ensures |FixedDist()| == 30 && FixedDist()[sym] == 5 && Code(FixedDist(), sym) == sym
  {
    FixedSpace(5);
    hide First, Count;
    assert FixedDist()[..sym] == Repeat(5, sym);
    CountRepeat(5, sym, 5);
  }

  // ---------- which lengths make a code ----------

  /** What the code words of these lengths take of all words of fifteen bits. */
  function Share(lengths: Lengths): nat {
    if lengths == [] then 0 else
    var n := lengths[|lengths| - 1];
    Share(lengths[..|lengths| - 1]) + if 1 <= n <= 15 then Pow(2, 15 - n) else 0
  }

  /** The codes up to length l, each with all the words of l bits that it begins. */
  function Taken(lengths: Lengths, l: nat): nat { First(lengths, l) + Count(lengths, l) }

  lemma {:induction false} OneTaken(lengths: Lengths, n: Byte, l: nat)
    requires l >= 1
    ensures Taken(lengths + [n], l) == Taken(lengths, l) + if 1 <= n <= l then Pow(2, l - n) else 0
    decreases l
  {
    CountOne(lengths, n, l);
    assert Pow(2, 0) == 1;
    if l > 1 {
      OneTaken(lengths, n, l - 1);
      if 1 <= n <= l - 1 { assert Pow(2, l - n) == 2 * Pow(2, l - 1 - n); }
    }
  }

  lemma CountOne(lengths: Lengths, n: Byte, l: nat)
    ensures Count(lengths + [n], l) == Count(lengths, l) + if n == l then 1 else 0
  {
    assert (lengths + [n])[..|lengths|] == lengths;
  }

  lemma {:induction false} NoneTaken(l: nat)
    ensures First([], l) == 0 && Count([], l) == 0
  {
    if l > 1 { NoneTaken(l - 1); }
  }

  lemma {:induction false} TakenIsShare(lengths: Lengths)
    ensures Taken(lengths, 15) == Share(lengths)
  {
    hide First, Count, Pow;
    if lengths == [] {
      NoneTaken(15);
    } else {
      var n := |lengths| - 1;
      TakenIsShare(lengths[..n]);
      OneTaken(lengths[..n], lengths[n], 15);
      assert lengths[..n] + [lengths[n]] == lengths;
    }
  }

  /** Room left at the longest length is room left at every other. */
  lemma {:induction false} RoomBefore(lengths: Lengths, l: nat, m: nat)
    requires 1 <= l <= m && Taken(lengths, m) <= Pow(2, m)
    ensures Taken(lengths, l) <= Pow(2, l)
    decreases m
  {
    if l < m {
      assert First(lengths, m) == 2 * Taken(lengths, m - 1);
      assert Pow(2, m) == 2 * Pow(2, m - 1);
      RoomBefore(lengths, l, m - 1);
    }
  }

  /** Lengths make a code if and only if none is above fifteen and they keep Kraft's inequality. */
  lemma FitsIffKraft(lengths: Lengths)
    ensures Fits(lengths) <==> (forall i :: 0 <= i < |lengths| ==> lengths[i] <= 15) && Share(lengths) <= 0x8000
  {
    hide First, Count, Share, Pow;
    TakenIsShare(lengths);
    Fifteen();
    if Taken(lengths, 15) <= Pow(2, 15) {
      forall l: nat | 1 <= l <= 15 ensures Taken(lengths, l) <= Pow(2, l) {
        RoomBefore(lengths, l, 15);
      }
    }
  }

  lemma Fifteen()
    ensures Pow(2, 15) == 0x8000
  {
    hide Pow;
    LargePowers();
    SmallPowers();
    PowAdd(2, 4, 11);
  }
}
