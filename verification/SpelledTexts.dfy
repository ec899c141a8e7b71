/** The language of tool calls spelt out: which texts the recursive predicates of
    ToolCallLanguage describe, as concatenations of their parts. */
module SpelledTexts {
  import opened Bytes
  import opened Options
  import opened Schema
  import opened ToolCallLanguage
  import opened FrameDerivatives

  // ---------- characters ----------

  /** The bytes of a text of ASCII characters. */
  function Ascii(s: string): ByteString
    requires forall i :: 0 <= i < |s| ==> s[i] < 128 as char
  {
    seq(|s|, i requires 0 <= i < |s| => s[i] as int)
  }

  /** The bytes the grammar mentions are the characters they are named after. */
  lemma StructuralCharacters()
    ensures Ascii(" \",-/09:[\\]{}")
            == [SPACE, QUOTE, COMMA, MINUS, SLASH, ZERO, NINE, COLON, LBRACKET, BACKSLASH, RBRACKET, LBRACE, RBRACE]
    ensures Ascii("bfnrtu") == [LOWER_B, LOWER_F, LOWER_N, LOWER_R, LOWER_T, LOWER_U]
    ensures NAME_KEY == Ascii("\"name\"") && INPUT_KEY == Ascii("\"input\"")
    ensures NAME == Ascii("name") && INPUT == Ascii("input")
    ensures TRUE_WORD == Ascii("true") && FALSE_WORD == Ascii("false") && NULL_WORD == Ascii("null")
  {
  }

  /** The letters after a backslash, and the hexadecimal digits with their values (section 7 of
      RFC 8259 and section 2.3 of RFC 5234). */
  lemma EscapeCharacters(b: Byte)
    ensures SimpleEscape(b) <==> IsOneOf(b, "\"\\/bfnrt")
    ensures IsHex(b) <==> IsOneOf(b, "0123456789abcdefABCDEF")
    ensures forall v :: 0 <= v < 16 ==>
              (HexValue(b) == v <==> b == "0123456789abcdef"[v] as int || b == "0123456789ABCDEF"[v] as int)
  {
    hide SimpleEscape, IsHex, HexValue, IsOneOf;
    EscapeLetters(b);
    HexDigits(b);
    HexValues(b);
  }

  lemma EscapeLetters(b: Byte)
    ensures SimpleEscape(b) <==> IsOneOf(b, "\"\\/bfnrt")
  {
    var escapes := "\"\\/bfnrt";
    if SimpleEscape(b) {
      assert b in {escapes[0] as int, escapes[1] as int, escapes[2] as int, escapes[3] as int, escapes[4] as int,
                   escapes[5] as int, escapes[6] as int, escapes[7] as int};
    }
  }

  lemma HexDigits(b: Byte)
    ensures IsHex(b) <==> IsOneOf(b, "0123456789abcdefABCDEF")
  {
    var digits := "0123456789abcdefABCDEF";
    if IsHex(b) {
      var i := if IsDigit(b) then HexValue(b) else if b >= 0x61 then HexValue(b) else HexValue(b) + 6;
      assert digits[i] as int == b;
    }
  }

  lemma HexValues(b: Byte)
    ensures forall v :: 0 <= v < 16 ==>
              (HexValue(b) == v <==> b == "0123456789abcdef"[v] as int || b == "0123456789ABCDEF"[v] as int)
  {
  }

  predicate IsOneOf(b: Byte, s: string) { exists i :: 0 <= i < |s| && s[i] as int == b }

  // ---------- gaps ----------

  /** At most one space. */
  predicate Gap(s: ByteString) { s == [] || s == [SPACE] }

  lemma GapBefore(w: ByteString) returns (gap: ByteString)
    ensures Gap(gap) && w == gap + SkipSpace(w)
  {
    if |w| > 0 && w[0] == SPACE { gap := [SPACE]; } else { gap := []; }
  }

  lemma EitherGap(gap: ByteString)
    requires gap == [] || gap == [SPACE]
    ensures Gap(gap)
  {
  }

  lemma GapSkipped(gap: ByteString, w: ByteString)
    requires Gap(gap) && (|w| > 0 ==> w[0] != SPACE)
    ensures SkipSpace(gap + w) == w
  {
    if gap == [] { assert gap + w == w; } else { assert (gap + w)[1..] == w; }
  }

  // ---------- strings ----------

  /** Characters, at most max of them, between quotes. */
  ghost predicate IsStringText(max: Option<nat>, units: seq<ByteString>, w: ByteString) {
    && (forall u <- units :: CharUnit(u)) && (max.Some? ==> |units| <= max.value)
    && w == [QUOTE] + Concat(units) + [QUOTE]
  }

  lemma {:induction false} ConcatFront(u: ByteString, units: seq<ByteString>)
    ensures Concat([u] + units) == u + Concat(units)
    decreases |units|
  {
    if units == [] {
      assert [u] + units == [u] && [u][..0] == [];
      assert u + [] == u == [] + u;
    } else {
      var n := |units| - 1;
      assert ([u] + units)[..n + 1] == [u] + units[..n];
      ConcatFront(u, units[..n]);
    }
  }

  lemma {:induction false} TailUnits(max: Option<nat>, chars: nat, w: ByteString) returns (units: seq<ByteString>)
    requires StringTail(max, chars, w) && Allows(max, chars)
    ensures (forall u <- units :: CharUnit(u)) && Allows(max, chars + |units|) && w == Concat(units) + [QUOTE]
    decreases |w|
  {
    if w == [QUOTE] {
      units := [];
    } else {
      var k :| 1 <= k <= |w| && CharUnit(w[..k]) && Allows(max, chars + 1) && StringTail(max, chars + 1, w[k..]);
      var more := TailUnits(max, chars + 1, w[k..]);
      units := [w[..k]] + more;
      ConcatFront(w[..k], more);
      assert w == w[..k] + w[k..];
    }
  }

  lemma {:induction false} UnitsTail(max: Option<nat>, chars: nat, units: seq<ByteString>)
    requires (forall u <- units :: CharUnit(u)) && Allows(max, chars + |units|)
    ensures StringTail(max, chars, Concat(units) + [QUOTE])
    decreases |units|
  {
    if units == [] {
      assert Concat(units) + [QUOTE] == [QUOTE];
    } else {
      var u, more := units[0], units[1..];
      assert units == [u] + more && u in units;
      ConcatFront(u, more);
      UnitsTail(max, chars + 1, more);
      var w := Concat(units) + [QUOTE];
      assert w[..|u|] == u && w[|u|..] == Concat(more) + [QUOTE];
      assert |u| >= 1;
    }
  }

  /** A string schema without fixed values: characters of JSON, as many as the bound allows. */
  lemma StringSpelled(max: Option<nat>, w: ByteString)
    ensures Conforms(String(max, None), w) <==> exists units :: IsStringText(max, units, w)
  {
    hide CharUnit;
    if Conforms(String(max, None), w) {
      var units := TailUnits(max, 0, w[1..]);
      assert w == [QUOTE] + w[1..];
      assert IsStringText(max, units, w);
    }
    if units :| IsStringText(max, units, w) {
      UnitsTail(max, 0, units);
      assert w[1..] == Concat(units) + [QUOTE];
    }
  }

  // ---------- arrays ----------

  /** An item and the gap before it. */
  datatype Item = Item(gap: ByteString, value: ByteString)

  ghost predicate ItemsConform(s: Node, items: seq<Item>) {
    forall i <- items :: Gap(i.gap) && Conforms(s, i.value)
  }

  /** Each further item behind a comma, then the bracket. */
  function ItemsRest(items: seq<Item>): ByteString {
    if items == [] then [RBRACKET] else [COMMA] + items[0].gap + items[0].value + ItemsRest(items[1..])
  }

  ghost predicate IsArrayText(s: Node, max: Option<nat>, items: seq<Item>, w: ByteString) {
    && ItemsConform(s, items) && (max.Some? ==> |items| <= max.value)
    && if items == [] then w == [LBRACKET, RBRACKET] || w == [LBRACKET, SPACE, RBRACKET]
       else w == [LBRACKET] + items[0].gap + items[0].value + ItemsRest(items[1..])
  }

  /** An item of an array text, cut off at the front. */
  lemma CutItem(s: Node, max: Option<nat>, commas: nat, r: ByteString) returns (v: ByteString, rest: ByteString)
    requires ItemThenTail(s, max, commas, r)
    ensures r == v + rest && Conforms(s, v) && ArrayTail(s, max, commas, rest) && |rest| <= |r|
  {
    hide Conforms, ArrayTail;
    var k :| 0 <= k <= |r| && Conforms(s, r[..k]) && ArrayTail(s, max, commas, r[k..]);
    v, rest := r[..k], r[k..];
  }

  lemma PutItem(s: Node, max: Option<nat>, commas: nat, gap: ByteString, v: ByteString, rest: ByteString)
    requires Gap(gap) && Conforms(s, v) && ArrayTail(s, max, commas, rest)
    ensures SkipSpace(gap + v + rest) == v + rest && ItemThenTail(s, max, commas, v + rest)
  {
    hide Conforms, ArrayTail, SkipSpace, Gap, ItemThenTail;
    ValueStart(s, v);
    var r := v + rest;
    assert r[0] == v[0];
    GapSkipped(gap, r);
    assert gap + v + rest == gap + r;
    ItemFirst(s, max, commas, v, rest);
  }

  lemma ItemFirst(s: Node, max: Option<nat>, commas: nat, v: ByteString, rest: ByteString)
    requires Conforms(s, v) && ArrayTail(s, max, commas, rest)
    ensures ItemThenTail(s, max, commas, v + rest)
  {
    hide Conforms, ArrayTail;
    var r := v + rest;
    assert r[..|v|] == v && r[|v|..] == rest;
  }

  lemma TailStep(s: Node, max: Option<nat>, commas: nat, w: ByteString)
    ensures ArrayTail(s, max, commas, w) <==>
              || w == [RBRACKET]
              || (|w| > 0 && w[0] == COMMA && Allows(max, commas + 2)
                  && ItemThenTail(s, max, commas + 1, SkipSpace(w[1..])))
  {
    hide ItemThenTail, SkipSpace;
  }

  lemma {:induction false} RestItems(s: Node, max: Option<nat>, commas: nat, w: ByteString) returns (items: seq<Item>)
    requires ArrayTail(s, max, commas, w) && Allows(max, commas + 1)
    ensures ItemsConform(s, items) && Allows(max, commas + 1 + |items|) && w == ItemsRest(items)
    decreases |w|
  {
    hide Conforms, ArrayTail, ItemThenTail, SkipSpace, Gap;
    TailStep(s, max, commas, w);
    if w == [RBRACKET] {
      items := [];
    } else {
      var gap := GapBefore(w[1..]);
      var v, rest := CutItem(s, max, commas + 1, SkipSpace(w[1..]));
      assert w == [COMMA] + w[1..] == [COMMA] + gap + v + rest;
      var more := RestItems(s, max, commas + 1, rest);
      items := [Item(gap, v)] + more;
      assert items[1..] == more;
    }
  }

  lemma {:induction false} ItemsTail(s: Node, max: Option<nat>, commas: nat, items: seq<Item>)
    requires ItemsConform(s, items) && Allows(max, commas + 1 + |items|)
    ensures ArrayTail(s, max, commas, ItemsRest(items))
    decreases |items|
  {
    hide Conforms, ArrayTail, ItemThenTail, SkipSpace, Gap;
    var w := ItemsRest(items);
    TailStep(s, max, commas, w);
    if items != [] {
      var i, more := items[0], items[1..];
      assert i in items;
      ItemsTail(s, max, commas + 1, more);
      PutItem(s, max, commas + 1, i.gap, i.value, ItemsRest(more));
      assert w[1..] == i.gap + i.value + ItemsRest(more);
    }
  }

  /** An array schema: items of its schema, as many as the bound allows. */
  lemma ArraySpelled(s: Node, max: Option<nat>, w: ByteString)
    ensures Conforms(Array(s, max), w) <==> exists items :: IsArrayText(s, max, items, w)
  {
    if Conforms(Array(s, max), w) { var items := ArrayItems(s, max, w); }
    if items :| IsArrayText(s, max, items, w) { ItemsArray(s, max, items, w); }
  }

  lemma ArrayIs(s: Node, max: Option<nat>, w: ByteString)
    ensures Conforms(Array(s, max), w) <==>
              |w| > 0 && w[0] == LBRACKET
              && var r := SkipSpace(w[1..]); r == [RBRACKET] || (Allows(max, 1) && ItemThenTail(s, max, 0, r))
  {
    hide ItemThenTail, SkipSpace;
  }

  lemma ArrayItems(s: Node, max: Option<nat>, w: ByteString) returns (items: seq<Item>)
    requires Conforms(Array(s, max), w)
    ensures IsArrayText(s, max, items, w)
  {
    hide Conforms, ArrayTail, ItemThenTail, SkipSpace;
    ArrayIs(s, max, w);
    var gap := GapBefore(w[1..]);
    assert w == [LBRACKET] + w[1..];
    if SkipSpace(w[1..]) == [RBRACKET] {
      items := [];
    } else {
      var v, rest := CutItem(s, max, 0, SkipSpace(w[1..]));
      var more := RestItems(s, max, 0, rest);
      items := [Item(gap, v)] + more;
      assert items[1..] == more;
    }
  }

  lemma ItemsArray(s: Node, max: Option<nat>, items: seq<Item>, w: ByteString)
    requires IsArrayText(s, max, items, w)
    ensures Conforms(Array(s, max), w)
  {
    hide ArrayTail, ItemThenTail;
    if items == [] {
      assert w == [LBRACKET, RBRACKET] ==> w[1..] == [RBRACKET];
      assert w == [LBRACKET, SPACE, RBRACKET] ==> w[1..] == [SPACE, RBRACKET] && w[1..][1..] == [RBRACKET];
    } else {
      var i, more := items[0], items[1..];
      assert i in items;
      ItemsTail(s, max, 0, more);
      PutItem(s, max, 0, i.gap, i.value, ItemsRest(more));
      assert w[1..] == i.gap + i.value + ItemsRest(more);
    }
  }

  // ---------- objects ----------

  /** A member: which property, the gaps before the key and after the colon, and the value. */
  datatype Entry = Entry(index: nat, gap: ByteString, colonGap: ByteString, value: ByteString)

  /** Properties from `next` on, in their order, each at most once, and all the required ones. */
  ghost predicate EntriesFrom(props: seq<Property>, next: nat, es: seq<Entry>) {
    && (forall a, b :: 0 <= a < b < |es| ==> es[a].index < es[b].index)
    && (forall e <- es :: next <= e.index < |props| && Gap(e.gap) && Gap(e.colonGap)
                          && Conforms(props[e.index].schema, e.value))
    && (forall j :: next <= j < |props| && props[j].required ==> exists e <- es :: e.index == j)
  }

  /** `"key": value`. */
  function MemberText(props: seq<Property>, e: Entry): ByteString
    requires e.index < |props|
  {
    [QUOTE] + props[e.index].name + [QUOTE] + [COLON] + e.colonGap + e.value
  }

  /** Each further member behind a comma, then the brace. */
  function EntriesRest(props: seq<Property>, es: seq<Entry>): ByteString
    requires forall e <- es :: e.index < |props|
  {
    if es == [] then [RBRACE]
    else [COMMA] + es[0].gap + MemberText(props, es[0]) + EntriesRest(props, es[1..])
  }

  ghost predicate IsObjectText(props: seq<Property>, es: seq<Entry>, w: ByteString) {
    && EntriesFrom(props, 0, es)
    && if es == [] then w == [LBRACE, RBRACE] || w == [LBRACE, SPACE, RBRACE]
       else w == [LBRACE] + es[0].gap + MemberText(props, es[0]) + EntriesRest(props, es[1..])
  }

  /** One more entry in front. */
  lemma EntryFront(props: seq<Property>, next: nat, e: Entry, es: seq<Entry>)
    requires Gap(e.gap) && Gap(e.colonGap) && e.index < |props| && Conforms(props[e.index].schema, e.value)
    requires Candidate(props, next, e.index) && EntriesFrom(props, e.index + 1, es)
    ensures EntriesFrom(props, next, [e] + es)
  {
    hide Conforms;
    var all := [e] + es;
    assert all[0] == e && all[1..] == es;
    forall a, b | 0 <= a < b < |all| ensures all[a].index < all[b].index {
      assert all[b] == es[b - 1] && es[b - 1] in es;
      if a > 0 { assert all[a] == es[a - 1]; }
    }
    forall j | next <= j < |props| && props[j].required ensures exists x <- all :: x.index == j {
      if j == e.index {
        assert e in all;
      } else if j > e.index {
        var x :| x in es && x.index == j;
        assert x in all;
      }
    }
  }

  /** The first entry, and what the others are. */
  lemma EntryFirst(props: seq<Property>, next: nat, es: seq<Entry>)
    requires EntriesFrom(props, next, es) && es != []
    ensures Candidate(props, next, es[0].index) && EntriesFrom(props, es[0].index + 1, es[1..])
  {
    hide Conforms;
    var e, more := es[0], es[1..];
    assert e in es;
    forall j | next <= j < e.index ensures !props[j].required {
      assert forall a :: 0 <= a < |es| ==> es[a].index >= e.index;
      assert forall x <- es :: x.index != j;
    }
    forall x | x in more ensures e.index + 1 <= x.index < |props| && Gap(x.gap) && Gap(x.colonGap)
                                 && Conforms(props[x.index].schema, x.value)
    {
      var a :| 0 <= a < |more| && more[a] == x;
      assert es[a + 1] == x && x in es;
    }
    forall j | e.index + 1 <= j < |props| && props[j].required ensures exists x <- more :: x.index == j {
      var x :| x in es && x.index == j;
      var a :| 0 <= a < |es| && es[a] == x;
      assert a > 0 && more[a - 1] == x;
    }
  }

  lemma CutKey(props: seq<Property>, next: nat, w: ByteString) returns (i: nat, t: ByteString)
    requires Member(props, next, w)
    ensures i < |props| && Candidate(props, next, i) && KeyedValue(props, i, t)
    ensures w == [QUOTE] + props[i].name + [QUOTE] + t
  {
    hide KeyedValue;
    i :| Candidate(props, next, i) && [QUOTE] + props[i].name + [QUOTE] <= w
         && KeyedValue(props, i, w[|props[i].name| + 2..]);
    t := w[|props[i].name| + 2..];
  }

  lemma CutValue(props: seq<Property>, i: nat, t: ByteString)
    returns (colonGap: ByteString, v: ByteString, rest: ByteString)
    requires i < |props| && KeyedValue(props, i, t)
    ensures Gap(colonGap) && Conforms(props[i].schema, v) && ObjectTail(props, i + 1, rest) && |rest| <= |t|
    ensures t == [COLON] + colonGap + v + rest
  {
    hide Conforms, ObjectTail, SkipSpace, Gap;
    colonGap := GapBefore(t[1..]);
    var r := SkipSpace(t[1..]);
    var k :| 0 <= k <= |r| && Conforms(props[i].schema, r[..k]) && ObjectTail(props, i + 1, r[k..]);
    v, rest := r[..k], r[k..];
    assert t == [COLON] + t[1..] && r == v + rest;
  }

  /** A member cut off at the front. */
  lemma CutMember(props: seq<Property>, next: nat, gap: ByteString, w: ByteString)
    returns (e: Entry, rest: ByteString)
    requires Member(props, next, w) && Gap(gap)
    ensures e.gap == gap && Gap(e.colonGap) && Candidate(props, next, e.index) && e.index < |props|
    ensures Conforms(props[e.index].schema, e.value) && ObjectTail(props, e.index + 1, rest) && |rest| <= |w|
    ensures w == MemberText(props, e) + rest
  {
    hide Conforms, ObjectTail, Candidate, Gap, KeyedValue, Member;
    var i, t := CutKey(props, next, w);
    var colonGap, v, tail := CutValue(props, i, t);
    e, rest := Entry(i, gap, colonGap, v), tail;
    assert [QUOTE] + props[i].name + [QUOTE] + t
           == [QUOTE] + props[i].name + [QUOTE] + [COLON] + colonGap + v + rest;
  }

  lemma PutMember(props: seq<Property>, next: nat, e: Entry, rest: ByteString)
    requires Gap(e.gap) && Gap(e.colonGap) && Candidate(props, next, e.index) && e.index < |props|
    requires Conforms(props[e.index].schema, e.value) && ObjectTail(props, e.index + 1, rest)
    ensures var w := MemberText(props, e) + rest;
            Member(props, next, w) && SkipSpace(e.gap + w) == w
  {
    hide Conforms, ObjectTail, Candidate, SkipSpace, Gap, ValueThenTail;
    ValueStart(props[e.index].schema, e.value);
    var w := MemberText(props, e) + rest;
    var name := props[e.index].name;
    var r := e.value + rest;
    var t := [COLON] + (e.colonGap + r);
    assert w == ([QUOTE] + name + [QUOTE]) + t && w[|name| + 2..] == t && t[1..] == e.colonGap + r;
    assert r[0] == e.value[0] && w[0] == QUOTE;
    GapSkipped(e.colonGap, r);
    GapSkipped(e.gap, w);
    ValueFirst(props, e.index, e.value, rest);
    assert KeyedValue(props, e.index, t);
    assert [QUOTE] + name + [QUOTE] <= w;
  }

  lemma ValueFirst(props: seq<Property>, i: nat, v: ByteString, rest: ByteString)
    requires i < |props| && Conforms(props[i].schema, v) && ObjectTail(props, i + 1, rest)
    ensures ValueThenTail(props, i, v + rest)
  {
    hide Conforms, ObjectTail;
    var r := v + rest;
    assert r[..|v|] == v && r[|v|..] == rest;
  }

  lemma ObjectTailStep(props: seq<Property>, next: nat, w: ByteString)
    ensures ObjectTail(props, next, w) <==>
              || (w == [RBRACE] && NoRequiredFrom(props, next))
              || (|w| > 0 && w[0] == COMMA && Member(props, next, SkipSpace(w[1..])))
  {
    hide Member, SkipSpace;
  }

  lemma {:induction false} TailEntries(props: seq<Property>, next: nat, w: ByteString) returns (es: seq<Entry>)
    requires ObjectTail(props, next, w)
    ensures EntriesFrom(props, next, es) && (forall e <- es :: e.index < |props|) && w == EntriesRest(props, es)
    decreases |w|
  {
    hide Conforms, ObjectTail, Member, Candidate, SkipSpace, Gap, EntriesFrom, MemberText;
    ObjectTailStep(props, next, w);
    if w == [RBRACE] && NoRequiredFrom(props, next) {
      es := [];
      NoEntries(props, next);
    } else {
      var gap := GapBefore(w[1..]);
      var e, rest := CutMember(props, next, gap, SkipSpace(w[1..]));
      var more := TailEntries(props, e.index + 1, rest);
      es := [e] + more;
      EntryFront(props, next, e, more);
      assert es[1..] == more && w == [COMMA] + w[1..] == [COMMA] + gap + MemberText(props, e) + rest;
    }
  }

  lemma NoEntries(props: seq<Property>, next: nat)
    ensures EntriesFrom(props, next, []) <==> NoRequiredFrom(props, next)
  {
    hide Conforms;
    if !NoRequiredFrom(props, next) {
      var none: seq<Entry>, j := [], next;
      j :| next <= j < |props| && props[j].required;
      assert !(exists e <- none :: e.index == j);
    }
  }

  lemma {:induction false} EntriesTail(props: seq<Property>, next: nat, es: seq<Entry>)
    requires EntriesFrom(props, next, es)
    ensures (forall e <- es :: e.index < |props|) && ObjectTail(props, next, EntriesRest(props, es))
    decreases |es|
  {
    hide Conforms, ObjectTail, Member, Candidate, SkipSpace, Gap, MemberText, EntriesFrom;
    EntriesKnown(props, next, es);
    var w := EntriesRest(props, es);
    ObjectTailStep(props, next, w);
    if es == [] {
      NoEntries(props, next);
    } else {
      var e, more := es[0], es[1..];
      EntryFirst(props, next, es);
      EntriesTail(props, e.index + 1, more);
      PutMember(props, next, e, EntriesRest(props, more));
      assert w[1..] == e.gap + (MemberText(props, e) + EntriesRest(props, more));
    }
  }

  lemma EntriesKnown(props: seq<Property>, next: nat, es: seq<Entry>)
    requires EntriesFrom(props, next, es)
    ensures forall e <- es ::
              Gap(e.gap) && Gap(e.colonGap) && e.index < |props| && Conforms(props[e.index].schema, e.value)
    ensures es != [] ==> es[0] in es
  {
    hide Conforms;
  }

  /** An object schema: values for some of the properties, in their order, none twice, and none
      of the required ones missing. */
  lemma ObjectSpelled(props: seq<Property>, w: ByteString)
    ensures Conforms(Object(props), w) <==> exists es :: IsObjectText(props, es, w)
  {
    if Conforms(Object(props), w) { var es := ObjectEntries(props, w); }
    if es :| IsObjectText(props, es, w) { EntriesObject(props, es, w); }
  }

  lemma ObjectIs(props: seq<Property>, w: ByteString)
    ensures Conforms(Object(props), w) <==>
              |w| > 0 && w[0] == LBRACE
              && var r := SkipSpace(w[1..]); (r == [RBRACE] && NoRequiredFrom(props, 0)) || Member(props, 0, r)
  {
    hide Member, SkipSpace;
  }

  lemma ObjectEntries(props: seq<Property>, w: ByteString) returns (es: seq<Entry>)
    requires Conforms(Object(props), w)
    ensures IsObjectText(props, es, w)
  {
    hide Conforms, ObjectTail, Member, Candidate, SkipSpace, EntriesFrom, MemberText;
    ObjectIs(props, w);
    var gap := GapBefore(w[1..]);
    assert w == [LBRACE] + w[1..];
    NoEntries(props, 0);
    if SkipSpace(w[1..]) == [RBRACE] && NoRequiredFrom(props, 0) {
      es := [];
    } else {
      var e, rest := CutMember(props, 0, gap, SkipSpace(w[1..]));
      var more := TailEntries(props, e.index + 1, rest);
      es := [e] + more;
      EntryFront(props, 0, e, more);
      assert es[1..] == more && w == [LBRACE] + gap + MemberText(props, e) + rest;
    }
  }

  lemma EntriesObject(props: seq<Property>, es: seq<Entry>, w: ByteString)
    requires IsObjectText(props, es, w)
    ensures Conforms(Object(props), w)
  {
    hide Conforms, ObjectTail, Member, Candidate, EntriesFrom, MemberText, SkipSpace, Gap;
    NoEntries(props, 0);
    ObjectIs(props, w);
    if es == [] {
      var gap := if w == [LBRACE, RBRACE] then [] else [SPACE];
      assert w[1..] == gap + [RBRACE];
      EitherGap(gap);
      GapSkipped(gap, [RBRACE]);
    } else {
      var e, more := es[0], es[1..];
      EntriesKnown(props, 0, es);
      EntryFirst(props, 0, es);
      EntriesTail(props, e.index + 1, more);
      PutMember(props, 0, e, EntriesRest(props, more));
      assert w[1..] == e.gap + (MemberText(props, e) + EntriesRest(props, more));
    }
  }

  // ---------- whole calls ----------

  /** The gaps of the outer object: before and after "name": and its value, likewise "input". */
  datatype Gaps = Gaps(open: ByteString, name: ByteString, comma: ByteString, key: ByteString, input: ByteString,
                       close: ByteString)

  predicate AllGaps(s: Gaps) {
    Gap(s.open) && Gap(s.name) && Gap(s.comma) && Gap(s.key) && Gap(s.input) && Gap(s.close)
  }

  /** The end of the call, from its last gap on. */
  function CloseText(g: Grammar, s: Gaps): ByteString { s.close + ([RBRACE] + g.suffix) }

  /** The call after its name: `, "input": {...} }`. */
  function InputText(g: Grammar, s: Gaps, input: ByteString): ByteString {
    [COMMA] + (s.key + (INPUT_KEY + ([COLON] + (s.input + (input + CloseText(g, s))))))
  }

  /** A whole call of the tool of that name: `{ "name": "...", "input": {...} }`. */
  function CallText(g: Grammar, s: Gaps, name: ByteString, input: ByteString): ByteString {
    g.prefix + ([LBRACE] + (s.open + (NAME_KEY + ([COLON] + (s.name
    + ([QUOTE] + name + [QUOTE] + (s.comma + InputText(g, s, input))))))))
  }

  /** The tool of that name can be called: it is the first one, and its name is plain. */
  predicate Names(g: Grammar, i: nat, name: ByteString) {
    && i < |g.toolNames| && i < |g.toolSchemas| && g.toolNames[i] == name
    && (forall j :: 0 <= j < i ==> g.toolNames[j] != name)
    && (forall k :: 0 <= k < |name| ==> 0x20 <= name[k] < 0x80 && name[k] != QUOTE && name[k] != BACKSLASH)
  }

  ghost predicate IsCall(g: Grammar, s: Gaps, i: nat, input: ByteString, w: ByteString) {
    && AllGaps(s) && i < |g.toolNames| && Names(g, i, g.toolNames[i])
    && Conforms(g.toolSchemas[i], input) && w == CallText(g, s, g.toolNames[i], input)
  }

  lemma CutInput(g: Grammar, i: nat, s: Gaps, w: ByteString) returns (s': Gaps, input: ByteString)
    requires i < |g.toolSchemas| && CommaThenInput(g, i, w) && AllGaps(s)
    ensures AllGaps(s') && s' == s.(key := s'.key, input := s'.input, close := s'.close)
    ensures Conforms(g.toolSchemas[i], input) && w == InputText(g, s', input)
  {
    hide Conforms, SkipSpace, Gap, InputThenClose;
    var key := GapBefore(w[1..]);
    var b := SkipSpace(w[1..]);
    var c := b[|INPUT_KEY|..];
    var gap := GapBefore(c[1..]);
    var r := SkipSpace(c[1..]);
    var close, rest;
    close, input, rest := CutClose(g, i, r);
    s' := s.(key := key, input := gap, close := close);
    assert w == [COMMA] + w[1..] && b == INPUT_KEY + c && c == [COLON] + c[1..];
  }

  lemma CutClose(g: Grammar, i: nat, r: ByteString) returns (close: ByteString, input: ByteString, rest: ByteString)
    requires i < |g.toolSchemas| && InputThenClose(g, i, r)
    ensures Gap(close) && Conforms(g.toolSchemas[i], input)
    ensures rest == close + ([RBRACE] + g.suffix) && r == input + rest
  {
    hide Conforms, SkipSpace, Gap;
    var k :| 0 <= k <= |r| && Conforms(g.toolSchemas[i], r[..k]) && Close(g, SkipSpace(r[k..]));
    input, rest := r[..k], r[k..];
    close := GapBefore(rest);
  }

  lemma PutClose(g: Grammar, i: nat, s: Gaps, input: ByteString)
    requires i < |g.toolSchemas| && AllGaps(s) && Conforms(g.toolSchemas[i], input)
    ensures var r := input + CloseText(g, s);
            InputThenClose(g, i, r) && |r| > 0 && r[0] != SPACE
  {
    hide Conforms, SkipSpace, Gap;
    ValueStart(g.toolSchemas[i], input);
    var r, end := input + CloseText(g, s), [RBRACE] + g.suffix;
    GapSkipped(s.close, end);
    assert r[..|input|] == input && r[|input|..] == s.close + end && r[0] == input[0];
    assert Close(g, SkipSpace(r[|input|..]));
  }

  lemma PutInput(g: Grammar, i: nat, s: Gaps, input: ByteString)
    requires i < |g.toolSchemas| && AllGaps(s) && Conforms(g.toolSchemas[i], input)
    ensures CommaThenInput(g, i, InputText(g, s, input))
  {
    hide Conforms, SkipSpace, Gap, InputThenClose, CloseText;
    PutClose(g, i, s, input);
    var r := input + CloseText(g, s);
    GapSkipped(s.input, r);
    var c := [COLON] + (s.input + r);
    assert c[1..] == s.input + r && AfterInputKey(g, i, c);
    var b := INPUT_KEY + c;
    assert b[|INPUT_KEY|..] == c && b[0] == QUOTE && InputEntry(g, i, b);
    GapSkipped(s.key, b);
    var w := [COMMA] + (s.key + b);
    assert w[1..] == s.key + b;
    assert w == InputText(g, s, input);
  }

  /** The tool's name at the front. */
  lemma CutName(g: Grammar, e: ByteString) returns (i: nat, rest: ByteString)
    requires NameThenInput(g, e)
    ensures i < |g.toolNames| && i < |g.toolSchemas| && Names(g, i, g.toolNames[i]) && AfterNameValue(g, i, rest)
    ensures e == [QUOTE] + g.toolNames[i] + [QUOTE] + rest
  {
    hide AfterNameValue;
    i :| FirstOf(g.toolNames, i) && Plain(g.toolNames[i]) && [QUOTE] + g.toolNames[i] + [QUOTE] <= e
         && i < |g.toolSchemas| && AfterNameValue(g, i, e[|g.toolNames[i]| + 2..]);
    rest := e[|g.toolNames[i]| + 2..];
  }

  /** The front of a call, up to the tool's name. */
  lemma CutFront(g: Grammar, w: ByteString) returns (open: ByteString, name: ByteString, e: ByteString)
    requires ToolCall(g, w)
    ensures Gap(open) && Gap(name) && NameThenInput(g, e)
    ensures w == g.prefix + ([LBRACE] + (open + (NAME_KEY + ([COLON] + (name + e)))))
  {
    hide SkipSpace, NameThenInput, Gap;
    var o := w[|g.prefix|..];
    open := GapBefore(o[1..]);
    var n := SkipSpace(o[1..]);
    var c := n[|NAME_KEY|..];
    name := GapBefore(c[1..]);
    e := SkipSpace(c[1..]);
    assert w == g.prefix + o && o == [LBRACE] + o[1..] && n == NAME_KEY + c && c == [COLON] + c[1..];
  }

  lemma CallParts(g: Grammar, w: ByteString) returns (s: Gaps, i: nat, input: ByteString)
    requires ToolCall(g, w)
    ensures IsCall(g, s, i, input, w)
  {
    hide ToolCall, Conforms, SkipSpace, NameThenInput, CommaThenInput, InputText, Names, Gap;
    var open, name, e := CutFront(g, w);
    var rest;
    i, rest := CutName(g, e);
    var comma := GapBefore(rest);
    NoGap();
    s, input := CutInput(g, i, Gaps(open, name, comma, [], [], []), SkipSpace(rest));
    assert e == [QUOTE] + g.toolNames[i] + [QUOTE] + (s.comma + InputText(g, s, input));
  }

  lemma NoGap()
    ensures Gap([])
  {
  }

  lemma PartsCall(g: Grammar, s: Gaps, i: nat, input: ByteString, w: ByteString)
    requires IsCall(g, s, i, input, w)
    ensures ToolCall(g, w)
  {
    hide Conforms, SkipSpace, CommaThenInput, InputText, Gap, NameThenInput;
    PutInput(g, i, s, input);
    var t := InputText(g, s, input);
    StartsWithComma(g, s, input);
    GapSkipped(s.comma, t);
    var rest := s.comma + t;
    assert AfterNameValue(g, i, rest);
    NamePut(g, i, rest);
    PutName(g, s, [QUOTE] + g.toolNames[i] + [QUOTE] + rest);
  }

  lemma NamePut(g: Grammar, i: nat, rest: ByteString)
    requires i < |g.toolNames| && Names(g, i, g.toolNames[i]) && AfterNameValue(g, i, rest)
    ensures NameThenInput(g, [QUOTE] + g.toolNames[i] + [QUOTE] + rest)
  {
    hide AfterNameValue;
    var e := [QUOTE] + g.toolNames[i] + [QUOTE] + rest;
    assert e[|g.toolNames[i]| + 2..] == rest && FirstOf(g.toolNames, i) && Plain(g.toolNames[i]);
    assert [QUOTE] + g.toolNames[i] + [QUOTE] <= e;
  }

  lemma StartsWithComma(g: Grammar, s: Gaps, input: ByteString)
    ensures |InputText(g, s, input)| > 0 && InputText(g, s, input)[0] == COMMA
  {
  }

  lemma PutName(g: Grammar, s: Gaps, e: ByteString)
    requires AllGaps(s) && NameThenInput(g, e) && |e| > 0 && e[0] == QUOTE
    ensures ToolCall(g, g.prefix + ([LBRACE] + (s.open + (NAME_KEY + ([COLON] + (s.name + e))))))
  {
    hide NameThenInput, SkipSpace, Gap;
    GapSkipped(s.name, e);
    var c := [COLON] + (s.name + e);
    assert c[1..] == s.name + e && AfterNameKey(g, c);
    var n := NAME_KEY + c;
    assert n[|NAME_KEY|..] == c && n[0] == QUOTE && NameEntry(g, n);
    GapSkipped(s.open, n);
    var o := [LBRACE] + (s.open + n);
    assert o[1..] == s.open + n && CallObject(g, o);
    assert (g.prefix + o)[|g.prefix|..] == o;
  }

  /** A tool call is the prefix, one object naming a tool and giving its input, and the suffix,
      with at most one space at each of six places. */
  lemma CallSpelled(g: Grammar, w: ByteString)
    ensures ToolCall(g, w) <==> exists s, i: nat, input :: IsCall(g, s, i, input, w)
  {
    hide IsCall;
    if ToolCall(g, w) { var s, i, input := CallParts(g, w); }
    if s, i: nat, input :| IsCall(g, s, i, input, w) { PartsCall(g, s, i, input, w); }
  }
}
