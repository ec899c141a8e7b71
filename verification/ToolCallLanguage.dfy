/** The language of tool calls, stated on byte strings and without the matcher: which
    strings are a JSON value of a schema, and which are a whole tool call of a grammar. */
module ToolCallLanguage {
  import opened Bytes
  import opened Options
  import opened Schema

  predicate Tail(b: Byte) { 0x80 <= b <= 0xBF }

  /** Well-formed multi-byte UTF-8 (the table in section 4 of RFC 3629). */
  predicate Utf8Multi(u: ByteString) {
    || (|u| == 2 && 0xC2 <= u[0] <= 0xDF && Tail(u[1]))
    || (|u| == 3 && Tail(u[2]) &&
        ( || (u[0] == 0xE0 && 0xA0 <= u[1] <= 0xBF)
          || (0xE1 <= u[0] <= 0xEC && Tail(u[1]))
          || (u[0] == 0xED && 0x80 <= u[1] <= 0x9F)
          || (0xEE <= u[0] <= 0xEF && Tail(u[1]))))
    || (|u| == 4 && Tail(u[2]) && Tail(u[3]) &&
        ( || (u[0] == 0xF0 && 0x90 <= u[1] <= 0xBF)
          || (0xF1 <= u[0] <= 0xF3 && Tail(u[1]))
          || (u[0] == 0xF4 && 0x80 <= u[1] <= 0x8F)))
  }

  predicate SimpleEscape(b: Byte) {
    b in {QUOTE, BACKSLASH, SLASH, LOWER_B, LOWER_F, LOWER_N, LOWER_R, LOWER_T}
  }

  /** The first two digits of a \uXXXX escape the matcher lets through. */
  predicate HexPairOk(first: int, second: int) { !(first >= 0xD && second >= 0x8) }

  /** One character of a JSON string (section 7 of RFC 8259), escaped or not. */
  predicate CharUnit(u: ByteString) {
    || (|u| == 1 && PlainByte(u[0]))
    || Utf8Multi(u)
    || (|u| == 2 && u[0] == BACKSLASH && SimpleEscape(u[1]))
    || (|u| == 6 && u[0] == BACKSLASH && u[1] == LOWER_U
        && IsHex(u[2]) && IsHex(u[3]) && IsHex(u[4]) && IsHex(u[5])
        && HexPairOk(HexValue(u[2]), HexValue(u[3])))
  }

  /** After `chars` characters of a string: more characters within `max`, then a quote. */
  ghost predicate StringTail(max: Option<nat>, chars: nat, w: ByteString)
    decreases |w|
  {
    || w == [QUOTE]
    || (exists k :: 1 <= k <= |w| && CharUnit(w[..k]) && Allows(max, chars + 1)
                    && StringTail(max, chars + 1, w[k..]))
  }

  /** An enum value the plain form can spell: no escapes, no multi-byte characters. */
  predicate Usable(max: Option<nat>, v: ByteString) { Plain(v) && Allows(max, |v|) }

  predicate Digits(w: ByteString) { forall i :: 0 <= i < |w| ==> IsDigit(w[i]) }

  /** One to eighteen digits without a superfluous leading zero. */
  predicate Magnitude(w: ByteString) {
    1 <= |w| <= 18 && Digits(w) && (w[0] == ZERO ==> |w| == 1)
  }

  /** An integer (section 6 of RFC 8259). */
  predicate IsInteger(w: ByteString) {
    Magnitude(w) || (|w| > 0 && w[0] == MINUS && Magnitude(w[1..]))
  }

  /** w is a JSON value of schema s. */
  ghost predicate Conforms(s: Node, w: ByteString)
    decreases s, |w|, 3
  {
    match s
    case Object(props) => |w| > 0 && w[0] == LBRACE && ObjectBody(props, SkipSpace(w[1..]))
    case String(max, None) => |w| > 0 && w[0] == QUOTE && StringTail(max, 0, w[1..])
    case String(max, Some(vals)) =>
      exists i :: 0 <= i < |vals| && Usable(max, vals[i]) && w == [QUOTE] + vals[i] + [QUOTE]
    case Integer => IsInteger(w)
    case Boolean => w == TRUE_WORD || w == FALSE_WORD
    case Null => w == NULL_WORD
    case Array(items, max) => |w| > 0 && w[0] == LBRACKET && ArrayBody(items, max, SkipSpace(w[1..]))
  }

  /** What may follow `{`: a closing brace when nothing is required, or a first member. */
  ghost predicate ObjectBody(props: seq<Property>, w: ByteString)
    decreases props, |w|, 2
  {
    (w == [RBRACE] && NoRequiredFrom(props, 0)) || Member(props, 0, w)
  }

  /** `"key": value`, then the rest of the object, with no key before index `next`. */
  ghost predicate Member(props: seq<Property>, next: nat, w: ByteString)
    decreases props, |w|, 1
  {
    exists i: nat :: Candidate(props, next, i)
      && [QUOTE] + props[i].name + [QUOTE] <= w
      && KeyedValue(props, i, w[|props[i].name| + 2..])
  }

  /** `: value` for property i, then the rest of the object. */
  ghost predicate KeyedValue(props: seq<Property>, i: nat, w: ByteString)
    decreases props, |w|, 2
  {
    |w| > 0 && w[0] == COLON && ValueThenTail(props, i, SkipSpace(w[1..]))
  }

  ghost predicate ValueThenTail(props: seq<Property>, i: nat, w: ByteString)
    decreases props, |w|, 1
  {
    i < |props| &&
    exists k :: 0 <= k <= |w| && Conforms(props[i].schema, w[..k]) && ObjectTail(props, i + 1, w[k..])
  }

  /** After a value: `}` when no required property is left, or a comma and a member. */
  ghost predicate ObjectTail(props: seq<Property>, next: nat, w: ByteString)
    decreases props, |w|, 0
  {
    || (w == [RBRACE] && NoRequiredFrom(props, next))
    || (|w| > 0 && w[0] == COMMA && Member(props, next, SkipSpace(w[1..])))
  }

  ghost predicate ArrayBody(items: Node, max: Option<nat>, w: ByteString)
    decreases items, |w|, 5
  {
    w == [RBRACKET] || (Allows(max, 1) && ItemThenTail(items, max, 0, w))
  }

  /** An item, then the rest of an array in which `commas` commas were seen. */
  ghost predicate ItemThenTail(items: Node, max: Option<nat>, commas: nat, w: ByteString)
    decreases items, |w|, 4
  {
    exists k :: 0 <= k <= |w| && Conforms(items, w[..k]) && ArrayTail(items, max, commas, w[k..])
  }

  ghost predicate ArrayTail(items: Node, max: Option<nat>, commas: nat, w: ByteString)
    decreases items, |w|, 3
  {
    || w == [RBRACKET]
    || (|w| > 0 && w[0] == COMMA && Allows(max, commas + 2)
        && ItemThenTail(items, max, commas + 1, SkipSpace(w[1..])))
  }

  /** The first tool of that name; a later tool of the same name cannot be called. */
  predicate FirstOf(names: seq<ByteString>, i: nat) {
    i < |names| && forall j :: 0 <= j < i ==> names[j] != names[i]
  }

  /** prefix, one call object, suffix. */
  ghost predicate ToolCall(g: Grammar, w: ByteString) {
    g.prefix <= w && CallObject(g, w[|g.prefix|..])
  }

  ghost predicate CallObject(g: Grammar, w: ByteString) {
    |w| > 0 && w[0] == LBRACE && NameEntry(g, SkipSpace(w[1..]))
  }

  ghost predicate NameEntry(g: Grammar, w: ByteString) {
    NAME_KEY <= w && AfterNameKey(g, w[|NAME_KEY|..])
  }

  ghost predicate AfterNameKey(g: Grammar, w: ByteString) {
    |w| > 0 && w[0] == COLON && NameThenInput(g, SkipSpace(w[1..]))
  }

  ghost predicate NameThenInput(g: Grammar, w: ByteString) {
    exists i: nat :: FirstOf(g.toolNames, i) && Plain(g.toolNames[i])
      && [QUOTE] + g.toolNames[i] + [QUOTE] <= w
      && i < |g.toolSchemas| && AfterNameValue(g, i, w[|g.toolNames[i]| + 2..])
  }

  ghost predicate AfterNameValue(g: Grammar, tool: nat, w: ByteString)
    requires tool < |g.toolSchemas|
  {
    CommaThenInput(g, tool, SkipSpace(w))
  }

  ghost predicate CommaThenInput(g: Grammar, tool: nat, w: ByteString)
    requires tool < |g.toolSchemas|
  {
    |w| > 0 && w[0] == COMMA && InputEntry(g, tool, SkipSpace(w[1..]))
  }

  ghost predicate InputEntry(g: Grammar, tool: nat, w: ByteString)
    requires tool < |g.toolSchemas|
  {
    INPUT_KEY <= w && AfterInputKey(g, tool, w[|INPUT_KEY|..])
  }

  ghost predicate AfterInputKey(g: Grammar, tool: nat, w: ByteString)
    requires tool < |g.toolSchemas|
  {
    |w| > 0 && w[0] == COLON && InputThenClose(g, tool, SkipSpace(w[1..]))
  }

  ghost predicate InputThenClose(g: Grammar, tool: nat, w: ByteString)
    requires tool < |g.toolSchemas|
  {
    exists k :: 0 <= k <= |w| && Conforms(g.toolSchemas[tool], w[..k]) && Close(g, SkipSpace(w[k..]))
  }

  ghost predicate Close(g: Grammar, w: ByteString) { w == [RBRACE] + g.suffix }
}
