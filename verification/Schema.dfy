/** Schemas and compiled grammars (crates/otter-grammar/src/lib.rs and matcher.rs). */
module Schema {
  import opened Bytes
  import opened Options

  datatype Property = Property(name: ByteString, schema: Node, required: bool)

  datatype Node =
    | Object(properties: seq<Property>)
    | String(maxLength: Option<nat>, enumValues: Option<seq<ByteString>>)
    | Integer
    | Boolean
    | Null
    | Array(items: Node, maxItems: Option<nat>)

  /** toolNames[i] is called with an input described by toolSchemas[i]. */
  datatype Grammar = Grammar(
    prefix: ByteString, suffix: ByteString,
    toolNames: seq<ByteString>, toolSchemas: seq<Node>)

  /** A printable ASCII byte that JSON lets stand for itself inside a string. */
  predicate PlainByte(b: Byte) { 0x20 <= b < 0x80 && b != QUOTE && b != BACKSLASH }

  predicate Plain(s: ByteString) { forall i :: 0 <= i < |s| ==> PlainByte(s[i]) }

  predicate Allows(max: Option<nat>, n: nat) { max.None? || n <= max.value }

  /** In UTF-8 text a byte at or above 0xC0 opens a multi-byte character, so a
      continuation byte follows it. Every Rust `String` satisfies this. */
  predicate LeadsFollowed(s: ByteString) {
    forall i :: 0 <= i < |s| && s[i] >= 0xC0 ==> i + 1 < |s| && 0x80 <= s[i + 1] < 0xC0
  }

  /** The indices a key may take next: in order, never skipping a required property. */
  predicate Candidate(props: seq<Property>, next: nat, i: nat) {
    next <= i < |props| && forall j :: next <= j < i ==> !props[j].required
  }

  predicate NoRequiredFrom(props: seq<Property>, next: nat) {
    forall i :: next <= i < |props| ==> !props[i].required
  }

  const NAME: ByteString := [0x6E, 0x61, 0x6D, 0x65]
  const INPUT: ByteString := [0x69, 0x6E, 0x70, 0x75, 0x74]

  /** The shape the matcher mistakes for the outer call object. */
  predicate LooksLikeCall(props: seq<Property>) {
    |props| == 2 && props[0].name == NAME && props[1].name == INPUT
  }

  predicate KeyByte(b: Byte) { b >= 0x20 && b != QUOTE }

  predicate KeysOk(props: seq<Property>) {
    && |props| <= 32
    && (forall i, k :: 0 <= i < |props| && 0 <= k < |props[i].name| ==> KeyByte(props[i].name[k]))
    && (forall i, j :: 0 <= i < j < |props| ==> props[i].name != props[j].name)
  }

  /** What the matcher relies on in a schema to accept exactly its language.
      `suffixEmpty` says whether the grammar has an empty suffix, the one case in which
      an object shaped like the outer call is harmless. */
  predicate NodeOk(s: Node, suffixEmpty: bool) {
    match s
    case Object(props) =>
      && KeysOk(props)
      && (LooksLikeCall(props) ==> suffixEmpty)
      && (forall i :: 0 <= i < |props| ==> NodeOk(props[i].schema, suffixEmpty))
    case String(_, Some(vals)) => forall i :: 0 <= i < |vals| ==> LeadsFollowed(vals[i])
    case Array(items, max) => (max.Some? ==> max.value >= 1) && NodeOk(items, suffixEmpty)
    case _ => true
  }

  /** The number the matcher keeps for tool i: sixteen bits of it. */
  function Number(i: nat): nat { i % 0x1_0000 }

  /** A tool's number leads to the tool's schema, as it does for the first 65536 tools. */
  predicate NumbersTell(g: Grammar) {
    forall i: nat :: i < |g.toolSchemas| ==> g.toolSchemas[Number(i)] == g.toolSchemas[i]
  }

  /** The same for a whole grammar. */
  predicate WellFormed(g: Grammar) {
    && |g.toolNames| == |g.toolSchemas| && NumbersTell(g)
    && (forall i :: 0 <= i < |g.toolNames| ==> LeadsFollowed(g.toolNames[i]))
    && (forall i :: 0 <= i < |g.toolSchemas| ==>
          g.toolSchemas[i].Object? && NodeOk(g.toolSchemas[i], g.suffix == []))
  }
}
