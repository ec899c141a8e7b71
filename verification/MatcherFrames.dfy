/** The frames of the matcher and the reaction of each to one byte
    (crates/otter-grammar/src/matcher.rs). */
module MatcherFrames {
  import opened Bytes
  import opened Options
  import opened Schema
  import opened ToolCallLanguage

  datatype LiteralKind = Prefix | Suffix

  datatype ToolCallPhase =
    | Open | AfterOpen | NameKey(pos: nat) | NameColon | AfterNameColon | NameValue
    | AfterName | AfterComma | InputKey(pos: nat) | InputColon | AfterInputColon | AfterInput

  datatype ObjPhase =
    | ObjStart | ObjAfterOpen | ObjAfterComma
    | Key(cands: set<nat>, keyPos: nat, keyBuf: ByteString)
    | AfterKey | AfterColon | AfterValue

  datatype ArrayPhase = ArrStart | ArrAfterOpen | ArrAfterItem | ArrAfterComma

  datatype EnumState = EnumState(values: seq<ByteString>, buf: ByteString)

  datatype StringPhase = StrStart | Content

  datatype EscapeState = NoEscape | Backslash | Hex(n: nat, first: nat)

  datatype IntState = IntStart | IntMinus | IntZero | IntDigits(n: nat)

  datatype Frame =
    | Literal(which: LiteralKind, pos: nat)
    | ToolCallFrame(callPhase: ToolCallPhase, tool: Option<nat>, callSpace: bool)
    | ObjectFrame(node: Node, nextProp: nat, objPhase: ObjPhase, objSpace: bool)
    | StringFrame(max: Option<nat>, chars: nat, enumVals: Option<EnumState>, esc: EscapeState,
                  utf8Need: nat, nextLo: int, nextHi: int, strPhase: StringPhase)
    | IntegerFrame(st: IntState)
    | WordFrame(bytes: ByteString, pos: nat)
    | BooleanFrame(isTrue: Option<bool>, pos: nat)
    | ArrayFrame(items: Node, count: nat, maxItems: Option<nat>, arrPhase: ArrayPhase, arrSpace: bool)

  /** What the popped frame does with a byte: reject it, consume it, or leave it to the
      frames it pushes (or to the frame below, when it pushes none). */
  datatype Reaction =
    | Reject
    | Consume(push: seq<Frame>)
    | Retry(push: seq<Frame>)
    | CloseEnum(index: nat)         // consume, and record the index in last_enum
    | TakeEnum(push: seq<Frame>)    // retry, and clear last_enum
    | Finish                        // consume, and set done

  /** The candidate mask of the source as a set of indices (at most 32 of them). */
  function Candidates(props: seq<Property>, next: nat): set<nat> {
    set i: nat | i < |props| && Candidate(props, next, i)
  }

  function NewString(max: Option<nat>, vals: Option<seq<ByteString>>): Frame {
    StringFrame(max, 0, if vals.Some? then Some(EnumState(vals.value, [])) else None,
                NoEscape, 0, 0x80, 0xBF, StrStart)
  }

  function ValueFrame(s: Node): Frame {
    match s
    case String(max, vals) => NewString(max, vals)
    case Integer => IntegerFrame(IntStart)
    case Boolean => BooleanFrame(None, 0)
    case Null => WordFrame(NULL_WORD, 0)
    case Array(items, max) => ArrayFrame(items, 0, max, ArrStart, false)
    case Object(_) => ObjectFrame(s, 0, ObjStart, false)
  }

  /** The index bounds the source relies on when it reads a literal or a property. */
  predicate InBounds(f: Frame) {
    match f
    case ToolCallFrame(NameKey(pos), _, _) => pos < |NAME_KEY|
    case ToolCallFrame(InputKey(pos), _, _) => pos < |INPUT_KEY|
    case ObjectFrame(_, next, AfterKey, _) => next >= 1
    case ObjectFrame(_, next, AfterColon, _) => next >= 1
    case WordFrame(bytes, pos) => pos < |bytes|
    case _ => true
  }

  predicate AllInBounds(fs: seq<Frame>) { forall i :: 0 <= i < |fs| ==> InBounds(fs[i]) }

  function Pushed(r: Reaction): seq<Frame> {
    match r
    case Consume(fs) => fs
    case Retry(fs) => fs
    case TakeEnum(fs) => fs
    case _ => []
  }

  function Call(phase: ToolCallPhase, tool: Option<nat>, spaceUsed: bool): Frame {
    ToolCallFrame(phase, tool, spaceUsed)
  }

  /** At most one space at a structural position. */
  function TakeSpace(used: bool, again: Frame): Reaction {
    if used then Reject else Consume([again])
  }

  function ReactLiteral(g: Grammar, which: LiteralKind, pos: nat, b: Byte): (r: Reaction)
    ensures AllInBounds(Pushed(r))
  {
    var expected := if which.Prefix? then g.prefix else g.suffix;
    if pos >= |expected| then
      if which.Prefix? then Retry([Call(Open, None, false)]) else Finish
    else if b != expected[pos] then Reject
    else if pos + 1 < |expected| then Consume([Literal(which, pos + 1)])
    else if which.Prefix? then Consume([Call(Open, None, false)])
    else Finish
  }

  function ReactCall(g: Grammar, last: Option<nat>, f: Frame, b: Byte): (r: Reaction)
    requires f.ToolCallFrame? && InBounds(f)
    ensures AllInBounds(Pushed(r))
  {
    var tool := f.tool;
    match f.callPhase
    case Open => if b == LBRACE then Consume([Call(AfterOpen, tool, false)]) else Reject
    case AfterOpen =>
      if b == SPACE then TakeSpace(f.callSpace, f.(callSpace := true))
      else if b == QUOTE then Consume([Call(NameKey(1), tool, false)])
      else Reject
    case NameKey(pos) =>
      if b != NAME_KEY[pos] then Reject
      else if pos + 1 == |NAME_KEY| then Consume([f.(callPhase := NameColon)])
      else Consume([f.(callPhase := NameKey(pos + 1))])
    case NameColon => if b == COLON then Consume([Call(AfterNameColon, tool, false)]) else Reject
    case AfterNameColon =>
      if b == SPACE then TakeSpace(f.callSpace, f.(callSpace := true))
      else if b == QUOTE then Retry([Call(NameValue, tool, false), NewString(None, Some(g.toolNames))])
      else Reject
    case NameValue => if last.Some? then TakeEnum([Call(AfterName, last, false)]) else Reject
    case AfterName =>
      if b == SPACE then TakeSpace(f.callSpace, f.(callSpace := true))
      else if b == COMMA then Consume([Call(AfterComma, tool, false)])
      else Reject
    case AfterComma =>
      if b == SPACE then TakeSpace(f.callSpace, f.(callSpace := true))
      else if b == QUOTE then Consume([Call(InputKey(1), tool, false)])
      else Reject
    case InputKey(pos) =>
      if b != INPUT_KEY[pos] then Reject
      else if pos + 1 == |INPUT_KEY| then Consume([f.(callPhase := InputColon)])
      else Consume([f.(callPhase := InputKey(pos + 1))])
    case InputColon => if b == COLON then Consume([Call(AfterInputColon, tool, false)]) else Reject
    case AfterInputColon =>
      if b == SPACE then TakeSpace(f.callSpace, f.(callSpace := true))
      else if b == LBRACE && tool.Some? && tool.value < |g.toolSchemas| then
        Retry([Call(AfterInput, tool, false), ObjectFrame(g.toolSchemas[tool.value], 0, ObjStart, false)])
      else Reject
    case AfterInput =>
      if b == SPACE then TakeSpace(f.callSpace, f.(callSpace := true))
      else if b == RBRACE then CloseCall(g)
      else Reject
  }

  /** The end of the call object: on to the suffix, if there is one. */
  function CloseCall(g: Grammar): (r: Reaction)
    ensures AllInBounds(Pushed(r))
  {
    if g.suffix == [] then Finish else Consume([Literal(Suffix, 0)])
  }

  function CloseObject(g: Grammar, node: Node, next: nat): (r: Reaction)
    ensures AllInBounds(Pushed(r))
  {
    if node.Object? && !NoRequiredFrom(node.properties, next) then Reject
    else if node.Object? && LooksLikeCall(node.properties) then CloseCall(g)
    else Consume([])
  }

  function StartKey(f: Frame): (r: Reaction)
    requires f.ObjectFrame?
    ensures AllInBounds(Pushed(r))
  {
    if !f.node.Object? then Reject else
    var cands := Candidates(f.node.properties, f.nextProp);
    if cands == {} then Reject else Consume([f.(objPhase := Key(cands, 0, []), objSpace := false)])
  }

  /** The first candidate whose name is the key just closed, searching from i. */
  function MatchingKey(props: seq<Property>, cands: set<nat>, key: ByteString, i: nat): (r: Option<nat>)
    requires i <= |props|
    ensures r.Some? ==> i <= r.value < |props| && r.value in cands && props[r.value].name == key
    ensures r.None? ==> forall j :: i <= j < |props| && j in cands ==> props[j].name != key
    decreases |props| - i
  {
    if i == |props| then None
    else if i in cands && props[i].name == key then Some(i)
    else MatchingKey(props, cands, key, i + 1)
  }

  predicate KeyPrefix(props: seq<Property>, cands: set<nat>, key: ByteString) {
    exists i :: 0 <= i < |props| && i in cands && key <= props[i].name
  }

  /** The value frame of an object without a property list, chosen by its first byte. */
  function WildcardValue(b: Byte): (f: Option<Frame>)
    ensures f.Some? ==> InBounds(f.value)
  {
    if b == QUOTE then Some(ValueFrame(String(None, None)))
    else if b == LBRACE then Some(ValueFrame(Object([])))
    else if b == LBRACKET then Some(ValueFrame(Array(String(None, None), None)))
    else if b == LOWER_T then Some(WordFrame(TRUE_WORD, 0))
    else if b == LOWER_F then Some(WordFrame(FALSE_WORD, 0))
    else if b == LOWER_N then Some(WordFrame(NULL_WORD, 0))
    else if IsDigit(b) || b == MINUS then Some(ValueFrame(Integer))
    else None
  }

  function ReactObject(g: Grammar, f: Frame, b: Byte): (r: Reaction)
    requires f.ObjectFrame? && InBounds(f)
    ensures AllInBounds(Pushed(r))
  {
    var node, next := f.node, f.nextProp;
    match f.objPhase
    case ObjStart => if b == LBRACE then Consume([f.(objPhase := ObjAfterOpen)]) else Reject
    case ObjAfterOpen =>
      if b == SPACE then TakeSpace(f.objSpace, f.(objSpace := true))
      else if b == QUOTE then StartKey(f)
      else if b == RBRACE then CloseObject(g, node, next)
      else Reject
    case ObjAfterComma =>
      if b == SPACE then TakeSpace(f.objSpace, f.(objSpace := true))
      else if b == QUOTE then StartKey(f)
      else Reject
    case Key(cands, pos, buf) =>
      if !node.Object? || node.properties == [] then Reject
      else if b == QUOTE then
        match MatchingKey(node.properties, cands, buf, 0)
        case None => Reject
        case Some(i) => Consume([f.(nextProp := i + 1, objPhase := AfterKey)])
      else
        var buf' := if pos >= |buf| then buf + [b] else buf;
        if b < 0x20 || |buf'| != pos + 1 || !KeyPrefix(node.properties, cands, buf') then Reject
        else Consume([f.(objPhase := Key(cands, pos + 1, buf'))])
    case AfterKey =>
      if b == COLON then Consume([f.(objPhase := AfterColon, objSpace := false)]) else Reject
    case AfterColon =>
      if b == SPACE then TakeSpace(f.objSpace, f.(objSpace := true))
      else if !node.Object? then Reject
      else if node.properties == [] then
        var value := WildcardValue(b);
        if value.None? then Reject else Retry([f.(objPhase := AfterValue), value.value])
      else if next - 1 >= |node.properties| then Reject
      else Retry([f.(objPhase := AfterValue), ValueFrame(node.properties[next - 1].schema)])
    case AfterValue =>
      if b == COMMA then
        if !node.Object? || Candidates(node.properties, next) == {} then Reject
        else Consume([f.(objPhase := ObjAfterComma, objSpace := false)])
      else if b == RBRACE then CloseObject(g, node, next)
      else Reject
  }

  /** Continuation bytes owed after a lead byte, and the range of the first of them. */
  datatype Lead = Lead(need: nat, lo: int, hi: int)

  function LeadByte(b: Byte, lo: int, hi: int): Option<Lead> {
    if 0xC2 <= b <= 0xDF then Some(Lead(1, lo, hi))
    else if b == 0xE0 then Some(Lead(2, 0xA0, 0xBF))
    else if b == 0xED then Some(Lead(2, 0x80, 0x9F))
    else if 0xE1 <= b <= 0xEF then Some(Lead(2, lo, hi))
    else if b == 0xF0 then Some(Lead(3, 0x90, 0xBF))
    else if 0xF1 <= b <= 0xF3 then Some(Lead(3, lo, hi))
    else if b == 0xF4 then Some(Lead(3, 0x80, 0x8F))
    else None
  }

  function FirstEqual(values: seq<ByteString>, buf: ByteString, i: nat): (r: Option<nat>)
    requires i <= |values|
    ensures r.Some? ==> i <= r.value < |values| && values[r.value] == buf
                        && forall j :: i <= j < r.value ==> values[j] != buf
    ensures r.None? ==> forall j :: i <= j < |values| ==> values[j] != buf
    decreases |values| - i
  {
    if i == |values| then None
    else if values[i] == buf then Some(i)
    else FirstEqual(values, buf, i + 1)
  }

  predicate EnumPrefix(es: EnumState) {
    exists i :: 0 <= i < |es.values| && es.buf <= es.values[i]
  }

  function ReactString(f: Frame, b: Byte): (r: Reaction)
    requires f.StringFrame?
    ensures AllInBounds(Pushed(r))
  {
    if f.strPhase.StrStart? then
      if b == QUOTE then Consume([f.(strPhase := Content)]) else Reject
    else if f.utf8Need > 0 then
      // a continuation byte is 10xxxxxx, so its top two bits are the number 2
      if b / 64 != 2 || !(f.nextLo <= b <= f.nextHi) then Reject
      else Consume([f.(utf8Need := f.utf8Need - 1, nextLo := 0x80, nextHi := 0xBF)])
    else match f.esc
      case NoEscape => ReactChar(f, b)
      case Backslash =>
        if SimpleEscape(b) then Consume([f.(esc := NoEscape)])
        else if b == LOWER_U then Consume([f.(esc := Hex(4, 0))])
        else Reject
      case Hex(n, first) =>
        var digit := HexValue(b);
        if digit == 16 then Reject
        else if n == 4 then Consume([f.(esc := Hex(3, digit))])
        else if n == 3 && first >= 0xD && digit >= 0x8 then Reject
        else if n <= 1 then Consume([f.(esc := NoEscape)])
        else Consume([f.(esc := Hex(n - 1, first))])
  }

  function ReactChar(f: Frame, b: Byte): (r: Reaction)
    requires f.StringFrame?
    ensures AllInBounds(Pushed(r))
  {
    if b == QUOTE then
      if f.enumVals.None? then Consume([]) else
      match FirstEqual(f.enumVals.value.values, f.enumVals.value.buf, 0)
      case None => Reject
      case Some(i) => CloseEnum(Number(i))
    else if b == BACKSLASH then
      if f.enumVals.Some? || !Allows(f.max, f.chars + 1) then Reject
      else Consume([f.(esc := Backslash, chars := f.chars + 1)])
    else if b < 0x20 then Reject
    else
      var vals := if f.enumVals.None? then None
                  else Some(f.enumVals.value.(buf := f.enumVals.value.buf + [b]));
      var lead := if b < 0x80 then Some(Lead(0, f.nextLo, f.nextHi)) else LeadByte(b, f.nextLo, f.nextHi);
      if (vals.Some? && !EnumPrefix(vals.value)) || lead.None? || !Allows(f.max, f.chars + 1) then Reject
      else Consume([f.(chars := f.chars + 1, enumVals := vals, utf8Need := lead.value.need,
                       nextLo := lead.value.lo, nextHi := lead.value.hi)])
  }

  function ReactInteger(st: IntState, b: Byte): (r: Reaction)
    ensures AllInBounds(Pushed(r))
  {
    match st
    case IntStart =>
      if b == MINUS then Consume([IntegerFrame(IntMinus)]) else FirstDigit(b)
    case IntMinus => FirstDigit(b)
    case IntZero => if IsDigit(b) then Reject else Retry([])
    case IntDigits(n) =>
      if !IsDigit(b) then Retry([])
      else if n + 1 > 18 then Reject
      else Consume([IntegerFrame(IntDigits(n + 1))])
  }

  function FirstDigit(b: Byte): (r: Reaction)
    ensures AllInBounds(Pushed(r))
  {
    if b == ZERO then Consume([IntegerFrame(IntZero)])
    else if IsDigit(b) then Consume([IntegerFrame(IntDigits(1))])
    else Reject
  }

  function BoolWord(v: bool): ByteString { if v then TRUE_WORD else FALSE_WORD }

  function ReactBoolean(isTrue: Option<bool>, pos: nat, b: Byte): (r: Reaction)
    ensures AllInBounds(Pushed(r))
  {
    match isTrue
    case None =>
      if b == LOWER_T then Consume([BooleanFrame(Some(true), 1)])
      else if b == LOWER_F then Consume([BooleanFrame(Some(false), 1)])
      else Reject
    case Some(v) =>
      if pos >= |BoolWord(v)| || b != BoolWord(v)[pos] then Reject
      else if pos + 1 == |BoolWord(v)| then Consume([])
      else Consume([BooleanFrame(isTrue, pos + 1)])
  }

  function ReactArray(f: Frame, b: Byte): (r: Reaction)
    requires f.ArrayFrame?
    ensures AllInBounds(Pushed(r))
  {
    var item := f.(arrPhase := ArrAfterItem, arrSpace := false);
    match f.arrPhase
    case ArrStart => if b == LBRACKET then Consume([f.(arrPhase := ArrAfterOpen)]) else Reject
    case ArrAfterOpen =>
      if b == SPACE then TakeSpace(f.arrSpace, f.(arrSpace := true))
      else if b == RBRACKET then Consume([])
      else Retry([item, ValueFrame(f.items)])
    case ArrAfterItem =>
      if b == COMMA then
        // one more item than commas stands before this one
        if f.maxItems.Some? && f.count + 1 >= f.maxItems.value then Reject
        else Consume([f.(count := f.count + 1, arrPhase := ArrAfterComma, arrSpace := false)])
      else if b == RBRACKET then Consume([])
      else Reject
    case ArrAfterComma =>
      if b == SPACE then TakeSpace(f.arrSpace, f.(arrSpace := true))
      else Retry([item, ValueFrame(f.items)])
  }

  function React(g: Grammar, last: Option<nat>, f: Frame, b: Byte): (r: Reaction)
    requires InBounds(f)
    ensures AllInBounds(Pushed(r))
  {
    match f
    case Literal(which, pos) => ReactLiteral(g, which, pos, b)
    case ToolCallFrame(_, _, _) => ReactCall(g, last, f, b)
    case ObjectFrame(_, _, _, _) => ReactObject(g, f, b)
    case StringFrame(_, _, _, _, _, _, _, _) => ReactString(f, b)
    case IntegerFrame(st) => ReactInteger(st, b)
    case WordFrame(bytes, pos) =>
      if b != bytes[pos] then Reject
      else if pos + 1 == |bytes| then Consume([])
      else Consume([WordFrame(bytes, pos + 1)])
    case BooleanFrame(isTrue, pos) => ReactBoolean(isTrue, pos, b)
    case ArrayFrame(_, _, _, _, _) => ReactArray(f, b)
  }

  /** Bounds how often a frame can pass the same byte on. */
  function Weight(f: Frame): nat {
    match f
    case Literal(_, _) => 2
    case ToolCallFrame(AfterNameColon, _, _) => 4
    case ToolCallFrame(AfterInputColon, _, _) => 3
    case ToolCallFrame(NameValue, _, _) => 2
    case ObjectFrame(_, _, AfterColon, _) => 3
    case ArrayFrame(_, _, _, ArrAfterOpen, _) => 3
    case ArrayFrame(_, _, _, ArrAfterComma, _) => 3
    case _ => 1
  }

  function StackWeight(fs: seq<Frame>): nat {
    if fs == [] then 0 else StackWeight(fs[..|fs| - 1]) + Weight(fs[|fs| - 1])
  }

  lemma {:induction false} StackWeightConcat(fs: seq<Frame>, more: seq<Frame>)
    ensures StackWeight(fs + more) == StackWeight(fs) + StackWeight(more)
  {
    if more == [] {
      assert fs + more == fs;
    } else {
      var n := |more| - 1;
      assert (fs + more)[..|fs| + n] == fs + more[..n];
      StackWeightConcat(fs, more[..n]);
    }
  }

  lemma SmallStacks(fs: seq<Frame>)
    ensures |fs| == 1 ==> StackWeight(fs) == Weight(fs[0])
    ensures |fs| == 2 ==> StackWeight(fs) == Weight(fs[0]) + Weight(fs[1])
  {
    if |fs| == 1 { assert fs[..0] == []; }
    if |fs| == 2 { assert fs[..1][..0] == []; assert StackWeight(fs[..1]) == Weight(fs[0]); }
  }

  /** Passing a byte on always makes the stack lighter, whatever lies below the frame. */
  lemma {:induction false} RetryIsLighter(g: Grammar, last: Option<nat>, f: Frame, b: Byte)
    requires InBounds(f)
    requires React(g, last, f, b).Retry? || React(g, last, f, b).TakeEnum?
    ensures StackWeight(Pushed(React(g, last, f, b))) < Weight(f)
  {
    var fs := Pushed(React(g, last, f, b));
    SmallStacks(fs);
    assert |fs| <= 2;
    match f
    case ObjectFrame(_, _, _, _) => assert fs != [] ==> Weight(fs[0]) == 1 && Weight(fs[1]) == 1;
    case ArrayFrame(_, _, _, _, _) => assert fs != [] ==> Weight(fs[0]) == 1 && Weight(fs[1]) == 1;
    case _ =>
  }
}
