/** What is still to be read in each state of the matcher: the language of a frame, of a
    stack of frames, and the invariant every reachable state satisfies. */
module FrameLanguages {
  import opened Bytes
  import opened Options
  import opened Schema
  import opened ToolCallLanguage
  import opened MatcherFrames

  function Spaced(used: bool, w: ByteString): ByteString { if used then w else SkipSpace(w) }

  ghost predicate LiteralLang(g: Grammar, which: LiteralKind, pos: nat, w: ByteString) {
    match which
    case Prefix =>
      pos <= |g.prefix| && g.prefix[pos..] <= w && CallObject(g, w[|g.prefix| - pos..])
    case Suffix => pos <= |g.suffix| && w == g.suffix[pos..]
  }

  ghost predicate CallLang(g: Grammar, f: Frame, w: ByteString)
    requires f.ToolCallFrame?
  {
    var r := Spaced(f.callSpace, w);
    match f.callPhase
    case Open => CallObject(g, w)
    case AfterOpen => NameEntry(g, r)
    case NameKey(pos) =>
      pos < |NAME_KEY| && NAME_KEY[pos..] <= w && AfterNameKey(g, w[|NAME_KEY| - pos..])
    case NameColon => AfterNameKey(g, w)
    case AfterNameColon => NameThenInput(g, r)
    case NameValue => false
    case _ => HasTool(g, f.tool) && InputLang(g, f.callPhase, f.tool.value, w, r)
  }

  predicate HasTool(g: Grammar, tool: Option<nat>) { tool.Some? && tool.value < |g.toolSchemas| }

  /** The phases after the name, with w as it stands and as r without its space. */
  ghost predicate InputLang(g: Grammar, phase: ToolCallPhase, tool: nat, w: ByteString, r: ByteString)
    requires tool < |g.toolSchemas|
  {
    match phase
    case AfterName => CommaThenInput(g, tool, r)
    case AfterComma => InputEntry(g, tool, r)
    case InputKey(pos) =>
      pos < |INPUT_KEY| && INPUT_KEY[pos..] <= w && AfterInputKey(g, tool, w[|INPUT_KEY| - pos..])
    case InputColon => AfterInputKey(g, tool, w)
    case AfterInputColon => InputThenClose(g, tool, r)
    case _ => Close(g, r)
  }

  /** After the key bytes `buf`: the rest of a candidate's name, a quote, and its value. */
  ghost predicate KeyRest(props: seq<Property>, cands: set<nat>, buf: ByteString, w: ByteString) {
    exists i: nat :: i in cands && i < |props| && KeyRestOf(props, i, buf, w)
  }

  ghost predicate KeyRestOf(props: seq<Property>, i: nat, buf: ByteString, w: ByteString)
    requires i < |props|
  {
    var name := props[i].name;
    KeyText(name, buf, w) && KeyedValue(props, i, w[|name| - |buf| + 1..])
  }

  /** w goes on with what is left of `name` after `buf`, and a quote. */
  predicate KeyText(name: ByteString, buf: ByteString, w: ByteString) {
    buf <= name && name[|buf|..] + [QUOTE] <= w
  }

  ghost predicate ObjectLang(f: Frame, w: ByteString)
    requires f.ObjectFrame?
  {
    f.node.Object? &&
    var props, r := f.node.properties, Spaced(f.objSpace, w);
    match f.objPhase
    case ObjStart => |w| > 0 && w[0] == LBRACE && ObjectBody(props, SkipSpace(w[1..]))
    case ObjAfterOpen => ObjectBody(props, r)
    case ObjAfterComma => Member(props, f.nextProp, r)
    case Key(cands, _, buf) => KeyRest(props, cands, buf, w)
    case AfterKey => f.nextProp > 0 && KeyedValue(props, f.nextProp - 1, w)
    case AfterColon => f.nextProp > 0 && ValueThenTail(props, f.nextProp - 1, r)
    case AfterValue => ObjectTail(props, f.nextProp, w)
  }

  /** r finishes the character the frame is in the middle of. */
  predicate UnitRest(f: Frame, r: ByteString)
    requires f.StringFrame?
  {
    if f.utf8Need > 0 then
      && |r| == f.utf8Need && f.nextLo <= r[0] <= f.nextHi
      && (forall i :: 1 <= i < |r| ==> Tail(r[i]))
    else match f.esc
      case NoEscape => r == []
      case Backslash =>
        || (|r| == 1 && SimpleEscape(r[0]))
        || (|r| == 5 && r[0] == LOWER_U && IsHex(r[1]) && IsHex(r[2]) && IsHex(r[3]) && IsHex(r[4])
            && HexPairOk(HexValue(r[1]), HexValue(r[2])))
      case Hex(n, first) =>
        && |r| == n && (forall i :: 0 <= i < |r| ==> IsHex(r[i]))
        && (n == 4 ==> HexPairOk(HexValue(r[0]), HexValue(r[1])))
        && (n == 3 ==> HexPairOk(first, HexValue(r[0])))
  }

  ghost predicate FreeRest(f: Frame, w: ByteString)
    requires f.StringFrame?
  {
    if f.strPhase.StrStart? then |w| > 0 && w[0] == QUOTE && StringTail(f.max, 0, w[1..])
    else exists k :: 0 <= k <= |w| && UnitRest(f, w[..k]) && StringTail(f.max, f.chars, w[k..])
  }

  /** w is what is left of the quoted value v. */
  predicate EnumRest(f: Frame, v: ByteString, w: ByteString)
    requires f.StringFrame? && f.enumVals.Some?
  {
    if f.strPhase.StrStart? then w == [QUOTE] + v + [QUOTE]
    else f.enumVals.value.buf <= v && w == v[|f.enumVals.value.buf|..] + [QUOTE]
  }

  ghost predicate StringLang(f: Frame, w: ByteString)
    requires f.StringFrame?
  {
    if f.enumVals.None? then FreeRest(f, w)
    else
      var vals := f.enumVals.value.values;
      exists i :: 0 <= i < |vals| && Usable(f.max, vals[i]) && EnumRest(f, vals[i], w)
  }

  predicate IntegerLang(st: IntState, w: ByteString) {
    match st
    case IntStart => IsInteger(w)
    case IntMinus => Magnitude(w)
    case IntZero => w == []
    case IntDigits(n) => Digits(w) && n + |w| <= 18
  }

  predicate BooleanLang(isTrue: Option<bool>, pos: nat, w: ByteString) {
    match isTrue
    case None => w == TRUE_WORD || w == FALSE_WORD
    case Some(v) => pos <= |BoolWord(v)| && w == BoolWord(v)[pos..]
  }

  ghost predicate ArrayLang(f: Frame, w: ByteString)
    requires f.ArrayFrame?
  {
    var r := Spaced(f.arrSpace, w);
    match f.arrPhase
    case ArrStart => |w| > 0 && w[0] == LBRACKET && ArrayBody(f.items, f.maxItems, SkipSpace(w[1..]))
    case ArrAfterOpen => ArrayBody(f.items, f.maxItems, r)
    case ArrAfterItem => ArrayTail(f.items, f.maxItems, f.count, w)
    case ArrAfterComma => ItemThenTail(f.items, f.maxItems, f.count, r)
  }

  ghost predicate FrameLang(g: Grammar, f: Frame, w: ByteString) {
    match f
    case Literal(which, pos) => LiteralLang(g, which, pos, w)
    case ToolCallFrame(_, _, _) => CallLang(g, f, w)
    case ObjectFrame(_, _, _, _) => ObjectLang(f, w)
    case StringFrame(_, _, _, _, _, _, _, _) => StringLang(f, w)
    case IntegerFrame(st) => IntegerLang(st, w)
    case WordFrame(bytes, pos) => pos <= |bytes| && w == bytes[pos..]
    case BooleanFrame(isTrue, pos) => BooleanLang(isTrue, pos, w)
    case ArrayFrame(_, _, _, _, _) => ArrayLang(f, w)
  }

  /** The top frame reads first; the last element of the sequence is the top. */
  ghost predicate StackLang(g: Grammar, fs: seq<Frame>, w: ByteString)
    decreases |fs|, 0
  {
    if fs == [] then w == [] else Above(g, fs[|fs| - 1], fs[..|fs| - 1], w)
  }

  /** The top frame reads some bytes and the frames below it the rest. */
  ghost predicate Above(g: Grammar, f: Frame, below: seq<Frame>, w: ByteString)
    decreases |below|, 2
  {
    exists k: nat :: k <= |w| && Split(g, f, below, k, w)
  }

  ghost predicate Split(g: Grammar, f: Frame, below: seq<Frame>, k: nat, w: ByteString)
    requires k <= |w|
    decreases |below|, 1
  {
    FrameLang(g, f, w[..k]) && StackLang(g, below, w[k..])
  }

  predicate IsNameValue(f: Frame) { f.ToolCallFrame? && f.callPhase.NameValue? }

  /** The tool name is still being read: which input may follow depends on the name. */
  ghost predicate NameLang(g: Grammar, f: Frame, w: ByteString)
    requires f.StringFrame? && f.enumVals.Some?
  {
    exists i: nat, k: nat :: k <= |w| && NameSplit(g, f, i, k, w)
  }

  ghost predicate NameSplit(g: Grammar, f: Frame, i: nat, k: nat, w: ByteString)
    requires f.StringFrame? && f.enumVals.Some? && k <= |w|
  {
    && FirstOf(g.toolNames, i) && Plain(g.toolNames[i]) && EnumRest(f, g.toolNames[i], w[..k])
    && i < |g.toolSchemas| && AfterNameValue(g, i, w[k..])
  }

  /** The byte strings that complete a call from this state. */
  ghost predicate StateLang(g: Grammar, fs: seq<Frame>, last: Option<nat>, w: ByteString) {
    if |fs| == 1 && IsNameValue(fs[0]) then
      last.Some? && last.value < |g.toolSchemas| && AfterNameValue(g, last.value, w)
    else if |fs| == 2 && IsNameValue(fs[0]) then
      fs[1].StringFrame? && fs[1].enumVals.Some? && NameLang(g, fs[1], w)
    else StackLang(g, fs, w)
  }

  // ---------- the invariant of reachable states ----------

  predicate CallOk(g: Grammar, f: Frame)
    requires f.ToolCallFrame?
  {
    match f.callPhase
    case NameKey(pos) => 1 <= pos < |NAME_KEY|
    case InputKey(pos) => 1 <= pos < |INPUT_KEY| && HasTool(g, f.tool)
    case Open => true
    case AfterOpen => true
    case NameColon => true
    case AfterNameColon => true
    case NameValue => true
    case _ => HasTool(g, f.tool)
  }

  predicate ObjectOk(g: Grammar, f: Frame)
    requires f.ObjectFrame?
  {
    && f.node.Object? && NodeOk(f.node, g.suffix == [])
    && var props := f.node.properties;
       f.nextProp <= |props| &&
       match f.objPhase
       case ObjStart => f.nextProp == 0 && !f.objSpace
       case ObjAfterOpen => f.nextProp == 0
       case ObjAfterComma => Candidates(props, f.nextProp) != {}
       case Key(cands, pos, buf) =>
         cands == Candidates(props, f.nextProp) && pos == |buf| && KeyPrefix(props, cands, buf)
       case AfterValue => true
       case _ => f.nextProp > 0
  }

  /** `buf` was read byte by byte: all plain, except perhaps for a final lead byte. */
  predicate EnumBufOk(buf: ByteString) {
    forall i :: 0 <= i < |buf| && !PlainByte(buf[i]) ==> i == |buf| - 1 && LeadByte(buf[i], 0x80, 0xBF).Some?
  }

  predicate EnumOk(f: Frame)
    requires f.StringFrame? && f.enumVals.Some?
  {
    var es := f.enumVals.value;
    && (forall i :: 0 <= i < |es.values| ==> LeadsFollowed(es.values[i]))
    && f.esc.NoEscape? && f.chars == |es.buf| && EnumBufOk(es.buf)
    && (es.buf != [] ==> EnumPrefix(es))
    && (f.utf8Need > 0 ==> !Plain(es.buf))
  }

  predicate StringOk(f: Frame)
    requires f.StringFrame?
  {
    && Allows(f.max, f.chars)
    && (f.utf8Need == 0 ==> f.nextLo == 0x80 && f.nextHi == 0xBF)
    && (f.utf8Need > 0 ==> f.esc.NoEscape? && f.utf8Need <= 3 && 0x80 <= f.nextLo <= f.nextHi <= 0xBF)
    && (f.esc.Hex? ==> 1 <= f.esc.n <= 4 && f.esc.first < 16)
    && (f.enumVals.Some? ==> EnumOk(f))
    && (f.strPhase.StrStart? ==>
          f.chars == 0 && f.utf8Need == 0 && f.esc.NoEscape?
          && (f.enumVals.Some? ==> f.enumVals.value.buf == []))
  }

  predicate FrameOk(g: Grammar, f: Frame) {
    match f
    case Literal(Prefix, pos) => pos < |g.prefix| || (pos == 0 && g.prefix == [])
    case Literal(Suffix, pos) => pos < |g.suffix|
    case ToolCallFrame(_, _, _) => CallOk(g, f)
    case ObjectFrame(_, _, _, _) => ObjectOk(g, f)
    case StringFrame(_, _, _, _, _, _, _, _) => StringOk(f)
    case IntegerFrame(IntDigits(n)) => 1 <= n <= 18
    case IntegerFrame(_) => true
    case WordFrame(bytes, pos) => pos < |bytes|
    case BooleanFrame(None, pos) => pos == 0
    case BooleanFrame(Some(v), pos) => 1 <= pos < |BoolWord(v)|
    case ArrayFrame(items, count, max, phase, _) =>
      && NodeOk(Array(items, max), g.suffix == [])
      && (phase.ArrStart? || phase.ArrAfterOpen? ==> count == 0)
      && (phase.ArrStart? ==> !f.arrSpace)
  }

  /** A frame waiting for the value above it to end. */
  predicate Waiting(f: Frame) {
    (f.ObjectFrame? && f.objPhase.AfterValue?) || (f.ArrayFrame? && f.arrPhase.ArrAfterItem?)
  }

  predicate IsValueFrame(f: Frame) { !f.Literal? && !f.ToolCallFrame? }

  predicate StackOk(g: Grammar, fs: seq<Frame>, last: Option<nat>) {
    && (forall i :: 0 <= i < |fs| ==> FrameOk(g, fs[i]))
    && (|fs| > 0 ==> !IsValueFrame(fs[0]))
    && (|fs| == 1 && IsNameValue(fs[0]) ==> HasTool(g, last))
    && (|fs| > 1 ==>
          if IsNameValue(fs[0]) then
            && |fs| == 2 && fs[1].StringFrame? && fs[1].enumVals.Some?
            && fs[1].max.None? && fs[1].enumVals.value.values == g.toolNames
          else
            && fs[0].ToolCallFrame? && fs[0].callPhase.AfterInput?
            && (forall i :: 1 <= i < |fs| ==> IsValueFrame(fs[i]))
            && (forall i :: 1 <= i < |fs| - 1 ==> Waiting(fs[i])))
  }
}
