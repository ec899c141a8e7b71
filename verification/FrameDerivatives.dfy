/** One byte against an object, array, literal or call frame. */
module FrameDerivatives {
  import opened Bytes
  import opened Options
  import opened Schema
  import opened ToolCallLanguage
  import opened MatcherFrames
  import opened FrameLanguages
  import opened StringDerivatives

  /** A value starts with a byte that is neither a space nor a closing bracket. */
  lemma ValueStart(s: Node, w: ByteString)
    requires Conforms(s, w)
    ensures |w| > 0 && w[0] != SPACE && w[0] != RBRACKET
  {
    match s
    case String(max, Some(vals)) =>
      var i :| 0 <= i < |vals| && w == [QUOTE] + vals[i] + [QUOTE];
      assert w[0] == QUOTE;
    case _ =>
  }

  lemma ValueFrameLang(g: Grammar, s: Node, w: ByteString)
    ensures FrameLang(g, ValueFrame(s), w) <==> Conforms(s, w)
  {
    match s
    case Null => assert NULL_WORD[0..] == NULL_WORD;
    case String(max, Some(vals)) =>
      var f := ValueFrame(s);
      assert f.enumVals.value.values == vals;
      assert forall i :: 0 <= i < |vals| ==> (EnumRest(f, vals[i], w) <==> w == [QUOTE] + vals[i] + [QUOTE]);
    case _ =>
  }

  lemma ValueFrameOk(g: Grammar, s: Node)
    requires NodeOk(s, g.suffix == [])
    ensures FrameOk(g, ValueFrame(s)) && IsValueFrame(ValueFrame(s)) && !Waiting(ValueFrame(s))
  {
  }

  /** A value frame above a waiting frame reads a value and then the rest. */
  lemma ValueThen(g: Grammar, s: Node, below: Frame, w: ByteString)
    ensures Then(g, ValueFrame(s), below, w) <==>
              exists k :: 0 <= k <= |w| && Conforms(s, w[..k]) && FrameLang(g, below, w[k..])
  {
    forall k: nat | k <= |w| ensures FrameLang(g, ValueFrame(s), w[..k]) <==> Conforms(s, w[..k]) {
      ValueFrameLang(g, s, w[..k]);
    }
  }

  lemma KeyTextStep(name: ByteString, buf: ByteString, b: Byte, u: ByteString)
    requires forall k :: 0 <= k < |name| ==> name[k] != QUOTE
    ensures KeyText(name, buf, [b] + u) <==> if b == QUOTE then name == buf else KeyText(name, buf + [b], u)
    ensures KeyText(name, buf, [b] + u) ==> ([b] + u)[|name| - |buf| + 1..] == u[|name| - |buf|..]
  {
    assert buf + [b] <= name ==> buf <= name;
    if buf <= name {
      TextDerivative(name[|buf|..] + [QUOTE], b, u);
      if |buf| < |name| {
        assert (name[|buf|..] + [QUOTE])[0] == name[|buf|];
        assert (name[|buf|..] + [QUOTE])[1..] == name[|buf| + 1..] + [QUOTE];
        assert name[..|buf| + 1] == name[..|buf|] + [name[|buf|]];
        assert buf + [b] <= name <==> b == name[|buf|];
      } else {
        assert name == buf && name[|buf|..] == [];
      }
    }
  }

  /** One byte of the key of property i. */
  lemma KeyRestStep(props: seq<Property>, i: nat, buf: ByteString, b: Byte, u: ByteString)
    requires KeysOk(props) && i < |props|
    ensures KeyRestOf(props, i, buf, [b] + u) <==>
              if b == QUOTE then props[i].name == buf && KeyedValue(props, i, u)
              else KeyRestOf(props, i, buf + [b], u)
  {
    var name := props[i].name;
    assert forall k :: 0 <= k < |name| ==> KeyByte(name[k]);
    KeyTextStep(name, buf, b, u);
    assert u[0..] == u;
  }

  /** Opening a key: the candidates are exactly the properties a member may start with. */
  lemma MemberStart(props: seq<Property>, next: nat, b: Byte, u: ByteString)
    ensures Member(props, next, [b] + u) <==> b == QUOTE && KeyRest(props, Candidates(props, next), [], u)
  {
    var w := [b] + u;
    forall i: nat | i < |props|
      ensures ([QUOTE] + props[i].name + [QUOTE] <= w && KeyedValue(props, i, w[|props[i].name| + 2..]))
              <==> (b == QUOTE && KeyRestOf(props, i, [], u))
    {
      var name := props[i].name;
      TextDerivative([QUOTE] + name + [QUOTE], b, u);
      assert ([QUOTE] + name + [QUOTE])[1..] == name + [QUOTE] && name[0..] == name;
    }
    assert forall i: nat :: i in Candidates(props, next) <==> Candidate(props, next, i);
  }

  /** Reading the key of an object, byte by byte. */
  lemma KeyByteDerivative(props: seq<Property>, cands: set<nat>, buf: ByteString, b: Byte, u: ByteString)
    requires KeysOk(props) && b != QUOTE
    ensures KeyRest(props, cands, buf, [b] + u) <==> KeyRest(props, cands, buf + [b], u)
    ensures b < 0x20 || !KeyPrefix(props, cands, buf + [b]) ==> !KeyRest(props, cands, buf + [b], u)
  {
    forall i: nat | i < |props|
      ensures KeyRestOf(props, i, buf, [b] + u) <==> KeyRestOf(props, i, buf + [b], u)
      ensures KeyRestOf(props, i, buf + [b], u) ==> b >= 0x20 && buf + [b] <= props[i].name
    {
      KeyRestStep(props, i, buf, b, u);
      assert buf + [b] <= props[i].name ==> props[i].name[|buf|] == b && KeyByte(b);
    }
  }

  /** The closing quote settles which property the key names. */
  lemma KeyCloseDerivative(props: seq<Property>, cands: set<nat>, buf: ByteString, u: ByteString)
    requires KeysOk(props)
    ensures match MatchingKey(props, cands, buf, 0)
            case None => !KeyRest(props, cands, buf, [QUOTE] + u)
            case Some(i) => KeyRest(props, cands, buf, [QUOTE] + u) <==> KeyedValue(props, i, u)
  {
    forall i: nat | i < |props|
      ensures KeyRestOf(props, i, buf, [QUOTE] + u) <==> props[i].name == buf && KeyedValue(props, i, u)
    {
      KeyRestStep(props, i, buf, QUOTE, u);
    }
  }

  lemma KeyDerivative(g: Grammar, f: Frame, b: Byte, u: ByteString)
    requires f.ObjectFrame? && ObjectOk(g, f) && f.objPhase.Key?
    ensures Derives(g, ReactObject(g, f, b), f, b, u)
    ensures forall p <- Pushed(ReactObject(g, f, b)) :: FrameOk(g, p)
  {
    var props, cands, buf := f.node.properties, f.objPhase.cands, f.objPhase.keyBuf;
    assert KeysOk(props);
    hide KeyRest, KeyedValue, NodeOk, KeysOk;
    if b == QUOTE { KeyCloseDerivative(props, cands, buf, u); } else { KeyByteDerivative(props, cands, buf, b, u); }
  }

  lemma NoMemberWithoutCandidates(props: seq<Property>, next: nat, w: ByteString)
    requires Candidates(props, next) == {}
    ensures !Member(props, next, w)
  {
    forall i: nat ensures !Candidate(props, next, i) {
      assert i !in Candidates(props, next);
    }
  }

  lemma ValueStarts(s: Node, w: ByteString)
    ensures forall k :: 0 <= k <= |w| && Conforms(s, w[..k]) ==> |w| > 0 && w[0] != SPACE && w[0] != RBRACKET
  {
    forall k: nat | k <= |w| && Conforms(s, w[..k]) ensures |w| > 0 && w[0] != SPACE && w[0] != RBRACKET {
      ValueStart(s, w[..k]);
    }
  }

  lemma ColonFrames(g: Grammar, f: Frame, b: Byte)
    requires f.ObjectFrame? && ObjectOk(g, f) && f.objPhase.AfterColon?
    ensures forall p <- Pushed(ReactObject(g, f, b)) :: FrameOk(g, p)
    ensures var s := f.node.properties[f.nextProp - 1].schema;
            ReactObject(g, f, b) ==
              if b == SPACE then TakeSpace(f.objSpace, f.(objSpace := true))
              else Retry([f.(objPhase := AfterValue), ValueFrame(s)])
  {
    ValueFrameOk(g, f.node.properties[f.nextProp - 1].schema);
  }

  lemma ColonDerivative(g: Grammar, f: Frame, b: Byte, u: ByteString)
    requires f.ObjectFrame? && ObjectOk(g, f) && f.objPhase.AfterColon?
    ensures Derives(g, ReactObject(g, f, b), f, b, u)
    ensures forall p <- Pushed(ReactObject(g, f, b)) :: FrameOk(g, p)
  {
    hide Conforms, ObjectTail, ReactObject, FrameOk, NodeOk;
    ColonFrames(g, f, b);
    var props, w := f.node.properties, [b] + u;
    var i := f.nextProp - 1;
    var s := props[i].schema;
    assert w[0] == b && w[1..] == u;
    ValueStarts(s, w);
    assert ValueThenTail(props, i, w) ==> b != SPACE;
    if b != SPACE { ValueThen(g, s, f.(objPhase := AfterValue), w); }
  }

  lemma ObjectDerivative(g: Grammar, f: Frame, b: Byte, u: ByteString)
    requires f.ObjectFrame? && ObjectOk(g, f)
    ensures Derives(g, ReactObject(g, f, b), f, b, u)
    ensures forall p <- Pushed(ReactObject(g, f, b)) :: FrameOk(g, p)
  {
    var props, w := f.node.properties, [b] + u;
    assert w[0] == b && w[1..] == u;
    match f.objPhase
    case Key(_, _, _) => KeyDerivative(g, f, b, u);
    case ObjAfterOpen =>
      MemberStart(props, 0, b, u);
      NewKeyOk(g, f);
    case ObjAfterComma =>
      MemberStart(props, f.nextProp, b, u);
      NewKeyOk(g, f);
    case AfterColon => ColonDerivative(g, f, b, u);
    case AfterValue =>
      if Candidates(props, f.nextProp) == {} {
        NoMemberWithoutCandidates(props, f.nextProp, SkipSpace(u));
      }
    case _ =>
  }

  /** The key phase opens with every candidate still possible. */
  lemma NewKeyOk(g: Grammar, f: Frame)
    requires f.ObjectFrame? && ObjectOk(g, f) && (f.objPhase.ObjAfterOpen? || f.objPhase.ObjAfterComma?)
    ensures forall p <- Pushed(StartKey(f)) :: FrameOk(g, p)
    ensures StartKey(f).Reject? ==>
              forall u :: !KeyRest(f.node.properties, Candidates(f.node.properties, f.nextProp), [], u)
  {
    var props := f.node.properties;
    var cands := Candidates(props, f.nextProp);
    if cands != {} {
      var i :| i in cands;
      assert [] <= props[i].name;
    }
  }

  lemma ItemDerivative(g: Grammar, f: Frame, b: Byte, u: ByteString)
    requires f.ArrayFrame? && FrameOk(g, f) && (f.arrPhase.ArrAfterOpen? || f.arrPhase.ArrAfterComma?)
    ensures Derives(g, ReactArray(f, b), f, b, u)
    ensures forall p <- Pushed(ReactArray(f, b)) :: FrameOk(g, p)
  {
    var w := [b] + u;
    assert w[0] == b && w[1..] == u;
    ValueStarts(f.items, w);
    assert ItemThenTail(f.items, f.maxItems, f.count, w) ==> b != SPACE && b != RBRACKET;
    assert ItemThenTail(f.items, f.maxItems, 0, w) ==> b != SPACE && b != RBRACKET;
    if b != SPACE {
      ValueThen(g, f.items, f.(arrPhase := ArrAfterItem, arrSpace := false), w);
      ValueFrameOk(g, f.items);
    }
  }

  lemma ArrayDerivative(g: Grammar, f: Frame, b: Byte, u: ByteString)
    requires f.ArrayFrame? && FrameOk(g, f)
    ensures Derives(g, ReactArray(f, b), f, b, u)
    ensures forall p <- Pushed(ReactArray(f, b)) :: FrameOk(g, p)
  {
    if f.arrPhase.ArrAfterOpen? || f.arrPhase.ArrAfterComma? {
      ItemDerivative(g, f, b, u);
    } else {
      var w := [b] + u;
      assert w[0] == b && w[1..] == u;
    }
  }

  lemma LiteralDerivative(g: Grammar, which: LiteralKind, pos: nat, b: Byte, u: ByteString)
    requires FrameOk(g, Literal(which, pos))
    ensures Derives(g, ReactLiteral(g, which, pos, b), Literal(which, pos), b, u)
    ensures forall p <- Pushed(ReactLiteral(g, which, pos, b)) :: FrameOk(g, p)
  {
    hide CallObject;
    if which.Prefix? { PrefixDerivative(g, pos, b, u); } else { SuffixDerivative(g, pos, b, u); }
  }

  lemma PrefixDerivative(g: Grammar, pos: nat, b: Byte, u: ByteString)
    requires FrameOk(g, Literal(Prefix, pos))
    ensures Derives(g, ReactLiteral(g, Prefix, pos, b), Literal(Prefix, pos), b, u)
  {
    hide CallObject;
    var w := [b] + u;
    if pos < |g.prefix| {
      FixedText(g.prefix, pos, b, u);
      if pos + 1 == |g.prefix| {
        assert LiteralLang(g, Prefix, pos, w) <==> b == g.prefix[pos] && CallObject(g, u);
      } else {
        assert LiteralLang(g, Prefix, pos, w) <==> b == g.prefix[pos] && LiteralLang(g, Prefix, pos + 1, u);
      }
    } else {
      assert w[0..] == w;
    }
  }

  lemma SuffixDerivative(g: Grammar, pos: nat, b: Byte, u: ByteString)
    requires FrameOk(g, Literal(Suffix, pos))
    ensures Derives(g, ReactLiteral(g, Suffix, pos, b), Literal(Suffix, pos), b, u)
  {
    TextDerivative(g.suffix[pos..], b, u);
    assert g.suffix[pos..][1..] == g.suffix[pos + 1..];
  }

  /** The key bytes of the call object. */
  lemma CallKeyDerivative(g: Grammar, f: Frame, b: Byte, u: ByteString)
    requires f.ToolCallFrame? && CallOk(g, f) && (f.callPhase.NameKey? || f.callPhase.InputKey?)
    ensures Derives(g, ReactCall(g, None, f, b), f, b, u)
    ensures forall p <- Pushed(ReactCall(g, None, f, b)) :: FrameOk(g, p)
  {
    hide AfterNameKey, AfterInputKey;
    if f.callPhase.NameKey? { NameKeyDerivative(g, f, b, u); } else { InputKeyDerivative(g, f, b, u); }
  }

  lemma NameKeyDerivative(g: Grammar, f: Frame, b: Byte, u: ByteString)
    requires f.ToolCallFrame? && CallOk(g, f) && f.callPhase.NameKey?
    ensures Derives(g, ReactCall(g, None, f, b), f, b, u)
  {
    hide AfterNameKey;
    FixedText(NAME_KEY, f.callPhase.pos, b, u);
  }

  lemma InputKeyDerivative(g: Grammar, f: Frame, b: Byte, u: ByteString)
    requires f.ToolCallFrame? && CallOk(g, f) && f.callPhase.InputKey?
    ensures Derives(g, ReactCall(g, None, f, b), f, b, u)
  {
    hide AfterInputKey;
    FixedText(INPUT_KEY, f.callPhase.pos, b, u);
  }

  /** A structural byte of the call object up to its name, or the space before one. */
  lemma BeforeNameDerivative(g: Grammar, f: Frame, b: Byte, u: ByteString)
    requires f.ToolCallFrame?
    requires f.callPhase in {Open, AfterOpen, NameColon} || (f.callPhase.AfterNameColon? && b != QUOTE)
    ensures Derives(g, ReactCall(g, None, f, b), f, b, u)
    ensures forall p <- Pushed(ReactCall(g, None, f, b)) :: FrameOk(g, p)
  {
    hide NameThenInput;
    var w := [b] + u;
    assert w[0] == b && w[1..] == u;
    TextDerivative(NAME_KEY, b, u);
    NameStart(g, b, u);
  }

  /** The same after the name. */
  lemma AfterNameDerivative(g: Grammar, f: Frame, b: Byte, u: ByteString)
    requires f.ToolCallFrame? && CallOk(g, f)
    requires f.callPhase in {AfterName, AfterComma, InputColon, AfterInput}
    ensures Derives(g, ReactCall(g, None, f, b), f, b, u)
    ensures forall p <- Pushed(ReactCall(g, None, f, b)) :: FrameOk(g, p)
  {
    hide InputThenClose;
    var w := [b] + u;
    assert w[0] == b && w[1..] == u;
    if f.callPhase.AfterInput? {
      CloseDerivative(g, f, b, u);
    } else {
      TextDerivative(INPUT_KEY, b, u);
    }
  }

  lemma CloseDerivative(g: Grammar, f: Frame, b: Byte, u: ByteString)
    requires f.ToolCallFrame? && CallOk(g, f) && f.callPhase.AfterInput?
    ensures Derives(g, ReactCall(g, None, f, b), f, b, u)
    ensures forall p <- Pushed(ReactCall(g, None, f, b)) :: FrameOk(g, p)
  {
    var w := [b] + u;
    assert w[0] == b && w[1..] == u;
    TextDerivative([RBRACE] + g.suffix, b, u);
    assert ([RBRACE] + g.suffix)[1..] == g.suffix == g.suffix[0..];
  }

  lemma CallDerivative(g: Grammar, last: Option<nat>, f: Frame, b: Byte, u: ByteString)
    requires WellFormed(g) && f.ToolCallFrame? && CallOk(g, f) && !IsNameValue(f)
    requires !(f.callPhase.AfterNameColon? && b == QUOTE)
    ensures Derives(g, ReactCall(g, last, f, b), f, b, u)
    ensures forall p <- Pushed(ReactCall(g, last, f, b)) :: FrameOk(g, p)
  {
    hide FrameLang, FrameOk;
    match f.callPhase
    case NameKey(_) => CallKeyDerivative(g, f, b, u);
    case InputKey(_) => CallKeyDerivative(g, f, b, u);
    case AfterInputColon => InputDerivative(g, f, b, u);
    case Open => BeforeNameDerivative(g, f, b, u);
    case AfterOpen => BeforeNameDerivative(g, f, b, u);
    case NameColon => BeforeNameDerivative(g, f, b, u);
    case AfterNameColon => BeforeNameDerivative(g, f, b, u);
    case _ => AfterNameDerivative(g, f, b, u);
  }

  lemma NameStart(g: Grammar, b: Byte, u: ByteString)
    ensures NameThenInput(g, [b] + u) ==> b == QUOTE
  {
    forall i: nat | i < |g.toolNames| && [QUOTE] + g.toolNames[i] + [QUOTE] <= [b] + u ensures b == QUOTE {
      TextDerivative([QUOTE] + g.toolNames[i] + [QUOTE], b, u);
    }
  }

  /** The input of the call is an object of the tool's schema. */
  lemma InputDerivative(g: Grammar, f: Frame, b: Byte, u: ByteString)
    requires WellFormed(g) && f.ToolCallFrame? && CallOk(g, f) && f.callPhase.AfterInputColon?
    ensures Derives(g, ReactCall(g, None, f, b), f, b, u)
    ensures forall p <- Pushed(ReactCall(g, None, f, b)) :: FrameOk(g, p)
  {
    hide Conforms, Close, NodeOk;
    var w := [b] + u;
    var s := g.toolSchemas[f.tool.value];
    ValueThen(g, s, Call(AfterInput, f.tool, false), w);
    ValueFrameOk(g, s);
    assert w[0] == b && w[1..] == u;
    forall k: nat | k <= |w| && Conforms(s, w[..k]) ensures b == LBRACE { ObjectStart(s, w[..k]); }
  }

  lemma ObjectStart(s: Node, w: ByteString)
    requires s.Object? && Conforms(s, w)
    ensures |w| > 0 && w[0] == LBRACE
  {
  }

  /** Every frame but one reading a tool name reacts as the derivative of its language. */
  lemma FrameDerivative(g: Grammar, last: Option<nat>, f: Frame, b: Byte, u: ByteString)
    requires WellFormed(g) && FrameOk(g, f) && !IsNameValue(f)
    requires !(f.ToolCallFrame? && f.callPhase.AfterNameColon? && b == QUOTE)
    ensures InBounds(f) && Derives(g, React(g, last, f, b), f, b, u)
    ensures forall p <- Pushed(React(g, last, f, b)) :: FrameOk(g, p)
  {
    match f
    case Literal(which, pos) => LiteralDerivative(g, which, pos, b, u);
    case ToolCallFrame(_, _, _) => CallDerivative(g, last, f, b, u);
    case ObjectFrame(_, _, _, _) => ObjectDerivative(g, f, b, u);
    case StringFrame(_, _, _, _, _, _, _, _) =>
      if f.enumVals.None? { FreeStringDerivative(g, f, b, u); } else { EnumDerivative(g, f, b, u); }
    case IntegerFrame(st) => IntegerDerivative(g, st, b, u);
    case WordFrame(bytes, pos) => WordDerivative(g, bytes, pos, b, u);
    case BooleanFrame(isTrue, pos) => BooleanDerivative(g, isTrue, pos, b, u);
    case ArrayFrame(_, _, _, _, _) => ArrayDerivative(g, f, b, u);
  }

  /** Only an integer that has its digits may end without another byte. */
  predicate MayEnd(f: Frame) { f.IntegerFrame? && (f.st.IntZero? || f.st.IntDigits?) }

  lemma EmptyRest(g: Grammar, f: Frame)
    requires FrameOk(g, f)
    ensures FrameLang(g, f, []) <==> MayEnd(f)
  {
    var none: ByteString := [];
    match f
    case Literal(_, _) => assert !CallObject(g, none);
    case ToolCallFrame(_, _, _) => EmptyCallRest(g, f);
    case ObjectFrame(_, _, _, _) => EmptyObjectRest(g, f);
    case ArrayFrame(_, _, _, _, _) =>
      ValueStarts(f.items, none);
      assert !ItemThenTail(f.items, f.maxItems, f.count, none);
    case _ =>
  }

  lemma EmptyObjectRest(g: Grammar, f: Frame)
    requires f.ObjectFrame? && ObjectOk(g, f)
    ensures !ObjectLang(f, [])
  {
    hide Conforms, ObjectTail, KeyedValue;
    var none: ByteString := [];
    var props := f.node.properties;
    match f.objPhase
    case Key(cands, _, buf) =>
      assert forall i: nat | i < |props| && buf <= props[i].name :: |props[i].name[|buf|..] + [QUOTE]| > |none|;
    case AfterKey => assert !KeyedValue(props, f.nextProp - 1, none) by { EmptyTails(props, f.nextProp - 1); }
    case AfterColon => ValueStarts(props[f.nextProp - 1].schema, none);
    case _ => EmptyTails(props, f.nextProp);
  }

  lemma EmptyTails(props: seq<Property>, i: nat)
    ensures !KeyedValue(props, i, []) && !ObjectTail(props, i, []) && !Member(props, i, []) && !ObjectBody(props, [])
  {
    assert forall j: nat | j < |props| :: |[QUOTE] + props[j].name + [QUOTE]| > 0;
  }

  lemma EmptyCallRest(g: Grammar, f: Frame)
    requires f.ToolCallFrame? && CallOk(g, f)
    ensures !CallLang(g, f, [])
  {
    hide Conforms;
    var none: ByteString := [];
    if f.tool.Some? && f.tool.value < |g.toolSchemas| {
      ValueStarts(g.toolSchemas[f.tool.value], none);
      assert !InputThenClose(g, f.tool.value, none);
    }
  }
}
