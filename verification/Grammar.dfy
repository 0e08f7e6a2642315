/**
 The texts of RFC 8259 as trees that keep every byte: white space, the spelling of strings,
 and whether zero has a sign. The reader accepts exactly their texts, and the document it
 builds is the value the tree denotes. Numbers are integers from -2^63 to 2^64 - 1.
 */
module Grammar {
  import opened Bytes
  import opened Json
  import opened Scalars
  import opened RecursiveDescent
  import opened Document
  import opened Spelling
  import Accepted
  import Minify
  import RoundTrip
  import Writer

  datatype Node =
    | NullNode
    | BoolNode(b: bool)
    | NumberNode(n: int, signedZero: bool)
    | StringNode(xs: seq<Piece>)
    | EmptyArray(gap: bytes)
    | ArrayNode(gap: bytes, elems: Elems)
    | EmptyObject(gap: bytes)
    | ObjectNode(gap: bytes, pairs: Pairs)

  /** Elements with the white space after each, and what a trailing comma brings. */
  datatype Elems =
    | LastElem(v: Node, after: bytes, trailing: Option<bytes>)
    | NextElem(v: Node, after: bytes, gap: bytes, rest: Elems)

  datatype Pairs =
    | LastPair(name: Name, v: Node, after: bytes, trailing: Option<bytes>)
    | NextPair(name: Name, v: Node, after: bytes, gap: bytes, rest: Pairs)

  /** A name, up to its value. */
  datatype Name = Name(xs: seq<Piece>, beforeColon: bytes, afterColon: bytes)

  /** White space: blank, horizontal tab, line feed, carriage return. */
  predicate IsGap(gap: bytes) {
    forall i :: 0 <= i < |gap| ==> gap[i] == 0x20 || gap[i] == 0x09 || gap[i] == 0x0A || gap[i] == 0x0D
  }

  // ---------- texts ----------

  function StringText(xs: seq<Piece>): bytes
    requires AllLegit(xs)
  {
    [0x22] + (SpelledText(xs) + [0x22])
  }

  function NodeText(n: Node): bytes
    requires Proper(n)
    decreases n, 0
  {
    match n
    case NullNode => [0x6E, 0x75, 0x6C, 0x6C]
    case BoolNode(b) => if b then [0x74, 0x72, 0x75, 0x65] else [0x66, 0x61, 0x6C, 0x73, 0x65]
    case NumberNode(i, signedZero) => if signedZero then [0x2D, 0x30] else Writer.NumberText(i)
    case StringNode(xs) => StringText(xs)
    case EmptyArray(gap) => [0x5B] + (gap + [0x5D])
    case ArrayNode(gap, elems) => [0x5B] + (gap + (ElemsText(elems) + [0x5D]))
    case EmptyObject(gap) => [0x7B] + (gap + [0x7D])
    case ObjectNode(gap, pairs) => [0x7B] + (gap + (PairsText(pairs) + [0x7D]))
  }

  function TrailingText(trailing: Option<bytes>): bytes {
    if trailing.Some? then [0x2C] + trailing.value else []
  }

  function ElemsText(es: Elems): bytes
    requires ProperElems(es)
    decreases es, 1
  {
    match es
    case LastElem(v, after, trailing) => NodeText(v) + (after + TrailingText(trailing))
    case NextElem(v, after, gap, rest) => NodeText(v) + (after + ([0x2C] + (gap + ElemsText(rest))))
  }

  function NameText(name: Name): bytes
    requires AllLegit(name.xs)
  {
    StringText(name.xs) + (name.beforeColon + ([0x3A] + name.afterColon))
  }

  function PairsText(ps: Pairs): bytes
    requires ProperPairs(ps)
    decreases ps, 1
  {
    match ps
    case LastPair(name, v, after, trailing) => NameText(name) + (NodeText(v) + (after + TrailingText(trailing)))
    case NextPair(name, v, after, gap, rest) =>
      NameText(name) + (NodeText(v) + (after + ([0x2C] + (gap + PairsText(rest)))))
  }

  // ---------- which trees ----------

  predicate Proper(n: Node)
    decreases n, 0
  {
    match n
    case NumberNode(i, signedZero) => -0x8000_0000_0000_0000 <= i < 0x1_0000_0000_0000_0000 && (signedZero ==> i == 0)
    case StringNode(xs) => AllLegit(xs)
    case EmptyArray(gap) => IsGap(gap)
    case ArrayNode(gap, elems) => IsGap(gap) && ProperElems(elems)
    case EmptyObject(gap) => IsGap(gap)
    case ObjectNode(gap, pairs) => IsGap(gap) && ProperPairs(pairs)
    case _ => true
  }

  predicate ProperTrailing(trailing: Option<bytes>) {
    trailing.Some? ==> IsGap(trailing.value)
  }

  predicate ProperElems(es: Elems)
    decreases es, 1
  {
    match es
    case LastElem(v, after, trailing) => Proper(v) && IsGap(after) && ProperTrailing(trailing)
    case NextElem(v, after, gap, rest) => Proper(v) && IsGap(after) && IsGap(gap) && ProperElems(rest)
  }

  predicate ProperName(name: Name) {
    AllLegit(name.xs) && IsGap(name.beforeColon) && IsGap(name.afterColon)
  }

  predicate ProperPairs(ps: Pairs)
    decreases ps, 1
  {
    match ps
    case LastPair(name, v, after, trailing) => ProperName(name) && Proper(v) && IsGap(after) && ProperTrailing(trailing)
    case NextPair(name, v, after, gap, rest) =>
      ProperName(name) && Proper(v) && IsGap(after) && IsGap(gap) && ProperPairs(rest)
  }

  /** No trailing comma anywhere, unless the flag allows them. */
  predicate Trails(n: Node, allowed: bool)
    decreases n, 0
  {
    match n
    case ArrayNode(_, elems) => ElemsTrail(elems, allowed)
    case ObjectNode(_, pairs) => PairsTrail(pairs, allowed)
    case _ => true
  }

  predicate ElemsTrail(es: Elems, allowed: bool)
    decreases es, 1
  {
    match es
    case LastElem(v, _, trailing) => Trails(v, allowed) && (trailing.Some? ==> allowed)
    case NextElem(v, _, _, rest) => Trails(v, allowed) && ElemsTrail(rest, allowed)
  }

  predicate PairsTrail(ps: Pairs, allowed: bool)
    decreases ps, 1
  {
    match ps
    case LastPair(_, v, _, trailing) => Trails(v, allowed) && (trailing.Some? ==> allowed)
    case NextPair(_, v, _, _, rest) => Trails(v, allowed) && PairsTrail(rest, allowed)
  }

  // ---------- what they denote ----------

  function NodeValue(n: Node): Value
    requires Proper(n)
    decreases n, 0
  {
    match n
    case NullNode => Null
    case BoolNode(b) => Bool(b)
    case NumberNode(i, _) => Number(i)
    case StringNode(xs) => String(SpelledBytes(xs))
    case EmptyArray(_) => Array([])
    case ArrayNode(_, elems) => Array(ElemsValues(elems))
    case EmptyObject(_) => Object([])
    case ObjectNode(_, pairs) => Object(PairsMembers(pairs))
  }

  function ElemsValues(es: Elems): (vs: seq<Value>)
    requires ProperElems(es)
    decreases es, 1
  {
    match es
    case LastElem(v, _, _) => [NodeValue(v)]
    case NextElem(v, _, _, rest) => [NodeValue(v)] + ElemsValues(rest)
  }

  function PairsMembers(ps: Pairs): (ms: seq<Member>)
    requires ProperPairs(ps)
    decreases ps, 1
  {
    match ps
    case LastPair(name, v, _, _) => [Member(SpelledBytes(name.xs), NodeValue(v))]
    case NextPair(name, v, _, _, rest) => [Member(SpelledBytes(name.xs), NodeValue(v))] + PairsMembers(rest)
  }

  // ---------- what the reader sends ----------

  function NodeEvents(n: Node): seq<Event>
    requires Proper(n)
    decreases n, 0
  {
    match n
    case NullNode => [NullEvent]
    case BoolNode(b) => [BoolEvent(b)]
    case NumberNode(i, signedZero) => [if signedZero then IntEvent(0) else RoundTrip.NumberRead(i)]
    case StringNode(xs) => [StringEvent(SpelledBytes(xs))]
    case EmptyArray(_) => [StartArrayEvent, EndArrayEvent(0)]
    case ArrayNode(_, elems) => [StartArrayEvent] + ElemsEvents(elems) + [EndArrayEvent(|ElemsValues(elems)|)]
    case EmptyObject(_) => [StartObjectEvent, EndObjectEvent(0)]
    case ObjectNode(_, pairs) => [StartObjectEvent] + PairsEvents(pairs) + [EndObjectEvent(|PairsMembers(pairs)|)]
  }

  function ElemsEvents(es: Elems): seq<Event>
    requires ProperElems(es)
    decreases es, 1
  {
    match es
    case LastElem(v, _, _) => NodeEvents(v)
    case NextElem(v, _, _, rest) => NodeEvents(v) + ElemsEvents(rest)
  }

  function PairsEvents(ps: Pairs): seq<Event>
    requires ProperPairs(ps)
    decreases ps, 1
  {
    match ps
    case LastPair(name, v, _, _) => [KeyEvent(SpelledBytes(name.xs))] + NodeEvents(v)
    case NextPair(name, v, _, _, rest) => [KeyEvent(SpelledBytes(name.xs))] + NodeEvents(v) + PairsEvents(rest)
  }

  // ---------- white space ----------

  /** Skipping moves past exactly the white space. */
  lemma {:induction false} SkipGap(s: bytes, p: nat, gap: bytes)
    requires IsGap(gap) && At(s, p, gap) && !IsSpace(Peek(s, p + |gap|))
    ensures SkipSpace(s, p) == p + |gap|
    decreases |gap|
  {
    if gap != [] {
      AtPeek(s, p, gap, 0);
      assert gap == [gap[0]] + gap[1..];
      AtConcat(s, p, [gap[0]], gap[1..]);
      SkipGap(s, p + 1, gap[1..]);
    }
  }

  /** What is skipped is white space. */
  lemma GapOf(s: bytes, p: nat) returns (gap: bytes)
    requires p <= |s|
    ensures IsGap(gap) && At(s, p, gap) && SkipSpace(s, p) == p + |gap|
  {
    gap := s[p..SkipSpace(s, p)];
    assert forall i :: 0 <= i < |gap| ==> gap[i] == s[p + i];
  }

  /** A node begins with no white space, closing bracket or comma. */
  predicate Starts(c: byte) {
    !IsSpace(c) && c != NUL && c != RBRACKET && c != RBRACE && c != COMMA && c != COLON
  }

  lemma NodeStarts(n: Node)
    requires Proper(n)
    ensures NodeText(n) != [] && Starts(NodeText(n)[0])
    ensures NodeText(n)[0] == LBRACKET <==> n.EmptyArray? || n.ArrayNode?
    ensures NodeText(n)[0] == LBRACE <==> n.EmptyObject? || n.ObjectNode?
  {
    hide SpelledText, ElemsText, PairsText;
    if n.NumberNode? && !n.signedZero {
      hide Writer.Decimal;
      assert n.n >= 0 ==> Writer.Decimal(n.n)[0] in Writer.Decimal(n.n);
    }
  }

  // ---------- reading a tree's text ----------

  lemma Peel(s: bytes, p: nat, a: bytes, rest: bytes, tail: bytes)
    requires At(s, p, a + rest + tail)
    ensures At(s, p, a) && At(s, p + |a|, rest + tail)
  {
    Regroup(a, rest, tail);
    AtConcat(s, p, a, rest + tail);
  }

  lemma StringRead(s: bytes, p: nat, xs: seq<Piece>)
    requires AllLegit(xs) && At(s, p, StringText(xs))
    ensures p < |s| && Peek(s, p) == QUOTE
    ensures ParseString(s, p) == Done(SpelledBytes(xs), p + |StringText(xs)|)
  {
    AtConcat(s, p, [0x22], SpelledText(xs) + [0x22]);
    AtPeek(s, p, [0x22], 0);
    SpellingRead(s, p + 1, xs, []);
    assert [] + SpelledBytes(xs) == SpelledBytes(xs);
  }

  lemma SignedZeroRead(s: bytes, p: nat)
    requires At(s, p, [0x2D, 0x30]) && RoundTrip.Terminated(s, p + 2)
    ensures ParseNumber(s, p) == Done(IntEvent(0), p + 2)
  {
    AtPeek(s, p, [0x2D, 0x30], 0);
    AtPeek(s, p, [0x2D, 0x30], 1);
  }

  predicate IsLeaf(n: Node) {
    n.NullNode? || n.BoolNode? || n.NumberNode? || n.StringNode?
  }

  lemma LeafRead(s: bytes, p: nat, n: Node)
    requires Proper(n) && IsLeaf(n) && At(s, p, NodeText(n))
    requires n.NumberNode? ==> RoundTrip.Terminated(s, p + |NodeText(n)|)
    ensures Peek(s, p) != LBRACE && Peek(s, p) != LBRACKET
    ensures ParseScalar(s, p) == Done(NodeEvents(n)[0], p + |NodeText(n)|) && |NodeEvents(n)| == 1
  {
    NodeStarts(n);
    AtPeek(s, p, NodeText(n), 0);
    hide ParseLiteral, ParseNumber, ParseString, StringText, Writer.NumberText, RoundTrip.NumberRead;
    match n {
      case NullNode => RoundTrip.LiteralReadBack(s, p, NULL, NullEvent);
      case BoolNode(b) => RoundTrip.LiteralReadBack(s, p, if b then TRUE else FALSE, BoolEvent(b));
      case NumberNode(i, signedZero) =>
        if signedZero {
          SignedZeroRead(s, p);
        } else {
          RoundTrip.NumberReadBack(s, p, i);
        }
      case StringNode(xs) => StringRead(s, p, xs);
    }
  }

  /** What stands behind an element or member ends a number, and white space before it is skipped. */
  lemma AfterValue(s: bytes, q: nat, after: bytes, c: byte)
    requires IsGap(after) && At(s, q, after) && Peek(s, q + |after|) == c
    requires c == COMMA || c == RBRACKET || c == RBRACE || c == NUL
    ensures RoundTrip.Terminated(s, q) && SkipSpace(s, q) == q + |after|
  {
    SkipGap(s, q, after);
    if after != [] {
      AtPeek(s, q, after, 0);
    }
  }

  /** A tree's text, wherever it stands, is read with the tree's events, and no further. */
  lemma {:induction false} NodeRead(s: bytes, p: nat, n: Node, ev: seq<Event>, fl: Flags)
    requires Proper(n) && Trails(n, fl.trailingCommas) && At(s, p, NodeText(n))
    requires n.NumberNode? ==> RoundTrip.Terminated(s, p + |NodeText(n)|)
    ensures ParseValue(s, p, ev, fl) == Run.Good(ev + NodeEvents(n), p + |NodeText(n)|)
    decreases n, 1
  {
    match n {
      case EmptyArray(gap) => EmptyArrayRead(s, p, gap, ev, fl);
      case ArrayNode(gap, elems) => ArrayRead(s, p, gap, elems, ev, fl);
      case EmptyObject(gap) => EmptyObjectRead(s, p, gap, ev, fl);
      case ObjectNode(gap, pairs) => ObjectRead(s, p, gap, pairs, ev, fl);
      case _ =>
        LeafRead(s, p, n);
        hide ParseScalar, NodeText;
        assert NodeEvents(n) == [NodeEvents(n)[0]];
    }
  }

  lemma EmptyArrayRead(s: bytes, p: nat, gap: bytes, ev: seq<Event>, fl: Flags)
    requires IsGap(gap) && At(s, p, [0x5B] + (gap + [0x5D]))
    ensures ParseValue(s, p, ev, fl) == Run.Good(ev + [StartArrayEvent, EndArrayEvent(0)], p + |gap| + 2)
  {
    AtConcat(s, p, [0x5B], gap + [0x5D]);
    AtConcat(s, p + 1, gap, [0x5D]);
    AtPeek(s, p, [0x5B], 0);
    AtPeek(s, p + 1 + |gap|, [0x5D], 0);
    SkipGap(s, p + 1, gap);
    assert ev + [StartArrayEvent] + [EndArrayEvent(0)] == ev + [StartArrayEvent, EndArrayEvent(0)];
  }

  lemma EmptyObjectRead(s: bytes, p: nat, gap: bytes, ev: seq<Event>, fl: Flags)
    requires IsGap(gap) && At(s, p, [0x7B] + (gap + [0x7D]))
    ensures ParseValue(s, p, ev, fl) == Run.Good(ev + [StartObjectEvent, EndObjectEvent(0)], p + |gap| + 2)
  {
    AtConcat(s, p, [0x7B], gap + [0x7D]);
    AtConcat(s, p + 1, gap, [0x7D]);
    AtPeek(s, p, [0x7B], 0);
    AtPeek(s, p + 1 + |gap|, [0x7D], 0);
    SkipGap(s, p + 1, gap);
    assert ev + [StartObjectEvent] + [EndObjectEvent(0)] == ev + [StartObjectEvent, EndObjectEvent(0)];
  }

  /** A bracket, white space, and then something that is none. */
  lemma OpenedAt(s: bytes, p: nat, open: byte, gap: bytes, rest: bytes, tail: bytes)
    requires IsGap(gap) && rest != [] && !IsSpace(rest[0]) && At(s, p, [open] + (gap + (rest + tail)))
    ensures p < |s| && Peek(s, p) == open && At(s, p + 1 + |gap|, rest + tail)
    ensures SkipSpace(s, p + 1) == p + 1 + |gap| && Peek(s, p + 1 + |gap|) == rest[0]
  {
    AtConcat(s, p, [open], gap + (rest + tail));
    AtConcat(s, p + 1, gap, rest + tail);
    AtPeek(s, p, [open], 0);
    AtPeek(s, p + 1 + |gap|, rest + tail, 0);
    SkipGap(s, p + 1, gap);
  }

  lemma ArrayStarts(s: bytes, p: nat, q: nat, ev: seq<Event>, fl: Flags)
    requires p < |s| && Peek(s, p) == LBRACKET && SkipSpace(s, p + 1) == q && Peek(s, q) != RBRACKET
    ensures ParseValue(s, p, ev, fl) == RecursiveDescent.Elements(s, q, ev + [StartArrayEvent], 0, fl)
  {
    hide RecursiveDescent.Elements, SkipSpace;
  }

  lemma ObjectStarts(s: bytes, p: nat, q: nat, ev: seq<Event>, fl: Flags)
    requires p < |s| && Peek(s, p) == LBRACE && SkipSpace(s, p + 1) == q && Peek(s, q) != RBRACE
    ensures ParseValue(s, p, ev, fl) == RecursiveDescent.Members(s, q, ev + [StartObjectEvent], 0, fl)
  {
    hide RecursiveDescent.Members, SkipSpace;
  }

  lemma MemberStarts(s: bytes, p: nat, name: bytes, colon: nat, start: nat, r: Run, count: nat, ev: seq<Event>,
                     fl: Flags)
    requires p < |s| && Peek(s, p) == QUOTE && ParseString(s, p).Done? && ParseString(s, p).value == name
    requires SkipSpace(s, ParseString(s, p).next) == colon && colon < |s| && Peek(s, colon) == COLON
    requires SkipSpace(s, colon + 1) == start && ParseValue(s, start, ev + [KeyEvent(name)], fl) == r && r.Good?
    ensures RecursiveDescent.Members(s, p, ev, count, fl)
            == AfterMember(s, SkipSpace(s, r.pos), r.events, count + 1, fl)
  {
    hide ParseValue, AfterMember, SkipSpace, ParseString;
  }

  // ---------- arrays ----------

  lemma ElemsStart(es: Elems)
    requires ProperElems(es)
    ensures ElemsText(es) != [] && Starts(ElemsText(es)[0])
  {
    hide NodeText;
    NodeStarts(es.v);
  }

  lemma {:induction false} ArrayRead(s: bytes, p: nat, gap: bytes, elems: Elems, ev: seq<Event>, fl: Flags)
    requires IsGap(gap) && ProperElems(elems) && ElemsTrail(elems, fl.trailingCommas)
    requires At(s, p, [0x5B] + (gap + (ElemsText(elems) + [0x5D])))
    ensures ParseValue(s, p, ev, fl)
            == Run.Good(ev + ([StartArrayEvent] + ElemsEvents(elems) + [EndArrayEvent(|ElemsValues(elems)|)]),
                        p + |gap| + |ElemsText(elems)| + 2)
    decreases elems, 1
  {
    hide ParseValue, ElemsText, ElemsEvents, ElemsValues, RecursiveDescent.Elements, At, SkipSpace,
      ProperElems, ElemsTrail, IsGap;
    ElemsStart(elems);
    OpenedAt(s, p, 0x5B, gap, ElemsText(elems), [0x5D]);
    ArrayStarts(s, p, p + 1 + |gap|, ev, fl);
    ElemsRead(s, p + 1 + |gap|, elems, 0, ev + [StartArrayEvent], fl);
    RoundTrip.Bracketed(ev, [StartArrayEvent], ElemsEvents(elems), [EndArrayEvent(|ElemsValues(elems)|)]);
  }

  /** The first element alone. */
  lemma {:induction false} ElemRead(s: bytes, p: nat, v: Node, after: bytes, c: byte, count: nat, ev: seq<Event>,
                                    fl: Flags)
    requires Proper(v) && Trails(v, fl.trailingCommas) && At(s, p, NodeText(v))
    requires IsGap(after) && At(s, p + |NodeText(v)|, after)
    requires p + |NodeText(v)| + |after| <= |s|
    requires Peek(s, p + |NodeText(v)| + |after|) == c && (c == COMMA || c == RBRACKET)
    ensures RecursiveDescent.Elements(s, p, ev, count, fl)
            == AfterElement(s, p + |NodeText(v)| + |after|, ev + NodeEvents(v), count + 1, fl)
    decreases v, 2
  {
    hide NodeText, NodeEvents, ParseValue, AfterElement, At, SkipSpace, IsGap, Proper, Trails, RoundTrip.Terminated;
    AfterValue(s, p + |NodeText(v)|, after, c);
    NodeRead(s, p, v, ev, fl);
  }

  lemma {:induction false} ElemsRead(s: bytes, p: nat, es: Elems, count: nat, ev: seq<Event>, fl: Flags)
    requires ProperElems(es) && ElemsTrail(es, fl.trailingCommas) && At(s, p, ElemsText(es) + [0x5D])
    ensures RecursiveDescent.Elements(s, p, ev, count, fl)
            == Run.Good(ev + ElemsEvents(es) + [EndArrayEvent(count + |ElemsValues(es)|)], p + |ElemsText(es)| + 1)
    decreases es, 0
  {
    hide NodeText, NodeEvents, AfterElement, RecursiveDescent.Elements, ElemsText, ElemsEvents, ElemsValues, At,
      SkipSpace, Peek;
    ElemsUnfold(es, ev);
    var end := p + |NodeText(es.v)| + |es.after|;
    match es {
      case LastElem(v, after, trailing) =>
        ValueParts(s, p, NodeText(v), after, TrailingText(trailing), [0x5D]);
        LastElemEnds(s, end, trailing, count + 1, ev + NodeEvents(v), fl);
        ElemRead(s, p, v, after, Peek(s, end), count, ev, fl);
      case NextElem(v, after, gap, rest) =>
        ValueParts(s, p, NodeText(v), after, [0x2C] + (gap + ElemsText(rest)), [0x5D]);
        ElemsStart(rest);
        SeparatorAt(s, end, gap, ElemsText(rest), [0x5D]);
        ElemRead(s, p, v, after, COMMA, count, ev, fl);
        CommaGoesOn(s, end, count + 1, ev + NodeEvents(v), fl);
        ElemsRead(s, end + 1 + |gap|, rest, count + 1, ev + NodeEvents(v), fl);
    }
  }

  lemma ElemsUnfold(es: Elems, ev: seq<Event>)
    requires ProperElems(es)
    ensures match es
            case LastElem(v, after, trailing) =>
              && ElemsText(es) == NodeText(v) + (after + TrailingText(trailing))
              && ev + ElemsEvents(es) == ev + NodeEvents(v) && |ElemsValues(es)| == 1
            case NextElem(v, after, gap, rest) =>
              && ElemsText(es) == NodeText(v) + (after + ([0x2C] + (gap + ElemsText(rest))))
              && ev + ElemsEvents(es) == ev + NodeEvents(v) + ElemsEvents(rest)
              && |ElemsValues(es)| == 1 + |ElemsValues(rest)|
  {
    hide NodeText, NodeEvents, NodeValue;
    if es.NextElem? {
      Regroup(ev, NodeEvents(es.v), ElemsEvents(es.rest));
    }
  }

  /** Where a value stands, and what comes behind it. */
  lemma ValueParts(s: bytes, p: nat, v: bytes, after: bytes, more: bytes, tail: bytes)
    requires At(s, p, v + (after + more) + tail)
    ensures At(s, p, v) && At(s, p + |v|, after) && At(s, p + |v| + |after|, more + tail)
  {
    hide At;
    Peel(s, p, v, after + more, tail);
    Peel(s, p + |v|, after, more, tail);
  }

  /** A comma, white space, and then something that is none. */
  lemma SeparatorAt(s: bytes, comma: nat, gap: bytes, rest: bytes, tail: bytes)
    requires IsGap(gap) && rest != [] && !IsSpace(rest[0]) && At(s, comma, [0x2C] + (gap + rest) + tail)
    ensures comma < |s| && Peek(s, comma) == COMMA && At(s, comma + 1 + |gap|, rest + tail)
    ensures SkipSpace(s, comma + 1) == comma + 1 + |gap| && Peek(s, comma + 1 + |gap|) == rest[0]
  {
    Peel(s, comma, [0x2C], gap + rest, tail);
    AtPeek(s, comma, [0x2C], 0);
    Peel(s, comma + 1, gap, rest, tail);
    AtPeek(s, comma + 1 + |gap|, rest + tail, 0);
    SkipGap(s, comma + 1, gap);
  }

  lemma LastElemEnds(s: bytes, p: nat, trailing: Option<bytes>, count: nat, ev: seq<Event>, fl: Flags)
    requires ProperTrailing(trailing) && (trailing.Some? ==> fl.trailingCommas)
    requires At(s, p, TrailingText(trailing) + [0x5D])
    ensures p < |s| && (Peek(s, p) == COMMA || Peek(s, p) == RBRACKET)
    ensures AfterElement(s, p, ev, count, fl)
            == Run.Good(ev + [EndArrayEvent(count)], p + |TrailingText(trailing)| + 1)
  {
    AtPeek(s, p, TrailingText(trailing) + [0x5D], 0);
    if trailing.Some? {
      var gap := trailing.value;
      Peel(s, p, [0x2C], gap, [0x5D]);
      AtConcat(s, p + 1, gap, [0x5D]);
      AtPeek(s, p + 1 + |gap|, [0x5D], 0);
      SkipGap(s, p + 1, gap);
    }
  }

  lemma CommaGoesOn(s: bytes, p: nat, count: nat, ev: seq<Event>, fl: Flags)
    requires p < |s| && Peek(s, p) == COMMA && Peek(s, SkipSpace(s, p + 1)) != RBRACKET
    ensures AfterElement(s, p, ev, count, fl) == RecursiveDescent.Elements(s, SkipSpace(s, p + 1), ev, count, fl)
  {
    hide RecursiveDescent.Elements;
  }

  // ---------- objects ----------

  lemma PairsStart(ps: Pairs)
    requires ProperPairs(ps)
    ensures PairsText(ps) != [] && PairsText(ps)[0] == QUOTE
  {
    hide NodeText, SpelledText;
    assert NameText(ps.name)[0] == QUOTE;
  }

  lemma NameRead(s: bytes, p: nat, name: Name)
    requires ProperName(name) && At(s, p, NameText(name)) && !IsSpace(Peek(s, p + |NameText(name)|))
    ensures p < |s| && Peek(s, p) == QUOTE
    ensures var r := ParseString(s, p);
            && r.Done? && r.value == SpelledBytes(name.xs)
            && var colon := SkipSpace(s, r.next);
               colon < |s| && Peek(s, colon) == COLON && SkipSpace(s, colon + 1) == p + |NameText(name)|
  {
    hide StringText, ParseString, At, SkipSpace, AllLegit, SpelledBytes, IsGap;
    NameAt(s, p, name);
    var q := p + |StringText(name.xs)|;
    var colon := q + |name.beforeColon|;
    StringRead(s, p, name.xs);
    SkipGap(s, q, name.beforeColon);
    SkipGap(s, colon + 1, name.afterColon);
  }

  lemma NameAt(s: bytes, p: nat, name: Name)
    requires AllLegit(name.xs) && At(s, p, NameText(name))
    ensures var q := p + |StringText(name.xs)|;
            var colon := q + |name.beforeColon|;
            && At(s, p, StringText(name.xs)) && At(s, q, name.beforeColon) && colon < |s| && Peek(s, colon) == COLON
            && At(s, colon + 1, name.afterColon) && p + |NameText(name)| == colon + 1 + |name.afterColon|
  {
    hide StringText, AllLegit, SpelledText;
    var q := p + |StringText(name.xs)|;
    AtConcat(s, p, StringText(name.xs), name.beforeColon + ([0x3A] + name.afterColon));
    AtConcat(s, q, name.beforeColon, [0x3A] + name.afterColon);
    AtConcat(s, q + |name.beforeColon|, [0x3A], name.afterColon);
    AtPeek(s, q + |name.beforeColon|, [0x3A], 0);
  }

  lemma {:induction false} ObjectRead(s: bytes, p: nat, gap: bytes, pairs: Pairs, ev: seq<Event>, fl: Flags)
    requires IsGap(gap) && ProperPairs(pairs) && PairsTrail(pairs, fl.trailingCommas)
    requires At(s, p, [0x7B] + (gap + (PairsText(pairs) + [0x7D])))
    ensures ParseValue(s, p, ev, fl)
            == Run.Good(ev + ([StartObjectEvent] + PairsEvents(pairs) + [EndObjectEvent(|PairsMembers(pairs)|)]),
                        p + |gap| + |PairsText(pairs)| + 2)
    decreases pairs, 1
  {
    hide ParseValue, PairsText, PairsEvents, PairsMembers, RecursiveDescent.Members, At, SkipSpace,
      ProperPairs, PairsTrail, IsGap;
    PairsStart(pairs);
    OpenedAt(s, p, 0x7B, gap, PairsText(pairs), [0x7D]);
    ObjectStarts(s, p, p + 1 + |gap|, ev, fl);
    PairsRead(s, p + 1 + |gap|, pairs, 0, ev + [StartObjectEvent], fl);
    RoundTrip.Bracketed(ev, [StartObjectEvent], PairsEvents(pairs), [EndObjectEvent(|PairsMembers(pairs)|)]);
  }

  /** The first member alone. */
  lemma {:induction false} PairRead(s: bytes, p: nat, name: Name, v: Node, after: bytes, c: byte, count: nat,
                                    ev: seq<Event>, fl: Flags)
    requires ProperName(name) && Proper(v) && Trails(v, fl.trailingCommas) && IsGap(after)
    requires At(s, p, NameText(name)) && At(s, p + |NameText(name)|, NodeText(v))
    requires At(s, p + |NameText(name)| + |NodeText(v)|, after)
    requires p + |NameText(name)| + |NodeText(v)| + |after| <= |s|
    requires Peek(s, p + |NameText(name)| + |NodeText(v)| + |after|) == c && (c == COMMA || c == RBRACE)
    ensures RecursiveDescent.Members(s, p, ev, count, fl)
            == AfterMember(s, p + |NameText(name)| + |NodeText(v)| + |after|,
                           ev + [KeyEvent(SpelledBytes(name.xs))] + NodeEvents(v), count + 1, fl)
    decreases v, 2
  {
    hide NodeText, NameText, NodeEvents, ParseValue, ParseString, AfterMember, At, SkipSpace, IsGap, SpelledBytes,
      Proper, Trails, AllLegit, RoundTrip.Terminated, RecursiveDescent.Members;
    var start := p + |NameText(name)|;
    NodeStarts(v);
    AtPeek(s, start, NodeText(v), 0);
    NameRead(s, p, name);
    AfterValue(s, start + |NodeText(v)|, after, c);
    var named := ev + [KeyEvent(SpelledBytes(name.xs))];
    NodeRead(s, start, v, named, fl);
    var colon := SkipSpace(s, ParseString(s, p).next);
    MemberStarts(s, p, SpelledBytes(name.xs), colon, start, ParseValue(s, start, named, fl), count, ev, fl);
  }

  lemma {:induction false} PairsRead(s: bytes, p: nat, ps: Pairs, count: nat, ev: seq<Event>, fl: Flags)
    requires ProperPairs(ps) && PairsTrail(ps, fl.trailingCommas) && At(s, p, PairsText(ps) + [0x7D])
    ensures RecursiveDescent.Members(s, p, ev, count, fl)
            == Run.Good(ev + PairsEvents(ps) + [EndObjectEvent(count + |PairsMembers(ps)|)], p + |PairsText(ps)| + 1)
    decreases ps, 0
  {
    hide NodeText, NameText, NodeEvents, AfterMember, RecursiveDescent.Members, PairsText, PairsEvents, PairsMembers,
      At, SkipSpace, Peek, Proper, Trails, IsGap, AllLegit, SpelledBytes;
    PairsUnfold(ps, ev);
    var start := p + |NameText(ps.name)|;
    var end := start + |NodeText(ps.v)| + |ps.after|;
    var more := ev + [KeyEvent(SpelledBytes(ps.name.xs))] + NodeEvents(ps.v);
    match ps {
      case LastPair(name, v, after, trailing) =>
        Peel(s, p, NameText(name), NodeText(v) + (after + TrailingText(trailing)), [0x7D]);
        ValueParts(s, start, NodeText(v), after, TrailingText(trailing), [0x7D]);
        LastPairEnds(s, end, trailing, count + 1, more, fl);
        PairRead(s, p, name, v, after, Peek(s, end), count, ev, fl);
      case NextPair(name, v, after, gap, rest) =>
        Peel(s, p, NameText(name), NodeText(v) + (after + ([0x2C] + (gap + PairsText(rest)))), [0x7D]);
        ValueParts(s, start, NodeText(v), after, [0x2C] + (gap + PairsText(rest)), [0x7D]);
        PairsStart(rest);
        SeparatorAt(s, end, gap, PairsText(rest), [0x7D]);
        PairRead(s, p, name, v, after, COMMA, count, ev, fl);
        MemberCommaGoesOn(s, end, count + 1, more, fl);
        PairsRead(s, end + 1 + |gap|, rest, count + 1, more, fl);
    }
  }

  lemma PairsUnfold(ps: Pairs, ev: seq<Event>)
    requires ProperPairs(ps)
    ensures var more := ev + [KeyEvent(SpelledBytes(ps.name.xs))] + NodeEvents(ps.v);
            match ps
            case LastPair(name, v, after, trailing) =>
              && PairsText(ps) == NameText(name) + (NodeText(v) + (after + TrailingText(trailing)))
              && ev + PairsEvents(ps) == more && |PairsMembers(ps)| == 1
            case NextPair(name, v, after, gap, rest) =>
              && PairsText(ps) == NameText(name) + (NodeText(v) + (after + ([0x2C] + (gap + PairsText(rest)))))
              && ev + PairsEvents(ps) == more + PairsEvents(rest) && |PairsMembers(ps)| == 1 + |PairsMembers(rest)|
  {
    hide NodeText, NodeEvents, NameText, NodeValue;
    Regroup(ev, [KeyEvent(SpelledBytes(ps.name.xs))], NodeEvents(ps.v));
    if ps.NextPair? {
      Regroup(ev, [KeyEvent(SpelledBytes(ps.name.xs))] + NodeEvents(ps.v), PairsEvents(ps.rest));
    }
  }

  lemma LastPairEnds(s: bytes, p: nat, trailing: Option<bytes>, count: nat, ev: seq<Event>, fl: Flags)
    requires ProperTrailing(trailing) && (trailing.Some? ==> fl.trailingCommas)
    requires At(s, p, TrailingText(trailing) + [0x7D])
    ensures p < |s| && (Peek(s, p) == COMMA || Peek(s, p) == RBRACE)
    ensures AfterMember(s, p, ev, count, fl)
            == Run.Good(ev + [EndObjectEvent(count)], p + |TrailingText(trailing)| + 1)
  {
    AtPeek(s, p, TrailingText(trailing) + [0x7D], 0);
    if trailing.Some? {
      var gap := trailing.value;
      Peel(s, p, [0x2C], gap, [0x7D]);
      AtConcat(s, p + 1, gap, [0x7D]);
      AtPeek(s, p + 1 + |gap|, [0x7D], 0);
      SkipGap(s, p + 1, gap);
    }
  }

  lemma MemberCommaGoesOn(s: bytes, p: nat, count: nat, ev: seq<Event>, fl: Flags)
    requires p < |s| && Peek(s, p) == COMMA && Peek(s, SkipSpace(s, p + 1)) != RBRACE
    ensures AfterMember(s, p, ev, count, fl) == RecursiveDescent.Members(s, SkipSpace(s, p + 1), ev, count, fl)
  {
    hide RecursiveDescent.Members;
  }

  // ---------- the tree of a text that was read ----------

  lemma StringOf(s: bytes, p: nat) returns (xs: seq<Piece>)
    requires p < |s| && s[p] == QUOTE && ParseString(s, p).Done?
    ensures AllLegit(xs) && At(s, p, StringText(xs)) && ParseString(s, p).next == p + |StringText(xs)|
  {
    hide SpelledText, StringBody, SpelledBytes;
    xs := SpellingOf(s, p + 1, []);
    SpellingRead(s, p + 1, xs, []);
    assert s[p..p + 1] == [0x22];
    AtJoin(s, p, [0x22], SpelledText(xs) + [0x22]);
  }

  lemma {:induction false} MatchedWhole(s: bytes, p: nat, word: bytes, k: nat)
    requires p <= |s| && k <= |word| && Matched(s, p, word, k) == p + (|word| - k)
    ensures p + (|word| - k) <= |s| && forall i :: k <= i < |word| ==> s[p + (i - k)] == word[i]
    decreases |word| - k
  {
    if k < |word| && p < |s| && s[p] == word[k] {
      MatchedWhole(s, p + 1, word, k + 1);
      forall i | k <= i < |word| ensures s[p + (i - k)] == word[i] {
        assert i > k ==> s[p + 1 + (i - (k + 1))] == word[i];
      }
    }
  }

  lemma LiteralOf(s: bytes, p: nat, word: bytes, e: Event)
    requires p < |s| && |word| > 1 && s[p] == word[0] && ParseLiteral(s, p, word, e).Done?
    ensures At(s, p, word) && ParseLiteral(s, p, word, e) == Done(e, p + |word|)
  {
    MatchedWhole(s, p + 1, word, 1);
    assert forall i :: 0 <= i < |word| ==> s[p + i] == word[i] by {
      forall i | 0 <= i < |word| ensures s[p + i] == word[i] {
        assert i > 0 ==> s[p + 1 + (i - 1)] == word[i];
      }
    }
    assert s[p..p + |word|] == word;
  }

  /** A literal that fails does so at its first wrong byte. */
  lemma LiteralFails(s: bytes, p: nat, word: bytes, e: Event)
    requires p < |s| && |word| > 1 && s[p] == word[0] && ParseLiteral(s, p, word, e).Fail?
    ensures var r := ParseLiteral(s, p, word, e);
            && r.code == ValueInvalid && p < r.offset < p + |word| && r.offset <= |s|
            && s[p..r.offset] == word[..r.offset - p]
            && (r.offset == |s| || s[r.offset] != word[r.offset - p])
  {
    MatchedStops(s, p + 1, word, 1);
    var q := Matched(s, p + 1, word, 1);
    forall i | 0 <= i < q - p ensures s[p + i] == word[i] {
      assert i > 0 ==> s[p + 1 + (i - 1)] == word[i];
    }
  }

  lemma {:induction false} MatchedStops(s: bytes, p: nat, word: bytes, k: nat)
    requires p <= |s| && k <= |word|
    ensures var q := Matched(s, p, word, k);
            && (forall i :: k <= i < k + (q - p) ==> s[p + (i - k)] == word[i])
            && (q < p + (|word| - k) ==> q == |s| || s[q] != word[k + (q - p)])
    decreases |word| - k
  {
    if k < |word| && p < |s| && s[p] == word[k] {
      MatchedStops(s, p + 1, word, k + 1);
      var q := Matched(s, p, word, k);
      forall i | k <= i < k + (q - p) ensures s[p + (i - k)] == word[i] {
        assert i > k ==> s[p + 1 + (i - (k + 1))] == word[i];
      }
    }
  }

  /** A number that is none fails where its first digit is missing, behind the sign if there is one. */
  lemma NumberFails(s: bytes, p: nat)
    requires p <= |s| && ParseNumber(s, p).Fail?
    ensures var r := ParseNumber(s, p);
            r.code == NumberNotInteger
            || (&& r.code == ValueInvalid && !(0x30 <= Peek(s, r.offset) <= 0x39)
                && r.offset == if Peek(s, p) == 0x2D then p + 1 else p)
  {
    hide Digits;
  }

  lemma LeafOf(s: bytes, p: nat) returns (n: Node)
    requires p <= |s| && Peek(s, p) != LBRACE && Peek(s, p) != LBRACKET && ParseScalar(s, p).Done?
    ensures Proper(n) && IsLeaf(n) && At(s, p, NodeText(n)) && ParseScalar(s, p).next == p + |NodeText(n)|
  {
    hide ParseLiteral, ParseNumber, ParseString, Writer.NumberText, AllLegit, StringText;
    if Peek(s, p) == 0x6E {
      LiteralOf(s, p, NULL, NullEvent);
      n := NullNode;
    } else if Peek(s, p) == 0x74 {
      LiteralOf(s, p, TRUE, BoolEvent(true));
      n := BoolNode(true);
    } else if Peek(s, p) == 0x66 {
      LiteralOf(s, p, FALSE, BoolEvent(false));
      n := BoolNode(false);
    } else if Peek(s, p) == QUOTE {
      var xs := StringOf(s, p);
      n := StringNode(xs);
    } else {
      n := NumberOf(s, p);
    }
  }

  lemma NumberOf(s: bytes, p: nat) returns (n: Node)
    requires p <= |s| && ParseNumber(s, p).Done?
    ensures n.NumberNode? && Proper(n) && At(s, p, NodeText(n)) && ParseNumber(s, p).next == p + |NodeText(n)|
  {
    hide Writer.NumberText;
    Accepted.NumberIsExact(s, p);
    var r := ParseNumber(s, p);
    var i := Accepted.NumberOf(r.value);
    n := NumberNode(i, s[p..r.next] != Writer.NumberText(i));
    assert |s[p..r.next]| == r.next - p;
  }

  lemma OneAt(s: bytes, p: nat, c: byte)
    requires p < |s| && s[p] == c
    ensures At(s, p, [c])
  {
  }

  lemma JoinedAt(s: bytes, p: nat, v: bytes, after: bytes, more: bytes, tail: bytes)
    requires At(s, p, v) && At(s, p + |v|, after) && At(s, p + |v| + |after|, more + tail)
    ensures At(s, p, v + (after + more) + tail)
  {
    hide At;
    AtJoin(s, p + |v|, after, more + tail);
    AtJoin(s, p, v, after + (more + tail));
    Regroup(after, more, tail);
    Regroup(v, after + more, tail);
  }

  lemma SeparatedAt(s: bytes, q: nat, gap: bytes, rest: bytes, tail: bytes)
    requires Peek(s, q) == COMMA && At(s, q + 1, gap) && At(s, q + 1 + |gap|, rest + tail)
    ensures At(s, q, [0x2C] + (gap + rest) + tail)
  {
    assert s[q..q + 1] == [0x2C];
    assert At(s, q, [0x2C]);
    JoinedAt(s, q, [0x2C], gap, rest, tail);
  }

  lemma CloserAt(s: bytes, q: nat, c: byte)
    requires Peek(s, q) == c != NUL
    ensures At(s, q, [] + [c])
  {
    assert s[q..q + 1] == [] + [c];
  }

  lemma TrailedAt(s: bytes, q: nat, gap: bytes, c: byte)
    requires Peek(s, q) == COMMA && At(s, q + 1, gap) && Peek(s, q + 1 + |gap|) == c != NUL
    ensures At(s, q, [0x2C] + gap + [c])
  {
    CloserAt(s, q + 1 + |gap|, c);
    SeparatedAt(s, q, gap, [], [c]);
    assert gap + [] == gap;
  }

  /** Every value that is read is the text of a tree. */
  lemma {:induction false} NodeOf(s: bytes, p: nat, ev: seq<Event>, fl: Flags) returns (n: Node)
    requires p <= |s| && ParseValue(s, p, ev, fl).Good?
    ensures Proper(n) && Trails(n, fl.trailingCommas) && At(s, p, NodeText(n))
    ensures ParseValue(s, p, ev, fl).pos == p + |NodeText(n)|
    decreases |s| - p, 2
  {
    if Peek(s, p) == LBRACE {
      n := ObjectOf(s, p, ev, fl);
    } else if Peek(s, p) == LBRACKET {
      n := ArrayOf(s, p, ev, fl);
    } else {
      hide ParseScalar, NodeText;
      n := LeafOf(s, p);
    }
  }

  lemma {:induction false} ArrayOf(s: bytes, p: nat, ev: seq<Event>, fl: Flags) returns (n: Node)
    requires p < |s| && s[p] == LBRACKET && ParseArray(s, p, ev, fl).Good?
    ensures Proper(n) && Trails(n, fl.trailingCommas) && At(s, p, NodeText(n))
    ensures ParseArray(s, p, ev, fl).pos == p + |NodeText(n)|
    decreases |s| - p, 1
  {
    hide RecursiveDescent.Elements, SkipSpace, ElemsText, ProperElems, ElemsTrail, IsGap, At;
    var gap := GapOf(s, p + 1);
    var q := p + 1 + |gap|;
    OneAt(s, p, 0x5B);
    if Peek(s, q) == RBRACKET {
      n := EmptyArray(gap);
      OneAt(s, q, 0x5D);
      AtJoin(s, p + 1, gap, [0x5D]);
      AtJoin(s, p, [0x5B], gap + [0x5D]);
    } else {
      var elems := ElemsOf(s, q, ev + [StartArrayEvent], 0, fl);
      n := ArrayNode(gap, elems);
      AtJoin(s, p + 1, gap, ElemsText(elems) + [0x5D]);
      AtJoin(s, p, [0x5B], gap + (ElemsText(elems) + [0x5D]));
    }
  }

  /** What follows an element and the white space after it. */
  function MoreElems(es: Elems): bytes
    requires ProperElems(es)
  {
    match es
    case LastElem(_, _, trailing) => TrailingText(trailing)
    case NextElem(_, _, gap, rest) => [0x2C] + (gap + ElemsText(rest))
  }

  lemma {:induction false} ElemsOf(s: bytes, p: nat, ev: seq<Event>, count: nat, fl: Flags) returns (es: Elems)
    requires p <= |s| && RecursiveDescent.Elements(s, p, ev, count, fl).Good?
    ensures ProperElems(es) && ElemsTrail(es, fl.trailingCommas) && At(s, p, ElemsText(es) + [0x5D])
    ensures RecursiveDescent.Elements(s, p, ev, count, fl).pos == p + |ElemsText(es)| + 1
    decreases |s| - p, 3
  {
    hide ParseValue, AfterElement, SkipSpace, NodeText, Proper, Trails, IsGap, At, ElemsText, MoreElems, ProperElems,
      ElemsTrail;
    var r := ParseValue(s, p, ev, fl);
    var v := NodeOf(s, p, ev, fl);
    var after := GapOf(s, r.pos);
    es := AfterElemOf(s, r.pos + |after|, v, after, r.events, count + 1, fl);
    ElemsAre(es);
    JoinedAt(s, p, NodeText(v), after, MoreElems(es), [0x5D]);
  }

  lemma ElemsAre(es: Elems)
    requires ProperElems(es)
    ensures Proper(es.v) && ElemsText(es) == NodeText(es.v) + (es.after + MoreElems(es))
  {
    hide NodeText;
  }

  lemma {:induction false} AfterElemOf(s: bytes, q: nat, v: Node, after: bytes, ev: seq<Event>, count: nat, fl: Flags)
    returns (es: Elems)
    requires q <= |s| && AfterElement(s, q, ev, count, fl).Good?
    requires Proper(v) && Trails(v, fl.trailingCommas) && IsGap(after)
    ensures es.v == v && es.after == after && ProperElems(es) && ElemsTrail(es, fl.trailingCommas)
    ensures At(s, q, MoreElems(es) + [0x5D])
    ensures AfterElement(s, q, ev, count, fl).pos == q + |MoreElems(es)| + 1
    decreases |s| - q, 0
  {
    hide RecursiveDescent.Elements, SkipSpace, Proper, Trails, IsGap, At, ElemsText;
    if Peek(s, q) == RBRACKET {
      es := LastElem(v, after, None);
      CloserAt(s, q, 0x5D);
    } else {
      var gap := GapOf(s, q + 1);
      var next := SkipSpace(s, q + 1);
      if fl.trailingCommas && Peek(s, next) == RBRACKET {
        es := LastElem(v, after, Some(gap));
        TrailedAt(s, q, gap, 0x5D);
      } else {
        var rest := ElemsOf(s, next, ev, count, fl);
        es := NextElem(v, after, gap, rest);
        SeparatedAt(s, q, gap, ElemsText(rest), [0x5D]);
      }
    }
  }

  lemma {:induction false} ObjectOf(s: bytes, p: nat, ev: seq<Event>, fl: Flags) returns (n: Node)
    requires p < |s| && s[p] == LBRACE && ParseObject(s, p, ev, fl).Good?
    ensures Proper(n) && Trails(n, fl.trailingCommas) && At(s, p, NodeText(n))
    ensures ParseObject(s, p, ev, fl).pos == p + |NodeText(n)|
    decreases |s| - p, 1
  {
    hide RecursiveDescent.Members, SkipSpace, PairsText, ProperPairs, PairsTrail, IsGap, At;
    var gap := GapOf(s, p + 1);
    var q := p + 1 + |gap|;
    OneAt(s, p, 0x7B);
    if Peek(s, q) == RBRACE {
      n := EmptyObject(gap);
      OneAt(s, q, 0x7D);
      AtJoin(s, p + 1, gap, [0x7D]);
      AtJoin(s, p, [0x7B], gap + [0x7D]);
    } else {
      var pairs := PairsOf(s, q, ev + [StartObjectEvent], 0, fl);
      n := ObjectNode(gap, pairs);
      AtJoin(s, p + 1, gap, PairsText(pairs) + [0x7D]);
      AtJoin(s, p, [0x7B], gap + (PairsText(pairs) + [0x7D]));
    }
  }

  lemma NameOf(s: bytes, p: nat) returns (name: Name)
    requires p < |s| && s[p] == QUOTE && ParseString(s, p).Done?
    requires Peek(s, SkipSpace(s, ParseString(s, p).next)) == COLON
    ensures ProperName(name) && At(s, p, NameText(name))
    ensures SkipSpace(s, SkipSpace(s, ParseString(s, p).next) + 1) == p + |NameText(name)|
  {
    hide ParseString, SkipSpace, StringText, AllLegit, At, IsGap;
    var xs := StringOf(s, p);
    var q := p + |StringText(xs)|;
    var before := GapOf(s, q);
    var colon := q + |before|;
    var after := GapOf(s, colon + 1);
    name := Name(xs, before, after);
    ColonAt(s, colon, after);
    AtJoin(s, q, before, [0x3A] + after);
    AtJoin(s, p, StringText(xs), before + ([0x3A] + after));
  }

  lemma ColonAt(s: bytes, colon: nat, after: bytes)
    requires Peek(s, colon) == COLON && At(s, colon + 1, after)
    ensures At(s, colon, [0x3A] + after)
  {
    assert s[colon..colon + 1] == [0x3A];
    AtJoin(s, colon, [0x3A], after);
  }

  /** What follows a member's value and the white space after it. */
  function MorePairs(ps: Pairs): bytes
    requires ProperPairs(ps)
  {
    match ps
    case LastPair(_, _, _, trailing) => TrailingText(trailing)
    case NextPair(_, _, _, gap, rest) => [0x2C] + (gap + PairsText(rest))
  }

  lemma {:induction false} PairsOf(s: bytes, p: nat, ev: seq<Event>, count: nat, fl: Flags) returns (ps: Pairs)
    requires p <= |s| && RecursiveDescent.Members(s, p, ev, count, fl).Good?
    ensures ProperPairs(ps) && PairsTrail(ps, fl.trailingCommas) && At(s, p, PairsText(ps) + [0x7D])
    ensures RecursiveDescent.Members(s, p, ev, count, fl).pos == p + |PairsText(ps)| + 1
    decreases |s| - p, 0
  {
    hide ParseValue, ParseString, AfterMember, SkipSpace, NodeText, NameText, Proper, Trails, IsGap, At, PairsText,
      MorePairs, ProperPairs, PairsTrail;
    var name := NameOf(s, p);
    var start := p + |NameText(name)|;
    var named := ev + [KeyEvent(ParseString(s, p).value)];
    var r := ParseValue(s, start, named, fl);
    var v := NodeOf(s, start, named, fl);
    var after := GapOf(s, r.pos);
    ps := AfterPairOf(s, r.pos + |after|, name, v, after, r.events, count + 1, fl);
    PairsAre(ps);
    JoinedAt(s, start, NodeText(v), after, MorePairs(ps), [0x7D]);
    NamedAt(s, p, NameText(name), NodeText(v) + (after + MorePairs(ps)), [0x7D]);
  }

  lemma PairsAre(ps: Pairs)
    requires ProperPairs(ps)
    ensures Proper(ps.v) && AllLegit(ps.name.xs)
    ensures PairsText(ps) == NameText(ps.name) + (NodeText(ps.v) + (ps.after + MorePairs(ps)))
  {
    hide NodeText, NameText;
  }

  lemma {:induction false} AfterPairOf(s: bytes, q: nat, name: Name, v: Node, after: bytes, ev: seq<Event>, count: nat,
                                       fl: Flags)
    returns (ps: Pairs)
    requires q <= |s| && AfterMember(s, q, ev, count, fl).Good?
    requires ProperName(name) && Proper(v) && Trails(v, fl.trailingCommas) && IsGap(after)
    ensures ps.name == name && ps.v == v && ps.after == after
    ensures ProperPairs(ps) && PairsTrail(ps, fl.trailingCommas)
    ensures At(s, q, MorePairs(ps) + [0x7D])
    ensures AfterMember(s, q, ev, count, fl).pos == q + |MorePairs(ps)| + 1
    decreases |s| - q, 0
  {
    hide RecursiveDescent.Members, SkipSpace, Proper, ProperName, Trails, IsGap, At, PairsText;
    if Peek(s, q) == RBRACE {
      ps := LastPair(name, v, after, None);
      CloserAt(s, q, 0x7D);
    } else {
      var gap := GapOf(s, q + 1);
      var next := SkipSpace(s, q + 1);
      if fl.trailingCommas && Peek(s, next) == RBRACE {
        ps := LastPair(name, v, after, Some(gap));
        TrailedAt(s, q, gap, 0x7D);
      } else {
        var rest := PairsOf(s, next, ev, count, fl);
        ps := NextPair(name, v, after, gap, rest);
        SeparatedAt(s, q, gap, PairsText(rest), [0x7D]);
      }
    }
  }

  lemma NamedAt(s: bytes, p: nat, name: bytes, rest: bytes, tail: bytes)
    requires At(s, p, name) && At(s, p + |name|, rest + tail)
    ensures At(s, p, name + rest + tail)
  {
    hide At;
    AtJoin(s, p, name, rest + tail);
    Regroup(name, rest, tail);
  }

  // ---------- the document of a tree ----------

  /** The events of a tree put the value it denotes on the stack. */
  lemma {:induction false} NodeBuilds(ev: seq<Event>, base: seq<Value>, n: Node)
    requires Proper(n) && Build(ev) == Some(base)
    ensures Build(ev + NodeEvents(n)) == Some(base + [NodeValue(n)])
    decreases n, 0
  {
    hide Build;
    match n {
      case EmptyArray(_) => EmptyArrayBuilds(ev, base);
      case ArrayNode(_, elems) => ArrayBuilds(ev, base, elems);
      case EmptyObject(_) => EmptyObjectBuilds(ev, base);
      case ObjectNode(_, pairs) => ObjectBuilds(ev, base, pairs);
      case _ => LeafBuilds(ev, base, n);
    }
  }

  lemma LeafBuilds(ev: seq<Event>, base: seq<Value>, n: Node)
    requires Proper(n) && IsLeaf(n) && Build(ev) == Some(base)
    ensures Build(ev + NodeEvents(n)) == Some(base + [NodeValue(n)])
  {
    hide Build, SpelledBytes, AllLegit;
    BuildAppend(ev, NodeEvents(n)[0]);
  }

  lemma EmptyArrayBuilds(ev: seq<Event>, base: seq<Value>)
    requires Build(ev) == Some(base)
    ensures Build(ev + [StartArrayEvent, EndArrayEvent(0)]) == Some(base + [Array([])])
  {
    hide Build;
    BuildAppend(ev, StartArrayEvent);
    assert base + [Array([])] + [] == base + [Array([])];
    PopElements(base, [], ev + [StartArrayEvent]);
    assert ev + [StartArrayEvent] + [EndArrayEvent(0)] == ev + [StartArrayEvent, EndArrayEvent(0)];
  }

  lemma EmptyObjectBuilds(ev: seq<Event>, base: seq<Value>)
    requires Build(ev) == Some(base)
    ensures Build(ev + [StartObjectEvent, EndObjectEvent(0)]) == Some(base + [Object([])])
  {
    hide Build;
    BuildAppend(ev, StartObjectEvent);
    assert base + [Object([])] + Flatten([]) == base + [Object([])];
    PopMembers(base, [], ev + [StartObjectEvent]);
    assert ev + [StartObjectEvent] + [EndObjectEvent(0)] == ev + [StartObjectEvent, EndObjectEvent(0)];
  }

  lemma {:induction false} ArrayBuilds(ev: seq<Event>, base: seq<Value>, elems: Elems)
    requires ProperElems(elems) && Build(ev) == Some(base)
    ensures Build(ev + ([StartArrayEvent] + ElemsEvents(elems) + [EndArrayEvent(|ElemsValues(elems)|)]))
            == Some(base + [Array(ElemsValues(elems))])
    decreases elems, 1
  {
    hide Build, ElemsEvents, ElemsValues;
    BuildAppend(ev, StartArrayEvent);
    assert base + [Array([])] + [] == base + [Array([])];
    ElemsBuild(ev + [StartArrayEvent], base + [Array([])], [], elems);
    assert [] + ElemsValues(elems) == ElemsValues(elems);
    PopElements(base, ElemsValues(elems), ev + [StartArrayEvent] + ElemsEvents(elems));
    RoundTrip.Bracketed(ev, [StartArrayEvent], ElemsEvents(elems), [EndArrayEvent(|ElemsValues(elems)|)]);
  }

  lemma {:induction false} ElemsBuild(ev: seq<Event>, base: seq<Value>, done: seq<Value>, es: Elems)
    requires ProperElems(es) && Build(ev) == Some(base + done)
    ensures Build(ev + ElemsEvents(es)) == Some(base + (done + ElemsValues(es)))
    decreases es, 0
  {
    hide Build, NodeEvents, NodeValue;
    NodeBuilds(ev, base + done, es.v);
    Regroup(base, done, [NodeValue(es.v)]);
    if es.NextElem? {
      ElemsBuild(ev + NodeEvents(es.v), base, done + [NodeValue(es.v)], es.rest);
      Regroup(done, [NodeValue(es.v)], ElemsValues(es.rest));
      Regroup(ev, NodeEvents(es.v), ElemsEvents(es.rest));
    }
  }

  lemma {:induction false} ObjectBuilds(ev: seq<Event>, base: seq<Value>, pairs: Pairs)
    requires ProperPairs(pairs) && Build(ev) == Some(base)
    ensures Build(ev + ([StartObjectEvent] + PairsEvents(pairs) + [EndObjectEvent(|PairsMembers(pairs)|)]))
            == Some(base + [Object(PairsMembers(pairs))])
    decreases pairs, 1
  {
    hide Build, PairsEvents, PairsMembers;
    BuildAppend(ev, StartObjectEvent);
    assert base + [Object([])] + Flatten([]) == base + [Object([])];
    PairsBuild(ev + [StartObjectEvent], base + [Object([])], [], pairs);
    assert [] + PairsMembers(pairs) == PairsMembers(pairs);
    PopMembers(base, PairsMembers(pairs), ev + [StartObjectEvent] + PairsEvents(pairs));
    RoundTrip.Bracketed(ev, [StartObjectEvent], PairsEvents(pairs), [EndObjectEvent(|PairsMembers(pairs)|)]);
  }

  lemma {:induction false} PairsBuild(ev: seq<Event>, base: seq<Value>, done: seq<Member>, ps: Pairs)
    requires ProperPairs(ps) && Build(ev) == Some(base + Flatten(done))
    ensures Build(ev + PairsEvents(ps)) == Some(base + Flatten(done + PairsMembers(ps)))
    decreases ps, 0
  {
    hide Build, NodeEvents, NodeValue, Flatten;
    var m := Member(SpelledBytes(ps.name.xs), NodeValue(ps.v));
    var named := ev + [KeyEvent(m.name)];
    BuildAppend(ev, KeyEvent(m.name));
    NodeBuilds(named, base + Flatten(done) + [String(m.name)], ps.v);
    FlattenSnoc(done, m);
    assert base + Flatten(done) + [String(m.name)] + [m.value] == base + Flatten(done + [m]);
    PairsUnfold(ps, ev);
    if ps.NextPair? {
      PairsBuild(named + NodeEvents(ps.v), base, done + [m], ps.rest);
      Regroup(done, [m], PairsMembers(ps.rest));
    }
  }

  // ---------- whole texts ----------

  /** White space, the text of a tree, white space. */
  function DocumentText(lead: bytes, n: Node, trail: bytes): bytes
    requires Proper(n)
  {
    lead + (NodeText(n) + trail)
  }

  /** The text of a tree for the value, between white space. */
  ghost predicate Denotes(s: bytes, v: Value) {
    exists lead, n, trail ::
      && Proper(n) && Trails(n, false) && IsGap(lead) && IsGap(trail)
      && s == DocumentText(lead, n, trail) && NodeValue(n) == v
  }

  /** Reading a whole text sends the events of its tree. */
  lemma DocumentRead(lead: bytes, n: Node, trail: bytes, fl: Flags)
    requires Proper(n) && Trails(n, fl.trailingCommas) && IsGap(lead) && IsGap(trail) && !fl.stopWhenDone
    ensures var s := DocumentText(lead, n, trail);
            RecursiveDescent.Parse(s, fl) == Run.Good(NodeEvents(n), |s|)
  {
    hide NodeText, NodeEvents, ParseValue, SkipSpace, Proper, Trails;
    var s := DocumentText(lead, n, trail);
    DocumentParts(lead, n, trail);
    NodeStarts(n);
    AtPeek(s, |lead|, NodeText(n), 0);
    SkipGap(s, 0, lead);
    AfterValue(s, |lead| + |NodeText(n)|, trail, NUL);
    NodeRead(s, |lead|, n, [], fl);
    assert [] + NodeEvents(n) == NodeEvents(n);
  }

  lemma DocumentParts(lead: bytes, n: Node, trail: bytes)
    requires Proper(n)
    ensures var s := DocumentText(lead, n, trail);
            At(s, 0, lead) && At(s, |lead|, NodeText(n)) && At(s, |lead| + |NodeText(n)|, trail)
            && |s| == |lead| + |NodeText(n)| + |trail|
  {
    hide NodeText;
    var s := DocumentText(lead, n, trail);
    assert s[..|s|] == s;
    AtConcat(s, 0, lead, NodeText(n) + trail);
    AtConcat(s, |lead|, NodeText(n), trail);
  }

  lemma NulEnds(s: bytes, p: nat)
    requires NUL !in s
    ensures p < |s| ==> Peek(s, p) != NUL
  {
    if p < |s| {
      assert s[p] in s;
    }
  }

  /** A text that is read to its end is the text of a tree. */
  lemma DocumentOf(s: bytes, fl: Flags) returns (lead: bytes, n: Node, trail: bytes)
    requires NUL !in s && RecursiveDescent.Parse(s, fl).Good? && !fl.stopWhenDone
    ensures Proper(n) && Trails(n, fl.trailingCommas) && IsGap(lead) && IsGap(trail)
    ensures s == DocumentText(lead, n, trail)
  {
    hide NodeText, ParseValue, SkipSpace, Proper, Trails;
    lead := GapOf(s, 0);
    n := NodeOf(s, |lead|, [], fl);
    var end := |lead| + |NodeText(n)|;
    trail := GapOf(s, end);
    NulEnds(s, end + |trail|);
    AtJoin(s, |lead|, NodeText(n), trail);
    AtJoin(s, 0, lead, NodeText(n) + trail);
    assert s[0..|s|] == s;
  }

  /**
   Main result: the reader takes a text, without or with the flag for trailing commas, exactly if it is
   the text of a tree between white space.
   */
  lemma AcceptedTextsAreTrees(s: bytes, fl: Flags)
    requires NUL !in s && !fl.stopWhenDone
    ensures RecursiveDescent.Parse(s, fl).Good?
            <==> exists lead, n, trail ::
                   && Proper(n) && Trails(n, fl.trailingCommas) && IsGap(lead) && IsGap(trail)
                   && s == DocumentText(lead, n, trail)
  {
    hide Proper, Trails, IsGap, DocumentText, RecursiveDescent.Parse;
    if RecursiveDescent.Parse(s, fl).Good? {
      var lead, n, trail := DocumentOf(s, fl);
    }
    forall lead, n, trail |
      && Proper(n) && Trails(n, fl.trailingCommas) && IsGap(lead) && IsGap(trail)
      && s == DocumentText(lead, n, trail)
      ensures RecursiveDescent.Parse(s, fl).Good?
    {
      DocumentRead(lead, n, trail, fl);
    }
  }

  /** Main result: a text has a document exactly if it is the text of a tree, and it is the value the tree denotes. */
  lemma DocumentsAreDenoted(s: bytes, v: Value)
    requires NUL !in s
    ensures Minify.Dom(s) == Some(v) <==> Denotes(s, v)
  {
    hide Proper, Trails, IsGap, DocumentText, RecursiveDescent.Parse, NodeValue;
    if Minify.Dom(s).Some? {
      var lead, n, trail := DocumentOf(s, Minify.DEFAULT_FLAGS);
      TreeDom(lead, n, trail);
    }
    forall lead, n, trail |
      && Proper(n) && Trails(n, false) && IsGap(lead) && IsGap(trail)
      && s == DocumentText(lead, n, trail) && NodeValue(n) == v
      ensures Minify.Dom(s) == Some(v)
    {
      TreeDom(lead, n, trail);
    }
  }

  lemma EmptyBuilds()
    ensures Build([]) == Some([])
  {
  }

  lemma TreeDom(lead: bytes, n: Node, trail: bytes)
    requires Proper(n) && Trails(n, false) && IsGap(lead) && IsGap(trail)
    ensures Minify.Dom(DocumentText(lead, n, trail)) == Some(NodeValue(n))
  {
    hide DocumentText, NodeEvents, NodeValue, RecursiveDescent.Parse, Build, Proper, Trails, IsGap;
    DocumentRead(lead, n, trail, Minify.DEFAULT_FLAGS);
    EmptyBuilds();
    NodeBuilds([], [], n);
    assert [] + NodeEvents(n) == NodeEvents(n) && [] + [NodeValue(n)] == [NodeValue(n)];
  }

  // ---------- minifying, in these terms ----------

  /** Printable: no control characters, so no line ends and no NUL. */
  predicate Printable(t: bytes) {
    forall i :: 0 <= i < |t| ==> t[i] >= 0x20
  }

  lemma PrintableConcat(a: bytes, b: bytes)
    requires Printable(a) && Printable(b)
    ensures Printable(a + b)
  {
  }

  lemma {:induction false} EscapedPrintable(str: bytes)
    ensures Printable(Writer.EscapedAll(str)) && Printable(Writer.Quoted(str))
    decreases |str|
  {
    if str != [] {
      EscapedPrintable(str[1..]);
      PrintableConcat(Writer.Escaped(str[0]), Writer.EscapedAll(str[1..]));
    }
    PrintableConcat([QUOTE], Writer.EscapedAll(str));
    PrintableConcat([QUOTE] + Writer.EscapedAll(str), [QUOTE]);
  }

  lemma NumberPrintable(n: int)
    ensures Printable(Writer.NumberText(n))
  {
    hide Writer.Decimal;
    var t := Writer.NumberText(n);
    forall i | 0 <= i < |t| ensures t[i] >= 0x20 {
      if n < 0 {
        assert i > 0 ==> t[i] == Writer.Decimal(-n)[i - 1] && Writer.Decimal(-n)[i - 1] in Writer.Decimal(-n);
      } else {
        assert t[i] in Writer.Decimal(n);
      }
    }
  }

  /** What the writer writes is printable. */
  lemma {:induction false} TextPrintable(v: Value)
    ensures Printable(Writer.Text(v))
    decreases v, 0
  {
    hide Writer.Quoted, Writer.NumberText, Writer.ElementsText, Writer.MembersText;
    match v {
      case Number(n) => NumberPrintable(n);
      case String(str) => EscapedPrintable(str);
      case Array(elems) =>
        ElementsPrintable(elems, true);
        PrintableConcat([LBRACKET], Writer.ElementsText(elems, true));
        PrintableConcat([LBRACKET] + Writer.ElementsText(elems, true), [RBRACKET]);
      case Object(members) =>
        MembersPrintable(members, true);
        PrintableConcat([LBRACE], Writer.MembersText(members, true));
        PrintableConcat([LBRACE] + Writer.MembersText(members, true), [RBRACE]);
      case _ =>
    }
  }

  lemma {:induction false} ElementsPrintable(elems: seq<Value>, first: bool)
    ensures Printable(Writer.ElementsText(elems, first))
    decreases elems, 1
  {
    hide Writer.Text, Printable;
    if elems == [] {
      NothingPrintable();
    } else {
      TextPrintable(elems[0]);
      ElementsPrintable(elems[1..], false);
      PrintableSeparator(first);
      PrintableConcat(Writer.Separator(first), Writer.Text(elems[0]));
      PrintableConcat(Writer.Separator(first) + Writer.Text(elems[0]), Writer.ElementsText(elems[1..], false));
    }
  }

  lemma NothingPrintable()
    ensures Printable([])
  {
  }

  lemma PrintableSeparator(first: bool)
    ensures Printable(Writer.Separator(first)) && Printable([COLON])
  {
  }

  lemma {:induction false} MembersPrintable(members: seq<Member>, first: bool)
    ensures Printable(Writer.MembersText(members, first))
    decreases members, 1
  {
    hide Writer.Text, Writer.Quoted, Printable;
    if members == [] {
      NothingPrintable();
    } else {
      var name, value := Writer.Quoted(members[0].name), Writer.Text(members[0].value);
      EscapedPrintable(members[0].name);
      TextPrintable(members[0].value);
      MembersPrintable(members[1..], false);
      PrintableSeparator(first);
      PrintableConcat(Writer.Separator(first), name);
      PrintableConcat(Writer.Separator(first) + name, [COLON]);
      PrintableConcat(Writer.Separator(first) + name + [COLON], value);
      PrintableConcat(Writer.Separator(first) + name + [COLON] + value, Writer.MembersText(members[1..], false));
    }
  }

  /**
   Main result: exactly the texts of trees can be minified, and what comes out is printable and the text
   of a tree for the same value.
   */
  lemma MinifyingKeepsMeaning(s: bytes)
    requires NUL !in s
    ensures Minify.Minified(s).Some? <==> exists v :: Denotes(s, v)
    ensures forall v :: Denotes(s, v) ==> Minify.Minified(s).Some? && Denotes(Minify.Minified(s).value, v)
    ensures Minify.Minified(s).Some? ==> Printable(Minify.Minified(s).value)
  {
    hide Minify.Dom, Writer.Text, Denotes;
    forall v ensures Minify.Dom(s) == Some(v) <==> Denotes(s, v) {
      DocumentsAreDenoted(s, v);
    }
    if Minify.Minified(s).Some? {
      var t := Minify.Minified(s).value;
      Minify.MinifyPreserves(s);
      TextPrintable(Minify.Dom(s).value);
      DocumentsAreDenoted(t, Minify.Dom(s).value);
      assert Denotes(s, Minify.Dom(s).value);
    }
  }
}
