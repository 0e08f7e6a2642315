/**
 What the writer writes, the reader reads back: string escapes, integers, and whole
 values in any context.
 */
module RoundTrip {
  import opened Bytes
  import opened Json
  import opened Scalars
  import opened RecursiveDescent
  import opened Writer
  import opened Document
  import Utf8

  // ---------- strings ----------

  /** One escaped byte is read back as that byte, whatever follows. */
  lemma EscapedByteReadBack(s: bytes, p: nat, c: byte, acc: bytes)
    requires At(s, p, Escaped(c))
    ensures StringBody(s, p, acc) == StringBody(s, p + |Escaped(c)|, acc + [c])
  {
    var t := Escaped(c);
    AtPeek(s, p, t, 0);
    if EscapeLetter(c) == LOWER_U {
      AtPeek(s, p, t, 1);
      AtPeek(s, p, t, 2);
      AtPeek(s, p, t, 3);
      AtPeek(s, p, t, 4);
      AtPeek(s, p, t, 5);
      ControlEscapeReadBack(s, p, c);
    } else if EscapeLetter(c) != 0 {
      AtPeek(s, p, t, 1);
    }
  }

  lemma ControlEscapeReadBack(s: bytes, p: nat, c: byte)
    requires c < 0x20 && p + 6 <= |s|
    requires Peek(s, p + 2) == ZERO && Peek(s, p + 3) == ZERO
    requires Peek(s, p + 4) == HexDigit(c / 16) && Peek(s, p + 5) == HexDigit(c % 16)
    ensures ParseUnicodeEscape(s, p) == Done(c, p + 6)
    ensures Utf8.Encode(c) == [c]
  {
    assert HexDigits(s, p + 2, 4, 0, p) == HexDigits(s, p + 3, 3, 0, p) == HexDigits(s, p + 4, 2, 0, p);
    assert HexDigits(s, p + 4, 2, 0, p) == HexDigits(s, p + 5, 1, c / 16, p);
    assert HexDigits(s, p + 5, 1, c / 16, p) == HexDigits(s, p + 6, 0, c, p);
  }

  lemma ClosingQuoteReadBack(s: bytes, p: nat, acc: bytes)
    requires p < |s| && s[p] == QUOTE
    ensures StringBody(s, p, acc) == Done(acc, p + 1)
  {
  }

  lemma {:induction false} StringReadBack(s: bytes, p: nat, str: bytes, acc: bytes)
    requires At(s, p, EscapedAll(str) + [QUOTE])
    ensures StringBody(s, p, acc) == Done(acc + str, p + |EscapedAll(str)| + 1)
    decreases |str|
  {
    hide Escaped, StringBody;
    if str == [] {
      AtPeek(s, p, [QUOTE], 0);
      ClosingQuoteReadBack(s, p, acc);
      assert acc + str == acc;
    } else {
      var head, tail := Escaped(str[0]), EscapedAll(str[1..]) + [QUOTE];
      assert EscapedAll(str) + [QUOTE] == head + tail;
      AtConcat(s, p, head, tail);
      EscapedByteReadBack(s, p, str[0], acc);
      StringReadBack(s, p + |head|, str[1..], acc + [str[0]]);
      assert acc + [str[0]] + str[1..] == acc + str;
    }
  }

  lemma QuotedReadBack(s: bytes, p: nat, str: bytes)
    requires At(s, p, Quoted(str))
    ensures p < |s| && Peek(s, p) == QUOTE
    ensures ParseString(s, p) == Done(str, p + |Quoted(str)|)
  {
    assert Quoted(str) == [QUOTE] + (EscapedAll(str) + [QUOTE]);
    AtPeek(s, p, Quoted(str), 0);
    AtConcat(s, p, [QUOTE], EscapedAll(str) + [QUOTE]);
    StringReadBack(s, p + 1, str, []);
    assert [] + str == str;
  }

  // ---------- numbers ----------

  /** One more digit, in the loop the new magnitude calls for. */
  lemma DigitReadBack(s: bytes, q: nat, minus: bool, m: nat, d: int)
    requires q < |s| && 0 <= d < 10 && s[q] == 0x30 + d && 10 * m + d <= Limit(minus, true)
    ensures Digits(s, q, minus, m > Limit(minus, false), m)
            == Digits(s, q + 1, minus, 10 * m + d > Limit(minus, false), 10 * m + d)
  {
    hide Overflows;
    OverflowIsExact(minus, false, m, s[q]);
    OverflowIsExact(minus, true, m, s[q]);
  }

  lemma LimitHasTwoDigits(minus: bool)
    ensures 10 <= Limit(minus, false) <= Limit(minus, true)
  {
  }

  lemma DecimalUnfold(n: nat)
    ensures n < 10 ==> Decimal(n) == [0x30 + n]
    ensures n >= 10 ==> Decimal(n) == Decimal(n / 10) + [0x30 + n % 10] && 0 < n / 10 < n
    ensures n % 10 < 10 && 10 * (n / 10) + n % 10 == n
  {
  }

  /** Scanning the decimal digits of `n` one by one leaves exactly `n`, in the loop its size calls for. */
  lemma {:induction false} DigitsReadBack(s: bytes, p: nat, minus: bool, n: nat)
    requires 0 < n <= Limit(minus, true)
    requires At(s, p, Decimal(n))
    ensures IsDigit(s[p]) && s[p] != ZERO
    ensures Digits(s, p + 1, minus, false, s[p] - 0x30)
            == Digits(s, p + |Decimal(n)|, minus, n > Limit(minus, false), n)
    decreases n
  {
    hide Digits, Decimal, Limit;
    DecimalUnfold(n);
    if n < 10 {
      LimitHasTwoDigits(minus);
      AtPeek(s, p, Decimal(n), 0);
    } else {
      var init, last := Decimal(n / 10), [0x30 + n % 10];
      AtConcat(s, p, init, last);
      DigitsReadBack(s, p, minus, n / 10);
      AtPeek(s, p + |init|, last, 0);
      DigitReadBack(s, p + |init|, minus, n / 10, n % 10);
    }
  }

  /** A character that ends a number: not a digit, a dot or an exponent. */
  predicate Terminated(s: bytes, p: nat) {
    !IsDigit(Peek(s, p)) && !ContinuesAsDouble(Peek(s, p))
  }

  /** The event the reader emits for a number in canonical notation. */
  function NumberRead(n: int): Event {
    if n >= 0 then (if n <= Limit(false, false) then UintEvent(n) else Uint64Event(n))
    else (if -n <= Limit(true, false) then IntEvent(n) else Int64Event(n))
  }

  lemma DigitsEnd(s: bytes, p: nat, minus: bool, wide: bool, i: nat)
    requires p <= |s| && !IsDigit(Peek(s, p))
    ensures Digits(s, p, minus, wide, i) == if wide then Large(i, p) else Small(i, p)
  {
  }

  lemma MagnitudeReadBack(s: bytes, p: nat, minus: bool, n: nat)
    requires n <= Limit(minus, true) && At(s, p, Decimal(n)) && Terminated(s, p + |Decimal(n)|)
    ensures var end := p + |Decimal(n)|;
            ParseMagnitude(s, p, minus) == Done(if n > Limit(minus, false) then Large(n, end) else Small(n, end), end)
  {
    hide Digits, Decimal, Limit;
    if n == 0 {
      LimitHasTwoDigits(minus);
      DecimalUnfold(0);
      AtPeek(s, p, Decimal(0), 0);
    } else {
      DigitsReadBack(s, p, minus, n);
      DigitsEnd(s, p + |Decimal(n)|, minus, n > Limit(minus, false), n);
    }
  }

  lemma NumberReadBack(s: bytes, p: nat, n: int)
    requires InRange(n) && At(s, p, NumberText(n)) && Terminated(s, p + |NumberText(n)|)
    ensures ParseNumber(s, p) == Done(NumberRead(n), p + |NumberText(n)|)
    ensures IsDigit(Peek(s, p)) || Peek(s, p) == MINUS
  {
    hide Decimal, ParseMagnitude, NumberEvent, NumberRead;
    AtPeek(s, p, NumberText(n), 0);
    if n < 0 {
      AtConcat(s, p, [MINUS], Decimal(-n));
      EventOfMagnitude(n, p + |NumberText(n)|);
      MagnitudeReadBack(s, p + 1, true, -n);
    } else {
      assert Decimal(n)[0] in Decimal(n);
      EventOfMagnitude(n, p + |NumberText(n)|);
      MagnitudeReadBack(s, p, false, n);
    }
  }

  lemma EventOfMagnitude(n: int, end: nat)
    requires InRange(n)
    ensures var m: nat := if n < 0 then -n else n;
            NumberEvent(n < 0, if m > Limit(n < 0, false) then Large(m, end) else Small(m, end)) == NumberRead(n)
  {
  }

  // ---------- values ----------

  /** The events the reader emits for the text of `v`. */
  function Read(v: Value): seq<Event>
    decreases v, 0
  {
    match v
    case Null => [NullEvent]
    case Bool(b) => [BoolEvent(b)]
    case Number(n) => [NumberRead(n)]
    case String(str) => [StringEvent(str)]
    case Array(elems) => [StartArrayEvent] + ReadElements(elems) + [EndArrayEvent(|elems|)]
    case Object(members) => [StartObjectEvent] + ReadMembers(members) + [EndObjectEvent(|members|)]
  }

  function ReadElements(elems: seq<Value>): seq<Event>
    decreases elems, 1
  {
    if elems == [] then [] else Read(elems[0]) + ReadElements(elems[1..])
  }

  function ReadMembers(members: seq<Member>): seq<Event>
    decreases members, 1
  {
    if members == [] then []
    else [KeyEvent(members[0].name)] + Read(members[0].value) + ReadMembers(members[1..])
  }

  /** The first byte of a value's text starts a value: it is no white space, bracket end or separator. */
  lemma TextStart(v: Value)
    ensures Text(v) != []
    ensures var c := Text(v)[0]; !IsSpace(c) && c != NUL && c != RBRACKET && c != RBRACE && c != COMMA && c != COLON
  {
    match v
    case Number(n) =>
      assert n >= 0 ==> Decimal(n)[0] in Decimal(n);
    case _ =>
  }

  lemma NoSpace(s: bytes, p: nat)
    requires p <= |s| && !IsSpace(Peek(s, p))
    ensures SkipSpace(s, p) == p
  {
  }

  lemma TextStartsAt(s: bytes, p: nat, v: Value, rest: bytes)
    requires At(s, p, Text(v) + rest)
    ensures var c := Peek(s, p); c != NUL && c != RBRACKET && c != RBRACE && c != COMMA && c != COLON
    ensures SkipSpace(s, p) == p
  {
    TextStart(v);
    AtConcat(s, p, Text(v), rest);
    AtPeek(s, p, Text(v), 0);
    NoSpace(s, p);
  }

  lemma LiteralReadBack(s: bytes, p: nat, word: bytes, e: Event)
    requires At(s, p, word) && |word| > 1
    ensures ParseLiteral(s, p, word, e) == Done(e, p + |word|)
  {
    MatchedAll(s, p, word, 1);
  }

  lemma {:induction false} MatchedAll(s: bytes, p: nat, word: bytes, k: nat)
    requires At(s, p, word) && k <= |word|
    ensures Matched(s, p + k, word, k) == p + |word|
    decreases |word| - k
  {
    if k < |word| {
      AtPeek(s, p, word, k);
      MatchedAll(s, p, word, k + 1);
    }
  }

  lemma ScalarReadBack(s: bytes, p: nat, v: Value)
    requires !v.Array? && !v.Object? && Representable(v)
    requires At(s, p, Text(v)) && Terminated(s, p + |Text(v)|)
    ensures Peek(s, p) != LBRACE && Peek(s, p) != LBRACKET
    ensures Read(v) == [Read(v)[0]]
    ensures ParseScalar(s, p) == Done(Read(v)[0], p + |Text(v)|)
  {
    TextStart(v);
    AtPeek(s, p, Text(v), 0);
    match v
    case Null => LiteralReadBack(s, p, NULL, NullEvent);
    case Bool(b) => LiteralReadBack(s, p, if b then TRUE else FALSE, BoolEvent(b));
    case Number(n) => NumberReadBack(s, p, n);
    case String(str) => QuotedReadBack(s, p, str);
  }

  /** Reading the text of a value, standing anywhere in a text, consumes it exactly. */
  lemma {:induction false} ValueReadBack(s: bytes, p: nat, v: Value, ev: seq<Event>, fl: Flags)
    requires Representable(v)
    requires At(s, p, Text(v)) && Terminated(s, p + |Text(v)|)
    ensures ParseValue(s, p, ev, fl) == Good(ev + Read(v), p + |Text(v)|)
    decreases v, 0
  {
    match v
    case Array(elems) =>
      ArrayReadBack(s, p, elems, ev, fl);
    case Object(members) =>
      ObjectReadBack(s, p, members, ev, fl);
    case _ =>
      hide ParseScalar, Text;
      ScalarReadBack(s, p, v);
  }

  lemma {:induction false} ArrayReadBack(s: bytes, p: nat, elems: seq<Value>, ev: seq<Event>, fl: Flags)
    requires forall e <- elems :: Representable(e)
    requires At(s, p, Text(Array(elems)))
    ensures Peek(s, p) == LBRACKET
    ensures ParseArray(s, p, ev, fl) == Good(ev + Read(Array(elems)), p + |Text(Array(elems))|)
    decreases elems, 2
  {
    hide Text, Read, ElementsText, ReadElements, Elements;
    var body := ElementsText(elems, true) + [RBRACKET];
    ArrayText(elems);
    ReadArray(elems);
    assert Text(Array(elems)) == [LBRACKET] + body;
    AtConcat(s, p, [LBRACKET], body);
    AtPeek(s, p, [LBRACKET], 0);
    if elems == [] {
      EmptyTexts();
      AtPeek(s, p + 1, body, 0);
      NoSpace(s, p + 1);
      EmptyReads();
      assert ev + ([StartArrayEvent] + [] + [EndArrayEvent(0)]) == ev + [StartArrayEvent] + [EndArrayEvent(0)];
    } else {
      ElementsUnfold(elems, true);
      assert body == Text(elems[0]) + (ElementsText(elems[1..], false) + [RBRACKET]);
      TextStartsAt(s, p + 1, elems[0], ElementsText(elems[1..], false) + [RBRACKET]);
      ElementsReadBack(s, p + 1, elems, 0, ev + [StartArrayEvent], fl);
      Bracketed(ev, [StartArrayEvent], ReadElements(elems), [EndArrayEvent(|elems|)]);
    }
  }

  lemma {:induction false} ElementsReadBack(s: bytes, p: nat, elems: seq<Value>, count: nat, ev: seq<Event>, fl: Flags)
    requires elems != [] && forall e <- elems :: Representable(e)
    requires At(s, p, ElementsText(elems, true) + [RBRACKET])
    ensures Elements(s, p, ev, count, fl)
            == Good(ev + ReadElements(elems) + [EndArrayEvent(count + |elems|)], p + |ElementsText(elems, true)| + 1)
    decreases elems, 1
  {
    hide Text, Read, ElementsText, ReadElements, Elements, AfterElement;
    var q := p + |Text(elems[0])|;
    FirstElementAt(s, p, elems);
    ElementSeparatorAt(s, q, elems[1..]);
    ElementReadBack(s, p, elems, count, ev, fl);
    ReadElementsUnfold(elems, ev);
    if |elems| == 1 {
      ElementsEmpty(elems[1..]);
      LastElement(s, q, ev + Read(elems[0]), count + 1, fl);
      Append0(ev + Read(elems[0]));
    } else {
      NextElement(s, q, elems[1..], ev + Read(elems[0]), count + 1, fl);
      ElementsReadBack(s, q + 1, elems[1..], count + 1, ev + Read(elems[0]), fl);
    }
  }

  lemma FirstElementAt(s: bytes, p: nat, elems: seq<Value>)
    requires elems != [] && At(s, p, ElementsText(elems, true) + [RBRACKET])
    ensures var rest := ElementsText(elems[1..], false);
            && At(s, p, Text(elems[0])) && At(s, p + |Text(elems[0])|, rest + [RBRACKET])
            && |ElementsText(elems, true)| == |Text(elems[0])| + |rest|
  {
    hide Text, ElementsText;
    var rest := ElementsText(elems[1..], false) + [RBRACKET];
    ElementsUnfold(elems, true);
    assert ElementsText(elems, true) + [RBRACKET] == Text(elems[0]) + rest;
    AtConcat(s, p, Text(elems[0]), rest);
  }

  /** The first element alone. */
  lemma {:induction false} ElementReadBack(s: bytes, p: nat, elems: seq<Value>, count: nat, ev: seq<Event>, fl: Flags)
    requires elems != [] && Representable(elems[0])
    requires At(s, p, ElementsText(elems, true) + [RBRACKET])
    ensures var q := p + |Text(elems[0])|;
            q < |s| && Elements(s, p, ev, count, fl) == AfterElement(s, q, ev + Read(elems[0]), count + 1, fl)
    decreases elems, 0
  {
    hide Text, Read, ElementsText, ReadElements, ParseValue, AfterElement;
    FirstElementAt(s, p, elems);
    ElementSeparatorAt(s, p + |Text(elems[0])|, elems[1..]);
    ValueReadBack(s, p, elems[0], ev, fl);
  }

  /** After an element there is a comma or a bracket, so a number there is complete. */
  lemma ElementSeparatorAt(s: bytes, q: nat, rest: seq<Value>)
    requires At(s, q, ElementsText(rest, false) + [RBRACKET])
    ensures Terminated(s, q) && SkipSpace(s, q) == q && q < |s|
    ensures rest == [] ==> Peek(s, q) == RBRACKET
    ensures rest != [] ==> Peek(s, q) == COMMA && At(s, q + 1, ElementsText(rest, true) + [RBRACKET])
                           && |ElementsText(rest, false)| == |ElementsText(rest, true)| + 1
  {
    hide Text, Read, ElementsText, ReadElements;
    var t := ElementsText(rest, false) + [RBRACKET];
    if rest == [] {
      ElementsEmpty(rest);
    } else {
      ElementsUnfold(rest, false);
      ElementsUnfold(rest, true);
      assert t == [COMMA] + (ElementsText(rest, true) + [RBRACKET]);
      AtConcat(s, q, [COMMA], ElementsText(rest, true) + [RBRACKET]);
    }
    AtPeek(s, q, t, 0);
    NoSpace(s, q);
  }

  lemma LastElement(s: bytes, q: nat, ev: seq<Event>, count: nat, fl: Flags)
    requires q < |s| && Peek(s, q) == RBRACKET
    ensures AfterElement(s, q, ev, count, fl) == Good(ev + [EndArrayEvent(count)], q + 1)
  {
  }

  lemma NextElement(s: bytes, q: nat, rest: seq<Value>, ev: seq<Event>, count: nat, fl: Flags)
    requires rest != [] && q < |s| && Peek(s, q) == COMMA && At(s, q + 1, ElementsText(rest, true) + [RBRACKET])
    ensures AfterElement(s, q, ev, count, fl) == Elements(s, q + 1, ev, count, fl)
  {
    hide Elements, Text, ElementsText;
    ElementsUnfold(rest, true);
    var more := ElementsText(rest[1..], false) + [RBRACKET];
    assert ElementsText(rest, true) + [RBRACKET] == Text(rest[0]) + more;
    TextStartsAt(s, q + 1, rest[0], more);
  }

  lemma EmptyReads()
    ensures ReadElements([]) == [] && ReadMembers([]) == []
  {
  }

  lemma ReadArray(elems: seq<Value>)
    ensures Read(Array(elems)) == [StartArrayEvent] + ReadElements(elems) + [EndArrayEvent(|elems|)]
  {
    hide ReadElements;
  }

  lemma ReadObject(members: seq<Member>)
    ensures Read(Object(members)) == [StartObjectEvent] + ReadMembers(members) + [EndObjectEvent(|members|)]
  {
    hide ReadMembers;
  }

  lemma ElementsUnfold(elems: seq<Value>, first: bool)
    requires elems != []
    ensures ElementsText(elems, first) == Separator(first) + Text(elems[0]) + ElementsText(elems[1..], false)
  {
    hide Text;
  }

  lemma ReadElementsUnfold(elems: seq<Value>, ev: seq<Event>)
    requires elems != []
    ensures ev + ReadElements(elems) == ev + Read(elems[0]) + ReadElements(elems[1..])
  {
    hide Read;
    Regroup(ev, Read(elems[0]), ReadElements(elems[1..]), [], []);
  }

  lemma ElementsEmpty(elems: seq<Value>)
    requires elems == []
    ensures ElementsText(elems, false) == [] && ReadElements(elems) == []
  {
  }

  lemma MembersUnfold(members: seq<Member>, first: bool)
    requires members != []
    ensures MembersText(members, first)
            == Separator(first)
               + (Quoted(members[0].name) + ([COLON] + (Text(members[0].value) + MembersText(members[1..], false))))
  {
    hide Text, Quoted;
    var name, value, rest := Quoted(members[0].name), Text(members[0].value), MembersText(members[1..], false);
    Regroup(Separator(first), name, [COLON], value, rest);
  }

  lemma Regroup<T>(a: seq<T>, b: seq<T>, c: seq<T>, d: seq<T>, e: seq<T>)
    ensures a + b + c + d + e == a + (b + (c + (d + e)))
  {
  }

  lemma ReadMembersUnfold(members: seq<Member>, ev: seq<Event>)
    requires members != []
    ensures ev + ReadMembers(members)
            == ev + [KeyEvent(members[0].name)] + Read(members[0].value) + ReadMembers(members[1..])
  {
    hide Read;
    Regroup(ev, [KeyEvent(members[0].name)], Read(members[0].value), ReadMembers(members[1..]), []);
  }

  lemma MembersEmpty(members: seq<Member>)
    requires members == []
    ensures MembersText(members, false) == [] && ReadMembers(members) == []
  {
  }

  lemma {:induction false} ObjectReadBack(s: bytes, p: nat, members: seq<Member>, ev: seq<Event>, fl: Flags)
    requires forall m <- members :: Representable(m.value)
    requires At(s, p, Text(Object(members)))
    ensures Peek(s, p) == LBRACE
    ensures ParseObject(s, p, ev, fl) == Good(ev + Read(Object(members)), p + |Text(Object(members))|)
    decreases members, 3
  {
    hide Text, Read, MembersText, ReadMembers, Quoted, Members, ParseString;
    var body := MembersText(members, true) + [RBRACE];
    ObjectText(members);
    ReadObject(members);
    assert Text(Object(members)) == [LBRACE] + body;
    AtConcat(s, p, [LBRACE], body);
    AtPeek(s, p, [LBRACE], 0);
    if members == [] {
      EmptyTexts();
      AtPeek(s, p + 1, body, 0);
      NoSpace(s, p + 1);
      EmptyReads();
      assert ev + ([StartObjectEvent] + [] + [EndObjectEvent(0)]) == ev + [StartObjectEvent] + [EndObjectEvent(0)];
    } else {
      NameStartsAt(s, p + 1, members);
      MembersReadBack(s, p + 1, members, 0, ev + [StartObjectEvent], fl);
      Bracketed(ev, [StartObjectEvent], ReadMembers(members), [EndObjectEvent(|members|)]);
    }
  }

  /** Where a first member stands there is a quote, the name and a colon, and then its value. */
  lemma NameStartsAt(s: bytes, p: nat, members: seq<Member>)
    requires members != [] && At(s, p, MembersText(members, true) + [RBRACE])
    ensures Peek(s, p) == QUOTE && SkipSpace(s, p) == p && p < |s|
    ensures var q := p + |Quoted(members[0].name)|;
            var rest := MembersText(members[1..], false) + [RBRACE];
            && ParseString(s, p) == Done(members[0].name, q)
            && SkipSpace(s, q) == q && Peek(s, q) == COLON
            && SkipSpace(s, q + 1) == q + 1
            && At(s, q + 1, Text(members[0].value)) && At(s, q + 1 + |Text(members[0].value)|, rest)
            && |MembersText(members, true)| + 1 == |Quoted(members[0].name)| + 1 + |Text(members[0].value)| + |rest|
  {
    hide Text, Read, MembersText, ReadMembers, Quoted, ParseString;
    MembersUnfold(members, true);
    var name, value, rest :=
      Quoted(members[0].name), Text(members[0].value), MembersText(members[1..], false) + [RBRACE];
    assert MembersText(members, true) + [RBRACE] == name + ([COLON] + (value + rest));
    AtConcat(s, p, name, [COLON] + (value + rest));
    QuotedReadBack(s, p, members[0].name);
    NoSpace(s, p);
    var q := p + |name|;
    AtConcat(s, q, [COLON], value + rest);
    AtPeek(s, q, [COLON], 0);
    NoSpace(s, q);
    TextStartsAt(s, q + 1, members[0].value, rest);
    AtConcat(s, q + 1, value, rest);
  }

  lemma {:induction false} MembersReadBack(s: bytes, p: nat, members: seq<Member>, count: nat, ev: seq<Event>,
                                           fl: Flags)
    requires members != [] && forall m <- members :: Representable(m.value)
    requires At(s, p, MembersText(members, true) + [RBRACE])
    ensures Members(s, p, ev, count, fl)
            == Good(ev + ReadMembers(members) + [EndObjectEvent(count + |members|)],
               p + |MembersText(members, true)| + 1)
    decreases members, 2
  {
    hide Text, Read, MembersText, ReadMembers, Quoted, Members, AfterMember, ParseString, ContinuesAsDouble;
    var m := members[0];
    var q := p + |Quoted(m.name)| + 1 + |Text(m.value)|;
    NameStartsAt(s, p, members);
    MemberSeparatorAt(s, q, members[1..]);
    MemberReadBack(s, p, members, count, ev, fl);
    ReadMembersUnfold(members, ev);
    if |members| == 1 {
      MembersEmpty(members[1..]);
      LastMember(s, q, ev + [KeyEvent(m.name)] + Read(m.value), count + 1, fl);
      Append0(ev + [KeyEvent(m.name)] + Read(m.value));
    } else {
      NextMember(s, q, members[1..], ev + [KeyEvent(m.name)] + Read(m.value), count + 1, fl);
      MembersReadBack(s, q + 1, members[1..], count + 1, ev + [KeyEvent(m.name)] + Read(m.value), fl);
    }
  }

  lemma Bracketed<T>(a: seq<T>, open: seq<T>, body: seq<T>, close: seq<T>)
    ensures a + open + body + close == a + (open + body + close)
  {
  }

  lemma Append0<T>(a: seq<T>)
    ensures a + [] == a
  {
  }

  /** The first member alone. */
  lemma {:induction false} MemberReadBack(s: bytes, p: nat, members: seq<Member>, count: nat, ev: seq<Event>, fl: Flags)
    requires members != [] && Representable(members[0].value)
    requires At(s, p, MembersText(members, true) + [RBRACE])
    ensures var m := members[0];
            var q := p + |Quoted(m.name)| + 1 + |Text(m.value)|;
            && q < |s|
            && Members(s, p, ev, count, fl) == AfterMember(s, q, ev + [KeyEvent(m.name)] + Read(m.value), count + 1, fl)
    decreases members, 1
  {
    hide Text, Read, MembersText, ReadMembers, Quoted, ParseValue, ParseString, AfterMember;
    NameStartsAt(s, p, members);
    var m := members[0];
    var start := p + |Quoted(m.name)| + 1;
    MemberSeparatorAt(s, start + |Text(m.value)|, members[1..]);
    ValueReadBack(s, start, m.value, ev + [KeyEvent(m.name)], fl);
  }

  /** After a member's value there is a comma or a brace, so a number there is complete. */
  lemma MemberSeparatorAt(s: bytes, q: nat, rest: seq<Member>)
    requires At(s, q, MembersText(rest, false) + [RBRACE])
    ensures Terminated(s, q) && SkipSpace(s, q) == q && q < |s|
    ensures rest == [] ==> Peek(s, q) == RBRACE
    ensures rest != [] ==> Peek(s, q) == COMMA && At(s, q + 1, MembersText(rest, true) + [RBRACE])
                           && |MembersText(rest, false)| == |MembersText(rest, true)| + 1
  {
    hide Text, Read, MembersText, ReadMembers, Quoted;
    var t := MembersText(rest, false) + [RBRACE];
    if rest == [] {
      MembersEmpty(rest);
    } else {
      MembersUnfold(rest, false);
      MembersUnfold(rest, true);
      assert t == [COMMA] + (MembersText(rest, true) + [RBRACE]);
      AtConcat(s, q, [COMMA], MembersText(rest, true) + [RBRACE]);
    }
    AtPeek(s, q, t, 0);
    NoSpace(s, q);
  }

  lemma LastMember(s: bytes, q: nat, ev: seq<Event>, count: nat, fl: Flags)
    requires q < |s| && Peek(s, q) == RBRACE
    ensures AfterMember(s, q, ev, count, fl) == Good(ev + [EndObjectEvent(count)], q + 1)
  {
  }

  lemma NextMember(s: bytes, q: nat, rest: seq<Member>, ev: seq<Event>, count: nat, fl: Flags)
    requires rest != [] && q < |s| && Peek(s, q) == COMMA && At(s, q + 1, MembersText(rest, true) + [RBRACE])
    ensures AfterMember(s, q, ev, count, fl) == Members(s, q + 1, ev, count, fl)
  {
    hide Members;
    NameStartsAt(s, q + 1, rest);
  }
}
