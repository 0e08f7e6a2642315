/**
 What every accepted text has in common: its events build exactly one value, all of
 whose numbers are in range; the value's text is no longer than what was read; and it
 is well-formed UTF-8 if the input was.
 */
module Accepted {
  import opened Bytes
  import opened Json
  import opened Scalars
  import opened RecursiveDescent
  import opened Writer
  import opened Document
  import Utf8

  // ---------- runs of ASCII ----------

  lemma {:induction false} AsciiRun(s: bytes, p: nat, q: nat)
    requires p <= q <= |s| && forall k :: p <= k < q ==> s[k] <= 0x7F
    ensures Utf8.ValidFrom(s, p) == Utf8.ValidFrom(s, q)
    decreases q - p
  {
    if p < q {
      AsciiRun(s, p + 1, q);
    }
  }

  lemma SkipSpaceKeepsValid(s: bytes, p: nat)
    requires p <= |s|
    ensures Utf8.ValidFrom(s, p) == Utf8.ValidFrom(s, SkipSpace(s, p))
  {
    AsciiRun(s, p, SkipSpace(s, p));
  }

  // ---------- numbers ----------

  function NumberOf(e: Event): int
    requires e.IntEvent? || e.UintEvent? || e.Int64Event? || e.Uint64Event?
  {
    match e
    case IntEvent(i) => i
    case UintEvent(u) => u
    case Int64Event(i) => i
    case Uint64Event(u) => u
  }

  lemma DecimalStep(i: nat, d: nat)
    requires i > 0 && d < 10
    ensures Decimal(10 * i + d) == Decimal(i) + [0x30 + d]
  {
    var n := 10 * i + d;
    assert n / 10 == i && n % 10 == d;
  }

  /** The digit loops keep the magnitude equal to the digits passed over. */
  lemma {:induction false} DigitsAreDecimal(s: bytes, start: nat, p: nat, minus: bool, wide: bool, i: nat)
    requires start < p <= |s| && 0 < i <= Limit(minus, wide) && s[start..p] == Decimal(i)
    ensures var m := Digits(s, p, minus, wide, i);
            !m.TooLarge? ==>
              var n := if m.Small? then m.i else m.i64;
              && start < m.next <= |s| && s[start..m.next] == Decimal(n)
              && 0 < n <= Limit(minus, m.Large?)
    decreases |s| - p, !wide
  {
    hide Overflows, Decimal;
    if IsDigit(Peek(s, p)) {
      OverflowIsExact(minus, wide, i, s[p]);
      if Overflows(minus, wide, i, s[p]) {
        if !wide {
          DigitsAreDecimal(s, start, p, minus, true, i);
        }
      } else {
        var n := 10 * i + (s[p] - 0x30);
        assert s[start..p + 1] == s[start..p] + [s[p]];
        DecimalStep(i, s[p] - 0x30);
        DigitsAreDecimal(s, start, p + 1, minus, wide, n);
      }
    }
  }

  lemma MagnitudeIsDecimal(s: bytes, q: nat, minus: bool)
    requires q <= |s| && ParseMagnitude(s, q, minus).Done?
    ensures var m := ParseMagnitude(s, q, minus).value;
            var n := if m.Small? then m.i else m.i64;
            && n <= Limit(minus, m.Large?)
            && q < m.next <= |s| && s[q..m.next] == Decimal(n)
  {
    assert s[q..q + 1] == [s[q]];
    if s[q] == ZERO {
      assert Decimal(0) == [ZERO];
    } else {
      DigitsAreDecimal(s, q, q + 1, minus, false, s[q] - 0x30);
    }
  }

  lemma NumberEventValue(minus: bool, m: Magnitude)
    requires !m.TooLarge? && (if m.Small? then m.i else m.i64) <= Limit(minus, m.Large?)
    ensures var e := NumberEvent(minus, m);
            && (e.IntEvent? || e.UintEvent? || e.Int64Event? || e.Uint64Event?)
            && var n := if m.Small? then m.i else m.i64;
               NumberOf(e) == (if minus then -n else n) && InRange(NumberOf(e))
  {
  }

  /** An accepted integer is exactly the number its digits denote; only `-0` loses its sign. */
  lemma NumberIsExact(s: bytes, p: nat)
    requires p <= |s| && ParseNumber(s, p).Done?
    ensures var r := ParseNumber(s, p);
            && (r.value.IntEvent? || r.value.UintEvent? || r.value.Int64Event? || r.value.Uint64Event?)
            && var n := NumberOf(r.value);
               && InRange(n)
               && (s[p..r.next] == NumberText(n) || (n == 0 && s[p..r.next] == [MINUS, ZERO]))
  {
    var minus := Peek(s, p) == MINUS;
    var q := if minus then p + 1 else p;
    hide ParseMagnitude, NumberEvent;
    MagnitudeIsDecimal(s, q, minus);
    NumberEventValue(minus, ParseMagnitude(s, q, minus).value);
    var r := ParseNumber(s, p);
    if minus {
      assert s[p..r.next] == [MINUS] + s[q..r.next];
      assert Decimal(0) == [ZERO];
    }
  }

  lemma NumberTextFacts(s: bytes, p: nat)
    requires p <= |s| && ParseNumber(s, p).Done?
    ensures var r := ParseNumber(s, p);
            (r.value.IntEvent? || r.value.UintEvent? || r.value.Int64Event? || r.value.Uint64Event?)
    ensures var r := ParseNumber(s, p);
            var n := NumberOf(r.value);
            && |NumberText(n)| <= r.next - p
            && Utf8.Valid(NumberText(n))
            && Utf8.ValidFrom(s, p) == Utf8.ValidFrom(s, r.next)
  {
    NumberIsExact(s, p);
    var r := ParseNumber(s, p);
    var n := NumberOf(r.value);
    var t := NumberText(n);
    forall k | 0 <= k < |t| ensures t[k] <= 0x7F {
      NumberTextAscii(n, k);
    }
    Utf8.AsciiValid(t, 0);
    assert Decimal(0) == [ZERO];
    forall k | p <= k < r.next ensures s[k] <= 0x7F {
      assert s[k] == s[p..r.next][k - p];
    }
    AsciiRun(s, p, r.next);
  }

  lemma NumberTextAscii(n: int, k: nat)
    requires k < |NumberText(n)|
    ensures NumberText(n)[k] <= 0x7F
  {
    if n < 0 {
      assert k > 0 ==> Decimal(-n)[k - 1] in Decimal(-n);
    } else {
      assert Decimal(n)[k] in Decimal(n);
    }
  }

  // ---------- strings ----------

  lemma {:induction false} EscapedAllConcat(a: bytes, b: bytes)
    ensures EscapedAll(a + b) == EscapedAll(a) + EscapedAll(b)
  {
    hide Escaped;
    if a == [] {
      assert a + b == b;
    } else {
      assert (a + b)[1..] == a[1..] + b;
      EscapedAllConcat(a[1..], b);
    }
  }

  /** Bytes outside ASCII are never escaped. */
  lemma {:induction false} HighBytesUnescaped(b: bytes)
    requires forall i :: 0 <= i < |b| ==> b[i] >= 0x80
    ensures EscapedAll(b) == b
  {
    if b != [] {
      HighBytesUnescaped(b[1..]);
      assert Escaped(b[0]) == [b[0]];
    }
  }

  lemma EscapedOne(c: byte)
    ensures EscapedAll([c]) == Escaped(c)
    ensures |Escaped(c)| <= (if c >= 0x20 then 2 else 6)
    ensures c >= 0x20 && c != QUOTE && c != BACKSLASH ==> Escaped(c) == [c]
  {
    assert [c][1..] == [];
  }

  lemma EscapedCodePoint(cp: int)
    requires Utf8.IsScalar(cp)
    ensures |EscapedAll(Utf8.Encode(cp))| <= 6
  {
    if cp <= 0x7F {
      EscapedOne(cp);
    } else {
      HighBytesUnescaped(Utf8.Encode(cp));
    }
  }

  /** Escaping again never takes more room than the token did. */
  lemma {:induction false} StringNoLonger(s: bytes, p: nat, acc: bytes)
    requires p <= |s| && StringBody(s, p, acc).Done?
    ensures var r := StringBody(s, p, acc); |EscapedAll(r.value)| + 1 <= |EscapedAll(acc)| + (r.next - p)
    decreases |s| - p
  {
    hide Escaped, ParseUnicodeEscape, EscapeLetter;
    var c := Peek(s, p);
    if c == BACKSLASH {
      var e := Peek(s, p + 1);
      if Unescape(e) != 0 {
        UnescapedPair(e);
        EscapedAllConcat(acc, [Unescape(e)]);
        StringNoLonger(s, p + 2, acc + [Unescape(e)]);
      } else {
        var u := ParseUnicodeEscape(s, p);
        EscapedCodePoint(u.value);
        EscapedAllConcat(acc, Utf8.Encode(u.value));
        StringNoLonger(s, u.next, acc + Utf8.Encode(u.value));
      }
    } else if c != QUOTE {
      EscapedOne(c);
      EscapedAllConcat(acc, [c]);
      StringNoLonger(s, p + 1, acc + [c]);
    }
  }

  lemma UnescapedPair(e: byte)
    requires Unescape(e) != 0
    ensures |EscapedAll([Unescape(e)])| <= 2 && Unescape(e) <= 0x7F && e <= 0x7F
  {
    EscapedOne(Unescape(e));
  }

  /** A run of bytes outside ASCII is copied as it is. */
  lemma {:induction false} CopyRun(s: bytes, p: nat, k: nat, acc: bytes)
    requires p + k <= |s| && forall i :: p <= i < p + k ==> s[i] >= 0x80
    ensures StringBody(s, p, acc) == StringBody(s, p + k, acc + s[p..p + k])
    decreases k
  {
    hide StringBody;
    if k == 0 {
      assert acc + s[p..p] == acc;
    } else {
      CopyOne(s, p, acc);
      CopyRun(s, p + 1, k - 1, acc + [s[p]]);
      RunSlice(s, p, k, acc);
    }
  }

  lemma CopyOne(s: bytes, p: nat, acc: bytes)
    requires p < |s| && s[p] >= 0x80
    ensures StringBody(s, p, acc) == StringBody(s, p + 1, acc + [s[p]])
  {
  }

  lemma RunSlice(s: bytes, p: nat, k: nat, acc: bytes)
    requires 0 < k && p + k <= |s|
    ensures acc + [s[p]] + s[p + 1..p + k] == acc + s[p..p + k]
  {
  }

  /** A `\u` escape consists of ASCII bytes. */
  lemma UnicodeEscapeIsAscii(s: bytes, p: nat)
    requires p + 2 <= |s| && s[p] == BACKSLASH && s[p + 1] == LOWER_U && ParseUnicodeEscape(s, p).Done?
    ensures var r := ParseUnicodeEscape(s, p); p < r.next <= |s| && forall k :: p <= k < r.next ==> s[k] <= 0x7F
  {
    hide HexDigits;
    HexIsAscii(s, p + 2, 4, 0, p);
    if ParseUnicodeEscape(s, p).next > p + 6 {
      HexIsAscii(s, p + 8, 4, 0, p);
    }
  }

  lemma {:induction false} HexIsAscii(s: bytes, p: nat, n: nat, acc: nat, escapeOffset: nat)
    requires p <= |s| && HexDigits(s, p, n, acc, escapeOffset).Done?
    ensures forall k :: p <= k < p + n ==> s[k] <= 0x7F
    decreases n
  {
    if n > 0 {
      HexIsAscii(s, p + 1, n - 1, 16 * acc + HexValue(Peek(s, p)), escapeOffset);
    }
  }

  lemma EncodedValid(cp: int)
    requires Utf8.IsScalar(cp)
    ensures Utf8.Valid(Utf8.Encode(cp))
  {
    hide Utf8.Encode;
    var t := Utf8.Encode(cp);
    assert t[0..|t|] == t;
    Utf8.EncodingIsChar(t, 0, cp);
    assert Utf8.ValidFrom(t, |t|);
  }

  /** One step of the string loop in a well-formed input: up to `q`, adding `chunk`. */
  lemma EscapeStep(s: bytes, p: nat, acc: bytes) returns (q: nat, chunk: bytes)
    requires p < |s| && s[p] == BACKSLASH && StringBody(s, p, acc).Done? && Utf8.ValidFrom(s, p)
    ensures p < q <= |s| && Utf8.ValidFrom(s, q) && Utf8.Valid(chunk)
    ensures StringBody(s, p, acc) == StringBody(s, q, acc + chunk)
  {
    hide ParseUnicodeEscape, Utf8.Encode, Utf8.CharLength, Utf8.Valid, Utf8.ValidFrom;
    var e := Peek(s, p + 1);
    if Unescape(e) != 0 {
      q, chunk := p + 2, [Unescape(e)];
      UnescapedPair(e);
      SingleValid(Unescape(e));
    } else {
      var u := ParseUnicodeEscape(s, p);
      UnicodeEscapeIsAscii(s, p);
      EncodedValid(u.value);
      q, chunk := u.next, Utf8.Encode(u.value);
    }
    AsciiRun(s, p, q);
  }

  lemma SingleValid(c: byte)
    requires c <= 0x7F
    ensures Utf8.Valid([c])
  {
    Utf8.AsciiValid([c], 0);
  }

  lemma PlainStep(s: bytes, p: nat, acc: bytes) returns (q: nat, chunk: bytes)
    requires p < |s| && s[p] != BACKSLASH && s[p] != QUOTE && StringBody(s, p, acc).Done? && Utf8.ValidFrom(s, p)
    ensures p < q <= |s| && Utf8.ValidFrom(s, q) && Utf8.Valid(chunk)
    ensures StringBody(s, p, acc) == StringBody(s, q, acc + chunk)
  {
    hide Utf8.CharLength, Utf8.Valid, Utf8.ValidFrom;
    if s[p] <= 0x7F {
      q, chunk := p + 1, [s[p]];
      AsciiRun(s, p, p + 1);
      SingleValid(s[p]);
    } else {
      WideChar(s, p);
      var k := Utf8.CharLength(s, p);
      q, chunk := p + k, s[p..p + k];
      CopyRun(s, p, k, acc);
    }
  }

  /** In a well-formed input a string token decodes to a well-formed string. */
  lemma {:induction false} StringStaysValid(s: bytes, p: nat, acc: bytes)
    requires p <= |s| && StringBody(s, p, acc).Done?
    requires Utf8.ValidFrom(s, p) && Utf8.Valid(acc)
    ensures var r := StringBody(s, p, acc); Utf8.Valid(r.value) && Utf8.ValidFrom(s, r.next)
    decreases |s| - p
  {
    hide ParseUnicodeEscape, Utf8.Encode, Utf8.ValidFrom, Utf8.Valid;
    if Peek(s, p) == QUOTE {
      AsciiRun(s, p, p + 1);
    } else {
      var q: nat, chunk: bytes;
      if Peek(s, p) == BACKSLASH {
        q, chunk := EscapeStep(s, p, acc);
      } else {
        q, chunk := PlainStep(s, p, acc);
      }
      Utf8.ConcatValid(acc, chunk);
      StringStaysValid(s, q, acc + chunk);
    }
  }

  lemma WideChar(s: bytes, p: nat)
    requires p < |s| && s[p] >= 0x80 && Utf8.ValidFrom(s, p)
    ensures var k := Utf8.CharLength(s, p);
            && 0 < k && p + k <= |s| && (forall i :: p <= i < p + k ==> s[i] >= 0x80)
            && Utf8.Valid(s[p..p + k]) && Utf8.ValidFrom(s, p + k)
  {
    Utf8.CharIsEncoding(s, p);
    EncodedValid(Utf8.CharValue(s, p));
  }

  /** Escaping a well-formed string keeps it well-formed. */
  lemma {:induction false} EscapedStaysValid(str: bytes, p: nat)
    requires p <= |str| && Utf8.ValidFrom(str, p)
    ensures Utf8.Valid(EscapedAll(str[p..]))
    decreases |str| - p
  {
    hide Escaped, Utf8.CharLength;
    if p < |str| {
      if str[p] <= 0x7F {
        AsciiRun(str, p, p + 1);
        EscapedStaysValid(str, p + 1);
        assert str[p..] == [str[p]] + str[p + 1..];
        EscapedAsciiIsAscii(str[p]);
        Utf8.AsciiValid(Escaped(str[p]), 0);
        Utf8.ConcatValid(Escaped(str[p]), EscapedAll(str[p + 1..]));
      } else {
        var k := Utf8.CharLength(str, p);
        WideChar(str, p);
        EscapedStaysValid(str, p + k);
        assert str[p..] == str[p..p + k] + str[p + k..];
        EscapedAllConcat(str[p..p + k], str[p + k..]);
        HighBytesUnescaped(str[p..p + k]);
        Utf8.ConcatValid(str[p..p + k], EscapedAll(str[p + k..]));
      }
    }
  }

  lemma EscapedAsciiIsAscii(c: byte)
    requires c <= 0x7F
    ensures forall x <- Escaped(c) :: x <= 0x7F
  {
  }

  lemma EmptyEscape()
    ensures EscapedAll([]) == []
  {
  }

  lemma QuotedFacts(s: bytes, p: nat, utf8: bool)
    requires p < |s| && s[p] == QUOTE && ParseString(s, p).Done?
    requires utf8 ==> Utf8.ValidFrom(s, p)
    ensures var r := ParseString(s, p);
            && |Quoted(r.value)| <= r.next - p
            && (utf8 ==> Utf8.Valid(Quoted(r.value)) && Utf8.ValidFrom(s, r.next))
  {
    hide StringBody, EscapedAll;
    var r := ParseString(s, p);
    EmptyEscape();
    StringNoLonger(s, p + 1, []);
    if utf8 {
      AsciiRun(s, p, p + 1);
      StringStaysValid(s, p + 1, []);
      QuotedStaysValid(r.value);
    }
  }

  lemma QuotedStaysValid(str: bytes)
    requires Utf8.Valid(str)
    ensures Utf8.Valid(Quoted(str))
  {
    EscapedStaysValid(str, 0);
    assert str[0..] == str;
    Utf8.AsciiValid([QUOTE], 0);
    Utf8.ConcatValid([QUOTE], EscapedAll(str));
    Utf8.ConcatValid([QUOTE] + EscapedAll(str), [QUOTE]);
  }

  // ---------- values ----------

  /** `v` is fit to stand for `room` bytes of input, well-formed ones if `utf8`. */
  predicate Fits(v: Value, room: int, utf8: bool) {
    Representable(v) && |Text(v)| <= room && (utf8 ==> Utf8.Valid(Text(v)))
  }

  lemma LiteralFacts(s: bytes, p: nat, word: bytes, e: Event)
    requires p < |s| && |word| > 1 && s[p] == word[0] && (forall c <- word :: c <= 0x7F)
    requires ParseLiteral(s, p, word, e).Done?
    ensures var r := ParseLiteral(s, p, word, e);
            r.next == p + |word| && Utf8.ValidFrom(s, p) == Utf8.ValidFrom(s, r.next)
  {
    MatchedPrefix(s, p + 1, word, 1);
    assert word[0] in word;
    AsciiRun(s, p, p + |word|);
  }

  lemma {:induction false} MatchedPrefix(s: bytes, p: nat, word: bytes, k: nat)
    requires p <= |s| && k <= |word| && (forall c <- word :: c <= 0x7F)
    ensures forall i :: p <= i < Matched(s, p, word, k) ==> s[i] <= 0x7F
    decreases |word| - k
  {
    if k < |word| && p < |s| && s[p] == word[k] {
      assert word[k] in word;
      MatchedPrefix(s, p + 1, word, k + 1);
    }
  }

  lemma LiteralTexts()
    ensures Text(Null) == NULL && Text(Bool(true)) == TRUE && Text(Bool(false)) == FALSE
    ensures Utf8.Valid(NULL) && Utf8.Valid(TRUE) && Utf8.Valid(FALSE)
  {
    Utf8.AsciiValid(NULL, 0);
    Utf8.AsciiValid(TRUE, 0);
    Utf8.AsciiValid(FALSE, 0);
  }

  /** The value a scalar event pushes. */
  function ScalarValue(e: Event): Value {
    match e
    case BoolEvent(b) => Bool(b)
    case IntEvent(i) => Number(i)
    case UintEvent(u) => Number(u)
    case Int64Event(i) => Number(i)
    case Uint64Event(u) => Number(u)
    case StringEvent(str) => String(str)
    case _ => Null
  }

  predicate IsScalarEvent(e: Event) {
    e.NullEvent? || e.BoolEvent? || e.IntEvent? || e.UintEvent? || e.Int64Event? || e.Uint64Event? || e.StringEvent?
  }

  lemma LiteralFits(s: bytes, p: nat, utf8: bool)
    requires p < |s| && (s[p] == 0x6E || s[p] == 0x74 || s[p] == 0x66) && ParseScalar(s, p).Done?
    ensures var r := ParseScalar(s, p);
            && IsScalarEvent(r.value)
            && Fits(ScalarValue(r.value), r.next - p, utf8)
            && Utf8.ValidFrom(s, p) == Utf8.ValidFrom(s, r.next)
  {
    hide ParseLiteral, ParseNumber, ParseString, Text, Utf8.Valid, Utf8.ValidFrom;
    LiteralTexts();
    if s[p] == 0x6E {
      LiteralFacts(s, p, NULL, NullEvent);
      LiteralEvent(s, p, NULL, NullEvent);
    } else if s[p] == 0x74 {
      LiteralFacts(s, p, TRUE, BoolEvent(true));
      LiteralEvent(s, p, TRUE, BoolEvent(true));
    } else {
      LiteralFacts(s, p, FALSE, BoolEvent(false));
      LiteralEvent(s, p, FALSE, BoolEvent(false));
    }
  }

  lemma ScalarFacts(s: bytes, p: nat, utf8: bool)
    requires p <= |s| && ParseScalar(s, p).Done?
    requires utf8 ==> Utf8.ValidFrom(s, p)
    ensures var r := ParseScalar(s, p);
            && IsScalarEvent(r.value)
            && Fits(ScalarValue(r.value), r.next - p, utf8)
            && (utf8 ==> Utf8.ValidFrom(s, r.next))
  {
    hide ParseLiteral, ParseNumber, ParseString, Quoted, NumberText, Utf8.Valid, Utf8.ValidFrom;
    var c := Peek(s, p);
    if c == 0x6E || c == 0x74 || c == 0x66 {
      LiteralFits(s, p, utf8);
    } else if c == QUOTE {
      QuotedFacts(s, p, utf8);
      assert ParseScalar(s, p).value == StringEvent(ParseString(s, p).value);
    } else {
      assert ParseScalar(s, p) == ParseNumber(s, p);
      NumberTextFacts(s, p);
      NumberIsExact(s, p);
      assert ScalarValue(ParseNumber(s, p).value) == Number(NumberOf(ParseNumber(s, p).value));
    }
  }

  lemma LiteralEvent(s: bytes, p: nat, word: bytes, e: Event)
    requires p < |s| && |word| > 1 && ParseLiteral(s, p, word, e).Done?
    ensures ParseLiteral(s, p, word, e).value == e
  {
  }

  /** A successful read of a value pushes exactly one value, which fits what was read. */
  lemma {:induction false} ValueBuilds(s: bytes, p: nat, ev: seq<Event>, fl: Flags, base: seq<Value>, utf8: bool)
    returns (v: Value)
    requires p <= |s| && ParseValue(s, p, ev, fl).Good?
    requires Build(ev) == Some(base) && (utf8 ==> Utf8.ValidFrom(s, p))
    ensures var r := ParseValue(s, p, ev, fl);
            && Build(r.events) == Some(base + [v])
            && Fits(v, r.pos - p, utf8) && (utf8 ==> Utf8.ValidFrom(s, r.pos))
    decreases |s| - p, 2
  {
    hide Text, ParseScalar, Fits, Build;
    var c := Peek(s, p);
    if c == LBRACE {
      v := ObjectBuilds(s, p, ev, fl, base, utf8);
    } else if c == LBRACKET {
      v := ArrayBuilds(s, p, ev, fl, base, utf8);
    } else {
      ScalarFacts(s, p, utf8);
      BuildAppend(ev, ParseScalar(s, p).value);
      v := ScalarValue(ParseScalar(s, p).value);
    }
  }

  lemma {:induction false} ArrayBuilds(s: bytes, p: nat, ev: seq<Event>, fl: Flags, base: seq<Value>, utf8: bool)
    returns (v: Value)
    requires p < |s| && s[p] == LBRACKET && ParseArray(s, p, ev, fl).Good?
    requires Build(ev) == Some(base) && (utf8 ==> Utf8.ValidFrom(s, p))
    ensures var r := ParseArray(s, p, ev, fl);
            && Build(r.events) == Some(base + [v])
            && Fits(v, r.pos - p, utf8) && (utf8 ==> Utf8.ValidFrom(s, r.pos))
    decreases |s| - p, 1
  {
    hide Utf8.ValidFrom, Text, Build, ElementsText, Elements, Fits;
    BuildAppend(ev, StartArrayEvent);
    AsciiRun(s, p, p + 1);
    SkipSpaceKeepsValid(s, p + 1);
    var q := SkipSpace(s, p + 1);
    NoElements(utf8);
    WidenElements([], 0, q - (p + 1), utf8);
    assert base + [Array([])] + [] == base + [Array([])];
    if Peek(s, q) == RBRACKET {
      AsciiRun(s, q, q + 1);
      BuildAppend(ev + [StartArrayEvent], EndArrayEvent(0));
      CloseElements(base, [], ev + [StartArrayEvent], p + 1, q, utf8);
      v := Array([]);
    } else {
      v := ElementsBuild(s, q, ev + [StartArrayEvent], 0, fl, base, [], p + 1, utf8);
    }
  }

  /** The elements read so far take no more than the input between `start` and `p`, comma included. */
  predicate ElementsFit(elems: seq<Value>, room: int, utf8: bool) {
    && (forall e <- elems :: Representable(e))
    && |ElementsText(elems, true)| <= room
    && (utf8 ==> Utf8.Valid(ElementsText(elems, true)))
  }

  lemma NoElements(utf8: bool)
    ensures ElementsFit([], 0, utf8)
  {
    Utf8.AsciiValid([], 0);
  }

  lemma AddElement(elems: seq<Value>, e: Value, room: int, more: int, utf8: bool)
    requires ElementsFit(elems, if elems == [] then room else room - 1, utf8) && room >= 0 && Fits(e, more, utf8)
    ensures ElementsFit(elems + [e], room + more, utf8)
  {
    hide Text, ElementsText;
    ElementsTextSnoc(elems, e, true);
    var t := Separator(elems == []);
    if utf8 {
      Utf8.AsciiValid(t, 0);
      Utf8.ConcatValid(t, Text(e));
      Utf8.ConcatValid(ElementsText(elems, true), t + Text(e));
    }
  }

  /** Popping the elements of a finished array leaves the array, and its text fits. */
  lemma CloseElements(base: seq<Value>, elems: seq<Value>, ev: seq<Event>, start: nat, p: nat, utf8: bool)
    requires start <= p && start > 0 && Build(ev) == Some(base + [Array([])] + elems)
    requires ElementsFit(elems, p - start, utf8)
    ensures Build(ev + [EndArrayEvent(|elems|)]) == Some(base + [Array(elems)])
    ensures Fits(Array(elems), p + 1 - (start - 1), utf8)
  {
    hide Text, ElementsText;
    hide Build;
    PopElements(base, elems, ev);
    ArrayText(elems);
    if utf8 {
      Utf8.AsciiValid([LBRACKET], 0);
      Utf8.AsciiValid([RBRACKET], 0);
      Utf8.ConcatValid([LBRACKET], ElementsText(elems, true));
      Utf8.ConcatValid([LBRACKET] + ElementsText(elems, true), [RBRACKET]);
    }
  }

  lemma {:induction false} ElementsBuild(s: bytes, p: nat, ev: seq<Event>, count: nat, fl: Flags,
                                         base: seq<Value>, elems: seq<Value>, start: nat, utf8: bool) returns (v: Value)
    requires 0 < start <= p <= |s| && |elems| == count && Elements(s, p, ev, count, fl).Good?
    requires Build(ev) == Some(base + [Array([])] + elems) && (utf8 ==> Utf8.ValidFrom(s, p))
    requires ElementsFit(elems, if elems == [] then p - start else p - start - 1, utf8)
    ensures var r := Elements(s, p, ev, count, fl);
            && Build(r.events) == Some(base + [v])
            && Fits(v, r.pos - (start - 1), utf8) && (utf8 ==> Utf8.ValidFrom(s, r.pos))
    decreases |s| - p, 3
  {
    hide Utf8.ValidFrom, Text, Build, ElementsText, ParseValue, Fits, ElementsFit;
    var r := ParseValue(s, p, ev, fl);
    var e := ValueBuilds(s, p, ev, fl, base + [Array([])] + elems, utf8);
    assert base + [Array([])] + elems + [e] == base + [Array([])] + (elems + [e]);
    AddElement(elems, e, p - start, r.pos - p, utf8);
    var q := SkipSpace(s, r.pos);
    SkipSpaceKeepsValid(s, r.pos);
    WidenElements(elems + [e], r.pos - start, q - start, utf8);
    v := AfterElementBuilds(s, q, r.events, count + 1, fl, base, elems + [e], start, utf8);
  }

  lemma WidenElements(elems: seq<Value>, room: int, wider: int, utf8: bool)
    requires ElementsFit(elems, room, utf8) && room <= wider
    ensures ElementsFit(elems, wider, utf8)
  {
  }

  lemma {:induction false} AfterElementBuilds(s: bytes, p: nat, ev: seq<Event>, count: nat, fl: Flags,
                                              base: seq<Value>, elems: seq<Value>, start: nat, utf8: bool)
    returns (v: Value)
    requires 0 < start <= p <= |s| && |elems| == count && elems != [] && AfterElement(s, p, ev, count, fl).Good?
    requires Build(ev) == Some(base + [Array([])] + elems) && (utf8 ==> Utf8.ValidFrom(s, p))
    requires ElementsFit(elems, p - start, utf8)
    ensures var r := AfterElement(s, p, ev, count, fl);
            && Build(r.events) == Some(base + [v])
            && Fits(v, r.pos - (start - 1), utf8) && (utf8 ==> Utf8.ValidFrom(s, r.pos))
    decreases |s| - p, 0
  {
    hide Utf8.ValidFrom, Text, Build, ElementsText, ParseValue, Fits, ElementsFit, Elements;
    AsciiRun(s, p, p + 1);
    if Peek(s, p) == RBRACKET {
      CloseElements(base, elems, ev, start, p, utf8);
      v := Array(elems);
    } else {
      var q := SkipSpace(s, p + 1);
      SkipSpaceKeepsValid(s, p + 1);
      if fl.trailingCommas && Peek(s, q) == RBRACKET {
        WidenElements(elems, p - start, q - start, utf8);
        CloseElements(base, elems, ev, start, q, utf8);
        AsciiRun(s, q, q + 1);
        v := Array(elems);
      } else {
        WidenElements(elems, p - start, q - start - 1, utf8);
        v := ElementsBuild(s, q, ev, count, fl, base, elems, start, utf8);
      }
    }
  }

  // ---------- objects ----------

  predicate MembersFit(members: seq<Member>, room: int, utf8: bool) {
    && (forall m <- members :: Representable(m.value))
    && |MembersText(members, true)| <= room
    && (utf8 ==> Utf8.Valid(MembersText(members, true)))
  }

  lemma NoMembers(utf8: bool)
    ensures MembersFit([], 0, utf8) && Flatten([]) == []
  {
    Utf8.AsciiValid([], 0);
  }

  lemma AddMember(members: seq<Member>, m: Member, room: int, nameRoom: int, valueRoom: int, utf8: bool)
    requires MembersFit(members, if members == [] then room else room - 1, utf8) && room >= 0
    requires |Quoted(m.name)| <= nameRoom && (utf8 ==> Utf8.Valid(Quoted(m.name)))
    requires Fits(m.value, valueRoom, utf8)
    ensures MembersFit(members + [m], room + nameRoom + 1 + valueRoom, utf8)
  {
    hide Text, MembersText, Quoted;
    MembersTextSnoc(members, m, true);
    var t := Separator(members == []);
    if utf8 {
      Utf8.AsciiValid(t, 0);
      Utf8.AsciiValid([COLON], 0);
      Utf8.ConcatValid(t, Quoted(m.name));
      Utf8.ConcatValid(t + Quoted(m.name), [COLON]);
      Utf8.ConcatValid(t + Quoted(m.name) + [COLON], Text(m.value));
      Utf8.ConcatValid(MembersText(members, true), t + Quoted(m.name) + [COLON] + Text(m.value));
    }
  }

  lemma WidenMembers(members: seq<Member>, room: int, wider: int, utf8: bool)
    requires MembersFit(members, room, utf8) && room <= wider
    ensures MembersFit(members, wider, utf8)
  {
  }

  /** Popping the pairs of a finished object leaves the object, and its text fits. */
  lemma CloseMembers(base: seq<Value>, members: seq<Member>, ev: seq<Event>, start: nat, p: nat, utf8: bool)
    requires start <= p && start > 0 && Build(ev) == Some(base + [Object([])] + Flatten(members))
    requires MembersFit(members, p - start, utf8)
    ensures Build(ev + [EndObjectEvent(|members|)]) == Some(base + [Object(members)])
    ensures Fits(Object(members), p + 1 - (start - 1), utf8)
  {
    hide Text, MembersText, Flatten, Build;
    PopMembers(base, members, ev);
    ObjectText(members);
    if utf8 {
      Utf8.AsciiValid([LBRACE], 0);
      Utf8.AsciiValid([RBRACE], 0);
      Utf8.ConcatValid([LBRACE], MembersText(members, true));
      Utf8.ConcatValid([LBRACE] + MembersText(members, true), [RBRACE]);
    }
  }

  lemma {:induction false} ObjectBuilds(s: bytes, p: nat, ev: seq<Event>, fl: Flags, base: seq<Value>, utf8: bool)
    returns (v: Value)
    requires p < |s| && s[p] == LBRACE && ParseObject(s, p, ev, fl).Good?
    requires Build(ev) == Some(base) && (utf8 ==> Utf8.ValidFrom(s, p))
    ensures var r := ParseObject(s, p, ev, fl);
            && Build(r.events) == Some(base + [v])
            && Fits(v, r.pos - p, utf8) && (utf8 ==> Utf8.ValidFrom(s, r.pos))
    decreases |s| - p, 1
  {
    hide Utf8.ValidFrom, Text, Build, MembersText, Members, Fits, MembersFit;
    BuildAppend(ev, StartObjectEvent);
    AsciiRun(s, p, p + 1);
    SkipSpaceKeepsValid(s, p + 1);
    var q := SkipSpace(s, p + 1);
    NoMembers(utf8);
    WidenMembers([], 0, q - (p + 1), utf8);
    assert base + [Object([])] + [] == base + [Object([])];
    if Peek(s, q) == RBRACE {
      AsciiRun(s, q, q + 1);
      CloseMembers(base, [], ev + [StartObjectEvent], p + 1, q, utf8);
      v := Object([]);
    } else {
      v := MembersBuild(s, q, ev + [StartObjectEvent], 0, fl, base, [], p + 1, utf8);
    }
  }

  /** A name, its colon and the white space around them. */
  lemma NameFacts(s: bytes, p: nat, utf8: bool)
    requires p < |s| && s[p] == QUOTE && ParseString(s, p).Done? && (utf8 ==> Utf8.ValidFrom(s, p))
    requires Peek(s, SkipSpace(s, ParseString(s, p).next)) == COLON
    ensures var r := ParseString(s, p);
            var colon := SkipSpace(s, r.next);
            && |Quoted(r.value)| <= r.next - p
            && (utf8 ==> Utf8.Valid(Quoted(r.value)) && Utf8.ValidFrom(s, SkipSpace(s, colon + 1)))
  {
    hide ParseString, Quoted, Utf8.Valid, Utf8.ValidFrom;
    var r := ParseString(s, p);
    var colon := SkipSpace(s, r.next);
    QuotedFacts(s, p, utf8);
    SkipSpaceKeepsValid(s, r.next);
    AsciiRun(s, colon, colon + 1);
    SkipSpaceKeepsValid(s, colon + 1);
  }

  lemma {:induction false} MembersBuild(s: bytes, p: nat, ev: seq<Event>, count: nat, fl: Flags,
                                        base: seq<Value>, members: seq<Member>, start: nat, utf8: bool)
    returns (v: Value)
    requires 0 < start <= p <= |s| && |members| == count && Members(s, p, ev, count, fl).Good?
    requires Build(ev) == Some(base + [Object([])] + Flatten(members)) && (utf8 ==> Utf8.ValidFrom(s, p))
    requires MembersFit(members, if members == [] then p - start else p - start - 1, utf8)
    ensures var r := Members(s, p, ev, count, fl);
            && Build(r.events) == Some(base + [v])
            && Fits(v, r.pos - (start - 1), utf8) && (utf8 ==> Utf8.ValidFrom(s, r.pos))
    decreases |s| - p, 3
  {
    hide Utf8.ValidFrom, Text, Build, ParseString, ParseValue, Fits, MembersFit, AfterMember, Quoted, Flatten;
    var scan := ParseString(s, p);
    var colon := SkipSpace(s, scan.next);
    var q := SkipSpace(s, colon + 1);
    NameFacts(s, p, utf8);
    BuildAppend(ev, KeyEvent(scan.value));
    v := NamedMemberBuilds(s, q, ev + [KeyEvent(scan.value)], count, fl, base, members, scan.value, start, p, utf8);
  }

  /** The value of a member whose name was read, and all that follows; the name token began at `name`. */
  lemma {:induction false} NamedMemberBuilds(s: bytes, q: nat, ev: seq<Event>, count: nat, fl: Flags, base: seq<Value>,
                                             members: seq<Member>, str: bytes, start: nat, name: nat, utf8: bool)
    returns (v: Value)
    requires 0 < start <= name < q <= |s| && |members| == count
    requires ParseValue(s, q, ev, fl).Good?
    requires var r := ParseValue(s, q, ev, fl); AfterMember(s, SkipSpace(s, r.pos), r.events, count + 1, fl).Good?
    requires Build(ev) == Some(base + [Object([])] + Flatten(members) + [String(str)])
    requires utf8 ==> Utf8.ValidFrom(s, q)
    requires MembersFit(members, if members == [] then name - start else name - start - 1, utf8)
    requires |Quoted(str)| <= q - name - 1 && (utf8 ==> Utf8.Valid(Quoted(str)))
    ensures var r := ParseValue(s, q, ev, fl);
            var all := AfterMember(s, SkipSpace(s, r.pos), r.events, count + 1, fl);
            && Build(all.events) == Some(base + [v])
            && Fits(v, all.pos - (start - 1), utf8) && (utf8 ==> Utf8.ValidFrom(s, all.pos))
    decreases |s| - q, 4
  {
    hide Utf8.ValidFrom, Text, Build, ParseString, ParseValue, Fits, MembersFit, AfterMember, Quoted, Flatten;
    var r := ParseValue(s, q, ev, fl);
    var stack := base + [Object([])] + Flatten(members);
    var value := ValueBuilds(s, q, ev, fl, stack + [String(str)], utf8);
    var m := Member(str, value);
    FlattenSnoc(members, m);
    assert stack + [String(str)] + [value] == base + [Object([])] + Flatten(members + [m]);
    AddMember(members, m, name - start, q - name - 1, r.pos - q, utf8);
    var after := SkipSpace(s, r.pos);
    SkipSpaceKeepsValid(s, r.pos);
    WidenMembers(members + [m], r.pos - start, after - start, utf8);
    v := AfterMemberBuilds(s, after, r.events, count + 1, fl, base, members + [m], start, utf8);
  }

  lemma {:induction false} AfterMemberBuilds(s: bytes, p: nat, ev: seq<Event>, count: nat, fl: Flags,
                                             base: seq<Value>, members: seq<Member>, start: nat, utf8: bool)
    returns (v: Value)
    requires 0 < start <= p <= |s| && |members| == count && members != [] && AfterMember(s, p, ev, count, fl).Good?
    requires Build(ev) == Some(base + [Object([])] + Flatten(members)) && (utf8 ==> Utf8.ValidFrom(s, p))
    requires MembersFit(members, p - start, utf8)
    ensures var r := AfterMember(s, p, ev, count, fl);
            && Build(r.events) == Some(base + [v])
            && Fits(v, r.pos - (start - 1), utf8) && (utf8 ==> Utf8.ValidFrom(s, r.pos))
    decreases |s| - p, 0
  {
    hide Utf8.ValidFrom, Text, Build, MembersText, ParseValue, Fits, MembersFit, Members, Flatten;
    AsciiRun(s, p, p + 1);
    if Peek(s, p) == RBRACE {
      CloseMembers(base, members, ev, start, p, utf8);
      v := Object(members);
    } else {
      var q := SkipSpace(s, p + 1);
      SkipSpaceKeepsValid(s, p + 1);
      if fl.trailingCommas && Peek(s, q) == RBRACE {
        WidenMembers(members, p - start, q - start, utf8);
        CloseMembers(base, members, ev, start, q, utf8);
        AsciiRun(s, q, q + 1);
        v := Object(members);
      } else {
        WidenMembers(members, p - start, q - start - 1, utf8);
        v := MembersBuild(s, q, ev, count, fl, base, members, start, utf8);
      }
    }
  }
}
