/**
 What the reader does on one scalar token: the specification of `ParseString`,
 `ParseNumber`, `ParseNull`, `ParseTrue` and `ParseFalse` as functions of the text
 and the cursor. The loops that compute them are methods of `Reader.Reader`.
 */
module Scalars {
  import opened Bytes
  import opened Json
  import Utf8

  datatype Scan<+T> =
    | Done(value: T, next: nat)
    | Fail(code: ErrorCode, offset: nat)

  // ---------- strings ----------

  /** The character a two-character escape stands for, or 0. */
  function Unescape(e: byte): byte {
    match e
    case 0x22 => 0x22
    case 0x2F => 0x2F
    case 0x5C => 0x5C
    case 0x62 => 0x08
    case 0x66 => 0x0C
    case 0x6E => 0x0A
    case 0x72 => 0x0D
    case 0x74 => 0x09
    case _ => 0
  }

  /** `n` more hexadecimal digits, most significant first. */
  function HexDigits(s: bytes, p: nat, n: nat, acc: nat, escapeOffset: nat): (r: Scan<nat>)
    requires p <= |s|
    ensures r.Done? ==> r.next == p + n <= |s|
    decreases n
  {
    if n == 0 then Done(acc, p)
    else
      var d := HexValue(Peek(s, p));
      if d < 0 then Fail(StringUnicodeEscapeInvalidHex, escapeOffset)
      else HexDigits(s, p + 1, n - 1, 16 * acc + d, escapeOffset)
  }

  function Pow16(n: nat): nat {
    if n == 0 then 1 else 16 * Pow16(n - 1)
  }

  lemma ScaleUp(a: nat, b: nat, k: nat)
    requires a <= 16 * b
    ensures a * k <= b * (16 * k)
  {
    assert b * (16 * k) == (16 * b) * k;
    assert 0 <= (16 * b - a) * k;
  }

  lemma {:induction false} HexDigitsBound(s: bytes, p: nat, n: nat, acc: nat, escapeOffset: nat)
    requires p <= |s|
    ensures var r := HexDigits(s, p, n, acc, escapeOffset); r.Done? ==> r.value < (acc + 1) * Pow16(n)
    decreases n
  {
    if n > 0 && HexValue(Peek(s, p)) >= 0 {
      var d := HexValue(Peek(s, p));
      HexDigitsBound(s, p + 1, n - 1, 16 * acc + d, escapeOffset);
      ScaleUp(16 * acc + d + 1, acc + 1, Pow16(n - 1));
    }
  }

  function ParseHex4(s: bytes, p: nat, escapeOffset: nat): (r: Scan<nat>)
    requires p <= |s|
    ensures r.Done? ==> r.value < 0x10000 && r.next == p + 4 <= |s|
  {
    HexDigitsBound(s, p, 4, 0, escapeOffset);
    assert Pow16(4) == 0x10000;
    HexDigits(s, p, 4, 0, escapeOffset)
  }

  /** The code point of the `\u` escape whose backslash is at `p`, joining surrogate pairs. */
  function ParseUnicodeEscape(s: bytes, p: nat): (r: Scan<nat>)
    requires p + 2 <= |s|
    ensures r.Done? ==> Utf8.IsScalar(r.value) && p + 6 <= r.next <= |s|
  {
    match ParseHex4(s, p + 2, p)
    case Fail(code, offset) => Fail(code, offset)
    case Done(high, q) =>
      if 0xD800 <= high <= 0xDFFF then
        if high > 0xDBFF then Fail(StringUnicodeSurrogateInvalid, p)
        else if Peek(s, q) != BACKSLASH || Peek(s, q + 1) != LOWER_U then Fail(StringUnicodeSurrogateInvalid, p)
        else
          match ParseHex4(s, q + 2, p)
          case Fail(code, offset) => Fail(code, offset)
          case Done(low, q') =>
            if low < 0xDC00 || low > 0xDFFF then Fail(StringUnicodeSurrogateInvalid, p)
            else Done((high - 0xD800) * 0x400 + (low - 0xDC00) + 0x10000, q')
      else Done(high, q)
  }

  /** The rest of a string token, `acc` being what was decoded so far. */
  function StringBody(s: bytes, p: nat, acc: bytes): (r: Scan<bytes>)
    requires p <= |s|
    ensures r.Done? ==> p < r.next <= |s| && s[r.next - 1] == QUOTE
    decreases |s| - p
  {
    var c := Peek(s, p);
    if c == BACKSLASH then
      var e := Peek(s, p + 1);
      if Unescape(e) != 0 then StringBody(s, p + 2, acc + [Unescape(e)])
      else if e == LOWER_U then
        match ParseUnicodeEscape(s, p)
        case Fail(code, offset) => Fail(code, offset)
        case Done(cp, q) => StringBody(s, q, acc + Utf8.Encode(cp))
      else Fail(StringEscapeInvalid, p)
    else if c == QUOTE then Done(acc, p + 1)
    else if c < 0x20 then Fail(if c == NUL then StringMissQuotationMark else StringInvalidEncoding, p)
    else StringBody(s, p + 1, acc + [c])
  }

  function ParseString(s: bytes, p: nat): (r: Scan<bytes>)
    requires p < |s|
    ensures r.Done? ==> p + 1 < r.next <= |s|
  {
    StringBody(s, p + 1, [])
  }

  // ---------- numbers ----------

  /** Largest magnitude the 32-bit loop, or the 64-bit loop if `wide`, may hold. */
  function Limit(minus: bool, wide: bool): nat {
    if wide then (if minus then 0x8000_0000_0000_0000 else 0xFFFF_FFFF_FFFF_FFFF)
    else (if minus then 0x8000_0000 else 0xFFFF_FFFF)
  }

  /** The source's digit-by-digit test for "one more digit would pass the limit". */
  predicate Overflows(minus: bool, wide: bool, i: nat, digit: byte) {
    var tenth := Limit(minus, wide) / 10;
    i >= tenth && (i != tenth || digit > 0x30 + Limit(minus, wide) % 10)
  }

  /** The source's test fires exactly when the next digit would pass the limit. */
  lemma OverflowIsExact(minus: bool, wide: bool, i: nat, digit: byte)
    requires IsDigit(digit)
    ensures Overflows(minus, wide, i, digit) <==> 10 * i + (digit - 0x30) > Limit(minus, wide)
  {
  }

  datatype Magnitude =
    | Small(i: nat, next: nat)
    | Large(i64: nat, next: nat)
    | TooLarge

  /** The two digit loops: 32 bits first, then 64 bits, then the floating-point path. */
  function Digits(s: bytes, p: nat, minus: bool, wide: bool, i: nat): (r: Magnitude)
    requires p <= |s|
    ensures !r.TooLarge? ==> p <= r.next <= |s| && !IsDigit(Peek(s, r.next))
    decreases |s| - p, !wide
  {
    if !IsDigit(Peek(s, p)) then (if wide then Large(i, p) else Small(i, p))
    else if Overflows(minus, wide, i, s[p]) then
      (if wide then TooLarge else Digits(s, p, minus, true, i))
    else Digits(s, p + 1, minus, wide, 10 * i + (s[p] - 0x30))
  }

  /** Two's complement reading of a 32-bit or 64-bit word. */
  function Signed32(w: nat): int {
    if w < 0x8000_0000 then w else w - 0x1_0000_0000
  }

  function Signed64(w: nat): int {
    if w < 0x8000_0000_0000_0000 then w else w - 0x1_0000_0000_0000_0000
  }

  /** The event for a magnitude: `~i + 1` in 32 or 64 bits when there was a minus sign. */
  function NumberEvent(minus: bool, m: Magnitude): Event
    requires !m.TooLarge?
  {
    match m
    case Small(i, _) =>
      if minus then IntEvent(Signed32((0x1_0000_0000 - i) % 0x1_0000_0000)) else UintEvent(i)
    case Large(i, _) =>
      if minus then Int64Event(Signed64((0x1_0000_0000_0000_0000 - i) % 0x1_0000_0000_0000_0000)) else Uint64Event(i)
  }

  /** A dot or an exponent sends the source to its floating-point path. */
  predicate ContinuesAsDouble(c: byte) {
    c == DOT || c == 0x65 || c == 0x45
  }

  /** What follows the optional minus sign. */
  function ParseMagnitude(s: bytes, q: nat, minus: bool): (r: Scan<Magnitude>)
    requires q <= |s|
    ensures r.Done? ==> !r.value.TooLarge? && r.next == r.value.next && q < r.next <= |s|
  {
    var c := Peek(s, q);
    if !IsDigit(c) then Fail(ValueInvalid, q)
    else
      var m := if c == ZERO then Small(0, q + 1) else Digits(s, q + 1, minus, false, c - 0x30);
      if m.TooLarge? then Fail(NumberNotInteger, q)
      else if ContinuesAsDouble(Peek(s, m.next)) then Fail(NumberNotInteger, m.next)
      else Done(m, m.next)
  }

  function ParseNumber(s: bytes, p: nat): (r: Scan<Event>)
    requires p <= |s|
    ensures r.Done? ==> p < r.next <= |s|
  {
    var minus := Peek(s, p) == MINUS;
    match ParseMagnitude(s, if minus then p + 1 else p, minus)
    case Fail(code, offset) => Fail(code, offset)
    case Done(m, next) => Done(NumberEvent(minus, m), next)
  }

  // ---------- literals and scalars ----------

  const TRUE: bytes := [0x74, 0x72, 0x75, 0x65]
  const FALSE: bytes := [0x66, 0x61, 0x6C, 0x73, 0x65]
  const NULL: bytes := [0x6E, 0x75, 0x6C, 0x6C]

  /** How far `s` at `p` agrees with `word` from its `k`-th byte on. */
  function Matched(s: bytes, p: nat, word: bytes, k: nat): (q: nat)
    requires p <= |s| && k <= |word|
    ensures p <= q <= |s| && q - p <= |word| - k
    decreases |word| - k
  {
    if k < |word| && p < |s| && s[p] == word[k] then Matched(s, p + 1, word, k + 1) else p
  }

  function ParseLiteral(s: bytes, p: nat, word: bytes, e: Event): (r: Scan<Event>)
    requires p < |s| && |word| > 1
    ensures r.Done? ==> p < r.next <= |s|
  {
    var q := Matched(s, p + 1, word, 1);
    if q == p + |word| then Done(e, q) else Fail(ValueInvalid, q)
  }

  /** `ParseValue` on everything but the two compound kinds. */
  function ParseScalar(s: bytes, p: nat): (r: Scan<Event>)
    requires p <= |s|
    ensures r.Done? ==> p < r.next <= |s|
  {
    var c := Peek(s, p);
    if c == 0x6E then ParseLiteral(s, p, NULL, NullEvent)
    else if c == 0x74 then ParseLiteral(s, p, TRUE, BoolEvent(true))
    else if c == 0x66 then ParseLiteral(s, p, FALSE, BoolEvent(false))
    else if c == QUOTE then
      match ParseString(s, p)
      case Fail(code, offset) => Fail(code, offset)
      case Done(str, next) => Done(StringEvent(str), next)
    else ParseNumber(s, p)
  }
}
