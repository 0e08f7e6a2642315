/**
 The string tokens of section 7 of RFC 8259: a string is a run of pieces, each a byte that
 stands for itself, an escape of two characters, or a `\u` escape of one or two units. The
 reader accepts exactly these, with the bytes they spell.
 */
module Spelling {
  import opened Bytes
  import opened Json
  import opened Scalars
  import Utf8
  import Writer

  /** `cases` tells the letter case of each hexadecimal digit. */
  datatype Piece = AsIs(c: byte) | Short(letter: byte, meaning: byte) | Unicode(cp: int, cases: seq<bool>)

  /** The escapes of two characters. */
  predicate IsShort(letter: byte, meaning: byte) {
    || (letter == 0x22 && meaning == 0x22)  // \"
    || (letter == 0x5C && meaning == 0x5C)  // \\
    || (letter == 0x2F && meaning == 0x2F)  // \/
    || (letter == 0x62 && meaning == 0x08)  // \b
    || (letter == 0x66 && meaning == 0x0C)  // \f
    || (letter == 0x6E && meaning == 0x0A)  // \n
    || (letter == 0x72 && meaning == 0x0D)  // \r
    || (letter == 0x74 && meaning == 0x09)  // \t
  }

  predicate Legit(x: Piece) {
    match x
    case AsIs(c) => c >= 0x20 && c != 0x22 && c != 0x5C
    case Short(letter, meaning) => IsShort(letter, meaning)
    case Unicode(cp, cases) => Utf8.IsScalar(cp) && |cases| == 4 * |Utf8.Encode16(cp)|
  }

  predicate AllLegit(xs: seq<Piece>) {
    forall i :: 0 <= i < |xs| ==> Legit(xs[i])
  }

  /** Four hexadecimal digits, the highest first. */
  function HexText(u: Utf8.unit, cases: seq<bool>): (t: bytes)
    requires |cases| == 4
    ensures |t| == 4
  {
    [HexLetter(u / 0x1000, cases[0]), HexLetter(u / 0x100 % 0x10, cases[1]),
     HexLetter(u / 0x10 % 0x10, cases[2]), HexLetter(u % 0x10, cases[3])]
  }

  function UnitText(u: Utf8.unit, cases: seq<bool>): (t: bytes)
    requires |cases| == 4
    ensures |t| == 6
  {
    [0x5C, 0x75] + HexText(u, cases)
  }

  /** One unit, or the two of a surrogate pair. */
  function UnitsText(u: seq<Utf8.unit>, cases: seq<bool>): (t: bytes)
    requires 1 <= |u| <= 2 && |cases| == 4 * |u|
    ensures |t| == 6 * |u|
  {
    if |u| == 1 then UnitText(u[0], cases) else UnitText(u[0], cases[..4]) + UnitText(u[1], cases[4..])
  }

  function PieceText(x: Piece): (t: bytes)
    requires Legit(x)
    ensures t != []
  {
    match x
    case AsIs(c) => [c]
    case Short(letter, _) => [0x5C, letter]
    case Unicode(cp, cases) => UnitsText(Utf8.Encode16(cp), cases)
  }

  function PieceBytes(x: Piece): bytes
    requires Legit(x)
  {
    match x
    case AsIs(c) => [c]
    case Short(_, meaning) => [meaning]
    case Unicode(cp, _) => Utf8.Encode(cp)
  }

  function SpelledText(xs: seq<Piece>): bytes
    requires AllLegit(xs)
  {
    if xs == [] then [] else PieceText(xs[0]) + SpelledText(xs[1..])
  }

  function SpelledBytes(xs: seq<Piece>): bytes
    requires AllLegit(xs)
  {
    if xs == [] then [] else PieceBytes(xs[0]) + SpelledBytes(xs[1..])
  }

  // ---------- hexadecimal digits ----------

  lemma HexParts(u: Utf8.unit)
    ensures u / 0x1000 < 0x10
    ensures 16 * (16 * (16 * (u / 0x1000) + u / 0x100 % 0x10) + u / 0x10 % 0x10) + u % 0x10 == u
  {
    assert u / 0x100 == 16 * (u / 0x1000) + u / 0x100 % 0x10;
    assert u / 0x10 == 16 * (u / 0x100) + u / 0x10 % 0x10;
  }

  lemma PartsOf(a: int, b: int, c: int, d: int)
    requires 0 <= a < 16 && 0 <= b < 16 && 0 <= c < 16 && 0 <= d < 16
    ensures var u := 16 * (16 * (16 * a + b) + c) + d;
            && 0 <= u < 0x1_0000 && u / 0x1000 == a && u / 0x100 % 0x10 == b && u / 0x10 % 0x10 == c && u % 0x10 == d
  {
    var u := 16 * (16 * (16 * a + b) + c) + d;
    assert u / 0x10 == 16 * (16 * a + b) + c;
    assert u / 0x100 == 16 * a + b;
  }

  lemma OneDigit(s: bytes, p: nat, n: nat, acc: nat, escapeOffset: nat)
    requires p < |s| && n > 0
    ensures HexValue(s[p]) < 0 ==> HexDigits(s, p, n, acc, escapeOffset).Fail?
    ensures HexValue(s[p]) >= 0 ==>
              HexDigits(s, p, n, acc, escapeOffset)
              == HexDigits(s, p + 1, n - 1, 16 * acc + HexValue(s[p]), escapeOffset)
  {
  }

  lemma FourDigits(s: bytes, p: nat, escapeOffset: nat)
    requires p + 4 <= |s|
    requires forall i :: p <= i < p + 4 ==> HexValue(s[i]) >= 0
    ensures var a, b, c, d := HexValue(s[p]), HexValue(s[p + 1]), HexValue(s[p + 2]), HexValue(s[p + 3]);
            ParseHex4(s, p, escapeOffset) == Done(16 * (16 * (16 * a + b) + c) + d, p + 4)
  {
    var a, b, c, d := HexValue(s[p]), HexValue(s[p + 1]), HexValue(s[p + 2]), HexValue(s[p + 3]);
    OneDigit(s, p, 4, 0, escapeOffset);
    OneDigit(s, p + 1, 3, a, escapeOffset);
    OneDigit(s, p + 2, 2, 16 * a + b, escapeOffset);
    OneDigit(s, p + 3, 1, 16 * (16 * a + b) + c, escapeOffset);
  }

  /** Four digits in either case read back as the unit they spell. */
  lemma HexRead(s: bytes, p: nat, u: Utf8.unit, cases: seq<bool>, escapeOffset: nat)
    requires |cases| == 4 && At(s, p, HexText(u, cases))
    ensures ParseHex4(s, p, escapeOffset) == Done(u, p + 4)
  {
    var t := HexText(u, cases);
    AtPeek(s, p, t, 0);
    AtPeek(s, p, t, 1);
    AtPeek(s, p, t, 2);
    AtPeek(s, p, t, 3);
    HexParts(u);
    hide HexLetter, HexValue, ParseHex4;
    FourDigits(s, p, escapeOffset);
  }

  lemma {:induction false} DigitsAreHex(s: bytes, p: nat, n: nat, acc: nat, escapeOffset: nat)
    requires p <= |s| && HexDigits(s, p, n, acc, escapeOffset).Done?
    ensures p + n <= |s| && forall i :: p <= i < p + n ==> HexValue(s[i]) >= 0
    decreases n
  {
    if n > 0 {
      DigitsAreHex(s, p + 1, n - 1, 16 * acc + HexValue(Peek(s, p)), escapeOffset);
    }
  }

  /** What reads as a unit is four digits that spell it. */
  lemma HexOf(s: bytes, p: nat, escapeOffset: nat) returns (cases: seq<bool>)
    requires p <= |s| && ParseHex4(s, p, escapeOffset).Done?
    ensures |cases| == 4 && At(s, p, HexText(ParseHex4(s, p, escapeOffset).value, cases))
  {
    DigitsAreHex(s, p, 4, 0, escapeOffset);
    FourDigits(s, p, escapeOffset);
    hide ParseHex4, HexValue;
    cases := [s[p] <= 0x46, s[p + 1] <= 0x46, s[p + 2] <= 0x46, s[p + 3] <= 0x46];
    HexLetterOf(s[p]);
    HexLetterOf(s[p + 1]);
    HexLetterOf(s[p + 2]);
    HexLetterOf(s[p + 3]);
    PartsOf(HexValue(s[p]), HexValue(s[p + 1]), HexValue(s[p + 2]), HexValue(s[p + 3]));
    hide HexLetter;
    assert s[p..p + 4] == [s[p], s[p + 1], s[p + 2], s[p + 3]];
  }

  // ---------- \u escapes ----------

  /** The surrogate pair of a code point, and the code point of a pair. */
  lemma Surrogates(cp: int)
    requires 0x1_0000 <= cp <= 0x10_FFFF
    ensures var u := Utf8.Encode16(cp);
            && |u| == 2 && 0xD800 <= u[0] <= 0xDBFF && 0xDC00 <= u[1] <= 0xDFFF
            && (u[0] as int - 0xD800) * 0x400 + (u[1] as int - 0xDC00) + 0x1_0000 == cp
  {
  }

  lemma PairOf(high: int, low: int)
    requires 0xD800 <= high <= 0xDBFF && 0xDC00 <= low <= 0xDFFF
    ensures var cp := (high - 0xD800) * 0x400 + (low - 0xDC00) + 0x1_0000;
            Utf8.IsScalar(cp) && Utf8.Encode16(cp) == [high, low]
  {
    var cp := (high - 0xD800) * 0x400 + (low - 0xDC00) + 0x1_0000;
    assert (cp - 0x1_0000) / 0x400 == high - 0xD800 && (cp - 0x1_0000) % 0x400 == low - 0xDC00;
  }

  lemma UnitAt(s: bytes, p: nat, u: Utf8.unit, cases: seq<bool>)
    requires |cases| == 4 && At(s, p, UnitText(u, cases))
    ensures Peek(s, p) == 0x5C && Peek(s, p + 1) == 0x75 && At(s, p + 2, HexText(u, cases)) && p + 6 <= |s|
  {
    hide HexText;
    AtPeek(s, p, UnitText(u, cases), 0);
    AtPeek(s, p, UnitText(u, cases), 1);
    AtConcat(s, p, [0x5C, 0x75], HexText(u, cases));
  }

  /** Main result on escapes: the units of a scalar value, in digits of either case, read back as that value. */
  lemma UnicodeRead(s: bytes, p: nat, cp: int, cases: seq<bool>)
    requires Utf8.IsScalar(cp) && |cases| == 4 * |Utf8.Encode16(cp)|
    requires At(s, p, UnitsText(Utf8.Encode16(cp), cases))
    ensures Peek(s, p) == 0x5C && Peek(s, p + 1) == 0x75 && p + 2 <= |s|
    ensures ParseUnicodeEscape(s, p) == Done(cp, p + 6 * |Utf8.Encode16(cp)|)
  {
    hide HexText, ParseHex4;
    var u := Utf8.Encode16(cp);
    if |u| == 1 {
      hide UnitText;
      UnitAt(s, p, u[0], cases);
      HexRead(s, p + 2, u[0], cases, p);
    } else {
      Surrogates(cp);
      hide UnitText, Utf8.Encode16;
      AtConcat(s, p, UnitText(u[0], cases[..4]), UnitText(u[1], cases[4..]));
      UnitAt(s, p, u[0], cases[..4]);
      UnitAt(s, p + 6, u[1], cases[4..]);
      HexRead(s, p + 2, u[0], cases[..4], p);
      HexRead(s, p + 8, u[1], cases[4..], p);
    }
  }

  /** What reads as a `\u` escape is the units of the value it reads as. */
  lemma UnicodeOf(s: bytes, p: nat) returns (cases: seq<bool>)
    requires p + 2 <= |s| && s[p] == 0x5C && s[p + 1] == 0x75 && ParseUnicodeEscape(s, p).Done?
    ensures var r := ParseUnicodeEscape(s, p);
            && |cases| == 4 * |Utf8.Encode16(r.value)| && r.next == p + 6 * |Utf8.Encode16(r.value)|
            && At(s, p, UnitsText(Utf8.Encode16(r.value), cases))
  {
    hide HexText, ParseHex4;
    var high := ParseHex4(s, p + 2, p).value;
    var first := HexOf(s, p + 2, p);
    UnitStands(s, p, high, first);
    if 0xD800 <= high <= 0xDBFF {
      var low := ParseHex4(s, p + 8, p).value;
      var second := HexOf(s, p + 8, p);
      UnitStands(s, p + 6, low, second);
      PairOf(high, low);
      hide UnitText, Utf8.Encode16;
      cases := first + second;
      assert cases[..4] == first && cases[4..] == second;
      AtJoin(s, p, UnitText(high, first), UnitText(low, second));
    } else {
      cases := first;
    }
  }

  lemma UnitStands(s: bytes, p: nat, u: Utf8.unit, cases: seq<bool>)
    requires |cases| == 4 && Peek(s, p) == 0x5C && Peek(s, p + 1) == 0x75 && At(s, p + 2, HexText(u, cases))
    ensures At(s, p, UnitText(u, cases))
  {
    hide HexText;
    assert s[p..p + 2] == [0x5C, 0x75];
    AtJoin(s, p, [0x5C, 0x75], HexText(u, cases));
  }

  lemma AtJoin(s: bytes, p: nat, a: bytes, b: bytes)
    requires At(s, p, a) && At(s, p + |a|, b)
    ensures At(s, p, a + b)
  {
    assert s[p..p + |a| + |b|] == s[p..p + |a|] + s[p + |a|..p + |a| + |b|];
  }

  // ---------- pieces ----------

  lemma ShortEscapes(letter: byte)
    ensures Unescape(letter) != 0 ==> IsShort(letter, Unescape(letter)) && letter != 0x75
    ensures forall meaning :: IsShort(letter, meaning) ==> Unescape(letter) == meaning != 0
  {
  }

  lemma PieceRead(s: bytes, p: nat, x: Piece, acc: bytes)
    requires Legit(x) && At(s, p, PieceText(x))
    ensures Peek(s, p) != QUOTE
    ensures StringBody(s, p, acc) == StringBody(s, p + |PieceText(x)|, acc + PieceBytes(x))
  {
    hide ParseUnicodeEscape, UnitsText, Utf8.Encode, Unescape;
    match x {
      case AsIs(c) =>
        AtPeek(s, p, [c], 0);
      case Short(letter, meaning) =>
        ShortEscapes(letter);
        AtPeek(s, p, [0x5C, letter], 0);
        AtPeek(s, p, [0x5C, letter], 1);
      case Unicode(cp, cases) =>
        UnicodeRead(s, p, cp, cases);
        ShortEscapes(0x75);
    }
  }

  /** Main result, one way: a legitimate spelling is read as the bytes it spells. */
  lemma {:induction false} SpellingRead(s: bytes, p: nat, xs: seq<Piece>, acc: bytes)
    requires AllLegit(xs) && At(s, p, SpelledText(xs) + [QUOTE])
    ensures StringBody(s, p, acc) == Done(acc + SpelledBytes(xs), p + |SpelledText(xs)| + 1)
    decreases |xs|
  {
    hide At, StringBody, PieceText, PieceBytes, AllLegit, Legit, SpelledText, SpelledBytes;
    if xs == [] {
      ClosingQuote(s, p, acc);
    } else {
      SpelledHead(xs);
      SpelledStep(s, p, xs, acc);
      SpellingRead(s, p + |PieceText(xs[0])|, xs[1..], acc + PieceBytes(xs[0]));
      Regroup(acc, PieceBytes(xs[0]), SpelledBytes(xs[1..]));
    }
  }

  lemma SpelledStep(s: bytes, p: nat, xs: seq<Piece>, acc: bytes)
    requires xs != [] && AllLegit(xs) && At(s, p, SpelledText(xs) + [QUOTE])
    ensures At(s, p + |PieceText(xs[0])|, SpelledText(xs[1..]) + [QUOTE])
    ensures StringBody(s, p, acc) == StringBody(s, p + |PieceText(xs[0])|, acc + PieceBytes(xs[0]))
  {
    hide At, StringBody, PieceText, PieceBytes, AllLegit, Legit, SpelledText, SpelledBytes;
    SpelledHead(xs);
    Regroup(PieceText(xs[0]), SpelledText(xs[1..]), [QUOTE]);
    AtConcat(s, p, PieceText(xs[0]), SpelledText(xs[1..]) + [QUOTE]);
    PieceRead(s, p, xs[0], acc);
  }

  lemma SpelledHead(xs: seq<Piece>)
    requires xs != [] && AllLegit(xs)
    ensures Legit(xs[0]) && AllLegit(xs[1..])
    ensures SpelledText(xs) == PieceText(xs[0]) + SpelledText(xs[1..])
    ensures SpelledBytes(xs) == PieceBytes(xs[0]) + SpelledBytes(xs[1..])
  {
    hide Legit, PieceText, PieceBytes;
  }

  lemma ClosingQuote(s: bytes, p: nat, acc: bytes)
    requires At(s, p, SpelledText([]) + [QUOTE])
    ensures StringBody(s, p, acc) == Done(acc + SpelledBytes([]), p + |SpelledText([])| + 1)
  {
    AtPeek(s, p, [QUOTE], 0);
    assert acc + SpelledBytes([]) == acc;
  }

  // ---------- the other way ----------

  predicate HexStands(s: bytes, p: nat) {
    p + 4 <= |s| && forall i :: p <= i < p + 4 ==> HexValue(s[i]) >= 0
  }

  /** What stands where reading fails, for each error. */
  ghost predicate ErrorStands(s: bytes, p: nat, code: ErrorCode) {
    match code
    case StringMissQuotationMark => Peek(s, p) == 0
    case StringInvalidEncoding => 0 < Peek(s, p) < 0x20
    case StringEscapeInvalid =>
      && Peek(s, p) == 0x5C && Peek(s, p + 1) != 0x75
      && var letter := Peek(s, p + 1);
         forall meaning :: !IsShort(letter, meaning)
    case StringUnicodeEscapeInvalidHex =>
      && Peek(s, p) == 0x5C && Peek(s, p + 1) == 0x75
      && !(HexStands(s, p + 2) && HexStands(s, p + 8))
    case StringUnicodeSurrogateInvalid =>
      && Peek(s, p) == 0x5C && Peek(s, p + 1) == 0x75 && HexStands(s, p + 2)
      && forall cp, cases :: Legit(Unicode(cp, cases)) ==> !At(s, p, PieceText(Unicode(cp, cases)))
    case _ => false
  }

  lemma {:induction false} HexFailure(s: bytes, p: nat, n: nat, acc: nat, escapeOffset: nat)
    requires p <= |s|
    ensures var r := HexDigits(s, p, n, acc, escapeOffset);
            r.Fail? ==> r == Fail(StringUnicodeEscapeInvalidHex, escapeOffset)
    decreases n
  {
    if n > 0 && HexValue(Peek(s, p)) >= 0 {
      HexFailure(s, p + 1, n - 1, 16 * acc + HexValue(Peek(s, p)), escapeOffset);
    }
  }

  lemma HexOrError(s: bytes, p: nat, escapeOffset: nat)
    requires p <= |s|
    ensures ParseHex4(s, p, escapeOffset).Done? <==> HexStands(s, p)
    ensures ParseHex4(s, p, escapeOffset).Fail? ==>
              ParseHex4(s, p, escapeOffset) == Fail(StringUnicodeEscapeInvalidHex, escapeOffset)
  {
    HexFailure(s, p, 4, 0, escapeOffset);
    if HexStands(s, p) {
      FourDigits(s, p, escapeOffset);
    }
    if ParseHex4(s, p, escapeOffset).Done? {
      DigitsAreHex(s, p, 4, 0, escapeOffset);
    }
  }

  lemma UnicodeError(s: bytes, p: nat)
    requires p + 2 <= |s| && s[p] == 0x5C && s[p + 1] == 0x75 && ParseUnicodeEscape(s, p).Fail?
    ensures var r := ParseUnicodeEscape(s, p); r.offset == p && ErrorStands(s, p, r.code)
  {
    hide ParseHex4, HexStands, PieceText, Utf8.Encode16;
    HexOrError(s, p + 2, p);
    if p + 8 <= |s| {
      HexOrError(s, p + 8, p);
    }
    forall cp, cases | Legit(Unicode(cp, cases)) ensures !At(s, p, PieceText(Unicode(cp, cases))) {
      if At(s, p, PieceText(Unicode(cp, cases))) {
        PieceIsUnits(cp, cases);
        UnicodeRead(s, p, cp, cases);
      }
    }
  }

  lemma PieceIsUnits(cp: int, cases: seq<bool>)
    requires Legit(Unicode(cp, cases))
    ensures PieceText(Unicode(cp, cases)) == UnitsText(Utf8.Encode16(cp), cases)
  {
  }

  /** Neither the closing quote nor a piece stands here. */
  ghost predicate Stuck(s: bytes, p: nat)
    requires p <= |s|
  {
    || ErrorStands(s, p, StringMissQuotationMark) || ErrorStands(s, p, StringInvalidEncoding)
    || ErrorStands(s, p, StringEscapeInvalid)
    || (p + 2 <= |s| && s[p] == 0x5C && s[p + 1] == 0x75 && ParseUnicodeEscape(s, p).Fail?)
  }

  lemma StuckFails(s: bytes, p: nat, acc: bytes)
    requires p <= |s| && Stuck(s, p)
    ensures var r := StringBody(s, p, acc); r.Fail? && r.offset == p && ErrorStands(s, p, r.code)
  {
    ShortEscapes(Peek(s, p + 1));
    hide Unescape, ParseUnicodeEscape, IsShort;
    if p + 2 <= |s| && s[p] == 0x5C && s[p + 1] == 0x75 {
      UnicodeError(s, p);
    }
  }

  /** One step of the loop, where it goes on: a piece. */
  lemma PieceOf(s: bytes, p: nat, acc: bytes) returns (x: Piece)
    requires p <= |s| && Peek(s, p) != QUOTE && !Stuck(s, p)
    ensures Legit(x) && At(s, p, PieceText(x))
  {
    if s[p] != 0x5C {
      x := AsIs(s[p]);
    } else if Peek(s, p + 1) == 0x75 {
      var cases := UnicodeOf(s, p);
      x := Unicode(ParseUnicodeEscape(s, p).value, cases);
    } else {
      var meaning :| IsShort(Peek(s, p + 1), meaning);
      x := Short(s[p + 1], meaning);
      assert s[p..p + 2] == [0x5C, s[p + 1]];
    }
  }

  lemma NoPieces(s: bytes, p: nat, acc: bytes)
    requires p <= |s|
    ensures SpelledText([]) == [] && acc + SpelledBytes([]) == acc && At(s, p, [])
    ensures Peek(s, p) == QUOTE ==> StringBody(s, p, acc) == Done(acc, p + 1) && At(s, p, SpelledText([]) + [QUOTE])
  {
    if Peek(s, p) == QUOTE {
      assert s[p..p + 1] == [QUOTE];
    }
  }

  /**
   Main result, the other way: what is read is spelled by pieces, and where reading fails pieces come up
   to the error, at whose offset there is no piece but what its code says.
   */
  lemma {:induction false} SpellingOf(s: bytes, p: nat, acc: bytes) returns (xs: seq<Piece>)
    requires p <= |s|
    ensures AllLegit(xs)
    ensures var r := StringBody(s, p, acc);
            if r.Done? then At(s, p, SpelledText(xs) + [QUOTE]) && r.value == acc + SpelledBytes(xs)
            else At(s, p, SpelledText(xs)) && r.offset == p + |SpelledText(xs)| && ErrorStands(s, r.offset, r.code)
    decreases |s| - p
  {
    hide PieceText, PieceBytes, Legit, StringBody, Stuck;
    xs := [];
    NoPieces(s, p, acc);
    if Peek(s, p) == QUOTE {
    } else if Stuck(s, p) {
      StuckFails(s, p, acc);
    } else {
      var x := PieceOf(s, p, acc);
      PieceRead(s, p, x, acc);
      hide StringBody, ErrorStands, At, SpelledText, SpelledBytes;
      var rest := SpellingOf(s, p + |PieceText(x)|, acc + PieceBytes(x));
      xs := [x] + rest;
      OneMorePiece(s, p, x, rest, acc);
    }
  }

  lemma OneMorePiece(s: bytes, p: nat, x: Piece, rest: seq<Piece>, acc: bytes)
    requires Legit(x) && AllLegit(rest) && At(s, p, PieceText(x))
    ensures AllLegit([x] + rest)
    ensures |SpelledText([x] + rest)| == |PieceText(x)| + |SpelledText(rest)|
    ensures acc + PieceBytes(x) + SpelledBytes(rest) == acc + SpelledBytes([x] + rest)
    ensures At(s, p + |PieceText(x)|, SpelledText(rest)) ==> At(s, p, SpelledText([x] + rest))
    ensures At(s, p + |PieceText(x)|, SpelledText(rest) + [QUOTE]) ==> At(s, p, SpelledText([x] + rest) + [QUOTE])
  {
    hide PieceText, PieceBytes, Legit, At;
    assert ([x] + rest)[1..] == rest;
    Regroup(acc, PieceBytes(x), SpelledBytes(rest));
    Regroup(PieceText(x), SpelledText(rest), [QUOTE]);
    if At(s, p + |PieceText(x)|, SpelledText(rest)) {
      AtJoin(s, p, PieceText(x), SpelledText(rest));
    }
    if At(s, p + |PieceText(x)|, SpelledText(rest) + [QUOTE]) {
      AtJoin(s, p, PieceText(x), SpelledText(rest) + [QUOTE]);
    }
  }

  // ---------- what the writer spells ----------

  /** The shortest way to spell one byte: a solidus stays as it is, and digits are capitals. */
  function Canonical(c: byte): Piece {
    if c == 0x22 || c == 0x5C then Short(c, c)
    else if c == 0x08 then Short(0x62, c)
    else if c == 0x09 then Short(0x74, c)
    else if c == 0x0A then Short(0x6E, c)
    else if c == 0x0C then Short(0x66, c)
    else if c == 0x0D then Short(0x72, c)
    else if c < 0x20 then Unicode(c as int, [true, true, true, true])
    else AsIs(c)
  }

  lemma WriterSpells(c: byte)
    ensures Legit(Canonical(c)) && PieceBytes(Canonical(c)) == [c] && PieceText(Canonical(c)) == Writer.Escaped(c)
  {
    if c < 0x20 {
      assert (c as int) / 0x1000 == 0 && (c as int) / 0x100 % 0x10 == 0 && (c as int) / 0x10 % 0x10 == c / 16;
    }
  }
}
