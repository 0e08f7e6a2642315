/**
 The two texts of a JSON pointer (RFC 6901): the string form of section 3 and the URI
 fragment form of section 6, and reading them back into tokens.
 */
module PointerText {
  import opened Bytes
  import opened Json
  import opened PointerTree
  import Utf8
  import Writer

  const HASH: byte := 0x23     // #
  const PERCENT: byte := 0x25  // %
  const TILDE: byte := 0x7E    // ~
  const ONE: byte := 0x31      // 1

  const INVALID_INDEX: nat := 0xFFFF_FFFF

  datatype PointerError =
    | TokenMustBeginWithSolidus
    | InvalidEscape
    | InvalidPercentEncoding
    | CharacterMustPercentEncode

  datatype Outcome = Parsed(tokens: seq<Token>) | Failed(code: PointerError, offset: nat)

  predicate NeedPercentEncode(c: byte) {
    !(IsDigit(c) || 0x41 <= c <= 0x5A || 0x61 <= c <= 0x7A || c == 0x2D || c == 0x2E || c == 0x5F || c == TILDE)
  }

  // ---------- indexes ----------

  predicate LooksLikeNumber(name: bytes) {
    && name != [] && AllDigits(name)
    && (|name| > 1 ==> name[0] != ZERO)
  }

  /** One step of the conversion, which gives up where it makes the number smaller. */
  function NextIndex(n: nat, digit: nat): (m: Option<nat>)
    ensures m.Some? ==> m.value <= 0xFFFF_FFFF
  {
    var m: nat := (n * 10 + digit) % 0x1_0000_0000;
    if m < n then None else Some(m)
  }

  /** The 32-bit conversion of a name of digits. */
  function ToIndex(name: bytes): (n: Option<nat>)
    requires AllDigits(name)
    ensures n.Some? ==> n.value <= 0xFFFF_FFFF
  {
    if name == [] then Some(0)
    else
      var n := ToIndex(name[..|name| - 1]);
      if n.None? then None else NextIndex(n.value, DigitValue(name[|name| - 1]))
  }

  /** The index of a token is a function of its name. */
  function IndexOf(name: bytes): Option<nat> {
    if !LooksLikeNumber(name) then None
    else
      var n := ToIndex(name);
      if n == Some(INVALID_INDEX) then None else n
  }

  /** An index is the decimal value up to wrapping around, and it is that value whenever the value is below 2^32. */
  lemma {:induction false} IndexIsDecimal(name: bytes)
    requires AllDigits(name)
    ensures ToIndex(name).Some? ==> ToIndex(name).value == DecimalValue(name) % 0x1_0000_0000
    ensures DecimalValue(name) < 0x1_0000_0000 ==> ToIndex(name) == Some(DecimalValue(name))
    decreases |name|
  {
    hide DigitValue;
    if name != [] {
      var init, digit := name[..|name| - 1], DigitValue(name[|name| - 1]);
      IndexIsDecimal(init);
      var v := DecimalValue(init);
      assert DecimalValue(name) == v * 10 + digit;
      WrapStep(v, digit);
    }
  }

  lemma WrapStep(v: nat, digit: nat)
    ensures (v % 0x1_0000_0000 * 10 + digit) % 0x1_0000_0000 == (v * 10 + digit) % 0x1_0000_0000
  {
    var q, r := v / 0x1_0000_0000, v % 0x1_0000_0000;
    var x := r * 10 + digit;
    assert v * 10 + digit == q * 10 * 0x1_0000_0000 + x;
    assert x == x / 0x1_0000_0000 * 0x1_0000_0000 + x % 0x1_0000_0000;
    assert (v * 10 + digit) / 0x1_0000_0000 == q * 10 + x / 0x1_0000_0000;
  }

  /** A name that looks like a number has its decimal value as index exactly when that value is below 2^32 - 1. */
  lemma IndexExact(name: bytes)
    requires LooksLikeNumber(name)
    ensures IndexOf(name) == Some(DecimalValue(name)) <==> DecimalValue(name) < INVALID_INDEX
  {
    IndexIsDecimal(name);
  }

  /** The decimal notation of a number, without leading zeros, looks like a number, and denotes it. */
  lemma {:induction false} DecimalLooksLikeNumber(n: nat)
    ensures LooksLikeNumber(Writer.Decimal(n)) && DecimalValue(Writer.Decimal(n)) == n
    ensures n > 0 ==> Writer.Decimal(n)[0] != ZERO
  {
    var ds := Writer.Decimal(n);
    var top: nat := |ds| - 1;
    if n < 10 {
      assert ds[..0] == [];
    } else {
      DecimalLooksLikeNumber(n / 10);
      assert ds[..top] == Writer.Decimal(n / 10) && ds[top] == 0x30 + n % 10;
      assert ds[0] == ds[..top][0];
    }
  }

  /** Nothing else looks like a number. */
  lemma {:induction false} NumbersAreDecimal(name: bytes)
    requires LooksLikeNumber(name)
    ensures name == Writer.Decimal(DecimalValue(name)) && (name[0] != ZERO ==> DecimalValue(name) > 0)
    decreases |name|
  {
    var top: nat := |name| - 1;
    if top == 0 {
      assert name[..0] == [] && name == [name[0]];
    } else {
      var init := name[..top];
      assert init[0] == name[0];
      NumbersAreDecimal(init);
      assert name == init + [name[top]];
    }
  }

  /** The names with an index are decimal notations, and below 2^32 - 1 every number is the index of its notation. */
  lemma IndexesAreDecimal(name: bytes, n: nat)
    ensures IndexOf(name).Some? ==> exists m: nat :: name == Writer.Decimal(m)
    ensures IndexOf(Writer.Decimal(n)) == Some(n) <==> n < INVALID_INDEX
  {
    hide Writer.Decimal, DecimalValue, ToIndex;
    DecimalLooksLikeNumber(n);
    IndexExact(Writer.Decimal(n));
    if IndexOf(name).Some? {
      NumbersAreDecimal(name);
    }
  }

  /** The wrapped value of the first `k` digits. */
  function WrappedPrefix(name: bytes, k: nat): nat
    requires AllDigits(name) && k <= |name|
  {
    DecimalValue(name[..k]) % 0x1_0000_0000
  }

  /**
   Which names of digits pass the overflow test: those whose wrapped value never shrinks from one digit
   to the next.
   */
  lemma {:induction false} PassesOverflowTest(name: bytes)
    requires AllDigits(name)
    ensures ToIndex(name).Some?
            <==> forall k :: 0 <= k < |name| ==> WrappedPrefix(name, k) <= WrappedPrefix(name, k + 1)
    decreases |name|
  {
    hide DecimalValue;
    if name != [] {
      hide ToIndex, WrappedPrefix;
      var n := |name| - 1;
      var init := name[..n];
      PassesOverflowTest(init);
      LastDigitTest(name);
      forall k | 0 <= k <= n ensures WrappedPrefix(name, k) == WrappedPrefix(init, k) {
        SamePrefix(name, n, k);
      }
      assert forall k :: 0 <= k < n ==>
          (WrappedPrefix(name, k) <= WrappedPrefix(name, k + 1)
           <==> WrappedPrefix(init, k) <= WrappedPrefix(init, k + 1));
    }
  }

  lemma SamePrefix(name: bytes, n: nat, k: nat)
    requires AllDigits(name) && k <= n <= |name|
    ensures WrappedPrefix(name, k) == WrappedPrefix(name[..n], k)
  {
    hide DecimalValue;
    assert name[..n][..k] == name[..k];
  }

  lemma LastDigitTest(name: bytes)
    requires AllDigits(name) && name != []
    ensures var n := |name| - 1;
            ToIndex(name).Some? <==> ToIndex(name[..n]).Some? && WrappedPrefix(name, n) <= WrappedPrefix(name, n + 1)
  {
    hide DecimalValue, DigitValue, ToIndex, NextIndex;
    var n := |name| - 1;
    var v := DecimalValue(name[..n]);
    IndexIsDecimal(name[..n]);
    assert name[..n + 1] == name;
    NoDigits();
    assert n == 0 ==> name[..n] == [];
    NextDigit(name, n, v);
    DigitTest(v, DigitValue(name[n]));
    LastStepTest(name, WrappedPrefix(name, n), WrappedPrefix(name, n + 1));
  }

  /** The test on the last digit, the wrapped values before and after it given. */
  lemma LastStepTest(name: bytes, before: nat, after: nat)
    requires AllDigits(name) && name != []
    requires ToIndex(name[..|name| - 1]).Some? ==> ToIndex(name[..|name| - 1]).value == before
    requires NextIndex(before, DigitValue(name[|name| - 1])).Some? <==> before <= after
    ensures ToIndex(name).Some? <==> ToIndex(name[..|name| - 1]).Some? && before <= after
  {
    ToIndexStep(name);
    hide DigitValue, ToIndex, NextIndex;
  }

  lemma ToIndexStep(name: bytes)
    requires AllDigits(name) && name != []
    ensures var n := ToIndex(name[..|name| - 1]);
            ToIndex(name) == if n.None? then None else NextIndex(n.value, DigitValue(name[|name| - 1]))
  {
    hide NextIndex, DigitValue;
  }

  lemma DigitTest(v: nat, digit: nat)
    ensures NextIndex(v % 0x1_0000_0000, digit).Some? <==> v % 0x1_0000_0000 <= (v * 10 + digit) % 0x1_0000_0000
  {
    WrapStep(v, digit);
  }

  lemma NoDigits()
    ensures DecimalValue([]) == 0
  {
  }

  /**
   The digit that first passes 2^32 goes unnoticed exactly if the wrapped result is not below the
   number before it.
   */
  lemma FirstWrapUnnoticed(name: bytes)
    requires AllDigits(name) && name != [] && DecimalValue(name[..|name| - 1]) < 0x1_0000_0000 <= DecimalValue(name)
    ensures ToIndex(name).Some? <==> DecimalValue(name) % 0x1_0000_0000 >= DecimalValue(name[..|name| - 1])
  {
    IndexIsDecimal(name[..|name| - 1]);
  }

  /** The overflow test is not exact: 17179869180 passes it with index 4294967292. */
  lemma OverflowMissed()
    ensures var name := [0x31, 0x37, 0x31, 0x37, 0x39, 0x38, 0x36, 0x39, 0x31, 0x38, 0x30];
            LooksLikeNumber(name) && DecimalValue(name) == 17179869180 && IndexOf(name) == Some(4294967292)
  {
    hide DecimalValue, ToIndex;
    var name: bytes := [0x31, 0x37, 0x31, 0x37, 0x39, 0x38, 0x36, 0x39, 0x31, 0x38, 0x30];
    NextDigit(name, 0, 0);
    NextDigit(name, 1, 1);
    NextDigit(name, 2, 17);
    NextDigit(name, 3, 171);
    NextDigit(name, 4, 1717);
    NextDigit(name, 5, 17179);
    NextDigit(name, 6, 171798);
    NextDigit(name, 7, 1717986);
    NextDigit(name, 8, 17179869);
    NextDigit(name, 9, 171798691);
    NextDigit(name, 10, 1717986918);
    IndexIsDecimal(name[..10]);
    assert name[..11] == name;
    LastStep(name, 1717986918);
  }

  lemma LastStep(name: bytes, n: nat)
    requires AllDigits(name) && name != [] && ToIndex(name[..|name| - 1]) == Some(n)
    requires n <= (n * 10 + DigitValue(name[|name| - 1])) % 0x1_0000_0000
    ensures ToIndex(name) == Some((n * 10 + DigitValue(name[|name| - 1])) % 0x1_0000_0000)
  {
  }

  lemma NextDigit(name: bytes, k: nat, v: nat)
    requires AllDigits(name) && k < |name|
    requires k == 0 ==> v == 0
    requires k > 0 ==> DecimalValue(name[..k]) == v
    ensures DecimalValue(name[..k + 1]) == v * 10 + DigitValue(name[k])
  {
    assert name[..k + 1][..k] == name[..k];
  }

  // ---------- reading ----------

  /** One `%XY` triplet. */
  function PercentByte(s: bytes, i: nat): (c: Option<byte>)
    ensures c.Some? ==> i + 3 <= |s|
  {
    if i + 3 <= |s| && s[i] == PERCENT && HexValue(s[i + 1]) >= 0 && HexValue(s[i + 2]) >= 0
    then Some(HexValue(s[i + 1]) * 16 + HexValue(s[i + 2])) else None
  }

  /** The bytes of up to `n` triplets in a row. */
  function PercentBytes(s: bytes, i: nat, n: nat): (d: bytes)
    ensures |d| <= n && (d == [] || i + 3 * |d| <= |s|)
    decreases n
  {
    if n == 0 || PercentByte(s, i).None? then [] else [PercentByte(s, i).value] + PercentBytes(s, i + 3, n - 1)
  }

  /** One character, percent-encoded byte by byte. */
  function PercentChar(s: bytes, i: nat): (d: Option<bytes>)
    ensures d.Some? ==> 1 <= |d.value| <= 4 && i + 3 * |d.value| <= |s|
  {
    var d := PercentBytes(s, i, 4);
    var k := Utf8.CharLength(d, 0);
    if k == 0 then None else Some(d[..k])
  }

  datatype NameScan = Name(name: bytes, next: nat) | BadName(code: PointerError, offset: nat)

  /** The rest of a token's name from position `i`, after the decoded part `acc`. */
  function NameFrom(s: bytes, i: nat, fragment: bool, acc: bytes): (r: NameScan)
    requires i <= |s|
    ensures r.Name? ==> i <= r.next <= |s| && (r.next == |s| || s[r.next] == SLASH)
    decreases |s| - i, 1
  {
    if i == |s| || s[i] == SLASH then Name(acc, i)
    else if fragment && s[i] == PERCENT then
      var d := PercentChar(s, i);
      if d.None? then BadName(InvalidPercentEncoding, i)
      else if |d.value| > 1 then NameFrom(s, i + 3 * |d.value|, fragment, acc + d.value)
      else AfterChar(s, i + 3, fragment, acc, d.value[0])
    else if fragment && NeedPercentEncode(s[i]) then BadName(CharacterMustPercentEncode, i)
    else AfterChar(s, i + 1, fragment, acc, s[i])
  }

  /** A decoded character `c`, with the escapes `~0` and `~1`. */
  function AfterChar(s: bytes, i: nat, fragment: bool, acc: bytes, c: byte): (r: NameScan)
    requires i <= |s|
    ensures r.Name? ==> i <= r.next <= |s| && (r.next == |s| || s[r.next] == SLASH)
    decreases |s| - i, 2
  {
    if c != TILDE then NameFrom(s, i, fragment, acc + [c])
    else if i < |s| && s[i] == ZERO then NameFrom(s, i + 1, fragment, acc + [TILDE])
    else if i < |s| && s[i] == ONE then NameFrom(s, i + 1, fragment, acc + [SLASH])
    else BadName(InvalidEscape, i)
  }

  /** The tokens from position `i` on, where a solidus or the end stands. */
  function TokensFrom(s: bytes, i: nat, fragment: bool, acc: seq<Token>): Outcome
    requires i <= |s| && (i < |s| ==> s[i] == SLASH)
    decreases |s| - i
  {
    if i == |s| then Parsed(acc)
    else
      match NameFrom(s, i + 1, fragment, [])
      case BadName(code, offset) => Failed(code, offset)
      case Name(name, next) => TokensFrom(s, next, fragment, acc + [Token(name, IndexOf(name))])
  }

  function Parse(s: bytes): Outcome {
    var fragment := Peek(s, 0) == HASH;
    var i := if fragment then 1 else 0;
    if i < |s| && s[i] != SLASH then Failed(TokenMustBeginWithSolidus, i) else TokensFrom(s, i, fragment, [])
  }

  // ---------- writing ----------

  function EscapedByte(c: byte): (t: bytes)
    ensures t != []
  {
    if c == TILDE then [TILDE, ZERO] else if c == SLASH then [TILDE, ONE] else [c]
  }

  function EscapedName(name: bytes): bytes {
    if name == [] then [] else EscapedByte(name[0]) + EscapedName(name[1..])
  }

  function Triplet(c: byte): (t: bytes)
    ensures |t| == 3
  {
    [PERCENT, HexDigit(c / 16), HexDigit(c % 16)]
  }

  function Percented(d: bytes): (t: bytes)
    ensures |t| == 3 * |d|
  {
    if d == [] then [] else Triplet(d[0]) + Percented(d[1..])
  }

  function FragmentName(name: bytes, j: nat): Option<bytes>
    requires j <= |name|
    decreases |name| - j
  {
    if j == |name| then Some([])
    else
      var c := name[j];
      if c == TILDE || c == SLASH || !NeedPercentEncode(c) then
        var rest := FragmentName(name, j + 1);
        if rest.Some? then Some(EscapedByte(c) + rest.value) else None
      else
        var k := Utf8.CharLength(name, j);
        if k == 0 then None
        else
          var rest := FragmentName(name, j + k);
          if rest.Some? then Some(Percented(name[j..j + k]) + rest.value) else None
  }

  /** The text of one name in either form. */
  function NameText(name: bytes, fragment: bool): Option<bytes> {
    if fragment then FragmentName(name, 0) else Some(EscapedName(name))
  }

  function TokensText(tokens: seq<Token>, fragment: bool): Option<bytes> {
    if tokens == [] then Some([])
    else
      var first, rest := NameText(tokens[0].name, fragment), TokensText(tokens[1..], fragment);
      if first.Some? && rest.Some? then Some([SLASH] + first.value + rest.value) else None
  }

  function Stringify(tokens: seq<Token>, fragment: bool): Option<bytes> {
    var text := TokensText(tokens, fragment);
    if text.None? then None else Some((if fragment then [HASH] else []) + text.value)
  }

  /** Tokens as parsing makes them. */
  predicate Indexed(tokens: seq<Token>) {
    forall i :: 0 <= i < |tokens| ==> tokens[i].index == IndexOf(tokens[i].name)
  }

  // ---------- reading back what is written ----------

  /** An escaped byte reads back as itself. */
  lemma EscapedReadBack(s: bytes, i: nat, fragment: bool, acc: bytes, c: byte)
    requires At(s, i, EscapedByte(c))
    requires fragment ==> c == TILDE || c == SLASH || !NeedPercentEncode(c)
    ensures NameFrom(s, i, fragment, acc) == NameFrom(s, i + |EscapedByte(c)|, fragment, acc + [c])
  {
    hide PercentChar;
    AtPeek(s, i, EscapedByte(c), 0);
    if c == TILDE || c == SLASH {
      AtPeek(s, i, EscapedByte(c), 1);
      assert AfterChar(s, i + 1, fragment, acc, TILDE) == NameFrom(s, i + 2, fragment, acc + [c]);
    }
  }

  lemma TripletReadBack(s: bytes, i: nat, c: byte)
    requires At(s, i, Triplet(c))
    ensures PercentByte(s, i) == Some(c)
  {
    AtPeek(s, i, Triplet(c), 0);
    AtPeek(s, i, Triplet(c), 1);
    AtPeek(s, i, Triplet(c), 2);
  }

  lemma {:induction false} PercentedReadBack(s: bytes, i: nat, d: bytes, n: nat)
    requires At(s, i, Percented(d)) && |d| <= n
    ensures |PercentBytes(s, i, n)| >= |d| && PercentBytes(s, i, n)[..|d|] == d
    decreases |d|
  {
    hide PercentByte, Triplet;
    if d != [] {
      AtConcat(s, i, Triplet(d[0]), Percented(d[1..]));
      TripletReadBack(s, i, d[0]);
      assert |Triplet(d[0])| == 3;
      PercentedReadBack(s, i + 3, d[1..], n - 1);
      hide Percented;
      assert PercentBytes(s, i, n) == [d[0]] + PercentBytes(s, i + 3, n - 1);
      assert d == [d[0]] + d[1..];
    }
  }

  /** A percent-encoded character reads back as itself. */
  lemma PercentCharReadBack(s: bytes, i: nat, name: bytes, j: nat)
    requires j < |name| && Utf8.CharLength(name, j) > 0
    requires var k := Utf8.CharLength(name, j); At(s, i, Percented(name[j..j + k]))
    ensures PercentChar(s, i) == Some(name[j..j + Utf8.CharLength(name, j)])
  {
    var k := Utf8.CharLength(name, j);
    var d := name[j..j + k];
    PercentedReadBack(s, i, d, 4);
    var all := PercentBytes(s, i, 4);
    CharLengthOfPrefix(name, j, all);
  }

  /** The length of a character depends on its own bytes only. */
  lemma CharLengthOfPrefix(name: bytes, j: nat, all: bytes)
    requires j < |name| && Utf8.CharLength(name, j) > 0
    requires var k := Utf8.CharLength(name, j); k <= |all| && all[..k] == name[j..j + k]
    ensures Utf8.CharLength(all, 0) == Utf8.CharLength(name, j)
  {
    var k := Utf8.CharLength(name, j);
    forall i | 0 <= i < k ensures all[i] == name[j + i] {
      assert all[..k][i] == name[j..j + k][i];
    }
  }

  lemma PercentReadBack(s: bytes, i: nat, acc: bytes, name: bytes, j: nat)
    requires j < |name| && NeedPercentEncode(name[j]) && name[j] != SLASH && Utf8.CharLength(name, j) > 0
    requires At(s, i, Percented(name[j..j + Utf8.CharLength(name, j)]))
    ensures var k := Utf8.CharLength(name, j);
            NameFrom(s, i, true, acc) == NameFrom(s, i + 3 * k, true, acc + name[j..j + k])
  {
    hide NameFrom, PercentChar, Utf8.CharLength, Percented;
    var k := Utf8.CharLength(name, j);
    var d := name[j..j + k];
    PercentCharReadBack(s, i, name, j);
    AtPeek(s, i, Percented(d), 0);
    PercentedStarts(d);
    if k == 1 {
      assert d == [name[j]];
    }
    PercentStep(s, i, acc, d);
  }

  lemma PercentedStarts(d: bytes)
    requires d != []
    ensures Percented(d)[0] == PERCENT
  {
  }

  /** What a decoded character does to the scan. */
  lemma PercentStep(s: bytes, i: nat, acc: bytes, d: bytes)
    requires i < |s| && s[i] == PERCENT && PercentChar(s, i) == Some(d)
    requires |d| == 1 ==> d[0] != TILDE
    ensures NameFrom(s, i, true, acc) == NameFrom(s, i + 3 * |d|, true, acc + d)
  {
    hide PercentChar;
    if |d| == 1 {
      assert d == [d[0]];
      assert AfterChar(s, i + 3, true, acc, d[0]) == NameFrom(s, i + 3, true, acc + [d[0]]);
    }
  }

  predicate EndsName(s: bytes, i: nat) {
    i == |s| || (i < |s| && s[i] == SLASH)
  }

  lemma NameEnds(s: bytes, i: nat, fragment: bool, acc: bytes)
    requires EndsName(s, i)
    ensures NameFrom(s, i, fragment, acc) == Name(acc, i)
  {
  }

  lemma {:induction false} EscapedNameReadBack(s: bytes, i: nat, name: bytes, acc: bytes)
    requires At(s, i, EscapedName(name)) && EndsName(s, i + |EscapedName(name)|)
    ensures NameFrom(s, i, false, acc) == Name(acc + name, i + |EscapedName(name)|)
    decreases |name|
  {
    hide NameFrom, EscapedByte;
    if name == [] {
      assert acc + name == acc;
      NameEnds(s, i, false, acc);
    } else {
      AtConcat(s, i, EscapedByte(name[0]), EscapedName(name[1..]));
      EscapedReadBack(s, i, false, acc, name[0]);
      EscapedNameReadBack(s, i + |EscapedByte(name[0])|, name[1..], acc + [name[0]]);
      assert acc + name == (acc + [name[0]]) + name[1..];
    }
  }

  lemma {:induction false} FragmentNameReadBack(s: bytes, i: nat, name: bytes, j: nat)
    requires j <= |name| && FragmentName(name, j).Some?
    requires At(s, i, FragmentName(name, j).value) && EndsName(s, i + |FragmentName(name, j).value|)
    ensures NameFrom(s, i, true, name[..j]) == Name(name, i + |FragmentName(name, j).value|)
    decreases |name| - j
  {
    hide Utf8.CharLength, Percented, NeedPercentEncode, EscapedByte, AfterChar, NameFrom, FragmentUnit;
    if j == |name| {
      assert name[..j] == name;
      NameEnds(s, i, true, name);
    } else {
      var c := name[j];
      var k := FragmentUnit(name, j).1;
      FragmentUnitText(name, j);
      AtConcat(s, i, FragmentUnit(name, j).0, FragmentName(name, j + k).value);
      FragmentUnitReadBack(s, i, name, j);
      FragmentNameReadBack(s, i + |FragmentUnit(name, j).0|, name, j + k);
    }
  }

  /** The text of what stands at one position of a name, and how many bytes of the name it covers. */
  function FragmentUnit(name: bytes, j: nat): (bytes, nat)
    requires j < |name|
  {
    var c := name[j];
    if c == TILDE || c == SLASH || !NeedPercentEncode(c) then (EscapedByte(c), 1)
    else
      var k := Utf8.CharLength(name, j);
      (Percented(name[j..j + k]), k)
  }

  lemma FragmentUnitText(name: bytes, j: nat)
    requires j < |name| && FragmentName(name, j).Some?
    ensures var (t, k) := FragmentUnit(name, j);
            && 0 < k && j + k <= |name| && FragmentName(name, j + k).Some?
            && FragmentName(name, j).value == t + FragmentName(name, j + k).value
  {
    hide Utf8.CharLength, Percented, NeedPercentEncode, EscapedByte;
  }

  lemma FragmentUnitReadBack(s: bytes, i: nat, name: bytes, j: nat)
    requires j < |name| && FragmentName(name, j).Some?
    requires At(s, i, FragmentUnit(name, j).0)
    ensures var (t, k) := FragmentUnit(name, j);
            j + k <= |name| && NameFrom(s, i, true, name[..j]) == NameFrom(s, i + |t|, true, name[..j + k])
  {
    hide Utf8.CharLength, Percented, NeedPercentEncode, EscapedByte, NameFrom, AfterChar;
    var c := name[j];
    if c == TILDE || c == SLASH || !NeedPercentEncode(c) {
      EscapedReadBack(s, i, true, name[..j], c);
      assert name[..j] + [c] == name[..j + 1];
    } else {
      var k := Utf8.CharLength(name, j);
      PercentReadBack(s, i, name[..j], name, j);
      assert name[..j] + name[j..j + k] == name[..j + k];
    }
  }

  lemma NameReadBack(s: bytes, i: nat, name: bytes, fragment: bool)
    requires NameText(name, fragment).Some?
    requires At(s, i, NameText(name, fragment).value) && EndsName(s, i + |NameText(name, fragment).value|)
    ensures NameFrom(s, i, fragment, []) == Name(name, i + |NameText(name, fragment).value|)
  {
    hide EscapedName, FragmentName, NameFrom;
    if fragment {
      assert name[..0] == [];
      FragmentNameReadBack(s, i, name, 0);
    } else {
      EscapedNameReadBack(s, i, name, []);
      assert [] + name == name;
    }
  }

  lemma {:induction false} TokensReadBack(s: bytes, i: nat, tokens: seq<Token>, fragment: bool, acc: seq<Token>)
    requires Indexed(tokens) && TokensText(tokens, fragment).Some?
    requires i <= |s| && s[i..] == TokensText(tokens, fragment).value
    ensures (i < |s| ==> s[i] == SLASH) && TokensFrom(s, i, fragment, acc) == Parsed(acc + tokens)
    decreases |tokens|
  {
    hide NameText, NameFrom, IndexOf, TokensText, TokensFrom;
    TokensTextUnfold(tokens, fragment);
    if tokens == [] {
      NothingFrom(s, fragment, acc);
      assert acc + tokens == acc;
    } else {
      var first, rest := NameText(tokens[0].name, fragment).value, TokensText(tokens[1..], fragment).value;
      var next := i + 1 + |first|;
      SolidusNameRest(s, i, first, rest);
      NextTokenStarts(tokens[1..], fragment);
      NameReadBack(s, i + 1, tokens[0].name, fragment);
      TokenFrom(s, i, fragment, acc, tokens[0].name, next);
      assert tokens[0] == Token(tokens[0].name, IndexOf(tokens[0].name));
      TokensReadBack(s, next, tokens[1..], fragment, acc + [tokens[0]]);
      assert acc + tokens == (acc + [tokens[0]]) + tokens[1..];
    }
  }

  lemma TokensTextUnfold(tokens: seq<Token>, fragment: bool)
    requires TokensText(tokens, fragment).Some?
    ensures tokens == [] ==> TokensText(tokens, fragment).value == []
    ensures tokens != [] ==>
              var first, rest := NameText(tokens[0].name, fragment), TokensText(tokens[1..], fragment);
              first.Some? && rest.Some? && TokensText(tokens, fragment).value == [SLASH] + first.value + rest.value
  {
    hide NameText;
  }

  lemma NothingFrom(s: bytes, fragment: bool, acc: seq<Token>)
    ensures TokensFrom(s, |s|, fragment, acc) == Parsed(acc)
  {
  }

  lemma TokenFrom(s: bytes, i: nat, fragment: bool, acc: seq<Token>, name: bytes, next: nat)
    requires i < |s| && s[i] == SLASH && next <= |s| && (next < |s| ==> s[next] == SLASH)
    requires NameFrom(s, i + 1, fragment, []) == Name(name, next)
    ensures TokensFrom(s, i, fragment, acc) == TokensFrom(s, next, fragment, acc + [Token(name, IndexOf(name))])
  {
    hide NameFrom, IndexOf;
  }

  lemma SolidusNameRest(s: bytes, i: nat, first: bytes, rest: bytes)
    requires i <= |s| && s[i..] == [SLASH] + first + rest
    ensures i < |s| && s[i] == SLASH && At(s, i + 1, first)
    ensures var next := i + 1 + |first|;
            next <= |s| && s[next..] == rest && (rest == [] || rest[0] == SLASH ==> EndsName(s, next))
  {
    assert s[i] == s[i..][0];
    assert s[i + 1..] == s[i..][1..] == first + rest;
    var next := i + 1 + |first|;
    assert s[i + 1..next] == s[i + 1..][..|first|] == first;
    assert s[next..] == s[i + 1..][|first|..] == rest;
    assert next < |s| ==> s[next] == s[next..][0];
  }

  lemma NextTokenStarts(tokens: seq<Token>, fragment: bool)
    requires TokensText(tokens, fragment).Some?
    ensures TokensText(tokens, fragment).value == [] || TokensText(tokens, fragment).value[0] == SLASH
  {
    hide NameText;
  }

  /** Main result: whatever is written reads back, tokens and indexes, in both forms. */
  lemma ParseOfStringify(tokens: seq<Token>, fragment: bool)
    requires Indexed(tokens) && Stringify(tokens, fragment).Some?
    ensures Parse(Stringify(tokens, fragment).value) == Parsed(tokens)
  {
    hide NameText;
    var text := TokensText(tokens, fragment).value;
    var s := Stringify(tokens, fragment).value;
    var i := if fragment then 1 else 0;
    assert s[i..] == text;
    TokensReadBack(s, i, tokens, fragment, []);
    NextTokenStarts(tokens, fragment);
    assert [] + tokens == tokens;
    hide TokensFrom, TokensText;
    if !fragment {
      assert s == text;
    }
  }

  // ---------- which names have a fragment form ----------

  lemma {:induction false} FragmentNameValid(name: bytes, j: nat)
    requires j <= |name|
    ensures FragmentName(name, j).Some? <==> Utf8.ValidFrom(name, j)
    decreases |name| - j
  {
    hide Percented, EscapedByte;
    if j < |name| {
      var c := name[j];
      if c == TILDE || c == SLASH || !NeedPercentEncode(c) {
        assert Utf8.CharLength(name, j) == 1;
        FragmentNameValid(name, j + 1);
      } else if Utf8.CharLength(name, j) > 0 {
        FragmentNameValid(name, j + Utf8.CharLength(name, j));
      }
    }
  }

  predicate NamesValid(tokens: seq<Token>) {
    forall i :: 0 <= i < |tokens| ==> Utf8.Valid(tokens[i].name)
  }

  /**
   Main result: a pointer has a fragment form exactly when its names are valid UTF-8, and always has a
   string form.
   */
  lemma {:induction false} FormsExist(tokens: seq<Token>)
    ensures Stringify(tokens, false).Some?
    ensures Stringify(tokens, true).Some? <==> NamesValid(tokens)
  {
    hide EscapedName, FragmentName;
    if tokens != [] {
      FragmentNameValid(tokens[0].name, 0);
      FormsExist(tokens[1..]);
      assert forall i :: 0 < i < |tokens| ==> tokens[i] == tokens[1..][i - 1];
    }
  }

  lemma {:induction false} FragmentNamesAreValid(s: bytes, i: nat, acc: bytes)
    requires i <= |s| && Utf8.Valid(acc)
    ensures NameFrom(s, i, true, acc).Name? ==> Utf8.Valid(NameFrom(s, i, true, acc).name)
    decreases |s| - i, 0
  {
    hide Utf8.ValidFrom, Utf8.CharLength, PercentBytes, PercentByte;
    if i < |s| && s[i] != SLASH {
      if s[i] == PERCENT {
        var d := PercentChar(s, i);
        if d.Some? {
          PercentCharValid(s, i);
          if |d.value| > 1 {
            Utf8.ConcatValid(acc, d.value);
            FragmentNamesAreValid(s, i + 3 * |d.value|, acc + d.value);
          } else {
            AfterCharValid(s, i + 3, acc, d.value[0]);
          }
        }
      } else if !NeedPercentEncode(s[i]) {
        ByteValid(s[i]);
        AfterCharValid(s, i + 1, acc, s[i]);
      }
    }
  }

  lemma ByteValid(c: byte)
    requires c < 0x80
    ensures Utf8.Valid([c])
  {
    assert Utf8.CharLength([c], 0) == 1;
  }

  lemma PercentCharValid(s: bytes, i: nat)
    requires PercentChar(s, i).Some?
    ensures Utf8.Valid(PercentChar(s, i).value)
    ensures |PercentChar(s, i).value| == 1 ==> PercentChar(s, i).value[0] < 0x80
  {
    hide PercentBytes;
    var all := PercentBytes(s, i, 4);
    var k := Utf8.CharLength(all, 0);
    assert all[0..k] == all[..k];
    CharLengthOfPrefix(all, 0, all[..k]);
    assert Utf8.ValidFrom(all[..k], k);
  }

  lemma {:induction false} AfterCharValid(s: bytes, i: nat, acc: bytes, c: byte)
    requires i <= |s| && Utf8.Valid(acc) && c < 0x80
    ensures AfterChar(s, i, true, acc, c).Name? ==> Utf8.Valid(AfterChar(s, i, true, acc, c).name)
    decreases |s| - i, 1
  {
    hide Utf8.ValidFrom, NameFrom;
    ByteValid(c);
    ByteValid(SLASH);
    Utf8.ConcatValid(acc, [c]);
    Utf8.ConcatValid(acc, [SLASH]);
    if c != TILDE {
      FragmentNamesAreValid(s, i, acc + [c]);
    } else if i < |s| && s[i] == ZERO {
      FragmentNamesAreValid(s, i + 1, acc + [TILDE]);
    } else if i < |s| && s[i] == ONE {
      FragmentNamesAreValid(s, i + 1, acc + [SLASH]);
    }
  }

  lemma {:induction false} TokensFromFit(s: bytes, i: nat, fragment: bool, acc: seq<Token>)
    requires i <= |s| && (i < |s| ==> s[i] == SLASH) && Indexed(acc) && (fragment ==> NamesValid(acc))
    ensures var r := TokensFrom(s, i, fragment, acc);
            r.Parsed? ==> Indexed(r.tokens) && (fragment ==> NamesValid(r.tokens))
    decreases |s| - i
  {
    hide NameFrom, IndexOf, Utf8.Valid;
    if i < |s| {
      var r := NameFrom(s, i + 1, fragment, []);
      if r.Name? {
        if fragment {
          EmptyValid();
          FragmentNamesAreValid(s, i + 1, []);
        }
        TokensFromFit(s, r.next, fragment, acc + [Token(r.name, IndexOf(r.name))]);
      }
    }
  }

  lemma EmptyValid()
    ensures Utf8.Valid([])
  {
  }

  /** Main result: what parsing yields can be written in the same form, and reads back as the same tokens. */
  lemma StringifyOfParse(s: bytes)
    requires Parse(s).Parsed?
    ensures var fragment := Peek(s, 0) == HASH;
            var t := Stringify(Parse(s).tokens, fragment);
            t.Some? && Parse(t.value) == Parse(s)
  {
    hide TokensFrom, TokensText, IndexOf, Utf8.Valid, NameText;
    var fragment := Peek(s, 0) == HASH;
    TokensFromFit(s, if fragment then 1 else 0, fragment, []);
    FormsExist(Parse(s).tokens);
    ParseOfStringify(Parse(s).tokens, fragment);
  }

  // ---------- the string form exactly ----------

  lemma {:induction false} EscapedNameConcat(a: bytes, b: bytes)
    ensures EscapedName(a + b) == EscapedName(a) + EscapedName(b)
  {
    if a == [] {
      assert a + b == b;
    } else {
      assert (a + b)[1..] == a[1..] + b;
      EscapedNameConcat(a[1..], b);
    }
  }

  lemma EscapedOne(c: byte)
    ensures EscapedName([c]) == EscapedByte(c)
  {
    assert [c][1..] == [];
  }

  /** From position `i` on, every tilde begins an escape. */
  predicate TildesEscaped(s: bytes, i: nat) {
    forall k :: i <= k < |s| && s[k] == TILDE ==> k + 1 < |s| && (s[k + 1] == ZERO || s[k + 1] == ONE)
  }

  /** Reading a name of the string form loses nothing: writing it gives back the text that was read. */
  lemma {:induction false} NameIsText(s: bytes, i: nat, acc: bytes)
    requires i <= |s|
    ensures var r := NameFrom(s, i, false, acc);
            if r.Name? then
              && EscapedName(r.name) == EscapedName(acc) + s[i..r.next]
              && (TildesEscaped(s, i) <==> TildesEscaped(s, r.next))
            else r.code == InvalidEscape && !TildesEscaped(s, i)
    decreases |s| - i
  {
    hide EscapedName;
    if i == |s| || s[i] == SLASH {
      assert EscapedName(acc) + s[i..i] == EscapedName(acc);
    } else {
      var c := s[i];
      if c != TILDE {
        EscapedOne(c);
        NameIsTextFrom(s, i, acc, c, 1);
      } else if i + 1 < |s| && s[i + 1] == ZERO {
        EscapedOne(TILDE);
        NameIsTextFrom(s, i, acc, TILDE, 2);
      } else if i + 1 < |s| && s[i + 1] == ONE {
        EscapedOne(SLASH);
        NameIsTextFrom(s, i, acc, SLASH, 2);
      }
    }
  }

  lemma {:induction false} NameIsTextFrom(s: bytes, i: nat, acc: bytes, c: byte, n: nat)
    requires 0 < n && i + n <= |s| && EscapedByte(c) == s[i..i + n] && EscapedName([c]) == EscapedByte(c)
    requires n == 1 ==> s[i] != TILDE
    requires n == 2 ==> s[i] == TILDE && (s[i + 1] == ZERO || s[i + 1] == ONE)
    ensures var r := NameFrom(s, i + n, false, acc + [c]);
            if r.Name? then
              && EscapedName(r.name) == EscapedName(acc) + s[i..r.next]
              && (TildesEscaped(s, i) <==> TildesEscaped(s, r.next))
            else r.code == InvalidEscape && !TildesEscaped(s, i)
    decreases |s| - i, 0
  {
    hide EscapedName, NameFrom;
    NameIsText(s, i + n, acc + [c]);
    EscapedNameConcat(acc, [c]);
    TildesStep(s, i, n);
    var r := NameFrom(s, i + n, false, acc + [c]);
    if r.Name? {
      assert s[i..r.next] == s[i..i + n] + s[i + n..r.next];
      assert EscapedName(acc) + (s[i..i + n] + s[i + n..r.next]) == (EscapedName(acc) + s[i..i + n]) + s[i + n..r.next];
    }
  }

  lemma TildesStep(s: bytes, i: nat, n: nat)
    requires 0 < n <= 2 && i + n <= |s|
    requires n == 1 ==> s[i] != TILDE
    requires n == 2 ==> s[i] == TILDE && (s[i + 1] == ZERO || s[i + 1] == ONE)
    ensures TildesEscaped(s, i) <==> TildesEscaped(s, i + n)
  {
  }

  lemma {:induction false} TokensTextSnoc(tokens: seq<Token>, t: Token)
    ensures TokensText(tokens, false).Some?
    ensures TokensText(tokens + [t], false) == Some(TokensText(tokens, false).value + [SLASH] + EscapedName(t.name))
  {
    hide EscapedName;
    if tokens == [] {
      assert [] + [t] == [t] && [t][1..] == [];
      assert TokensText([], false) == Some([]);
      var last := EscapedName(t.name);
      assert [SLASH] + last + [] == [] + [SLASH] + last;
    } else {
      assert (tokens + [t])[1..] == tokens[1..] + [t];
      TokensTextSnoc(tokens[1..], t);
      var first, rest, last := EscapedName(tokens[0].name), TokensText(tokens[1..], false).value, EscapedName(t.name);
      assert [SLASH] + first + (rest + [SLASH] + last) == ([SLASH] + first + rest) + [SLASH] + last;
    }
  }

  lemma {:induction false} TokensAreText(s: bytes, i: nat, acc: seq<Token>)
    requires i <= |s| && (i < |s| ==> s[i] == SLASH)
    ensures TokensText(acc, false).Some?
    ensures var r := TokensFrom(s, i, false, acc);
            if r.Parsed? then
              && TildesEscaped(s, i)
              && TokensText(r.tokens, false) == Some(TokensText(acc, false).value + s[i..])
            else r.code == InvalidEscape && !TildesEscaped(s, i)
    decreases |s| - i
  {
    hide NameFrom, IndexOf, EscapedName, TokensText, TildesEscaped;
    FormsExist(acc);
    if i == |s| {
      assert TokensText(acc, false).value + s[i..] == TokensText(acc, false).value;
      NoTildeAtEnd(s);
    } else {
      NameIsText(s, i + 1, []);
      TildesStep(s, i, 1);
      var r := NameFrom(s, i + 1, false, []);
      if r.Name? {
        var t := Token(r.name, IndexOf(r.name));
        TokensTextSnoc(acc, t);
        TokensAreText(s, r.next, acc + [t]);
        NoName();
        NameAdded(TokensText(acc, false).value, EscapedName(r.name), s, i, r.next);
      }
    }
  }

  lemma NoTildeAtEnd(s: bytes)
    ensures TildesEscaped(s, |s|)
  {
  }

  lemma NameAdded(done: bytes, name: bytes, s: bytes, i: nat, next: nat)
    requires i < next <= |s| && s[i] == SLASH && name == [] + s[i + 1..next]
    ensures (done + [SLASH] + name) + s[next..] == done + s[i..]
  {
    assert name == s[i + 1..next];
    assert s[i..] == [SLASH] + s[i + 1..next] + s[next..];
  }

  lemma NoName()
    ensures EscapedName([]) == [] && TokensText([], false) == Some([])
  {
  }

  /**
   Main result: the accepted string forms are those of the grammar, and each is written back exactly as
   it was read.
   */
  lemma StringFormExact(s: bytes)
    requires Peek(s, 0) != HASH
    ensures Parse(s).Parsed? <==> (s == [] || s[0] == SLASH) && TildesEscaped(s, 0)
    ensures Parse(s).Parsed? ==> Stringify(Parse(s).tokens, false) == Some(s)
  {
    hide TokensFrom, TokensText, TildesEscaped;
    if s == [] || s[0] == SLASH {
      NoName();
      TokensAreText(s, 0, []);
      assert [] + s[0..] == s;
      if Parse(s).Parsed? {
        assert [] + s == s;
      }
    }
  }

  // ---------- the grammar of the fragment form ----------

  predicate EscapeDigitAt(s: bytes, i: nat) {
    i < |s| && (s[i] == ZERO || s[i] == ONE)
  }

  const CAPITALS: string := "ABCDEFGHIJKLMNOPQRSTUVWXYZ"
  const LETTERS: string := "abcdefghijklmnopqrstuvwxyz"
  const DIGITS: string := "0123456789"

  /** The characters of section 2.3 of RFC 3986. */
  predicate Unreserved(c: byte) {
    c as char in CAPITALS || c as char in LETTERS || c as char in DIGITS || c as char in "-._~"
  }

  lemma UnreservedAre(c: byte)
    ensures Unreserved(c) <==> !NeedPercentEncode(c)
  {
    assert c as char in CAPITALS <==> 0x41 <= c <= 0x5A by {
      Consecutive(CAPITALS, 0x41, c);
    }
    assert c as char in LETTERS <==> 0x61 <= c <= 0x7A by {
      Consecutive(LETTERS, 0x61, c);
    }
    assert c as char in DIGITS <==> IsDigit(c) by {
      Consecutive(DIGITS, 0x30, c);
    }
    hide CAPITALS, LETTERS, DIGITS;
  }

  lemma Consecutive(text: string, first: byte, c: byte)
    requires forall i :: 0 <= i < |text| ==> text[i] as int == first as int + i
    ensures c as char in text <==> first <= c && c as int < first as int + |text|
  {
    if first <= c && c as int < first as int + |text| {
      assert text[c - first] as int == c as int;
    }
  }

  /**
   The length of what may stand at position `i` of a fragment, or 0 if nothing may: a
   solidus or an unreserved character; `~0` or `~1`, whose tilde may be percent-encoded but
   not its digit; or the triplets of one well-formed character (section 6 of RFC 6901).
   */
  function UnitLength(s: bytes, i: nat): (n: nat)
    requires i < |s|
    ensures i + n <= |s|
  {
    if s[i] == PERCENT then
      var d := PercentChar(s, i);
      if d.None? then 0
      else if d.value != [TILDE] then 3 * |d.value|
      else if EscapeDigitAt(s, i + 3) then 4 else 0
    else if s[i] == TILDE then if EscapeDigitAt(s, i + 1) then 2 else 0
    else if s[i] == SLASH || Unreserved(s[i]) then 1
    else 0
  }

  predicate FragmentForm(s: bytes, i: nat)
    requires i <= |s|
    decreases |s| - i
  {
    i == |s| || (UnitLength(s, i) > 0 && FragmentForm(s, i + UnitLength(s, i)))
  }

  /** Reading a name follows the units up to the next solidus, and fails exactly where there is none. */
  lemma {:induction false} NameFollowsForm(s: bytes, i: nat, acc: bytes)
    requires i <= |s|
    ensures var r := NameFrom(s, i, true, acc);
            if r.Name? then FragmentForm(s, i) <==> FragmentForm(s, r.next) else !FragmentForm(s, i)
    decreases |s| - i
  {
    hide PercentChar, NeedPercentEncode, Unreserved;
    if i < |s| && s[i] != SLASH {
      var n := UnitLength(s, i);
      if n > 0 {
        var more := NameUnit(s, i, acc);
        NameFollowsForm(s, i + n, more);
      } else {
        NoUnitFails(s, i, acc);
      }
    }
  }

  /** Where no unit stands, reading fails. */
  lemma NoUnitFails(s: bytes, i: nat, acc: bytes)
    requires i < |s| && s[i] != SLASH && UnitLength(s, i) == 0
    ensures NameFrom(s, i, true, acc).BadName?
  {
    UnreservedAre(s[i]);
    TildeIsUnreserved();
    hide PercentChar, Unreserved, NeedPercentEncode;
    if s[i] == PERCENT && PercentChar(s, i).Some? {
      var d := PercentChar(s, i).value;
      assert d == [TILDE] && d[0] == TILDE;
      assert AfterChar(s, i + 3, true, acc, TILDE).BadName?;
    } else if s[i] == TILDE {
      assert AfterChar(s, i + 1, true, acc, TILDE).BadName?;
    }
  }

  lemma TildeIsUnreserved()
    ensures !NeedPercentEncode(TILDE) && NeedPercentEncode(PERCENT) && NeedPercentEncode(SLASH)
  {
  }

  /** A unit is read whole. */
  lemma NameUnit(s: bytes, i: nat, acc: bytes) returns (more: bytes)
    requires i < |s| && s[i] != SLASH && UnitLength(s, i) > 0
    ensures NameFrom(s, i, true, acc) == NameFrom(s, i + UnitLength(s, i), true, more)
  {
    UnreservedAre(s[i]);
    TildeIsUnreserved();
    hide PercentChar, Unreserved, NeedPercentEncode, EscapeDigitAt, NameFrom;
    if s[i] == PERCENT {
      var d := PercentChar(s, i).value;
      if d == [TILDE] {
        more := EscapedTilde(s, i + 3, acc);
        PercentTilde(s, i, acc);
      } else {
        more := acc + d;
        assert |d| == 1 ==> d == [d[0]];
        PercentStep(s, i, acc, d);
      }
    } else {
      OneChar(s, i, acc);
      if s[i] == TILDE {
        more := EscapedTilde(s, i + 1, acc);
      } else {
        more := acc + [s[i]];
      }
    }
  }

  lemma PercentTilde(s: bytes, i: nat, acc: bytes)
    requires i < |s| && s[i] == PERCENT && PercentChar(s, i) == Some([TILDE])
    ensures NameFrom(s, i, true, acc) == AfterChar(s, i + 3, true, acc, TILDE)
  {
    hide PercentChar, AfterChar;
  }

  lemma OneChar(s: bytes, i: nat, acc: bytes)
    requires i < |s| && s[i] != SLASH && s[i] != PERCENT && !NeedPercentEncode(s[i])
    ensures NameFrom(s, i, true, acc) == AfterChar(s, i + 1, true, acc, s[i])
  {
    hide PercentChar, AfterChar, NeedPercentEncode;
  }

  lemma EscapedTilde(s: bytes, i: nat, acc: bytes) returns (more: bytes)
    requires EscapeDigitAt(s, i)
    ensures AfterChar(s, i, true, acc, TILDE) == NameFrom(s, i + 1, true, more)
  {
    hide NameFrom;
    more := acc + [if s[i] == ZERO then TILDE else SLASH];
  }

  lemma FormUnfold(s: bytes, i: nat)
    requires i <= |s|
    ensures i == |s| ==> FragmentForm(s, i)
    ensures i < |s| && s[i] == SLASH ==> (FragmentForm(s, i) <==> FragmentForm(s, i + 1))
  {
    hide PercentChar, Unreserved;
  }

  lemma {:induction false} TokensFollowForm(s: bytes, i: nat, acc: seq<Token>)
    requires i <= |s| && (i < |s| ==> s[i] == SLASH)
    ensures TokensFrom(s, i, true, acc).Parsed? <==> FragmentForm(s, i)
    decreases |s| - i
  {
    hide NameFrom, IndexOf, PercentChar, FragmentForm;
    FormUnfold(s, i);
    if i < |s| {
      NameFollowsForm(s, i + 1, []);
      var r := NameFrom(s, i + 1, true, []);
      if r.Name? {
        TokensFollowForm(s, r.next, acc + [Token(r.name, IndexOf(r.name))]);
      }
    }
  }

  /** Main result: the accepted fragment forms are `#` alone, or followed by a solidus and units. */
  lemma FragmentFormExact(s: bytes)
    requires Peek(s, 0) == HASH
    ensures Parse(s).Parsed? <==> (|s| == 1 || s[1] == SLASH) && FragmentForm(s, 1)
  {
    hide TokensFrom, FragmentForm;
    if |s| == 1 || s[1] == SLASH {
      TokensFollowForm(s, 1, []);
    }
  }
}
