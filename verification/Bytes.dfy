/**
 Bytes, character classes and NUL-terminated streams.

 A stream over a C string is a byte sequence and a cursor. Reading at or past the
 end yields 0, exactly what `Peek` returns on the terminator of the C string.
 */
module Bytes {
  type byte = x: int | 0 <= x < 256
  type bytes = seq<byte>

  const U32_MAX: nat := 0xFFFF_FFFF

  const NUL: byte := 0x00
  const QUOTE: byte := 0x22      // "
  const PLUS: byte := 0x2B       // +
  const COMMA: byte := 0x2C      // ,
  const MINUS: byte := 0x2D      // -
  const DOT: byte := 0x2E        // .
  const SLASH: byte := 0x2F      // /
  const ZERO: byte := 0x30       // 0
  const COLON: byte := 0x3A      // :
  const LBRACKET: byte := 0x5B   // [
  const BACKSLASH: byte := 0x5C  // \
  const RBRACKET: byte := 0x5D   // ]
  const LOWER_U: byte := 0x75    // u
  const LBRACE: byte := 0x7B     // {
  const RBRACE: byte := 0x7D     // }

  function Peek(s: bytes, p: nat): byte {
    if p < |s| then s[p] else NUL
  }

  predicate IsDigit(c: byte) {
    0x30 <= c <= 0x39
  }

  predicate IsSpace(c: byte) {
    c == 0x20 || c == 0x0A || c == 0x0D || c == 0x09
  }

  /** The cursor after any run of JSON white space. */
  function SkipSpace(s: bytes, p: nat): (q: nat)
    requires p <= |s|
    ensures p <= q <= |s|
    ensures !IsSpace(Peek(s, q))
    ensures forall k :: p <= k < q ==> IsSpace(s[k])
    decreases |s| - p
  {
    if p < |s| && IsSpace(s[p]) then SkipSpace(s, p + 1) else p
  }

  /** Text `t` stands at position `p` of `s`. */
  predicate At(s: bytes, p: nat, t: bytes) {
    p + |t| <= |s| && s[p..p + |t|] == t
  }

  lemma AtConcat(s: bytes, p: nat, a: bytes, b: bytes)
    requires At(s, p, a + b)
    ensures At(s, p, a) && At(s, p + |a|, b)
  {
    assert s[p..p + |a|] == (a + b)[..|a|] == a;
    assert s[p + |a|..p + |a| + |b|] == (a + b)[|a|..] == b;
  }

  lemma AtPeek(s: bytes, p: nat, t: bytes, k: nat)
    requires At(s, p, t) && k < |t|
    ensures Peek(s, p + k) == t[k]
  {
    assert s[p + k] == s[p..p + |t|][k];
  }

  /** The value of a hexadecimal digit, or -1. */
  function HexValue(c: byte): (d: int)
    ensures -1 <= d < 16
  {
    if 0x30 <= c <= 0x39 then c - 0x30
    else if 0x41 <= c <= 0x46 then c - 0x41 + 10
    else if 0x61 <= c <= 0x66 then c - 0x61 + 10
    else -1
  }

  /** The upper-case hexadecimal digit for a nibble. */
  function HexDigit(d: int): (c: byte)
    requires 0 <= d < 16
    ensures HexValue(c) == d
    ensures c >= 0x30
  {
    if d < 10 then 0x30 + d else 0x41 + (d - 10)
  }

  /** The hexadecimal digit for a nibble, in either letter case. */
  function HexLetter(d: int, upper: bool): (c: byte)
    requires 0 <= d < 16
    ensures HexValue(c) == d
  {
    if d < 10 then 0x30 + d else (if upper then 0x41 else 0x61) + (d - 10)
  }

  /** Every hexadecimal digit is one of the two. */
  lemma HexLetterOf(c: byte)
    requires HexValue(c) >= 0
    ensures c == HexLetter(HexValue(c), c <= 0x46)
  {
  }

  lemma Regroup<T>(a: seq<T>, b: seq<T>, c: seq<T>)
    ensures (a + b) + c == a + (b + c)
  {
  }

  lemma DropDrop<T>(s: seq<T>, i: nat, k: nat)
    requires i + k <= |s|
    ensures s[i..][k..] == s[i + k..]
  {
  }

  predicate AllDigits(ds: bytes) {
    forall i :: 0 <= i < |ds| ==> IsDigit(ds[i])
  }

  function DigitValue(c: byte): nat
    requires IsDigit(c)
  {
    c - 0x30
  }

  /** The number a string of decimal digits denotes. */
  function DecimalValue(ds: bytes): nat
    requires AllDigits(ds)
  {
    if ds == [] then 0 else DecimalValue(ds[..|ds| - 1]) * 10 + DigitValue(ds[|ds| - 1])
  }

  /** The number that little-endian bytes denote. */
  function FromLe(b: bytes): nat {
    if b == [] then 0 else b[0] as int + 256 * FromLe(b[1..])
  }
}
