/**
 UTF-8 and UTF-16: the encoders, the table-driven decoder and validator, and the
 transcoder, proved against the grammar of well-formed UTF-8 (section 4 of RFC 3629).
 */
module Utf8 {
  import opened Bytes

  predicate IsScalar(cp: int) {
    0 <= cp <= 0x10FFFF && !(0xD800 <= cp <= 0xDFFF)
  }

  function Encode(cp: int): (b: bytes)
    requires 0 <= cp <= 0x10FFFF
    ensures 1 <= |b| <= 4
  {
    if cp <= 0x7F then [cp]
    else if cp <= 0x7FF then [0xC0 + cp / 0x40, 0x80 + cp % 0x40]
    else if cp <= 0xFFFF then [0xE0 + cp / 0x1000, 0x80 + cp / 0x40 % 0x40, 0x80 + cp % 0x40]
    else [0xF0 + cp / 0x40000, 0x80 + cp / 0x1000 % 0x40, 0x80 + cp / 0x40 % 0x40, 0x80 + cp % 0x40]
  }

  // ---------- the grammar ----------

  predicate IsTail(c: byte) {
    0x80 <= c <= 0xBF
  }

  /** How many bytes the lead byte announces; 0 for a byte that leads nothing. */
  function LeadLength(c: byte): (k: nat)
    ensures k <= 4
  {
    if c <= 0x7F then 1
    else if 0xC2 <= c <= 0xDF then 2
    else if 0xE0 <= c <= 0xEF then 3
    else if 0xF0 <= c <= 0xF4 then 4
    else 0
  }

  /** The second bytes that the grammar allows after lead byte `c`. */
  predicate IsSecond(c: byte, d: byte) {
    IsTail(d)
    && (c == 0xE0 ==> d >= 0xA0) && (c == 0xED ==> d <= 0x9F)
    && (c == 0xF0 ==> d >= 0x90) && (c == 0xF4 ==> d <= 0x8F)
  }

  /** Length of the well-formed character at position `p`, or 0 if there is none. */
  function CharLength(s: bytes, p: nat): (k: nat)
    ensures k <= 4 && (k > 0 ==> p + k <= |s|)
  {
    if p >= |s| then 0
    else
      var k := LeadLength(s[p]);
      if p + k <= |s|
         && (k >= 2 ==> IsSecond(s[p], s[p + 1]))
         && (k >= 3 ==> IsTail(s[p + 2]))
         && (k >= 4 ==> IsTail(s[p + 3]))
      then k else 0
  }

  /** From position `p` on, the text is a sequence of well-formed characters. */
  predicate ValidFrom(s: bytes, p: nat)
    decreases |s| - p
  {
    p >= |s| || (CharLength(s, p) > 0 && ValidFrom(s, p + CharLength(s, p)))
  }

  predicate Valid(s: bytes) {
    ValidFrom(s, 0)
  }

  /** The code point of the character at `p`. */
  function CharValue(s: bytes, p: nat): int
    requires CharLength(s, p) > 0
  {
    match CharLength(s, p)
    case 1 => s[p]
    case 2 => (s[p] - 0xC0) as int * 0x40 + Payload(s[p + 1])
    case 3 => (s[p] - 0xE0) as int * 0x1000 + Payload(s[p + 1]) * 0x40 + Payload(s[p + 2])
    case _ => (s[p] - 0xF0) as int * 0x40000 + Payload(s[p + 1]) * 0x1000 + Payload(s[p + 2]) * 0x40 + Payload(s[p + 3])
  }

  /** The payload of a continuation byte. */
  function Payload(c: byte): int {
    c as int - 0x80
  }

  /** Base-64 digits of a code point put together from them, and the other way round. */
  lemma Base64Digits(a: nat, b: nat, c: nat, d: nat)
    requires b < 0x40 && c < 0x40 && d < 0x40
    ensures var cp := a * 0x40000 + b * 0x1000 + c * 0x40 + d;
            cp / 0x40000 == a && cp / 0x1000 % 0x40 == b && cp / 0x40 % 0x40 == c && cp % 0x40 == d
  {
    var cp := a * 0x40000 + b * 0x1000 + c * 0x40 + d;
    assert cp / 0x40 == a * 0x1000 + b * 0x40 + c;
    assert cp / 0x1000 == a * 0x40 + b;
  }

  lemma Base64Join(cp: nat)
    ensures cp == cp / 0x40000 * 0x40000 + cp / 0x1000 % 0x40 * 0x1000 + cp / 0x40 % 0x40 * 0x40 + cp % 0x40
    ensures cp / 0x1000 == cp / 0x40000 * 0x40 + cp / 0x1000 % 0x40
    ensures cp / 0x40 == cp / 0x1000 * 0x40 + cp / 0x40 % 0x40
  {
    assert cp / 0x40000 == cp / 0x1000 / 0x40;
    assert cp / 0x1000 == cp / 0x40 / 0x40;
  }

  lemma EncodeOfDigits(a: nat, b: nat, c: nat, d: nat)
    requires a <= 4 && b < 0x40 && c < 0x40 && d < 0x40
    requires a * 0x40000 + b * 0x1000 + c * 0x40 + d <= 0x10FFFF
    ensures var t := Encode(a * 0x40000 + b * 0x1000 + c * 0x40 + d);
            && (a > 0 || b >= 0x10 ==> t == [0xF0 + a, 0x80 + b, 0x80 + c, 0x80 + d])
            && (a == 0 && b < 0x10 && (b > 0 || c >= 0x20) ==> t == [0xE0 + b, 0x80 + c, 0x80 + d])
            && (a == 0 && b == 0 && 2 <= c < 0x20 ==> t == [0xC0 + c, 0x80 + d])
  {
    Base64Digits(a, b, c, d);
    Base64Join(a * 0x40000 + b * 0x1000 + c * 0x40 + d);
  }

  lemma TwoByteChar(c0: byte, c1: byte)
    requires LeadLength(c0) == 2 && IsTail(c1)
    ensures var cp := (c0 - 0xC0) as int * 0x40 + Payload(c1); IsScalar(cp) && Encode(cp) == [c0, c1]
  {
    EncodeOfDigits(0, 0, c0 - 0xC0, c1 - 0x80);
  }

  lemma ThreeByteChar(c0: byte, c1: byte, c2: byte)
    requires LeadLength(c0) == 3 && IsSecond(c0, c1) && IsTail(c2)
    ensures var cp := (c0 - 0xE0) as int * 0x1000 + Payload(c1) * 0x40 + Payload(c2);
            IsScalar(cp) && Encode(cp) == [c0, c1, c2]
  {
    hide Encode;
    EncodeOfDigits(0, c0 - 0xE0, c1 - 0x80, c2 - 0x80);
  }

  lemma FourByteChar(c0: byte, c1: byte, c2: byte, c3: byte)
    requires LeadLength(c0) == 4 && IsSecond(c0, c1) && IsTail(c2) && IsTail(c3)
    ensures var cp := (c0 - 0xF0) as int * 0x40000 + Payload(c1) * 0x1000 + Payload(c2) * 0x40 + Payload(c3);
            IsScalar(cp) && Encode(cp) == [c0, c1, c2, c3]
  {
    hide Encode;
    EncodeOfDigits(c0 - 0xF0, c1 - 0x80, c2 - 0x80, c3 - 0x80);
  }

  /** Every well-formed character is the encoding of one Unicode scalar value. */
  lemma CharIsEncoding(s: bytes, p: nat)
    requires CharLength(s, p) > 0
    ensures IsScalar(CharValue(s, p))
    ensures Encode(CharValue(s, p)) == s[p..p + CharLength(s, p)]
  {
    hide CharLength, LeadLength, IsSecond, IsTail, Encode, Payload;
    CharParts(s, p);
    Slices(s, p);
    match CharLength(s, p)
    case 1 => OneByteChar(s[p]);
    case 2 => TwoByteChar(s[p], s[p + 1]);
    case 3 => ThreeByteChar(s[p], s[p + 1], s[p + 2]);
    case _ => FourByteChar(s[p], s[p + 1], s[p + 2], s[p + 3]);
  }

  lemma CharParts(s: bytes, p: nat)
    requires CharLength(s, p) > 0
    ensures var k := CharLength(s, p);
            && 1 <= k <= 4 && p + k <= |s| && LeadLength(s[p]) == k
            && (k >= 2 ==> IsSecond(s[p], s[p + 1]) && IsTail(s[p + 1]))
            && (k >= 3 ==> IsTail(s[p + 2])) && (k >= 4 ==> IsTail(s[p + 3]))
  {
  }

  lemma OneByteChar(c0: byte)
    requires LeadLength(c0) == 1
    ensures IsScalar(c0 as int) && Encode(c0 as int) == [c0]
  {
  }

  lemma Slices(s: bytes, p: nat)
    ensures p + 1 <= |s| ==> s[p..p + 1] == [s[p]]
    ensures p + 2 <= |s| ==> s[p..p + 2] == [s[p], s[p + 1]]
    ensures p + 3 <= |s| ==> s[p..p + 3] == [s[p], s[p + 1], s[p + 2]]
    ensures p + 4 <= |s| ==> s[p..p + 4] == [s[p], s[p + 1], s[p + 2], s[p + 3]]
  {
  }

  /** The encoding of a scalar value, wherever it stands, is one well-formed character with that value. */
  lemma EncodingIsChar(s: bytes, p: nat, cp: int)
    requires IsScalar(cp) && At(s, p, Encode(cp))
    ensures CharLength(s, p) == |Encode(cp)| && CharValue(s, p) == cp
  {
    var t := Encode(cp);
    Base64Join(cp);
    assert s[p] == t[0] by { AtPeek(s, p, t, 0); }
    if |t| == 2 {
      assert s[p + 1] == t[1] by { AtPeek(s, p, t, 1); }
    } else if |t| == 3 {
      assert s[p + 1] == t[1] by { AtPeek(s, p, t, 1); }
      assert s[p + 2] == t[2] by { AtPeek(s, p, t, 2); }
      assert cp / 0x40000 == 0;
    } else if |t| == 4 {
      assert s[p + 1] == t[1] by { AtPeek(s, p, t, 1); }
      assert s[p + 2] == t[2] by { AtPeek(s, p, t, 2); }
      assert s[p + 3] == t[3] by { AtPeek(s, p, t, 3); }
    }
  }

  // ---------- whole texts ----------

  predicate AllScalar(cps: seq<int>) {
    forall i :: 0 <= i < |cps| ==> IsScalar(cps[i])
  }

  function EncodeAll(cps: seq<int>): bytes
    requires AllScalar(cps)
  {
    if cps == [] then [] else Encode(cps[0]) + EncodeAll(cps[1..])
  }

  function DecodeFrom(s: bytes, p: nat): (cps: seq<int>)
    requires ValidFrom(s, p)
    decreases |s| - p
  {
    if p >= |s| then [] else [CharValue(s, p)] + DecodeFrom(s, p + CharLength(s, p))
  }

  /** Encoding then decoding is the identity on sequences of scalar values. */
  lemma {:induction false} EncodeThenDecode(s: bytes, p: nat, cps: seq<int>)
    requires AllScalar(cps)
    requires p <= |s| && s[p..] == EncodeAll(cps)
    ensures ValidFrom(s, p) && DecodeFrom(s, p) == cps
    decreases |cps|
  {
    hide Encode, CharValue, CharLength;
    if cps != [] {
      var head, tail := Encode(cps[0]), EncodeAll(cps[1..]);
      assert s[p..] == head + tail;
      assert s[p..p + |head|] == s[p..][..|head|] == head;
      EncodingIsChar(s, p, cps[0]);
      assert s[p + |head|..] == s[p..][|head|..] == tail;
      EncodeThenDecode(s, p + |head|, cps[1..]);
    }
  }

  lemma {:induction false} DecodedAreScalar(s: bytes, p: nat)
    requires ValidFrom(s, p)
    ensures AllScalar(DecodeFrom(s, p))
    decreases |s| - p
  {
    hide CharValue, CharLength;
    if p < |s| {
      CharIsEncoding(s, p);
      DecodedAreScalar(s, p + CharLength(s, p));
    }
  }

  /** Decoding then encoding is the identity on well-formed texts. */
  lemma {:induction false} DecodeThenEncode(s: bytes, p: nat)
    requires p <= |s| && ValidFrom(s, p)
    ensures AllScalar(DecodeFrom(s, p))
    ensures EncodeAll(DecodeFrom(s, p)) == s[p..]
    decreases |s| - p
  {
    hide Encode, CharValue, CharLength, IsScalar;
    DecodedAreScalar(s, p);
    if p < |s| {
      var k := CharLength(s, p);
      CharIsEncoding(s, p);
      DecodeThenEncode(s, p + k);
      assert s[p..] == s[p..p + k] + s[p + k..];
      assert DecodeFrom(s, p)[1..] == DecodeFrom(s, p + k);
    }
  }

  /** Validity from a position depends only on the bytes from there on. */
  lemma {:induction false} ValidFromSlice(s: bytes, p: nat, t: bytes, q: nat)
    requires p <= |s| && q <= |t| && s[p..] == t[q..]
    ensures ValidFrom(s, p) == ValidFrom(t, q)
    decreases |s| - p
  {
    hide CharLength;
    if p < |s| {
      assert |s| - p == |s[p..]| == |t[q..]| == |t| - q;
      SameChar(s, p, t, q);
      var k := CharLength(s, p);
      if k > 0 {
        DropDrop(s, p, k);
        DropDrop(t, q, k);
        ValidFromSlice(s, p + k, t, q + k);
      }
    }
  }

  lemma SameChar(s: bytes, p: nat, t: bytes, q: nat)
    requires p <= |s| && q <= |t| && s[p..] == t[q..]
    ensures CharLength(s, p) == CharLength(t, q)
  {
    assert |s| - p == |t| - q;
    forall i | p <= i < |s| ensures s[i] == t[q + (i - p)] {
      assert s[i] == s[p..][i - p];
    }
  }

  /** Well-formed texts are closed under concatenation. */
  lemma {:induction false} ValidConcat(a: bytes, b: bytes, p: nat)
    requires p <= |a| && ValidFrom(a, p) && Valid(b)
    ensures ValidFrom(a + b, p)
    decreases |a| - p
  {
    if p < |a| {
      var k := CharLength(a, p);
      ValidConcat(a, b, p + k);
      assert forall i :: p <= i < p + k ==> (a + b)[i] == a[i];
      assert CharLength(a + b, p) == k;
    } else {
      assert (a + b)[|a|..] == b == b[0..];
      ValidFromSlice(a + b, |a|, b, 0);
    }
  }

  lemma ConcatValid(a: bytes, b: bytes)
    requires Valid(a) && Valid(b)
    ensures Valid(a + b)
  {
    ValidConcat(a, b, 0);
  }

  /** Text of ASCII characters only is well-formed. */
  lemma {:induction false} AsciiValid(s: bytes, p: nat)
    requires forall c <- s :: c <= 0x7F
    ensures ValidFrom(s, p)
    decreases |s| - p
  {
    if p < |s| {
      assert s[p] in s;
      AsciiValid(s, p + 1);
    }
  }

  // ---------- the decoder and the validator ----------

  /** The character class table, with its power-of-two classes for continuation bytes. */
  function GetRange(c: byte): bv8 {
    if c <= 0x7F then 0
    else if c <= 0x8F then 0x10
    else if c <= 0x9F then 0x40
    else if c <= 0xBF then 0x20
    else if c <= 0xC1 then 8
    else if c <= 0xDF then 2
    else if c == 0xE0 then 10
    else if c <= 0xEC then 3
    else if c == 0xED then 4
    else if c <= 0xEF then 3
    else if c == 0xF0 then 11
    else if c <= 0xF3 then 6
    else if c == 0xF4 then 5
    else 8
  }

  /** One masked class test of the decoder. */
  predicate InClass(c: byte, mask: bv8) {
    GetRange(c) & mask != 0
  }

  lemma Classes(c: byte)
    ensures InClass(c, 0x70) <==> IsTail(c)
    ensures InClass(c, 0x50) <==> 0x80 <= c <= 0x9F
    ensures InClass(c, 0x10) <==> 0x80 <= c <= 0x8F
    ensures InClass(c, 0x20) <==> 0xA0 <= c <= 0xBF
    ensures InClass(c, 0x60) <==> 0x90 <= c <= 0xBF
  {
  }

  /** A lead byte and up to three bytes behind it, one by one. */
  lemma TailSlices(lead: byte, data: bytes, p: nat)
    ensures p + 1 <= |data| ==> [lead] + [data[p]] == [lead] + data[p..p + 1]
    ensures p + 2 <= |data| ==> [lead] + [data[p]] + [data[p + 1]] == [lead] + data[p..p + 2]
    ensures p + 3 <= |data| ==> [lead] + [data[p]] + [data[p + 1]] + [data[p + 2]] == [lead] + data[p..p + 3]
  {
  }

  /** An input stream over a block of memory: taking past the end yields 0. */
  class Source {
    const data: bytes
    var pos: nat

    constructor (data: bytes, pos: nat)
      requires pos <= |data|
      ensures this.data == data && this.pos == pos
    {
      this.data, this.pos := data, pos;
    }

    method Take() returns (c: byte)
      requires pos <= |data|
      modifies this
      ensures c == Peek(data, old(pos)) && pos == (if old(pos) < |data| then old(pos) + 1 else old(pos))
      ensures pos <= |data|
    {
      c := Peek(data, pos);
      if pos < |data| {
        pos := pos + 1;
      }
    }

    /** `RAPIDJSON_COPY` and `RAPIDJSON_TRANS`: one more byte, shifted into the code point and tested. */
    method TakeInto(cp: nat, mask: bv8) returns (cp': nat, matched: bool)
      requires pos <= |data|
      modifies this
      ensures pos == (if old(pos) < |data| then old(pos) + 1 else old(pos)) && pos <= |data|
      ensures cp' == cp * 0x40 + Peek(data, old(pos)) as int % 0x40
      ensures matched <==> InClass(Peek(data, old(pos)), mask)
    {
      var c := Take();
      cp' := cp * 0x40 + c as int % 0x40;
      matched := InClass(c, mask);
    }

    /** Up to three continuation bytes: the first is tested with `mask`, the others with 0x70. */
    method TakeTails(lead: nat, mask: bv8, count: nat) returns (cp: nat, valid: bool)
      requires pos <= |data| && 1 <= count <= 3
      requires mask == 0x70 || mask == 0x50 || mask == 0x10 || mask == 0x20 || mask == 0x60
      modifies this
      ensures old(pos) <= pos <= |data|
      ensures valid <==> old(pos) + count <= |data| && InClass(data[old(pos)], mask)
                         && (count >= 2 ==> IsTail(data[old(pos) + 1])) && (count >= 3 ==> IsTail(data[old(pos) + 2]))
      ensures valid ==> pos == old(pos) + count
      ensures valid ==> cp == match count
                              case 1 => lead * 0x40 + Payload(data[old(pos)])
                              case 2 => lead * 0x1000 + Payload(data[old(pos)]) * 0x40 + Payload(data[old(pos) + 1])
                              case _ =>
                                lead * 0x40000 + Payload(data[old(pos)]) * 0x1000
                                + Payload(data[old(pos) + 1]) * 0x40 + Payload(data[old(pos) + 2])
    {
      hide InClass, GetRange;
      ghost var p := pos;
      Classes(0);
      Classes(Peek(data, p));
      Classes(Peek(data, p + 1));
      Classes(Peek(data, p + 2));
      cp, valid := TakeInto(lead, mask);
      if count >= 2 {
        var more: bool;
        cp, more := TakeInto(cp, 0x70);
        valid := valid && more;
      }
      if count >= 3 {
        var more: bool;
        cp, more := TakeInto(cp, 0x70);
        valid := valid && more;
      }
    }

    /** Decodes one character: succeeds exactly on a well-formed one, with its value. */
    method Decode() returns (valid: bool, cp: nat)
      requires pos < |data|
      modifies this
      ensures valid <==> CharLength(data, old(pos)) > 0
      ensures valid ==> cp == CharValue(data, old(pos)) && pos == old(pos) + CharLength(data, old(pos))
      ensures old(pos) < pos <= |data|
    {
      hide GetRange, InClass, Payload;
      Classes(Peek(data, pos + 1));
      var c := Take();
      if c < 0x80 {
        return true, c;
      }
      var kind := LeadKind(c);
      match kind {
        case 2 => cp, valid := TakeTails(c % 0x40, 0x70, 1);
        case 3 => cp, valid := TakeTails(c % 0x20, 0x70, 2);
        case 4 => cp, valid := TakeTails(c % 0x10, 0x50, 2);
        case 5 => cp, valid := TakeTails(c % 0x08, 0x10, 3);
        case 6 => cp, valid := TakeTails(c % 0x04, 0x70, 3);
        case 10 => cp, valid := TakeTails(0, 0x20, 2);
        case 11 => cp, valid := TakeTails(0, 0x60, 3);
        case _ => valid, cp := false, 0;
      }
    }

    /** The validator's copy step: the next byte, unless the last one copied was NUL. */
    method CopyInto(last: byte, copied: bytes, mask: bv8) returns (c: byte, copied': bytes, matched: bool)
      requires pos <= |data|
      modifies this
      ensures old(pos) <= pos <= |data|
      ensures last != NUL ==> c == Peek(data, old(pos)) && copied' == copied + [c]
                              && pos == (if old(pos) < |data| then old(pos) + 1 else old(pos))
      ensures last == NUL ==> c == NUL
      ensures matched <==> InClass(c, mask)
      ensures |copied'| <= |copied| + 1
    {
      c, copied' := last, copied;
      if last != NUL {
        c := Take();
        copied' := copied + [c];
      }
      matched := InClass(c, mask);
    }

    method CopyTails(lead: byte, mask: bv8, count: nat) returns (copied: bytes, valid: bool)
      requires pos <= |data| && 1 <= count <= 3 && lead >= 0x80
      requires mask == 0x70 || mask == 0x50 || mask == 0x10 || mask == 0x20 || mask == 0x60
      modifies this
      ensures old(pos) <= pos <= |data|
      ensures valid <==> old(pos) + count <= |data| && InClass(data[old(pos)], mask)
                         && (count >= 2 ==> IsTail(data[old(pos) + 1])) && (count >= 3 ==> IsTail(data[old(pos) + 2]))
      ensures valid ==> pos == old(pos) + count && copied == [lead] + data[old(pos)..pos]
      ensures |copied| <= 1 + count
    {
      hide InClass, GetRange;
      ghost var p := pos;
      Classes(0);
      Classes(Peek(data, p));
      Classes(Peek(data, p + 1));
      Classes(Peek(data, p + 2));
      TailSlices(lead, data, p);
      var c: byte;
      c, copied, valid := CopyInto(lead, [lead], mask);
      if count >= 2 {
        var more: bool;
        c, copied, more := CopyInto(c, copied, 0x70);
        valid := valid && more;
      }
      if count >= 3 {
        var more: bool;
        c, copied, more := CopyInto(c, copied, 0x70);
        valid := valid && more;
      }
    }

    /** Validates and copies one character: accepts exactly the well-formed ones. */
    method Validate() returns (valid: bool, copied: bytes)
      requires pos < |data|
      modifies this
      ensures valid <==> CharLength(data, old(pos)) > 0
      ensures valid ==> pos == old(pos) + CharLength(data, old(pos)) && copied == data[old(pos)..pos]
      ensures old(pos) < pos <= |data| && |copied| <= 4
    {
      hide GetRange, InClass, Payload;
      Classes(Peek(data, pos + 1));
      var c := Take();
      if c < 0x80 {
        return true, [c];
      }
      match LeadKind(c) {
        case 2 => copied, valid := CopyTails(c, 0x70, 1);
        case 3 => copied, valid := CopyTails(c, 0x70, 2);
        case 4 => copied, valid := CopyTails(c, 0x50, 2);
        case 5 => copied, valid := CopyTails(c, 0x10, 3);
        case 6 => copied, valid := CopyTails(c, 0x70, 3);
        case 10 => copied, valid := CopyTails(c, 0x20, 2);
        case 11 => copied, valid := CopyTails(c, 0x60, 3);
        case _ => valid, copied := false, [c];
      }
    }
  }

  /** The class of a lead byte as a small number; the two error classes and continuation bytes give 8. */
  function LeadKind(c: byte): (kind: nat)
    requires c >= 0x80
    ensures kind == 8 <==> LeadLength(c) == 0
    ensures kind != 8 ==> kind == GetRange(c) as nat
  {
    if c < 0xC2 || c > 0xF4 then 8
    else if c <= 0xDF then 2
    else if c == 0xE0 then 10
    else if c == 0xED then 4
    else if c <= 0xEF then 3
    else if c == 0xF0 then 11
    else if c <= 0xF3 then 6
    else 5
  }

  /** Decoding character by character succeeds exactly on well-formed texts and yields their scalar values. */
  method DecodeText(s: bytes) returns (valid: bool, cps: seq<int>)
    ensures valid <==> Valid(s)
    ensures valid ==> cps == DecodeFrom(s, 0)
  {
    hide CharLength, CharValue;
    var source := new Source(s, 0);
    cps := [];
    while source.pos < |s|
      invariant source.data == s && source.pos <= |s|
      invariant Valid(s) == ValidFrom(s, source.pos)
      invariant Valid(s) ==> cps + DecodeFrom(s, source.pos) == DecodeFrom(s, 0)
      decreases |s| - source.pos
    {
      ghost var p := source.pos;
      var cp: nat;
      valid, cp := source.Decode();
      if !valid {
        return false, [];
      }
      assert ValidFrom(s, p) ==> DecodeFrom(s, p) == [CharValue(s, p)] + DecodeFrom(s, source.pos);
      cps := cps + [cp];
    }
    valid := true;
  }

  /** Validating character by character accepts exactly the well-formed texts and copies them. */
  method ValidateText(s: bytes) returns (valid: bool, copied: bytes)
    ensures valid <==> Valid(s)
    ensures valid ==> copied == s
  {
    hide CharLength;
    var source := new Source(s, 0);
    copied := [];
    while source.pos < |s|
      invariant source.data == s && source.pos <= |s|
      invariant Valid(s) == ValidFrom(s, source.pos)
      invariant copied == s[..source.pos]
      decreases |s| - source.pos
    {
      var chunk: bytes;
      valid, chunk := source.Validate();
      if !valid {
        return false, copied;
      }
      copied := copied + chunk;
    }
    valid := true;
  }

  // ---------- UTF-16 ----------

  type unit = x: int | 0 <= x < 0x1_0000

  function Encode16(cp: int): (u: seq<unit>)
    requires IsScalar(cp)
    ensures 1 <= |u| <= 2
  {
    if cp <= 0xFFFF then [cp]
    else [(cp - 0x10000) / 0x400 + 0xD800, (cp - 0x10000) % 0x400 + 0xDC00]
  }

  /** `UTF16::Decode` at position `p`: validity, code point and the position after it. */
  function Decode16(u: seq<unit>, p: nat): (bool, int, nat)
    requires p < |u|
  {
    var c := u[p];
    if c < 0xD800 || c > 0xDFFF then (true, c, p + 1)
    else if c <= 0xDBFF then
      if p + 1 < |u| then
        var cp := (c % 0x400) as int * 0x400 + u[p + 1] as int % 0x400 + 0x10000;
        (0xDC00 <= u[p + 1] <= 0xDFFF, cp, p + 2)
      else (false, 0, p + 1)
    else (false, 0, p + 1)
  }

  lemma Decode16OfEncode16(u: seq<unit>, p: nat, cp: int)
    requires IsScalar(cp) && p + |Encode16(cp)| <= |u| && u[p..p + |Encode16(cp)|] == Encode16(cp)
    ensures Decode16(u, p) == (true, cp, p + |Encode16(cp)|)
  {
    assert u[p] == u[p..p + |Encode16(cp)|][0];
    if cp > 0xFFFF {
      assert u[p + 1] == u[p..p + 2][1];
    }
  }

  function EncodeAll16(cps: seq<int>): seq<unit>
    requires AllScalar(cps)
  {
    if cps == [] then [] else Encode16(cps[0]) + EncodeAll16(cps[1..])
  }

  lemma NonEmpty16(cps: seq<int>)
    requires AllScalar(cps)
    ensures EncodeAll16(cps) == [] ==> cps == []
  {
  }

  lemma {:induction false} EncodeAll16Snoc(cps: seq<int>, cp: int)
    requires IsScalar(cp) && AllScalar(cps)
    ensures EncodeAll16(cps + [cp]) == EncodeAll16(cps) + Encode16(cp)
  {
    hide Encode16;
    if cps == [] {
      assert EncodeAll16([cp][1..]) == [];
    } else {
      assert (cps + [cp])[1..] == cps[1..] + [cp];
      EncodeAll16Snoc(cps[1..], cp);
    }
  }

  /** The transcoder from UTF-8 to UTF-16: total on well-formed texts. */
  method TranscodeTo16(s: bytes) returns (valid: bool, u: seq<unit>)
    ensures valid <==> Valid(s)
    ensures valid ==> AllScalar(DecodeFrom(s, 0)) && u == EncodeAll16(DecodeFrom(s, 0))
  {
    hide CharLength, CharValue, Encode16;
    var source := new Source(s, 0);
    u := [];
    ghost var cps: seq<int> := [];
    while source.pos < |s|
      invariant source.data == s && source.pos <= |s|
      invariant Valid(s) == ValidFrom(s, source.pos)
      invariant AllScalar(cps)
      invariant u == EncodeAll16(cps)
      invariant Valid(s) ==> cps + DecodeFrom(s, source.pos) == DecodeFrom(s, 0)
      decreases |s| - source.pos
    {
      ghost var p := source.pos;
      var cp: nat;
      valid, cp := source.Decode();
      if !valid {
        return false, [];
      }
      assert ValidFrom(s, p) ==> DecodeFrom(s, p) == [CharValue(s, p)] + DecodeFrom(s, source.pos);
      if ValidFrom(s, p) {
        Regroup(cps, [cp], DecodeFrom(s, source.pos));
      }
      CharIsEncoding(s, p);
      EncodeAll16Snoc(cps, cp);
      u := u + Encode16(cp);
      cps := cps + [cp];
    }
    assert Valid(s) && cps == DecodeFrom(s, 0);
    valid := true;
  }

  lemma {:induction false} EncodeAllSnoc(cps: seq<int>, cp: int)
    requires IsScalar(cp) && AllScalar(cps)
    ensures EncodeAll(cps + [cp]) == EncodeAll(cps) + Encode(cp)
  {
    hide Encode;
    if cps == [] {
      assert EncodeAll([cp][1..]) == [];
    } else {
      assert (cps + [cp])[1..] == cps[1..] + [cp];
      EncodeAllSnoc(cps[1..], cp);
    }
  }

  /** The transcoder back to UTF-8, on UTF-16 that encodes `cps`. */
  method TranscodeFrom16(u: seq<unit>, ghost cps: seq<int>) returns (valid: bool, s: bytes)
    requires AllScalar(cps) && u == EncodeAll16(cps)
    ensures valid && s == EncodeAll(cps)
  {
    hide Encode, Encode16, Decode16;
    var p := 0;
    s := [];
    ghost var k := 0;
    while p < |u|
      invariant 0 <= k <= |cps| && p <= |u|
      invariant s == EncodeAll(cps[..k])
      invariant u[p..] == EncodeAll16(cps[k..])
      decreases |u| - p
    {
      ghost var n := |Encode16(cps[k])|;
      assert u[p..p + n] == u[p..][..n] == Encode16(cps[k]);
      Decode16OfEncode16(u, p, cps[k]);
      assert u[p + n..] == u[p..][n..] == EncodeAll16(cps[k + 1..]) by {
        assert cps[k..][1..] == cps[k + 1..];
      }
      var (good, cp, next) := Decode16(u, p);
      if !good {
        return false, s;
      }
      assert cps[..k + 1] == cps[..k] + [cps[k]];
      EncodeAllSnoc(cps[..k], cp);
      s := s + Encode(cp);
      p := next;
      k := k + 1;
    }
    NonEmpty16(cps[k..]);
    assert cps[..k] == cps;
    valid := true;
  }

  /** UTF-8 to UTF-16 and back gives the original text, for every well-formed text. */
  method TranscodeThereAndBack(s: bytes) returns (t: bytes)
    requires Valid(s)
    ensures t == s
  {
    var there, u := TranscodeTo16(s);
    var back: bool;
    back, t := TranscodeFrom16(u, DecodeFrom(s, 0));
    DecodeThenEncode(s, 0);
    assert s[0..] == s;
  }
}
