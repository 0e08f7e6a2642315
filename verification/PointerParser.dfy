/**
 Parsing a pointer as the source does it: one pass over the text that fills a name
 buffer of the text's own length, and the stringifier that puts characters to a stream.
 */
module PointerParser {
  import opened Bytes
  import opened Json
  import opened PointerTree
  import opened PointerText
  import Utf8

  /** A token as it is stored: its name is a part of the name buffer. */
  datatype TokenRef = TokenRef(start: nat, length: nat, index: Option<nat>)

  predicate Inside(refs: seq<TokenRef>, size: nat) {
    forall k :: 0 <= k < |refs| ==> refs[k].start + refs[k].length <= size
  }

  /** The tokens that references into a buffer stand for. */
  function View(buffer: bytes, refs: seq<TokenRef>): (tokens: seq<Token>)
    requires Inside(refs, |buffer|)
    ensures |tokens| == |refs|
    ensures forall k :: 0 <= k < |refs| ==>
                          tokens[k] == Token(buffer[refs[k].start..refs[k].start + refs[k].length], refs[k].index)
  {
    if refs == [] then []
    else
      var n := |refs| - 1;
      View(buffer, refs[..n]) + [Token(buffer[refs[n].start..refs[n].start + refs[n].length], refs[n].index)]
  }

  lemma ViewGrows(buffer: bytes, more: bytes, refs: seq<TokenRef>, r: TokenRef)
    requires Inside(refs, |buffer|) && |buffer| <= |more| && more[..|buffer|] == buffer
    requires r.start + r.length <= |more|
    ensures Inside(refs + [r], |more|)
    ensures View(more, refs + [r]) == View(buffer, refs) + [Token(more[r.start..r.start + r.length], r.index)]
  {
    hide View;
    var all := refs + [r];
    assert Inside(all, |more|);
    forall k | 0 <= k < |refs| ensures View(more, all)[k] == View(buffer, refs)[k] {
      SameName(buffer, more, refs[k]);
      assert all[k] == refs[k];
    }
    assert all[|refs|] == r;
  }

  lemma SameName(buffer: bytes, more: bytes, r: TokenRef)
    requires r.start + r.length <= |buffer| <= |more| && more[..|buffer|] == buffer
    ensures more[r.start..r.start + r.length] == buffer[r.start..r.start + r.length]
  {
    assert more[..|buffer|][r.start..r.start + r.length] == more[r.start..r.start + r.length];
  }

  // ---------- percent decoding ----------

  class PercentDecodeStream {
    const src: bytes
    var pos: nat
    var valid: bool

    constructor (src: bytes, pos: nat)
      requires pos <= |src|
      ensures this.src == src && this.pos == pos && valid
    {
      this.src, this.pos, this.valid := src, pos, true;
    }

    /** The next `%XY` triplet; 0 and invalid from then on if there is none. */
    method Take() returns (c: byte)
      requires pos <= |src|
      modifies this
      ensures old(pos) <= pos <= |src|
      ensures PercentByte(src, old(pos)).Some? ==>
                c == PercentByte(src, old(pos)).value && pos == old(pos) + 3 && valid == old(valid)
      ensures PercentByte(src, old(pos)).None? ==> c == 0 && !valid
    {
      if pos + 3 > |src| || src[pos] != PERCENT {
        valid := false;
        return 0;
      }
      pos := pos + 1;
      var value: int := 0;
      var j := 0;
      while j < 2
        invariant 0 <= j <= 2 && pos == old(pos) + 1 + j && valid == old(valid)
        invariant j == 0 ==> value == 0
        invariant j >= 1 ==>
                    && HexValue(src[old(pos) + 1]) >= 0
                    && value == (if j == 1 then 0 else 16 * HexValue(src[old(pos) + 1])) + HexValue(src[pos - 1])
        invariant j == 2 ==> HexValue(src[old(pos) + 2]) >= 0
      {
        var h := HexValue(src[pos]);
        if h < 0 {
          valid := false;
          return 0;
        }
        value := value * 16 + h;
        pos := pos + 1;
        j := j + 1;
      }
      c := value;
    }
  }

  /** The bytes of the triplets from position `i` on, four at most, which is all that one character can take. */
  method TakeTriplets(source: bytes, i: nat) returns (d: bytes)
    requires i <= |source|
    ensures d == PercentBytes(source, i, 4)
  {
    hide PercentByte, PercentBytes;
    var stream := new PercentDecodeStream(source, i);
    d := [];
    NextTriplet(source, i, [], 4);
    var c := stream.Take();
    while stream.valid && |d| < 4
      invariant stream.src == source && stream.pos <= |source|
      invariant |d| <= 4
      invariant stream.valid && |d| < 4 ==>
                  PercentBytes(source, i, 4) == d + [c] + PercentBytes(source, stream.pos, 3 - |d|)
      invariant !stream.valid || |d| == 4 ==> PercentBytes(source, i, 4) == d
      decreases 4 - |d|, stream.valid
    {
      d := d + [c];
      NextTriplet(source, stream.pos, d, 4 - |d|);
      c := stream.Take();
    }
  }

  /** One more triplet behind the bytes `d`. */
  lemma NextTriplet(source: bytes, p: nat, d: bytes, n: nat)
    ensures n == 0 || PercentByte(source, p).None? ==> d + PercentBytes(source, p, n) == d
    ensures n > 0 && PercentByte(source, p).Some? ==>
              d + PercentBytes(source, p, n) == d + [PercentByte(source, p).value] + PercentBytes(source, p + 3, n - 1)
    ensures [] + PercentBytes(source, p, n) == PercentBytes(source, p, n)
  {
    hide PercentByte;
  }

  /** Writes a run of bytes into the name buffer. */
  method Write(buffer: array<byte>, name: nat, d: bytes)
    requires name + |d| <= buffer.Length
    modifies buffer
    ensures buffer[..name] == old(buffer[..name]) && buffer[name..name + |d|] == d
    ensures buffer[name + |d|..] == old(buffer[name + |d|..])
  {
    var k := 0;
    while k < |d|
      invariant 0 <= k <= |d|
      invariant buffer[..name] == old(buffer[..name]) && buffer[name..name + k] == d[..k]
      invariant buffer[name + |d|..] == old(buffer[name + |d|..])
    {
      buffer[name + k] := d[k];
      k := k + 1;
    }
  }

  /**
   Decodes one percent-encoded character into the name buffer. What is written before
   the character turns out to be malformed stays inside the buffer as well.
   */
  method DecodeChar(source: bytes, i: nat, buffer: array<byte>, name: nat) returns (ok: bool, len: nat)
    requires i < |source| == buffer.Length && name + 2 <= i
    modifies buffer
    ensures buffer[..name] == old(buffer[..name])
    ensures ok <==> PercentChar(source, i).Some?
    ensures ok ==> len == |PercentChar(source, i).value| && name + len <= buffer.Length
                   && buffer[name..name + len] == PercentChar(source, i).value
  {
    hide Utf8.CharLength, PercentBytes;
    var d := TakeTriplets(source, i);
    if d == [] {
      Write(buffer, name, [0]);
      EmptyHasNoChar();
      return false, 0;
    }
    var stream := new Utf8.Source(d, 0);
    var copied;
    ok, copied := stream.Validate();
    Write(buffer, name, copied);
    len := |copied|;
    if ok {
      assert copied == d[0..stream.pos] == d[..stream.pos];
    }
  }

  lemma EmptyHasNoChar()
    ensures Utf8.CharLength([], 0) == 0
  {
  }

  // ---------- names and tokens ----------

  /** What one round of the name loop reads: a piece of the name, `next` being where the following round goes on. */
  function Piece(s: bytes, i: nat, fragment: bool): (r: NameScan)
    requires i < |s| && s[i] != SLASH
    ensures r.Name? ==> i < r.next <= |s| && 1 <= |r.name| <= r.next - i
  {
    if fragment && s[i] == PERCENT then
      var d := PercentChar(s, i);
      if d.None? then BadName(InvalidPercentEncoding, i)
      else if |d.value| > 1 then Name(d.value, i + 3 * |d.value|)
      else Unescaped(s, i + 3, d.value[0])
    else if fragment && NeedPercentEncode(s[i]) then BadName(CharacterMustPercentEncode, i)
    else Unescaped(s, i + 1, s[i])
  }

  function Unescaped(s: bytes, i: nat, c: byte): (r: NameScan)
    requires i <= |s|
    ensures r.Name? ==> i <= r.next <= |s| && |r.name| == 1
  {
    if c != TILDE then Name([c], i)
    else if i < |s| && s[i] == ZERO then Name([TILDE], i + 1)
    else if i < |s| && s[i] == ONE then Name([SLASH], i + 1)
    else BadName(InvalidEscape, i)
  }

  lemma NameFromPiece(s: bytes, i: nat, fragment: bool, acc: bytes)
    requires i < |s| && s[i] != SLASH
    ensures var r := Piece(s, i, fragment);
            NameFrom(s, i, fragment, acc) == if r.Name? then NameFrom(s, r.next, fragment, acc + r.name) else r
  {
    hide PercentChar, NeedPercentEncode;
  }

  /** One round: decodes, unescapes and writes to the buffer. */
  method ReadPiece(source: bytes, start: nat, fragment: bool, buffer: array<byte>, from: nat)
    returns (error: Option<PointerError>, i: nat, name: nat, digit: bool)
    requires start < |source| == buffer.Length && source[start] != SLASH && from < start
    requires fragment ==> from + 2 <= start
    modifies buffer
    ensures buffer[..from] == old(buffer[..from])
    ensures error.Some? ==> Piece(source, start, fragment) == BadName(error.value, i)
    ensures error.None? ==>
              && from < name <= buffer.Length && Piece(source, start, fragment) == Name(buffer[from..name], i)
              && (digit <==> AllDigits(buffer[from..name]))
  {
    hide PercentChar, NeedPercentEncode, Unescaped;
    i, name, digit := start, from, true;
    var c := source[i];
    if fragment {
      if c == PERCENT {
        var ok, len := DecodeChar(source, i, buffer, name);
        if !ok {
          return Some(InvalidPercentEncoding), i, name, digit;
        }
        i := i + 3 * len - 1;
        if len == 1 {
          c := buffer[name];
        } else {
          LeadIsNoDigit(source, start);
          assert !IsDigit(buffer[from..from + len][0]);
          name := name + len;
          return None, i + 1, name, false;
        }
      } else if NeedPercentEncode(c) {
        return Some(CharacterMustPercentEncode), i, name, digit;
      }
    }
    i := i + 1;
    assert Piece(source, start, fragment) == Unescaped(source, i, c);
    error, i, c := Unescape(source, i, c);
    if error.Some? {
      return;
    }
    if !IsDigit(c) {
      digit := false;
    }
    buffer[name] := c;
    name := name + 1;
    assert buffer[..from] == buffer[..name][..from];
    OneCharacter(buffer[..], from, c);
  }

  /** A decoded character after which the escapes `~0` and `~1` are read. */
  method Unescape(source: bytes, i: nat, c: byte) returns (error: Option<PointerError>, next: nat, ch: byte)
    requires i <= |source|
    ensures i <= next <= |source|
    ensures Unescaped(source, i, c) == if error.Some? then BadName(error.value, next) else Name([ch], next)
  {
    error, next, ch := None, i, c;
    if ch == TILDE {
      if i < |source| {
        ch := source[i];
        if ch == ZERO {
          ch := TILDE;
        } else if ch == ONE {
          ch := SLASH;
        } else {
          return Some(InvalidEscape), i, c;
        }
        next := i + 1;
      } else {
        return Some(InvalidEscape), i, c;
      }
    }
  }

  lemma OneCharacter(buffer: bytes, from: nat, c: byte)
    requires from < |buffer| && buffer[from] == c
    ensures buffer[from..from + 1] == [c]
    ensures AllDigits([c]) <==> IsDigit(c)
  {
    assert [c][0] == c;
  }

  /** One name: fills the buffer from `from` on and notes whether all characters are digits. */
  method ReadName(source: bytes, start: nat, fragment: bool, buffer: array<byte>, from: nat)
    returns (error: Option<PointerError>, i: nat, name: nat, isNumber: bool)
    requires start <= |source| == buffer.Length && from < start && (fragment ==> from + 2 <= start)
    modifies buffer
    ensures buffer[..from] == old(buffer[..from])
    ensures var r := NameFrom(source, start, fragment, []);
            if error.Some? then r == BadName(error.value, i)
            else from <= name < i <= |source| && name - from <= i - start && r == Name(buffer[from..name], i)
                 && (isNumber <==> AllDigits(buffer[from..name]))
  {
    hide AfterChar, Piece, AllDigits;
    i, name, isNumber := start, from, true;
    assert buffer[from..from] == [];
    NoDigitsAtAll();
    while i < |source| && source[i] != SLASH
      invariant start <= i <= |source| && from <= name && name - from <= i - start
      invariant buffer[..from] == old(buffer[..from])
      invariant NameFrom(source, start, fragment, []) == NameFrom(source, i, fragment, buffer[from..name])
      invariant isNumber <==> AllDigits(buffer[from..name])
      decreases |source| - i
    {
      ghost var acc := buffer[from..name];
      ghost var low := buffer[..name];
      ghost var before := name;
      NameFromPiece(source, i, fragment, acc);
      var digit;
      error, i, name, digit := ReadPiece(source, i, fragment, buffer, name);
      if error.Some? {
        return;
      }
      isNumber := isNumber && digit;
      StretchGrows(buffer[..], from, before, name, low);
      DigitsConcat(acc, buffer[before..name]);
    }
    error := None;
  }

  lemma StretchGrows(s: bytes, from: nat, middle: nat, to: nat, low: bytes)
    requires from <= middle <= to <= |s| && s[..middle] == low
    ensures s[..from] == low[..from] && s[from..to] == low[from..] + s[middle..to]
  {
  }

  lemma NoDigitsAtAll()
    ensures AllDigits([])
  {
  }

  lemma DigitsConcat(a: bytes, b: bytes)
    ensures AllDigits(a + b) <==> AllDigits(a) && AllDigits(b)
  {
    if AllDigits(a + b) {
      assert forall i :: 0 <= i < |a| ==> (a + b)[i] == a[i];
      assert forall i :: 0 <= i < |b| ==> b[i] == (a + b)[|a| + i];
    }
  }

  /** A character of several bytes begins with a byte that is no digit. */
  lemma LeadIsNoDigit(source: bytes, i: nat)
    requires PercentChar(source, i).Some? && |PercentChar(source, i).value| > 1
    ensures PercentChar(source, i).value[0] >= 0x80
  {
  }

  /** The digits of a name converted with 32-bit wrap-around, stopping where the number shrinks. */
  method ConvertIndex(name: bytes) returns (isNumber: bool, n: nat)
    requires AllDigits(name)
    ensures ToIndex(name) == if isNumber then Some(n) else None
  {
    hide AllDigits, ToIndex;
    isNumber, n := true, 0;
    var j := 0;
    NoDigitsAtAll();
    IndexStarts();
    assert name[..0] == [];
    while j < |name|
      invariant 0 <= j <= |name| && isNumber
      invariant AllDigits(name[..j]) && ToIndex(name[..j]) == Some(n)
    {
      IndexGoesOn(name, j, n);
      var m: nat := (n * 10 + DigitValue(name[j])) % 0x1_0000_0000;
      if m < n {
        ShrinkingFails(name, j + 1);
        return false, n;
      }
      n := m;
      j := j + 1;
    }
    assert name[..j] == name;
  }

  lemma IndexStarts()
    ensures ToIndex([]) == Some(0)
  {
  }

  lemma IndexGoesOn(name: bytes, j: nat, n: nat)
    requires AllDigits(name) && j < |name| && AllDigits(name[..j]) && ToIndex(name[..j]) == Some(n)
    ensures IsDigit(name[j]) && AllDigits(name[..j + 1])
    ensures ToIndex(name[..j + 1]) == NextIndex(n, DigitValue(name[j]))
  {
    hide NextIndex;
    assert name[..j + 1][..j] == name[..j];
  }

  lemma {:induction false} ShrinkingFails(name: bytes, j: nat)
    requires AllDigits(name) && j <= |name| && ToIndex(name[..j]).None?
    ensures ToIndex(name).None?
    decreases |name|
  {
    if j == |name| {
      assert name[..j] == name;
    } else {
      var init := name[..|name| - 1];
      assert init[..j] == name[..j];
      ShrinkingFails(init, j);
    }
  }

  /** The index of a finished name. */
  method Index(buffer: array<byte>, from: nat, length: nat, isNumber: bool) returns (index: Option<nat>)
    requires from + length <= buffer.Length
    requires isNumber <==> AllDigits(buffer[from..from + length])
    ensures index == IndexOf(buffer[from..from + length])
  {
    hide ToIndex;
    var name := buffer[from..from + length];
    if !isNumber || length == 0 || (length > 1 && name[0] == ZERO) {
      return None;
    }
    var fits, n := ConvertIndex(name);
    index := if fits && n != INVALID_INDEX then Some(n) else None;
  }

  /** One token: its name, the terminator and its index. */
  method ReadToken(source: bytes, start: nat, fragment: bool, buffer: array<byte>, from: nat)
    returns (error: Option<PointerError>, i: nat, name: nat, r: TokenRef)
    requires start <= |source| == buffer.Length && from < start && (fragment ==> from + 2 <= start)
    modifies buffer
    ensures buffer[..from] == old(buffer[..from])
    ensures error.Some? ==> NameFrom(source, start, fragment, []) == BadName(error.value, i)
    ensures error.None? ==>
              && r.start == from && from + r.length < name <= i <= |source| && name - from <= i - start + 1
              && NameFrom(source, start, fragment, []) == Name(buffer[from..from + r.length], i)
              && r.index == IndexOf(buffer[from..from + r.length])
  {
    hide NameFrom, IndexOf;
    var isNumber;
    error, i, name, isNumber := ReadName(source, start, fragment, buffer, from);
    r := TokenRef(from, 0, None);
    if error.Some? {
      return;
    }
    var length := name - from;
    ghost var text := buffer[from..name];
    buffer[name] := NUL;
    name := name + 1;
    assert buffer[from..from + length] == text;
    var index := Index(buffer, from, length, isNumber);
    r := TokenRef(from, length, index);
  }

  class GenericPointer {
    var nameBuffer: array<byte>
    var tokens: seq<TokenRef>
    var error: Option<PointerError>
    var errorOffset: nat

    predicate Valid()
      reads this
    {
      Inside(tokens, nameBuffer.Length)
    }

    function Outcome(): Outcome
      reads this, nameBuffer
      requires Valid()
    {
      if error.Some? then Failed(error.value, errorOffset) else Parsed(View(nameBuffer[..], tokens))
    }

    /** Parses either form. Every write into the name buffer, which is as long as the text, is in bounds. */
    constructor Parse(source: bytes)
      ensures Valid() && Outcome() == PointerText.Parse(source)
    {
      nameBuffer := new byte[|source|](_ => 0);
      tokens := [];
      error := None;
      errorOffset := 0;
      new;
      hide TokensFrom, View;
      NoView(nameBuffer[..]);
      var i := 0;
      var uriFragment := false;
      if Peek(source, i) == HASH {
        uriFragment := true;
        i := i + 1;
      }
      if i != |source| && source[i] != SLASH {
        error := Some(TokenMustBeginWithSolidus);
        errorOffset := i;
        return;
      }
      error, errorOffset, tokens := ReadTokens(source, i, uriFragment, nameBuffer);
    }
  }

  /** The token loop. */
  method ReadTokens(source: bytes, start: nat, fragment: bool, buffer: array<byte>)
    returns (error: Option<PointerError>, i: nat, refs: seq<TokenRef>)
    requires start <= |source| == buffer.Length && (start < |source| ==> source[start] == SLASH)
    requires fragment ==> start == 1
    modifies buffer
    ensures Inside(refs, buffer.Length)
    ensures TokensFrom(source, start, fragment, [])
            == if error.Some? then Failed(error.value, i) else Parsed(View(buffer[..], refs))
  {
    hide NameFrom, IndexOf, View;
    i, refs, error := start, [], None;
    var name: nat := 0;
    NoView(buffer[..0]);
    while i < |source|
      invariant error.None? && name <= i <= |source| && (fragment ==> name + 1 <= i)
      invariant i < |source| ==> source[i] == SLASH
      invariant Inside(refs, name)
      invariant TokensFrom(source, start, fragment, []) == TokensFrom(source, i, fragment, View(buffer[..name], refs))
    {
      ghost var low := buffer[..name];
      i := i + 1;
      var r;
      error, i, name, r := ReadToken(source, i, fragment, buffer, name);
      if error.Some? {
        return;
      }
      assert buffer[..name][..|low|] == low;
      assert buffer[..][..name] == buffer[..name];
      SameName(buffer[..name], buffer[..], r);
      ViewGrows(low, buffer[..name], refs, r);
      refs := refs + [r];
    }
    ViewOfWhole(buffer[..], name, refs);
    assert buffer[..][..name] == buffer[..name];
  }

  lemma NoView(buffer: bytes)
    ensures View(buffer, []) == []
  {
  }

  lemma ViewOfWhole(buffer: bytes, n: nat, refs: seq<TokenRef>)
    requires n <= |buffer| && Inside(refs, n)
    ensures Inside(refs, |buffer|) && View(buffer, refs) == View(buffer[..n], refs)
  {
    hide View;
    forall k | 0 <= k < |refs| ensures View(buffer, refs)[k] == View(buffer[..n], refs)[k] {
    }
  }

  // ---------- writing ----------

  lemma {:induction false} PercentedConcat(a: bytes, b: bytes)
    ensures Percented(a + b) == Percented(a) + Percented(b)
  {
    if a == [] {
      assert a + b == b;
    } else {
      assert (a + b)[1..] == a[1..] + b;
      PercentedConcat(a[1..], b);
    }
  }

  /** The encoding stream: each byte becomes a triplet. */
  method PutPercented(os: bytes, d: bytes) returns (out: bytes)
    ensures out == os + Percented(d)
  {
    hide Triplet;
    out := os;
    var k := 0;
    while k < |d|
      invariant 0 <= k <= |d|
      invariant out == os + Percented(d[..k])
    {
      assert d[..k + 1] == d[..k] + [d[k]];
      PercentedConcat(d[..k], [d[k]]);
      assert Percented([d[k]]) == Triplet(d[k]) by {
        assert [d[k]][1..] == [];
      }
      out := out + Triplet(d[k]);
      k := k + 1;
    }
    assert d[..k] == d;
  }

  /** One name in either form; in a fragment, what needs encoding is encoded a whole character at a time. */
  method PutName(os: bytes, name: bytes, uriFragment: bool) returns (ok: bool, out: bytes)
    ensures if ok then NameText(name, uriFragment).Some? && out == os + NameText(name, uriFragment).value
            else NameText(name, uriFragment).None?
  {
    hide EscapedName, FragmentName, Utf8.CharLength, Percented, NeedPercentEncode, EscapedByte;
    out := os;
    var j := 0;
    assert name[0..] == name;
    while j < |name|
      invariant 0 <= j <= |name|
      invariant RestText(name, j, uriFragment).Some? <==> NameText(name, uriFragment).Some?
      invariant NameText(name, uriFragment).Some? ==>
                  out + RestText(name, j, uriFragment).value == os + NameText(name, uriFragment).value
    {
      var c := name[j];
      RestUnfold(name, j, uriFragment);
      if uriFragment && c != TILDE && c != SLASH && NeedPercentEncode(c) {
        var source := new Utf8.Source(name, j);
        var valid, copied := source.Validate();
        if !valid {
          return false, out;
        }
        ghost var before := out;
        out := PutPercented(out, copied);
        j := source.pos;
      } else {
        out := out + EscapedByte(c);
        j := j + 1;
      }
    }
    NoRest(name, uriFragment);
    ok := true;
  }

  /** The text of a name from position `j` on. */
  function RestText(name: bytes, j: nat, uriFragment: bool): Option<bytes>
    requires j <= |name|
  {
    if uriFragment then FragmentName(name, j) else Some(EscapedName(name[j..]))
  }

  lemma NoRest(name: bytes, uriFragment: bool)
    ensures RestText(name, |name|, uriFragment) == Some([])
  {
  }

  lemma RestUnfold(name: bytes, j: nat, uriFragment: bool)
    requires j < |name|
    ensures var c := name[j];
            if uriFragment && c != TILDE && c != SLASH && NeedPercentEncode(c) then
              var k := Utf8.CharLength(name, j);
              if k == 0 then RestText(name, j, uriFragment).None?
              else
                var rest := RestText(name, j + k, uriFragment);
                RestText(name, j, uriFragment)
                == if rest.Some? then Some(Percented(name[j..j + k]) + rest.value) else None
            else
              var rest := RestText(name, j + 1, uriFragment);
              RestText(name, j, uriFragment) == if rest.Some? then Some(EscapedByte(c) + rest.value) else None
  {
    hide Utf8.CharLength, Percented, NeedPercentEncode, EscapedByte;
    assert name[j..][1..] == name[j + 1..];
  }

  lemma {:induction false} TextAppend(tokens: seq<Token>, t: Token, uriFragment: bool)
    ensures var head, last := TokensText(tokens, uriFragment), NameText(t.name, uriFragment);
            TokensText(tokens + [t], uriFragment)
            == if head.Some? && last.Some? then Some(head.value + [SLASH] + last.value) else None
  {
    hide NameText;
    if tokens == [] {
      assert [] + [t] == [t] && [t][1..] == [];
      assert TokensText([], uriFragment) == Some([]);
      var last := NameText(t.name, uriFragment);
      if last.Some? {
        assert [SLASH] + last.value + [] == [] + [SLASH] + last.value;
      }
    } else {
      assert (tokens + [t])[1..] == tokens[1..] + [t];
      TextAppend(tokens[1..], t, uriFragment);
      var first, rest, last :=
        NameText(tokens[0].name, uriFragment), TokensText(tokens[1..], uriFragment), NameText(t.name, uriFragment);
      if first.Some? && rest.Some? && last.Some? {
        assert [SLASH] + first.value + (rest.value + [SLASH] + last.value)
          == ([SLASH] + first.value + rest.value) + [SLASH] + last.value;
      }
    }
  }

  lemma {:induction false} TextFails(tokens: seq<Token>, more: seq<Token>, uriFragment: bool)
    requires TokensText(tokens, uriFragment).None?
    ensures TokensText(tokens + more, uriFragment).None?
  {
    hide NameText;
    if tokens != [] {
      assert (tokens + more)[1..] == tokens[1..] + more;
      if TokensText(tokens[1..], uriFragment).None? {
        TextFails(tokens[1..], more, uriFragment);
      }
    }
  }

  /** Writes all tokens; fails exactly where the fragment form does not exist. */
  method PutTokens(tokens: seq<Token>, uriFragment: bool) returns (ok: bool, os: bytes)
    ensures Stringify(tokens, uriFragment) == if ok then Some(os) else None
  {
    hide NameText, TokensText;
    os := [];
    if uriFragment {
      os := os + [HASH];
    }
    ghost var prefix := os;
    assert prefix == if uriFragment then [HASH] else [];
    var t := 0;
    NoTokens(uriFragment);
    assert tokens[..0] == [];
    while t < |tokens|
      invariant 0 <= t <= |tokens|
      invariant TokensText(tokens[..t], uriFragment).Some? && os == prefix + TokensText(tokens[..t], uriFragment).value
    {
      TextAppend(tokens[..t], tokens[t], uriFragment);
      assert tokens[..t + 1] == tokens[..t] + [tokens[t]];
      os := os + [SLASH];
      ok, os := PutName(os, tokens[t].name, uriFragment);
      if !ok {
        TextFails(tokens[..t + 1], tokens[t + 1..], uriFragment);
        assert tokens == tokens[..t + 1] + tokens[t + 1..];
        return;
      }
      t := t + 1;
    }
    assert tokens[..t] == tokens;
    ok := true;
  }

  lemma NoTokens(uriFragment: bool)
    ensures TokensText([], uriFragment) == Some([])
  {
  }
}
