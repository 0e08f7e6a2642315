/**
 The compact writer: a stack of levels that decides which separator goes before a
 value, string escaping, and `Accept`, which feeds it a document.
 */
module Writer {
  import opened Bytes
  import opened Json
  import opened Scalars

  // ---------- what is written ----------

  /** Standard decimal notation, as `u64toa` and `i64toa` produce it. */
  function Decimal(n: nat): (t: bytes)
    ensures |t| > 0 && forall c <- t :: IsDigit(c)
  {
    if n < 10 then [0x30 + n] else Decimal(n / 10) + [0x30 + n % 10]
  }

  function NumberText(n: int): bytes {
    if n < 0 then [MINUS] + Decimal(-n) else Decimal(n)
  }

  /** The letter after the backslash, or 0 when the byte is written as it is. */
  function EscapeLetter(c: byte): byte {
    if c == 0x22 then 0x22
    else if c == 0x5C then 0x5C
    else if c == 0x08 then 0x62
    else if c == 0x09 then 0x74
    else if c == 0x0A then 0x6E
    else if c == 0x0C then 0x66
    else if c == 0x0D then 0x72
    else if c < 0x20 then LOWER_U
    else 0
  }

  function Escaped(c: byte): (t: bytes)
    ensures |t| > 0
  {
    var letter := EscapeLetter(c);
    if letter == 0 then [c]
    else if letter == LOWER_U then [BACKSLASH, LOWER_U, ZERO, ZERO, HexDigit(c / 16), HexDigit(c % 16)]
    else [BACKSLASH, letter]
  }

  function EscapedAll(str: bytes): bytes {
    if str == [] then [] else Escaped(str[0]) + EscapedAll(str[1..])
  }

  function Quoted(str: bytes): bytes {
    [QUOTE] + EscapedAll(str) + [QUOTE]
  }

  function Separator(first: bool): bytes {
    if first then [] else [COMMA]
  }

  /** The text of a value. */
  function Text(v: Value): bytes
    decreases v, 0
  {
    match v
    case Null => NULL
    case Bool(b) => if b then TRUE else FALSE
    case Number(n) => NumberText(n)
    case String(str) => Quoted(str)
    case Array(elems) => [LBRACKET] + ElementsText(elems, true) + [RBRACKET]
    case Object(members) => [LBRACE] + MembersText(members, true) + [RBRACE]
  }

  function ElementsText(elems: seq<Value>, first: bool): bytes
    decreases elems, 1
  {
    if elems == [] then [] else Separator(first) + Text(elems[0]) + ElementsText(elems[1..], false)
  }

  function MembersText(members: seq<Member>, first: bool): bytes
    decreases members, 1
  {
    if members == [] then []
    else
      Separator(first) + Quoted(members[0].name) + [COLON] + Text(members[0].value)
      + MembersText(members[1..], false)
  }

  lemma {:induction false} EscapedAllSnoc(str: bytes, c: byte)
    ensures EscapedAll(str + [c]) == EscapedAll(str) + Escaped(c)
  {
    hide Escaped;
    if str == [] {
      assert EscapedAll([c][1..]) == [];
    } else {
      assert (str + [c])[1..] == str[1..] + [c];
      EscapedAllSnoc(str[1..], c);
    }
  }

  lemma {:induction false} ElementsTextSnoc(elems: seq<Value>, e: Value, first: bool)
    ensures ElementsText(elems + [e], first) == ElementsText(elems, first) + (Separator(first && elems == []) + Text(e))
  {
    hide Text;
    if elems == [] {
      assert ElementsText([e][1..], false) == [];
    } else {
      assert (elems + [e])[1..] == elems[1..] + [e];
      ElementsTextSnoc(elems[1..], e, false);
    }
  }

  lemma {:induction false} MembersTextSnoc(members: seq<Member>, m: Member, first: bool)
    ensures MembersText(members + [m], first)
            == MembersText(members, first)
               + (Separator(first && members == []) + Quoted(m.name) + [COLON] + Text(m.value))
  {
    hide Text, Quoted;
    if members == [] {
      assert MembersText([m][1..], false) == [];
    } else {
      assert (members + [m])[1..] == members[1..] + [m];
      MembersTextSnoc(members[1..], m, false);
    }
  }

  // ---------- the writer ----------

  datatype Level = Level(valueCount: nat, inArray: bool)

  /** What `Prefix` writes before a value at this nesting. */
  function PrefixText(levels: seq<Level>): bytes {
    if levels == [] then []
    else
      var top := levels[|levels| - 1];
      if top.valueCount == 0 then []
      else if top.inArray || top.valueCount % 2 == 0 then [COMMA]
      else [COLON]
  }

  /** The levels once one more value has been started. */
  function Counted(levels: seq<Level>): seq<Level> {
    if levels == [] then []
    else
      var top := levels[|levels| - 1];
      levels[..|levels| - 1] + [top.(valueCount := top.valueCount + 1)]
  }

  class Writer {
    var levels: seq<Level>
    var hasRoot: bool
    var out: bytes

    constructor ()
      ensures levels == [] && !hasRoot && out == []
    {
      levels, hasRoot, out := [], false, [];
    }

    /** The assertions of `Prefix`: one root only, and a name where an object expects a name. */
    predicate Accepts(isString: bool)
      reads this
    {
      if levels == [] then !hasRoot
      else
        var top := levels[|levels| - 1];
        !top.inArray && top.valueCount % 2 == 0 ==> isString
    }

    method Prefix(isString: bool)
      requires Accepts(isString)
      modifies this
      ensures out == old(out) + PrefixText(old(levels)) && levels == Counted(old(levels))
      ensures hasRoot == (old(hasRoot) || old(levels) == [])
    {
      if levels != [] {
        var level := levels[|levels| - 1];
        if level.valueCount > 0 {
          if level.inArray {
            out := out + [COMMA];
          } else {
            out := out + [if level.valueCount % 2 == 0 then COMMA else COLON];
          }
        }
        levels := levels[..|levels| - 1] + [level.(valueCount := level.valueCount + 1)];
      } else {
        hasRoot := true;
      }
    }

    /** One byte of a string, escaped if the table says so. */
    method PutEscaped(c: byte)
      modifies this`out
      ensures out == old(out) + Escaped(c)
    {
      var letter := EscapeLetter(c);
      if letter != 0 {
        out := out + [BACKSLASH, letter];
        if letter == LOWER_U {
          out := out + [ZERO, ZERO, HexDigit(c / 16), HexDigit(c % 16)];
        }
      } else {
        out := out + [c];
      }
    }

    method WriteString(str: bytes)
      modifies this`out
      ensures out == old(out) + Quoted(str)
    {
      hide Escaped;
      out := out + [QUOTE];
      var i := 0;
      while i < |str|
        invariant 0 <= i <= |str|
        invariant out == old(out) + [QUOTE] + EscapedAll(str[..i])
      {
        PutEscaped(str[i]);
        assert str[..i + 1] == str[..i] + [str[i]];
        EscapedAllSnoc(str[..i], str[i]);
        i := i + 1;
      }
      assert str[..|str|] == str;
      out := out + [QUOTE];
    }

    /** `Null`, `Bool`, `Int`, `Uint`, `Int64` and `Uint64`: a prefix and a fixed text. */
    method WriteScalar(text: bytes)
      requires Accepts(false)
      modifies this
      ensures out == old(out) + PrefixText(old(levels)) + text && levels == Counted(old(levels))
      ensures hasRoot == (old(hasRoot) || old(levels) == [])
    {
      Prefix(false);
      out := out + text;
    }

    /** `String` and `Key`. */
    method WriteStringValue(str: bytes)
      requires Accepts(true)
      modifies this
      ensures out == old(out) + PrefixText(old(levels)) + Quoted(str) && levels == Counted(old(levels))
      ensures hasRoot == (old(hasRoot) || old(levels) == [])
    {
      Prefix(true);
      WriteString(str);
    }

    /** `StartArray` and `StartObject`. */
    method Open(inArray: bool)
      requires Accepts(false)
      modifies this
      ensures levels == Counted(old(levels)) + [Level(0, inArray)]
      ensures out == old(out) + PrefixText(old(levels)) + [if inArray then LBRACKET else LBRACE]
      ensures hasRoot == (old(hasRoot) || old(levels) == [])
    {
      Prefix(false);
      levels := levels + [Level(0, inArray)];
      out := out + [if inArray then LBRACKET else LBRACE];
    }

    /** `EndArray` and `EndObject`, with their assertions. */
    method Close(inArray: bool)
      requires levels != [] && levels[|levels| - 1].inArray == inArray
      requires !inArray ==> levels[|levels| - 1].valueCount % 2 == 0
      modifies this`levels, this`out
      ensures levels == old(levels)[..|old(levels)| - 1]
      ensures out == old(out) + [if inArray then RBRACKET else RBRACE]
    {
      levels := levels[..|levels| - 1];
      out := out + [if inArray then RBRACKET else RBRACE];
    }
  }

  /** `GenericValue::Accept`: none of the writer's assertions can fail, and the value's text is appended. */
  method Accept(v: Value, w: Writer)
    requires w.Accepts(false)
    modifies w
    ensures w.out == old(w.out) + PrefixText(old(w.levels)) + Text(v)
    ensures w.levels == Counted(old(w.levels))
    ensures w.hasRoot == (old(w.hasRoot) || old(w.levels) == [])
    decreases v, 0
  {
    match v
    case Null => w.WriteScalar(NULL);
    case Bool(b) => w.WriteScalar(if b then TRUE else FALSE);
    case Number(n) => w.WriteScalar(NumberText(n));
    case String(str) => w.WriteStringValue(str);
    case Array(elems) => AcceptArray(elems, w);
    case Object(members) => AcceptObject(members, w);
  }

  method AcceptArray(elems: seq<Value>, w: Writer)
    requires w.Accepts(false)
    modifies w
    ensures w.out == old(w.out) + PrefixText(old(w.levels)) + Text(Array(elems))
    ensures w.levels == Counted(old(w.levels))
    ensures w.hasRoot == (old(w.hasRoot) || old(w.levels) == [])
    decreases elems
  {
    hide Text, ElementsText;
    w.Open(true);
    ghost var head, outer := w.out, Counted(old(w.levels));
    EmptyTexts();
    var i := 0;
    while i < |elems|
      invariant 0 <= i <= |elems|
      invariant w.levels == outer + [Level(i, true)]
      invariant w.out == head + ElementsText(elems[..i], true)
      invariant w.hasRoot == (old(w.hasRoot) || old(w.levels) == [])
    {
      Accept(elems[i], w);
      assert elems[..i + 1] == elems[..i] + [elems[i]];
      ElementsTextSnoc(elems[..i], elems[i], true);
      i := i + 1;
    }
    assert elems[..|elems|] == elems;
    w.Close(true);
    ArrayText(elems);
  }

  /** The `i`-th member of an object nested in `outer`: its name, then its value. */
  method AcceptMember(m: Member, w: Writer, ghost outer: seq<Level>, ghost i: nat)
    requires w.levels == outer + [Level(2 * i, false)]
    modifies w
    ensures w.levels == outer + [Level(2 * i + 2, false)]
    ensures w.out == old(w.out) + (Separator(i == 0) + Quoted(m.name) + [COLON] + Text(m.value))
    ensures w.hasRoot == old(w.hasRoot)
    decreases m
  {
    hide Text, Quoted;
    w.WriteStringValue(m.name);
    assert w.levels == outer + [Level(2 * i + 1, false)];
    Accept(m.value, w);
  }

  method AcceptObject(members: seq<Member>, w: Writer)
    requires w.Accepts(false)
    modifies w
    ensures w.out == old(w.out) + PrefixText(old(w.levels)) + Text(Object(members))
    ensures w.levels == Counted(old(w.levels))
    ensures w.hasRoot == (old(w.hasRoot) || old(w.levels) == [])
    decreases members
  {
    hide Text, MembersText, Quoted;
    w.Open(false);
    ghost var head, outer := w.out, Counted(old(w.levels));
    EmptyTexts();
    var i := 0;
    while i < |members|
      invariant 0 <= i <= |members|
      invariant w.levels == outer + [Level(2 * i, false)]
      invariant w.out == head + MembersText(members[..i], true)
      invariant w.hasRoot == (old(w.hasRoot) || old(w.levels) == [])
    {
      AcceptMember(members[i], w, outer, i);
      assert members[..i + 1] == members[..i] + [members[i]];
      MembersTextSnoc(members[..i], members[i], true);
      i := i + 1;
    }
    assert members[..|members|] == members;
    w.Close(false);
    ObjectText(members);
  }

  lemma EmptyTexts()
    ensures ElementsText([], true) == [] && MembersText([], true) == []
  {
  }

  lemma ArrayText(elems: seq<Value>)
    ensures Text(Array(elems)) == [LBRACKET] + ElementsText(elems, true) + [RBRACKET]
  {
  }

  lemma ObjectText(members: seq<Member>)
    ensures Text(Object(members)) == [LBRACE] + MembersText(members, true) + [RBRACE]
  {
  }
}
