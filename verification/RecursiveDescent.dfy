/**
 The recursive descent parser as a function from a text to the events it emits and
 the error it stops with.
 */
module RecursiveDescent {
  import opened Bytes
  import opened Json
  import opened Scalars

  /** `trailingCommas` and `stopWhenDone` are the parse flags of the same names. */
  datatype Flags = Flags(trailingCommas: bool, stopWhenDone: bool)

  datatype Run =
    | Good(events: seq<Event>, pos: nat)
    | Bad(events: seq<Event>, code: ErrorCode, offset: nat)

  function ParseValue(s: bytes, p: nat, ev: seq<Event>, fl: Flags): (r: Run)
    requires p <= |s|
    ensures r.Good? ==> p < r.pos <= |s|
    decreases |s| - p, 2
  {
    var c := Peek(s, p);
    if c == LBRACE then ParseObject(s, p, ev, fl)
    else if c == LBRACKET then ParseArray(s, p, ev, fl)
    else
      match ParseScalar(s, p)
      case Fail(code, offset) => Bad(ev, code, offset)
      case Done(e, next) => Good(ev + [e], next)
  }

  function ParseObject(s: bytes, p: nat, ev: seq<Event>, fl: Flags): (r: Run)
    requires p < |s|
    ensures r.Good? ==> p < r.pos <= |s|
    decreases |s| - p, 1
  {
    var q := SkipSpace(s, p + 1);
    if Peek(s, q) == RBRACE then Good(ev + [StartObjectEvent] + [EndObjectEvent(0)], q + 1)
    else Members(s, q, ev + [StartObjectEvent], 0, fl)
  }

  /** The member loop, with `count` members read and a member expected at `p`. */
  function Members(s: bytes, p: nat, ev: seq<Event>, count: nat, fl: Flags): (r: Run)
    requires p <= |s|
    ensures r.Good? ==> p < r.pos <= |s|
    decreases |s| - p, 0
  {
    if Peek(s, p) != QUOTE then Bad(ev, ObjectMissName, p)
    else
      match ParseString(s, p)
      case Fail(code, offset) => Bad(ev, code, offset)
      case Done(name, q) =>
        var colon := SkipSpace(s, q);
        if Peek(s, colon) != COLON then Bad(ev + [KeyEvent(name)], ObjectMissColon, colon)
        else
          var r := ParseValue(s, SkipSpace(s, colon + 1), ev + [KeyEvent(name)], fl);
          if r.Bad? then r else AfterMember(s, SkipSpace(s, r.pos), r.events, count + 1, fl)
  }

  /** What follows a member, `count` being the number of members read. */
  function AfterMember(s: bytes, p: nat, ev: seq<Event>, count: nat, fl: Flags): (r: Run)
    requires p <= |s|
    ensures r.Good? ==> p < r.pos <= |s|
    decreases |s| - p, 0
  {
    if Peek(s, p) == COMMA then
      var next := SkipSpace(s, p + 1);
      if fl.trailingCommas && Peek(s, next) == RBRACE then Good(ev + [EndObjectEvent(count)], next + 1)
      else Members(s, next, ev, count, fl)
    else if Peek(s, p) == RBRACE then Good(ev + [EndObjectEvent(count)], p + 1)
    else Bad(ev, ObjectMissCommaOrCurlyBracket, p)
  }

  function ParseArray(s: bytes, p: nat, ev: seq<Event>, fl: Flags): (r: Run)
    requires p < |s|
    ensures r.Good? ==> p < r.pos <= |s|
    decreases |s| - p, 1
  {
    var q := SkipSpace(s, p + 1);
    if Peek(s, q) == RBRACKET then Good(ev + [StartArrayEvent] + [EndArrayEvent(0)], q + 1)
    else Elements(s, q, ev + [StartArrayEvent], 0, fl)
  }

  /** The element loop, with `count` elements read and an element expected at `p`. */
  function Elements(s: bytes, p: nat, ev: seq<Event>, count: nat, fl: Flags): (r: Run)
    requires p <= |s|
    ensures r.Good? ==> p < r.pos <= |s|
    decreases |s| - p, 3
  {
    var r := ParseValue(s, p, ev, fl);
    if r.Bad? then r else AfterElement(s, SkipSpace(s, r.pos), r.events, count + 1, fl)
  }

  /** What follows an element, `count` being the number of elements read. */
  function AfterElement(s: bytes, p: nat, ev: seq<Event>, count: nat, fl: Flags): (r: Run)
    requires p <= |s|
    ensures r.Good? ==> p < r.pos <= |s|
    decreases |s| - p, 0
  {
    if Peek(s, p) == COMMA then
      var next := SkipSpace(s, p + 1);
      if fl.trailingCommas && Peek(s, next) == RBRACKET then Good(ev + [EndArrayEvent(count)], next + 1)
      else Elements(s, next, ev, count, fl)
    else if Peek(s, p) == RBRACKET then Good(ev + [EndArrayEvent(count)], p + 1)
    else Bad(ev, ArrayMissCommaOrSquareBracket, p)
  }

  /** `GenericReader::Parse` without the iterative flag. */
  function Parse(s: bytes, fl: Flags): Run {
    var p := SkipSpace(s, 0);
    if Peek(s, p) == NUL then Bad([], DocumentEmpty, p)
    else
      var r := ParseValue(s, p, [], fl);
      if r.Bad? || fl.stopWhenDone then r
      else
        var end := SkipSpace(s, r.pos);
        if Peek(s, end) != NUL then Bad(r.events, DocumentRootNotSingular, end) else Good(r.events, end)
  }
}
