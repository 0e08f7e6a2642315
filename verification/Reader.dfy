/**
 The reader as an object: a cursor over the text, the log of what its handler was told
 and the parse result. Each method is proved against the function of the same name.
 */
module Reader {
  import opened Bytes
  import opened Json
  import opened Scalars
  import opened RecursiveDescent
  import Automaton
  import Utf8

  datatype ParseResult = NoError | ParseError(code: ErrorCode, offset: nat)

  class Reader {
    const input: bytes
    const flags: Flags
    var pos: nat
    var events: seq<Event>       // calls made to the handler so far
    var result: ParseResult
    var stack: seq<Automaton.Frame>

    constructor (input: bytes, flags: Flags)
      ensures this.input == input && this.flags == flags
      ensures pos == 0 && events == [] && result == NoError && stack == []
    {
      this.input := input;
      this.flags := flags;
      pos, events, result, stack := 0, [], NoError, [];
    }

    /** Between two calls: no error so far and the cursor inside the text. */
    predicate Ready()
      reads this
    {
      pos <= |input| && result.NoError?
    }

    /** The object is where run `r` ends. */
    predicate EndsAs(r: Run)
      reads this
    {
      match r
      case Good(ev, p) => result.NoError? && events == ev && pos == p
      case Bad(ev, code, offset) => result == ParseError(code, offset) && events == ev
    }

    method SkipWhitespace()
      requires Ready()
      modifies this`pos
      ensures pos == SkipSpace(input, old(pos))
    {
      while IsSpace(Peek(input, pos))
        invariant pos <= |input|
        invariant SkipSpace(input, pos) == SkipSpace(input, old(pos))
        decreases |input| - pos
      {
        pos := pos + 1;
      }
    }

    method Consume(wanted: byte) returns (taken: bool)
      requires Ready() && wanted != NUL
      modifies this`pos
      ensures taken <==> Peek(input, old(pos)) == wanted
      ensures pos == if taken then old(pos) + 1 else old(pos)
      ensures Ready()
    {
      taken := Peek(input, pos) == wanted;
      if taken {
        pos := pos + 1;
      }
    }

    method ParseHex4(escapeOffset: nat) returns (codepoint: nat)
      requires Ready()
      modifies this`pos, this`result
      ensures match Scalars.ParseHex4(input, old(pos), escapeOffset)
              case Fail(code, offset) => result == ParseError(code, offset)
              case Done(value, next) => codepoint == value && pos == next && Ready()
    {
      codepoint := 0;
      var i := 0;
      while i < 4
        invariant 0 <= i <= 4 && Ready()
        invariant HexDigits(input, pos, 4 - i, codepoint, escapeOffset)
                  == HexDigits(input, old(pos), 4, 0, escapeOffset)
      {
        var d := HexValue(Peek(input, pos));
        if d < 0 {
          result := ParseError(StringUnicodeEscapeInvalidHex, escapeOffset);
          return;
        }
        codepoint := 16 * codepoint + d;
        pos := pos + 1;
        i := i + 1;
      }
    }

    /** The part of an escape after `\u`; the backslash was at `escapeOffset`. */
    method ParseUnicodeEscape(escapeOffset: nat) returns (codepoint: nat)
      requires Ready() && pos == escapeOffset + 2
      modifies this`pos, this`result
      ensures match Scalars.ParseUnicodeEscape(input, escapeOffset)
              case Fail(code, offset) => result == ParseError(code, offset)
              case Done(value, next) => codepoint == value && pos == next && Ready()
    {
      codepoint := ParseHex4(escapeOffset);
      if result.ParseError? {
        return;
      }
      if 0xD800 <= codepoint <= 0xDFFF {
        if codepoint <= 0xDBFF {
          var next := Consume(BACKSLASH);
          if next {
            next := Consume(LOWER_U);
          }
          if !next {
            result := ParseError(StringUnicodeSurrogateInvalid, escapeOffset);
            return;
          }
          var codepoint2 := ParseHex4(escapeOffset);
          if result.ParseError? {
            return;
          }
          if codepoint2 < 0xDC00 || codepoint2 > 0xDFFF {
            result := ParseError(StringUnicodeSurrogateInvalid, escapeOffset);
            return;
          }
          codepoint := (codepoint - 0xD800) * 0x400 + (codepoint2 - 0xDC00) + 0x10000;
        } else {
          result := ParseError(StringUnicodeSurrogateInvalid, escapeOffset);
        }
      }
    }

    method ParseString() returns (str: bytes)
      requires Ready() && pos < |input| && Peek(input, pos) == QUOTE
      modifies this`pos, this`result
      ensures match Scalars.ParseString(input, old(pos))
              case Fail(code, offset) => result == ParseError(code, offset)
              case Done(value, next) => str == value && pos == next && Ready()
    {
      hide Utf8.Encode, Scalars.ParseUnicodeEscape;
      pos := pos + 1;
      str := [];
      while true
        invariant Ready()
        invariant StringBody(input, pos, str) == Scalars.ParseString(input, old(pos))
        decreases |input| - pos
      {
        var c := Peek(input, pos);
        if c == BACKSLASH {
          var e := Peek(input, pos + 1);
          if Unescape(e) != 0 {
            str := str + [Unescape(e)];
            pos := pos + 2;
          } else if e == LOWER_U {
            pos := pos + 2;
            var codepoint := ParseUnicodeEscape(pos - 2);
            if result.ParseError? {
              return;
            }
            str := str + Utf8.Encode(codepoint);
          } else {
            result := ParseError(StringEscapeInvalid, pos);
            return;
          }
        } else if c == QUOTE {
          pos := pos + 1;
          return;
        } else if c < 0x20 {
          result := ParseError(if c == NUL then StringMissQuotationMark else StringInvalidEncoding, pos);
          return;
        } else {
          str := str + [c];
          pos := pos + 1;
        }
      }
    }

    /** The two digit loops of `ParseNumber`; the cursor is after the first, non-zero digit `i`. */
    method ParseDigits(minus: bool, first: nat) returns (magnitude: nat, use64bit: bool, useDouble: bool)
      requires Ready()
      modifies this`pos
      ensures Ready()
      ensures match Digits(input, old(pos), minus, false, first)
              case Small(i, next) => !useDouble && !use64bit && magnitude == i && pos == next
              case Large(i, next) => !useDouble && use64bit && magnitude == i && pos == next
              case TooLarge => useDouble
    {
      var i: nat := first;
      use64bit, useDouble := false, false;
      while IsDigit(Peek(input, pos))
        invariant Ready()
        invariant Digits(input, pos, minus, false, i) == Digits(input, old(pos), minus, false, first)
        decreases |input| - pos
      {
        if Overflows(minus, false, i, Peek(input, pos)) {
          use64bit := true;
          break;
        }
        i := 10 * i + (Peek(input, pos) - 0x30);
        pos := pos + 1;
      }
      magnitude := i;
      if use64bit {
        while IsDigit(Peek(input, pos))
          invariant Ready()
          invariant Digits(input, pos, minus, true, magnitude) == Digits(input, old(pos), minus, false, first)
          decreases |input| - pos
        {
          if Overflows(minus, true, magnitude, Peek(input, pos)) {
            useDouble := true;
            return;
          }
          magnitude := 10 * magnitude + (Peek(input, pos) - 0x30);
          pos := pos + 1;
        }
      }
    }

    method ParseNumber()
      requires Ready()
      modifies this`pos, this`result, this`events
      ensures match Scalars.ParseNumber(input, old(pos))
              case Fail(code, offset) => result == ParseError(code, offset) && events == old(events)
              case Done(e, next) => Ready() && events == old(events) + [e] && pos == next
    {
      var minus := Consume(MINUS);
      var start := pos;
      var i, use64bit, useDouble := 0, false, false;
      if Peek(input, pos) == ZERO {
        pos := pos + 1;
      } else if IsDigit(Peek(input, pos)) {
        var first := Peek(input, pos) - 0x30;
        pos := pos + 1;
        i, use64bit, useDouble := ParseDigits(minus, first);
      } else {
        result := ParseError(ValueInvalid, pos);
        return;
      }
      if useDouble || ContinuesAsDouble(Peek(input, pos)) {
        result := ParseError(NumberNotInteger, if useDouble then start else pos);
        return;
      }
      var m := if use64bit then Large(i, pos) else Small(i, pos);
      events := events + [NumberEvent(minus, m)];
    }

    /** `ParseNull`, `ParseTrue` and `ParseFalse`: the first letter is known to match. */
    method ParseLiteral(word: bytes, e: Event)
      requires Ready() && pos < |input| && |word| > 1
      requires forall c <- word :: c != NUL
      modifies this`pos, this`result, this`events
      ensures match Scalars.ParseLiteral(input, old(pos), word, e)
              case Fail(code, offset) => result == ParseError(code, offset) && events == old(events)
              case Done(ev, next) => Ready() && events == old(events) + [ev] && pos == next
    {
      pos := pos + 1;
      var k := 1;
      var matched := true;
      while matched && k < |word|
        invariant Ready() && 1 <= k <= |word| && events == old(events)
        invariant matched ==>
                    pos == old(pos) + k && Matched(input, pos, word, k) == Matched(input, old(pos) + 1, word, 1)
        invariant !matched ==> pos == Matched(input, old(pos) + 1, word, 1) && pos < old(pos) + |word|
        decreases |word| - k, matched
      {
        assert word[k] in word;
        matched := Consume(word[k]);
        if matched {
          k := k + 1;
        }
      }
      if matched {
        events := events + [e];
      } else {
        result := ParseError(ValueInvalid, pos);
      }
    }

    /** `ParseValue` for everything but arrays and objects. */
    method ParseScalar()
      requires Ready()
      modifies this`pos, this`result, this`events
      ensures match Scalars.ParseScalar(input, old(pos))
              case Fail(code, offset) => result == ParseError(code, offset) && events == old(events)
              case Done(e, next) => Ready() && events == old(events) + [e] && pos == next
    {
      var c := Peek(input, pos);
      if c == 0x6E {
        ParseLiteral(NULL, NullEvent);
      } else if c == 0x74 {
        ParseLiteral(TRUE, BoolEvent(true));
      } else if c == 0x66 {
        ParseLiteral(FALSE, BoolEvent(false));
      } else if c == QUOTE {
        var str := ParseString();
        if result.NoError? {
          events := events + [StringEvent(str)];
        }
      } else {
        ParseNumber();
      }
    }

    method ParseValue()
      requires Ready()
      modifies this`pos, this`result, this`events
      ensures EndsAs(RecursiveDescent.ParseValue(input, old(pos), old(events), flags))
      decreases |input| - pos, 2
    {
      if Peek(input, pos) == LBRACE {
        ParseObject();
      } else if Peek(input, pos) == LBRACKET {
        ParseArray();
      } else {
        ParseScalar();
      }
    }

    /** A member up to its value: the name, the colon and the white space around it. */
    method ParseMemberName()
      requires Ready()
      modifies this`pos, this`result, this`events
      ensures
        if Peek(input, old(pos)) != QUOTE then result == ParseError(ObjectMissName, old(pos)) && events == old(events)
        else
          var r := Scalars.ParseString(input, old(pos));
          if r.Fail? then result == ParseError(r.code, r.offset) && events == old(events)
          else
            var colon := SkipSpace(input, r.next);
            && events == old(events) + [KeyEvent(r.value)]
            && if Peek(input, colon) != COLON then result == ParseError(ObjectMissColon, colon)
               else Ready() && pos == SkipSpace(input, colon + 1)
    {
      if Peek(input, pos) != QUOTE {
        result := ParseError(ObjectMissName, pos);
        return;
      }
      var name := ParseString();
      if result.ParseError? {
        return;
      }
      events := events + [KeyEvent(name)];
      SkipWhitespace();
      var colon := Consume(COLON);
      if !colon {
        result := ParseError(ObjectMissColon, pos);
        return;
      }
      SkipWhitespace();
    }

    /** The comma or brace after a member; `closed` tells that the object is complete. */
    method ParseMemberEnd(memberCount: nat) returns (closed: bool)
      requires Ready()
      modifies this`pos, this`result, this`events
      ensures var r := AfterMember(input, old(pos), old(events), memberCount, flags);
              if closed || result.ParseError? then EndsAs(r)
              else
                && Ready() && old(pos) < pos && events == old(events)
                && r == Members(input, pos, events, memberCount, flags)
    {
      hide Members;
      closed := false;
      if Peek(input, pos) == COMMA {
        pos := pos + 1;
        SkipWhitespace();
      } else if Peek(input, pos) == RBRACE {
        pos := pos + 1;
        events := events + [EndObjectEvent(memberCount)];
        closed := true;
        return;
      } else {
        result := ParseError(ObjectMissCommaOrCurlyBracket, pos);
        return;
      }
      if flags.trailingCommas && Peek(input, pos) == RBRACE {
        events := events + [EndObjectEvent(memberCount)];
        pos := pos + 1;
        closed := true;
      }
    }

    method ParseObject()
      requires Ready() && Peek(input, pos) == LBRACE
      modifies this`pos, this`result, this`events
      ensures EndsAs(RecursiveDescent.ParseObject(input, old(pos), old(events), flags))
      decreases |input| - pos, 1
    {
      hide Scalars.ParseString, AfterMember, RecursiveDescent.ParseValue, SkipSpace;
      ghost var whole := RecursiveDescent.ParseObject(input, pos, events, flags);
      ghost var start := pos;
      pos := pos + 1;
      events := events + [StartObjectEvent];
      SkipWhitespace();
      var closed := Consume(RBRACE);
      if closed {
        events := events + [EndObjectEvent(0)];
        return;
      }
      var memberCount := 0;
      while true
        invariant Ready() && start < pos
        invariant Members(input, pos, events, memberCount, flags) == whole
        decreases |input| - pos
      {
        ParseMemberName();
        if result.ParseError? {
          return;
        }
        ParseValue();
        if result.ParseError? {
          return;
        }
        SkipWhitespace();
        memberCount := memberCount + 1;
        closed := ParseMemberEnd(memberCount);
        if result.ParseError? || closed {
          return;
        }
      }
    }

    method ParseArray()
      requires Ready() && Peek(input, pos) == LBRACKET
      modifies this`pos, this`result, this`events
      ensures EndsAs(RecursiveDescent.ParseArray(input, old(pos), old(events), flags))
      decreases |input| - pos, 1
    {
      ghost var whole := RecursiveDescent.ParseArray(input, pos, events, flags);
      ghost var start := pos;
      pos := pos + 1;
      events := events + [StartArrayEvent];
      SkipWhitespace();
      var closed := Consume(RBRACKET);
      if closed {
        events := events + [EndArrayEvent(0)];
        return;
      }
      var elementCount := 0;
      while true
        invariant Ready() && start < pos
        invariant Elements(input, pos, events, elementCount, flags) == whole
        decreases |input| - pos
      {
        ParseValue();
        if result.ParseError? {
          return;
        }
        elementCount := elementCount + 1;
        SkipWhitespace();
        assert AfterElement(input, pos, events, elementCount, flags) == whole;
        var comma := Consume(COMMA);
        if comma {
          SkipWhitespace();
        } else {
          closed := Consume(RBRACKET);
          if closed {
            events := events + [EndArrayEvent(elementCount)];
          } else {
            result := ParseError(ArrayMissCommaOrSquareBracket, pos);
          }
          return;
        }
        if flags.trailingCommas && Peek(input, pos) == RBRACKET {
          events := events + [EndArrayEvent(elementCount)];
          pos := pos + 1;
          return;
        }
      }
    }

    /** The default entry point, without the iterative flag. */
    method Parse()
      requires pos == 0 && events == []
      modifies this
      ensures EndsAs(RecursiveDescent.Parse(input, flags))
    {
      result := NoError;
      SkipWhitespace();
      if Peek(input, pos) == NUL {
        result := ParseError(DocumentEmpty, pos);
        return;
      }
      ParseValue();
      if result.ParseError? || flags.stopWhenDone {
        return;
      }
      SkipWhitespace();
      if Peek(input, pos) != NUL {
        result := ParseError(DocumentRootNotSingular, pos);
      }
    }

    // ---------- the iterative parser ----------

    /** The automaton's configuration, kept in `stack`, `pos` and `events`. */
    function Config(state: Automaton.State): Automaton.Config
      reads this
    {
      Automaton.Config(state, stack, pos, events)
    }

    /** The effect of one transition on the object; the returned state is `Error` when it failed. */
    predicate Reflects(step: Automaton.Step, dst: Automaton.State)
      reads this
    {
      match step
      case Halt(ev, code, offset) => dst.Error? && events == ev && (result == ParseError(code, offset))
      case Move(c) => !dst.Error? && Config(dst) == c && Ready()
    }

    method HandleError(src: Automaton.State)
      requires !src.Error?
      modifies this`result
      ensures result == if old(result).ParseError? then old(result) else ParseError(Automaton.ErrorOf(src), pos)
    {
      if result.ParseError? {
        return;
      }
      result := ParseError(Automaton.ErrorOf(src), pos);
    }

    /** A string key or a scalar value on the way to state `dst`. */
    method TakeToken(dst: Automaton.State, isKey: bool) returns (reached: Automaton.State)
      requires Ready() && pos < |input| && !dst.Error?
      requires isKey ==> Peek(input, pos) == QUOTE
      requires !isKey ==> Peek(input, pos) != LBRACE && Peek(input, pos) != LBRACKET
      modifies this`pos, this`result, this`events
      ensures !isKey ==> match Scalars.ParseScalar(input, old(pos))
              case Fail(code, offset) => reached.Error? && result == ParseError(code, offset) && events == old(events)
              case Done(e, next) => reached == dst && Ready() && events == old(events) + [e] && pos == next
      ensures isKey ==> match Scalars.ParseString(input, old(pos))
              case Fail(code, offset) => reached.Error? && result == ParseError(code, offset) && events == old(events)
              case Done(name, next) =>
                && reached == dst && Ready() && events == old(events) + [KeyEvent(name)]
                && pos == next
    {
      if isKey {
        var name := ParseString();
        if result.NoError? {
          events := events + [KeyEvent(name)];
        }
      } else {
        ParseScalar();
      }
      reached := if result.ParseError? then Automaton.Error else dst;
    }

    /** Pops the frame of a container that ends here and resumes the enclosing one. */
    method CloseContainer(src: Automaton.State, isObject: bool) returns (reached: Automaton.State)
      requires Ready() && pos < |input| && Automaton.WellFormed(Config(src)) && stack != []
      modifies this`pos, this`events, this`stack
      ensures var n := Automaton.ClosingCount(old(Config(src)));
              Automaton.Move(Config(reached))
                == Automaton.Close(old(Config(src)), if isObject then EndObjectEvent(n) else EndArrayEvent(n))
      ensures !reached.Error? && Ready()
    {
      var top := stack[|stack| - 1];
      var count := top.count;
      if src.MemberValue? || src.Element? {
        count := count + 1;
      }
      stack := stack[..|stack| - 1];
      reached := if top.resume.Start? then Automaton.Finish else top.resume;
      events := events + [if isObject then EndObjectEvent(count) else EndArrayEvent(count)];
      pos := pos + 1;
    }

    method Transit(src: Automaton.State, dst: Automaton.State) returns (reached: Automaton.State)
      requires Ready() && pos < |input| && Automaton.WellFormed(Config(src))
      requires dst == Automaton.Predict(src, Automaton.Tokenize(input[pos])) && !dst.Error?
      modifies this`pos, this`result, this`events, this`stack
      ensures Reflects(Automaton.Transit(input, old(Config(src)), flags), reached)
    {
      hide Scalars.ParseString, Scalars.ParseScalar;
      match dst {
        case ObjectInitial =>
          stack := stack + [Automaton.Frame(Automaton.ResumeAfter(src), 0)];
          events := events + [StartObjectEvent];
          pos := pos + 1;
          reached := dst;
        case ArrayInitial =>
          stack := stack + [Automaton.Frame(Automaton.ResumeAfter(src), 0)];
          events := events + [StartArrayEvent];
          pos := pos + 1;
          reached := dst;
        case MemberKey =>
          reached := TakeToken(dst, true);
        case KeyValueDelimiter =>
          pos := pos + 1;
          reached := dst;
        case MemberDelimiter =>
          stack := Automaton.CountOne(Config(src)).stack;
          pos := pos + 1;
          reached := dst;
        case ElementDelimiter =>
          stack := Automaton.CountOne(Config(src)).stack;
          pos := pos + 1;
          reached := dst;
        case ObjectFinish =>
          if !flags.trailingCommas && src.MemberDelimiter? {
            result := ParseError(ObjectMissName, pos);
            reached := Automaton.Error;
          } else {
            reached := CloseContainer(src, true);
          }
        case ArrayFinish =>
          if !flags.trailingCommas && src.ElementDelimiter? {
            result := ParseError(ValueInvalid, pos);
            reached := Automaton.Error;
          } else {
            reached := CloseContainer(src, false);
          }
        case MemberValue =>
          reached := TakeToken(dst, false);
        case Element =>
          reached := TakeToken(dst, false);
        case SingleValue =>
          reached := TakeToken(Automaton.Finish, false);
      }
    }

    /** The entry point with the iterative flag. */
    method IterativeParse()
      requires pos == 0 && events == [] && stack == []
      modifies this
      ensures EndsAs(Automaton.IterativeParse(input, flags))
    {
      hide Automaton.Transit;
      result := NoError;
      var state := Automaton.Start;
      SkipWhitespace();
      while Peek(input, pos) != NUL
        invariant Ready() && Automaton.WellFormed(Config(state))
        invariant Automaton.Iterate(input, Config(state), flags) == Automaton.IterativeParse(input, flags)
        decreases |input| - pos
      {
        Automaton.TransitKeepsWellFormed(input, Config(state), flags);
        var n := Automaton.Predict(state, Automaton.Tokenize(input[pos]));
        var d := Automaton.Error;
        if n.Error? {
          Automaton.TransitFails(input, Config(state), flags);
        } else {
          d := Transit(state, n);
        }
        if d.Error? {
          HandleError(state);
          return;
        }
        state := d;
        if flags.stopWhenDone && state.Finish? {
          return;
        }
        SkipWhitespace();
      }
      if !state.Finish? {
        HandleError(state);
      }
    }
  }
}
