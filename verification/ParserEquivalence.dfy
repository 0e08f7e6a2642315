/**
 The pushdown automaton and the recursive descent parser compute the same run: same
 events, same counts, same error code and offset, except for a root that starts with
 one of `]`, `}`, `,` and `:`.
 */
module ParserEquivalence {
  import opened Bytes
  import opened Json
  import opened Scalars
  import opened RecursiveDescent
  import opened Automaton

  /** The state the automaton reaches when a value that began in `state` is complete. */
  function Completed(state: State): State {
    if state.Start? then Finish else ResumeAfter(state)
  }

  /** What the automaton makes of the rest once recursive descent has produced `r`. */
  function Resumed(s: bytes, r: Run, state: State, stack: seq<Frame>, fl: Flags): Run
    requires r.Good? ==> r.pos <= |s| && Disciplined(state, stack)
  {
    match r
    case Bad(_, _, _) => r
    case Good(events, pos) => Continue(s, Config(state, stack, pos, events), fl)
  }

  /** The top frame belongs to a container that was opened in state `src` and has `count` items. */
  predicate Inside(c: Config, outer: seq<Frame>, src: State, count: nat) {
    && WellFormed(c)
    && c.stack == outer + [Frame(ResumeAfter(src), count)]
    && (src.Start? || src.ArrayInitial? || src.ElementDelimiter? || src.KeyValueDelimiter?)
  }

  lemma LeaveContainer(c: Config, outer: seq<Frame>, src: State, count: nat)
    requires Inside(c, outer, src, count)
    ensures c.stack[..|c.stack| - 1] == outer
    ensures Disciplined(Completed(src), outer)
    ensures CountOne(c).stack == outer + [Frame(ResumeAfter(src), count + 1)]
  {
    assert c.stack[|outer|] == Frame(ResumeAfter(src), count);
    forall i | 0 <= i < |outer|
      ensures if i == 0 then outer[i].resume.Start? else outer[i].resume.MemberValue? || outer[i].resume.Element?
    {
      assert outer[i] == c.stack[i];
    }
  }

  /** A character that no value can start with and that is not an ill-formed number either. */
  predicate Punctuation(c: byte) {
    c == RBRACKET || c == RBRACE || c == COMMA || c == COLON
  }

  /** Configurations in which recursive descent would call `ParseValue`. */
  predicate ExpectsValue(s: bytes, c: Config, fl: Flags) {
    && WellFormed(c) && c.pos <= |s|
    && (c.state.Start? || c.state.ArrayInitial? || c.state.ElementDelimiter? || c.state.KeyValueDelimiter?)
    && (c.state.Start? ==> Peek(s, c.pos) != NUL && !Punctuation(Peek(s, c.pos)))
    && (c.state.ArrayInitial? ==> Peek(s, c.pos) != RBRACKET)
    && (c.state.ElementDelimiter? && fl.trailingCommas ==> Peek(s, c.pos) != RBRACKET)
  }

  lemma ScalarsRejectPunctuation(s: bytes, p: nat)
    requires p <= |s| && (Punctuation(Peek(s, p)) || Peek(s, p) == NUL)
    ensures ParseScalar(s, p) == Fail(ValueInvalid, p)
  {
  }

  // ---------- one round of the loop ----------

  lemma EndOfInput(s: bytes, c: Config, fl: Flags)
    requires WellFormed(c) && c.pos <= |s| && Peek(s, c.pos) == NUL
    ensures Iterate(s, c, fl)
            == if c.state.Finish? then Good(c.events, c.pos) else Bad(c.events, ErrorOf(c.state), c.pos)
  {
  }

  lemma Halts(s: bytes, c: Config, fl: Flags)
    requires WellFormed(c) && c.pos < |s| && Peek(s, c.pos) != NUL && Transit(s, c, fl).Halt?
    ensures var t := Transit(s, c, fl); Iterate(s, c, fl) == Bad(t.events, t.code, t.offset)
  {
    hide Transit, Continue;
  }

  lemma Moves(s: bytes, c: Config, d: Config, fl: Flags)
    requires WellFormed(c) && c.pos < |s| && Peek(s, c.pos) != NUL && Transit(s, c, fl) == Move(d)
    ensures WellFormed(d) && d.pos <= |s| && Iterate(s, c, fl) == Continue(s, d, fl)
  {
    TransitKeepsWellFormed(s, c, fl);
    hide Transit, Continue, WellFormed;
  }

  /** A move to a state that does not finish the root. */
  lemma MovesOn(s: bytes, c: Config, d: Config, fl: Flags)
    requires WellFormed(c) && c.pos < |s| && Peek(s, c.pos) != NUL && Transit(s, c, fl) == Move(d) && !d.state.Finish?
    ensures WellFormed(d) && d.pos <= |s| && Iterate(s, c, fl) == Iterate(s, d.(pos := SkipSpace(s, d.pos)), fl)
  {
    Moves(s, c, d, fl);
    hide Transit, Iterate;
  }

  // ---------- single moves of the automaton ----------

  lemma OpenMove(s: bytes, c: Config, fl: Flags)
    requires ExpectsValue(s, c, fl) && (Peek(s, c.pos) == LBRACE || Peek(s, c.pos) == LBRACKET)
    ensures var curly := Peek(s, c.pos) == LBRACE;
            var d := Config(if curly then ObjectInitial else ArrayInitial, c.stack + [Frame(ResumeAfter(c.state), 0)],
                            SkipSpace(s, c.pos + 1), c.events + [if curly then StartObjectEvent else StartArrayEvent]);
            && Inside(d, c.stack, c.state, 0)
            && Iterate(s, c, fl) == Iterate(s, d, fl)
  {
    hide Iterate, ParseScalar, ParseString;
    var curly := Peek(s, c.pos) == LBRACE;
    var d := Config(if curly then ObjectInitial else ArrayInitial, c.stack + [Frame(ResumeAfter(c.state), 0)],
                    c.pos + 1, c.events + [if curly then StartObjectEvent else StartArrayEvent]);
    assert Transit(s, c, fl) == Move(d);
    MovesOn(s, c, d, fl);
  }

  lemma ScalarTransit(s: bytes, c: Config, fl: Flags)
    requires ExpectsValue(s, c, fl) && Peek(s, c.pos) != LBRACE && Peek(s, c.pos) != LBRACKET
    requires !Punctuation(Peek(s, c.pos)) && Peek(s, c.pos) != NUL
    ensures Disciplined(Completed(c.state), c.stack)
    ensures Transit(s, c, fl) == TakeScalar(s, c, Completed(c.state))
  {
    hide ParseScalar, ParseString;
    assert IsScalarToken(Tokenize(s[c.pos]));
  }

  lemma PunctuationTransit(s: bytes, c: Config, fl: Flags)
    requires ExpectsValue(s, c, fl) && Punctuation(Peek(s, c.pos))
    ensures Transit(s, c, fl) == Halt(c.events, ValueInvalid, c.pos)
  {
    hide ParseScalar, ParseString;
  }

  lemma ScalarMove(s: bytes, c: Config, fl: Flags)
    requires ExpectsValue(s, c, fl) && Peek(s, c.pos) != LBRACE && Peek(s, c.pos) != LBRACKET
    ensures Disciplined(Completed(c.state), c.stack)
    ensures Iterate(s, c, fl) ==
            (var r := ParseScalar(s, c.pos);
             if r.Fail? then Bad(c.events, r.code, r.offset)
             else Continue(s, Config(Completed(c.state), c.stack, r.next, c.events + [r.value]), fl))
  {
    hide Iterate, Continue, ParseScalar, Transit;
    if Peek(s, c.pos) == NUL {
      ScalarsRejectPunctuation(s, c.pos);
      EndOfInput(s, c, fl);
    } else if Punctuation(Peek(s, c.pos)) {
      ScalarsRejectPunctuation(s, c.pos);
      PunctuationTransit(s, c, fl);
      Halts(s, c, fl);
    } else {
      ScalarTransit(s, c, fl);
      var r := ParseScalar(s, c.pos);
      if r.Fail? {
        Halts(s, c, fl);
      } else {
        Moves(s, c, Config(Completed(c.state), c.stack, r.next, c.events + [r.value]), fl);
      }
    }
  }

  lemma KeyTransit(s: bytes, c: Config, fl: Flags)
    requires WellFormed(c) && c.pos < |s| && (c.state.ObjectInitial? || c.state.MemberDelimiter?)
    requires Peek(s, c.pos) == RBRACE ==> c.state.MemberDelimiter? && !fl.trailingCommas
    ensures Peek(s, c.pos) != QUOTE ==> Transit(s, c, fl) == Halt(c.events, ObjectMissName, c.pos)
    ensures Peek(s, c.pos) == QUOTE ==>
              var r := ParseString(s, c.pos);
              Transit(s, c, fl) == if r.Fail? then Halt(c.events, r.code, r.offset)
                                   else Move(Config(MemberKey, c.stack, r.next, c.events + [KeyEvent(r.value)]))
  {
    hide ParseScalar, ParseString;
  }

  lemma KeyMove(s: bytes, c: Config, fl: Flags)
    requires WellFormed(c) && c.pos <= |s| && (c.state.ObjectInitial? || c.state.MemberDelimiter?)
    requires Peek(s, c.pos) == RBRACE ==> c.state.MemberDelimiter? && !fl.trailingCommas
    ensures Iterate(s, c, fl) ==
            (if Peek(s, c.pos) != QUOTE then Bad(c.events, ObjectMissName, c.pos)
             else
               var r := ParseString(s, c.pos);
               if r.Fail? then Bad(c.events, r.code, r.offset)
               else Iterate(s, Config(MemberKey, c.stack, SkipSpace(s, r.next), c.events + [KeyEvent(r.value)]), fl))
  {
    hide Iterate, ParseString, Transit;
    if Peek(s, c.pos) == NUL {
      EndOfInput(s, c, fl);
    } else {
      KeyTransit(s, c, fl);
      if Peek(s, c.pos) == QUOTE && ParseString(s, c.pos).Done? {
        var r := ParseString(s, c.pos);
        MovesOn(s, c, Config(MemberKey, c.stack, r.next, c.events + [KeyEvent(r.value)]), fl);
      } else {
        Halts(s, c, fl);
      }
    }
  }

  lemma ColonTransit(s: bytes, c: Config, fl: Flags)
    requires WellFormed(c) && c.pos < |s| && c.state.MemberKey?
    ensures Transit(s, c, fl) == if Peek(s, c.pos) != COLON then Halt(c.events, ObjectMissColon, c.pos)
                                 else Move(c.(state := KeyValueDelimiter, pos := c.pos + 1))
  {
    hide ParseScalar, ParseString;
  }

  lemma ColonMove(s: bytes, c: Config, fl: Flags)
    requires WellFormed(c) && c.pos <= |s| && c.state.MemberKey?
    ensures Iterate(s, c, fl) ==
            (if Peek(s, c.pos) != COLON then Bad(c.events, ObjectMissColon, c.pos)
             else Iterate(s, c.(state := KeyValueDelimiter, pos := SkipSpace(s, c.pos + 1)), fl))
  {
    hide Iterate, Transit;
    if Peek(s, c.pos) == NUL {
      EndOfInput(s, c, fl);
    } else {
      ColonTransit(s, c, fl);
      if Peek(s, c.pos) == COLON {
        MovesOn(s, c, c.(state := KeyValueDelimiter, pos := c.pos + 1), fl);
      } else {
        Halts(s, c, fl);
      }
    }
  }

  lemma CommaMove(s: bytes, c: Config, outer: seq<Frame>, src: State, count: nat, fl: Flags)
    requires Inside(c, outer, src, count) && c.pos <= |s| && (c.state.MemberValue? || c.state.Element?)
    requires Peek(s, c.pos) == COMMA
    ensures var d := Config(if c.state.MemberValue? then MemberDelimiter else ElementDelimiter,
                            outer + [Frame(ResumeAfter(src), count + 1)], SkipSpace(s, c.pos + 1), c.events);
            Inside(d, outer, src, count + 1) && Iterate(s, c, fl) == Iterate(s, d, fl)
  {
    hide Iterate, ParseScalar, ParseString;
    LeaveContainer(c, outer, src, count);
    var d := Config(if c.state.MemberValue? then MemberDelimiter else ElementDelimiter,
                    outer + [Frame(ResumeAfter(src), count + 1)], c.pos + 1, c.events);
    assert Transit(s, c, fl) == Move(d);
    MovesOn(s, c, d, fl);
  }

  lemma ObjectEndTransit(s: bytes, c: Config, fl: Flags)
    requires WellFormed(c) && c.pos < |s| && Peek(s, c.pos) == RBRACE
    requires c.state.ObjectInitial? || c.state.MemberValue? || (c.state.MemberDelimiter? && fl.trailingCommas)
    ensures Transit(s, c, fl) == Close(c, EndObjectEvent(ClosingCount(c)))
  {
    hide ParseScalar, ParseString, ValueRow, Close, ClosingCount;
  }

  lemma ArrayEndTransit(s: bytes, c: Config, fl: Flags)
    requires WellFormed(c) && c.pos < |s| && Peek(s, c.pos) == RBRACKET
    requires c.state.ArrayInitial? || c.state.Element? || (c.state.ElementDelimiter? && fl.trailingCommas)
    ensures Transit(s, c, fl) == Close(c, EndArrayEvent(ClosingCount(c)))
  {
    hide ParseScalar, ParseString, Close, ClosingCount;
  }

  /** What closing the container at the top does. */
  lemma CloseIs(c: Config, outer: seq<Frame>, src: State, count: nat, e: Event)
    requires Inside(c, outer, src, count)
    ensures Disciplined(Completed(src), outer)
    ensures Close(c, e) == Move(Config(Completed(src), outer, c.pos + 1, c.events + [e]))
    ensures ClosingCount(c) == if c.state.MemberValue? || c.state.Element? then count + 1 else count
  {
    LeaveContainer(c, outer, src, count);
    assert c.stack[|c.stack| - 1] == Frame(ResumeAfter(src), count);
  }

  /** A closing brace where recursive descent accepts one. */
  lemma CloseObjectMove(s: bytes, c: Config, outer: seq<Frame>, src: State, count: nat, fl: Flags)
    requires Inside(c, outer, src, count) && c.pos <= |s| && Peek(s, c.pos) == RBRACE
    requires c.state.ObjectInitial? || c.state.MemberValue? || (c.state.MemberDelimiter? && fl.trailingCommas)
    ensures var e := EndObjectEvent(if c.state.MemberValue? then count + 1 else count);
            && Disciplined(Completed(src), outer)
            && Iterate(s, c, fl) == Continue(s, Config(Completed(src), outer, c.pos + 1, c.events + [e]), fl)
  {
    hide Iterate, Continue, Transit, Close, ClosingCount, Completed, Disciplined;
    var e := EndObjectEvent(if c.state.MemberValue? then count + 1 else count);
    CloseIs(c, outer, src, count, e);
    ObjectEndTransit(s, c, fl);
    Moves(s, c, Config(Completed(src), outer, c.pos + 1, c.events + [e]), fl);
  }

  /** A closing bracket where recursive descent accepts one. */
  lemma CloseArrayMove(s: bytes, c: Config, outer: seq<Frame>, src: State, count: nat, fl: Flags)
    requires Inside(c, outer, src, count) && c.pos <= |s| && Peek(s, c.pos) == RBRACKET
    requires c.state.ArrayInitial? || c.state.Element? || (c.state.ElementDelimiter? && fl.trailingCommas)
    ensures var e := EndArrayEvent(if c.state.Element? then count + 1 else count);
            && Disciplined(Completed(src), outer)
            && Iterate(s, c, fl) == Continue(s, Config(Completed(src), outer, c.pos + 1, c.events + [e]), fl)
  {
    hide Iterate, Continue, Transit, Close, ClosingCount, Completed, Disciplined;
    var e := EndArrayEvent(if c.state.Element? then count + 1 else count);
    CloseIs(c, outer, src, count, e);
    ArrayEndTransit(s, c, fl);
    Moves(s, c, Config(Completed(src), outer, c.pos + 1, c.events + [e]), fl);
  }

  lemma MissingCommaMove(s: bytes, c: Config, fl: Flags)
    requires WellFormed(c) && c.pos <= |s| && (c.state.MemberValue? || c.state.Element?)
    requires Peek(s, c.pos) != COMMA && Peek(s, c.pos) != (if c.state.MemberValue? then RBRACE else RBRACKET)
    ensures Iterate(s, c, fl) == Bad(c.events, ErrorOf(c.state), c.pos)
  {
    hide Iterate, ParseScalar, ParseString, ErrorOf;
    if Peek(s, c.pos) == NUL {
      EndOfInput(s, c, fl);
    } else {
      TransitFails(s, c, fl);
      Halts(s, c, fl);
    }
  }

  // ---------- simulation ----------

  lemma {:induction false} SimulateValue(s: bytes, c: Config, fl: Flags)
    requires ExpectsValue(s, c, fl)
    ensures Disciplined(Completed(c.state), c.stack)
    ensures Iterate(s, c, fl) == Resumed(s, ParseValue(s, c.pos, c.events, fl), Completed(c.state), c.stack, fl)
    decreases |s| - c.pos, 2
  {
    hide Iterate, ParseScalar, ParseString;
    var b := Peek(s, c.pos);
    if b == LBRACE {
      SimulateObject(s, c, fl);
    } else if b == LBRACKET {
      SimulateArray(s, c, fl);
    } else {
      ScalarMove(s, c, fl);
    }
  }

  lemma {:induction false} SimulateObject(s: bytes, c: Config, fl: Flags)
    requires ExpectsValue(s, c, fl) && Peek(s, c.pos) == LBRACE
    ensures Disciplined(Completed(c.state), c.stack)
    ensures Iterate(s, c, fl) == Resumed(s, ParseObject(s, c.pos, c.events, fl), Completed(c.state), c.stack, fl)
    decreases |s| - c.pos, 1
  {
    hide Iterate, ParseScalar, ParseString;
    OpenMove(s, c, fl);
    var d := Config(ObjectInitial, c.stack + [Frame(ResumeAfter(c.state), 0)], SkipSpace(s, c.pos + 1),
      c.events + [StartObjectEvent]);
    if Peek(s, d.pos) == RBRACE {
      CloseObjectMove(s, d, c.stack, c.state, 0, fl);
    } else {
      SimulateMembers(s, d, c.stack, c.state, 0, fl);
    }
  }

  lemma {:induction false} SimulateMembers(s: bytes, c: Config, outer: seq<Frame>, src: State, count: nat, fl: Flags)
    requires Inside(c, outer, src, count) && c.pos <= |s| && (c.state.ObjectInitial? || c.state.MemberDelimiter?)
    requires Peek(s, c.pos) == RBRACE ==> c.state.MemberDelimiter? && !fl.trailingCommas
    ensures Disciplined(Completed(src), outer)
    ensures Iterate(s, c, fl) == Resumed(s, Members(s, c.pos, c.events, count, fl), Completed(src), outer, fl)
    decreases |s| - c.pos, 4
  {
    hide Iterate, ParseScalar, ParseString, AfterMember, ParseValue;
    LeaveContainer(c, outer, src, count);
    KeyMove(s, c, fl);
    if Peek(s, c.pos) == QUOTE && ParseString(s, c.pos).Done? {
      var scan := ParseString(s, c.pos);
      SimulateMember(s, Config(MemberKey, c.stack, SkipSpace(s, scan.next), c.events + [KeyEvent(scan.value)]), outer,
        src, count, fl);
    }
  }

  /** From the end of a member's name on. */
  lemma {:induction false} SimulateMember(s: bytes, c: Config, outer: seq<Frame>, src: State, count: nat, fl: Flags)
    requires Inside(c, outer, src, count) && c.pos <= |s| && c.state.MemberKey?
    ensures Disciplined(Completed(src), outer)
    ensures Iterate(s, c, fl) ==
            if Peek(s, c.pos) != COLON then Bad(c.events, ObjectMissColon, c.pos)
            else
              var r := ParseValue(s, SkipSpace(s, c.pos + 1), c.events, fl);
              if r.Bad? then r
              else Resumed(s, AfterMember(s, SkipSpace(s, r.pos), r.events, count + 1, fl), Completed(src), outer, fl)
    decreases |s| - c.pos, 3
  {
    hide Iterate, ParseScalar, ParseString, AfterMember, ParseValue;
    LeaveContainer(c, outer, src, count);
    ColonMove(s, c, fl);
    if Peek(s, c.pos) == COLON {
      var valued := c.(state := KeyValueDelimiter, pos := SkipSpace(s, c.pos + 1));
      SimulateValue(s, valued, fl);
      var r := ParseValue(s, valued.pos, valued.events, fl);
      if r.Good? {
        SimulateMemberEnd(s, Config(MemberValue, c.stack, SkipSpace(s, r.pos), r.events), outer, src, count, fl);
      }
    }
  }

  lemma {:induction false} SimulateMemberEnd(s: bytes, c: Config, outer: seq<Frame>, src: State, count: nat, fl: Flags)
    requires Inside(c, outer, src, count) && c.pos <= |s| && c.state.MemberValue?
    ensures Disciplined(Completed(src), outer)
    ensures Iterate(s, c, fl) == Resumed(s, AfterMember(s, c.pos, c.events, count + 1, fl), Completed(src), outer, fl)
    decreases |s| - c.pos, 0
  {
    hide Iterate, Continue, ParseScalar, ParseString, Members, Elements, Disciplined, Completed;
    LeaveContainer(c, outer, src, count);
    if Peek(s, c.pos) == COMMA {
      CommaMove(s, c, outer, src, count, fl);
      var d := Config(MemberDelimiter, outer + [Frame(ResumeAfter(src), count + 1)], SkipSpace(s, c.pos + 1), c.events);
      if fl.trailingCommas && Peek(s, d.pos) == RBRACE {
        CloseObjectMove(s, d, outer, src, count + 1, fl);
      } else {
        SimulateMembers(s, d, outer, src, count + 1, fl);
      }
    } else if Peek(s, c.pos) == RBRACE {
      CloseObjectMove(s, c, outer, src, count, fl);
    } else {
      MissingCommaMove(s, c, fl);
    }
  }

  lemma {:induction false} SimulateArray(s: bytes, c: Config, fl: Flags)
    requires ExpectsValue(s, c, fl) && Peek(s, c.pos) == LBRACKET
    ensures Disciplined(Completed(c.state), c.stack)
    ensures Iterate(s, c, fl) == Resumed(s, ParseArray(s, c.pos, c.events, fl), Completed(c.state), c.stack, fl)
    decreases |s| - c.pos, 1
  {
    hide Iterate, ParseScalar, ParseString;
    OpenMove(s, c, fl);
    var d := Config(ArrayInitial, c.stack + [Frame(ResumeAfter(c.state), 0)], SkipSpace(s, c.pos + 1),
      c.events + [StartArrayEvent]);
    if Peek(s, d.pos) == RBRACKET {
      CloseArrayMove(s, d, c.stack, c.state, 0, fl);
    } else {
      SimulateElements(s, d, c.stack, c.state, 0, fl);
    }
  }

  lemma {:induction false} SimulateElements(s: bytes, c: Config, outer: seq<Frame>, src: State, count: nat, fl: Flags)
    requires ExpectsValue(s, c, fl) && (c.state.ArrayInitial? || c.state.ElementDelimiter?)
    requires Inside(c, outer, src, count)
    ensures Disciplined(Completed(src), outer)
    ensures Iterate(s, c, fl) == Resumed(s, Elements(s, c.pos, c.events, count, fl), Completed(src), outer, fl)
    decreases |s| - c.pos, 3
  {
    hide Iterate, ParseScalar, ParseString;
    LeaveContainer(c, outer, src, count);
    SimulateValue(s, c, fl);
    var r := ParseValue(s, c.pos, c.events, fl);
    if r.Good? {
      SimulateElementEnd(s, Config(Element, c.stack, SkipSpace(s, r.pos), r.events), outer, src, count, fl);
    }
  }

  lemma {:induction false} SimulateElementEnd(s: bytes, c: Config, outer: seq<Frame>, src: State, count: nat, fl: Flags)
    requires Inside(c, outer, src, count) && c.pos <= |s| && c.state.Element?
    ensures Disciplined(Completed(src), outer)
    ensures Iterate(s, c, fl) == Resumed(s, AfterElement(s, c.pos, c.events, count + 1, fl), Completed(src), outer, fl)
    decreases |s| - c.pos, 0
  {
    hide Iterate, Continue, ParseScalar, ParseString, Members, Elements, Disciplined, Completed;
    LeaveContainer(c, outer, src, count);
    if Peek(s, c.pos) == COMMA {
      CommaMove(s, c, outer, src, count, fl);
      var d := Config(ElementDelimiter, outer + [Frame(ResumeAfter(src), count + 1)], SkipSpace(s, c.pos + 1),
        c.events);
      if fl.trailingCommas && Peek(s, d.pos) == RBRACKET {
        CloseArrayMove(s, d, outer, src, count + 1, fl);
      } else {
        SimulateElements(s, d, outer, src, count + 1, fl);
      }
    } else if Peek(s, c.pos) == RBRACKET {
      CloseArrayMove(s, c, outer, src, count, fl);
    } else {
      MissingCommaMove(s, c, fl);
    }
  }

  /** The one input shape on which the parsers disagree, readable off the first character. */
  predicate RootIsPunctuation(s: bytes) {
    Punctuation(Peek(s, SkipSpace(s, 0)))
  }

  lemma FinishAgrees(s: bytes, r: Run, fl: Flags)
    requires r.Good? ==> r.pos <= |s|
    ensures Resumed(s, r, Finish, [], fl) ==
            if r.Bad? || fl.stopWhenDone then r
            else var end := SkipSpace(s, r.pos);
            if Peek(s, end) != NUL then Bad(r.events, DocumentRootNotSingular, end) else Good(r.events, end)
  {
    hide ParseScalar, ParseString;
    if r.Good? && !fl.stopWhenDone {
      var c := Config(Finish, [], SkipSpace(s, r.pos), r.events);
      if Peek(s, c.pos) != NUL {
        assert Transit(s, c, fl) == Halt(r.events, DocumentRootNotSingular, c.pos);
      }
      assert Resumed(s, r, Finish, [], fl) == Iterate(s, c, fl);
    }
  }

  /** Main result: the two parsers give the same run exactly when the root is not punctuation. */
  lemma ParsersAgree(s: bytes, fl: Flags)
    ensures IterativeParse(s, fl) == Parse(s, fl) <==> !RootIsPunctuation(s)
    ensures RootIsPunctuation(s) ==>
              && IterativeParse(s, fl) == Bad([], DocumentEmpty, SkipSpace(s, 0))
              && Parse(s, fl) == Bad([], ValueInvalid, SkipSpace(s, 0))
  {
    hide ParseScalar, ParseString;
    var start := Config(Start, [], SkipSpace(s, 0), []);
    if RootIsPunctuation(s) {
      ScalarsRejectPunctuation(s, start.pos);
      assert Transit(s, start, fl) == Halt([], DocumentEmpty, start.pos);
    } else if Peek(s, start.pos) != NUL {
      SimulateValue(s, start, fl);
      FinishAgrees(s, ParseValue(s, start.pos, [], fl), fl);
    }
  }
}
