/**
 The errors of reading JSON: each code, with the offset it comes with, tells what stands in
 the text.
 */
module ReadErrors {
  import opened Bytes
  import opened Json
  import opened Scalars
  import opened RecursiveDescent
  import Grammar
  import Spelling

  /** The text from `start` to `offset` begins the word, and what comes next does not go on with it. */
  predicate WordBreaks(s: bytes, start: nat, offset: nat, word: bytes) {
    && start < offset <= |s| && offset - start < |word| && s[start..offset] == word[..offset - start]
    && Peek(s, offset) != word[offset - start]
  }

  /** Inside one of the three literals. */
  ghost predicate LiteralBreaks(s: bytes, offset: nat) {
    exists start: nat ::
      || WordBreaks(s, start, offset, [0x6E, 0x75, 0x6C, 0x6C])
      || WordBreaks(s, start, offset, [0x74, 0x72, 0x75, 0x65])
      || WordBreaks(s, start, offset, [0x66, 0x61, 0x6C, 0x73, 0x65])
  }

  /** No value of any kind begins here, or no digit behind a sign. */
  predicate NoValue(s: bytes, offset: nat) {
    var c := Peek(s, offset);
    && !(0x30 <= c <= 0x39)
    && ((0 < offset <= |s| && s[offset - 1] == 0x2D) || c !in {0x2D, 0x22, 0x5B, 0x7B, 0x66, 0x6E, 0x74})
  }

  /** What stands where reading fails, for each error. */
  ghost predicate Stands(s: bytes, offset: nat, code: ErrorCode) {
    var c := Peek(s, offset);
    match code
    case DocumentEmpty => c == 0
    case DocumentRootNotSingular => c != 0 && !IsSpace(c)
    case ValueInvalid => LiteralBreaks(s, offset) || NoValue(s, offset)
    case NumberNotInteger => true
    case ObjectMissName => c != 0x22 && !IsSpace(c)
    case ObjectMissColon => c != 0x3A && !IsSpace(c)
    case ObjectMissCommaOrCurlyBracket => c != 0x2C && c != 0x7D && !IsSpace(c)
    case ArrayMissCommaOrSquareBracket => c != 0x2C && c != 0x5D && !IsSpace(c)
    case _ => Spelling.ErrorStands(s, offset, code)
  }

  // ---------- scalars ----------

  lemma SpaceEnds(s: bytes, p: nat)
    requires p <= |s|
    ensures !IsSpace(Peek(s, SkipSpace(s, p)))
  {
  }

  lemma StringErrors(s: bytes, p: nat)
    requires p < |s| && s[p] == QUOTE && ParseString(s, p).Fail?
    ensures var r := ParseString(s, p); p < r.offset <= |s| && Stands(s, r.offset, r.code)
  {
    hide Spelling.SpelledText;
    var xs := Spelling.SpellingOf(s, p + 1, []);
  }

  lemma LiteralErrors(s: bytes, p: nat, word: bytes, e: Event)
    requires word == NULL || word == TRUE || word == FALSE
    requires p < |s| && s[p] == word[0] && ParseLiteral(s, p, word, e).Fail?
    ensures var r := ParseLiteral(s, p, word, e); p < r.offset <= |s| && Stands(s, r.offset, r.code)
  {
    Grammar.LiteralFails(s, p, word, e);
    var r := ParseLiteral(s, p, word, e);
    hide ParseLiteral;
    assert WordBreaks(s, p, r.offset, word);
  }

  lemma ScalarErrors(s: bytes, p: nat)
    requires p <= |s| && Peek(s, p) != LBRACE && Peek(s, p) != LBRACKET && ParseScalar(s, p).Fail?
    ensures var r := ParseScalar(s, p); p <= r.offset <= |s| && Stands(s, r.offset, r.code)
  {
    hide ParseLiteral, ParseNumber, ParseString, LiteralBreaks;
    var c := Peek(s, p);
    if c == 0x6E {
      LiteralErrors(s, p, NULL, NullEvent);
    } else if c == 0x74 {
      LiteralErrors(s, p, TRUE, BoolEvent(true));
    } else if c == 0x66 {
      LiteralErrors(s, p, FALSE, BoolEvent(false));
    } else if c == QUOTE {
      StringErrors(s, p);
    } else {
      Grammar.NumberFails(s, p);
      NumberOffset(s, p);
    }
  }

  lemma NumberOffset(s: bytes, p: nat)
    requires p <= |s| && ParseNumber(s, p).Fail?
    ensures p <= ParseNumber(s, p).offset <= |s|
  {
    hide Digits;
  }

  // ---------- compound values ----------

  /** An error, if there is one, stands at or behind position `p`. */
  ghost predicate Explained(s: bytes, p: nat, r: Run) {
    r.Bad? ==> p <= r.offset <= |s| && Stands(s, r.offset, r.code)
  }

  lemma {:induction false} ValueErrors(s: bytes, p: nat, ev: seq<Event>, fl: Flags)
    requires p <= |s|
    ensures Explained(s, p, ParseValue(s, p, ev, fl))
    decreases |s| - p, 2
  {
    hide Stands, ParseScalar, Members, Elements;
    var c := Peek(s, p);
    if c == LBRACE {
      MemberErrors(s, SkipSpace(s, p + 1), ev + [StartObjectEvent], 0, fl);
    } else if c == LBRACKET {
      ElementErrors(s, SkipSpace(s, p + 1), ev + [StartArrayEvent], 0, fl);
    } else if ParseScalar(s, p).Fail? {
      ScalarErrors(s, p);
    }
  }

  lemma {:induction false} MemberErrors(s: bytes, p: nat, ev: seq<Event>, count: nat, fl: Flags)
    requires p <= |s| && !IsSpace(Peek(s, p))
    ensures Explained(s, p, Members(s, p, ev, count, fl))
    decreases |s| - p, 0
  {
    hide ParseString, ParseValue, AfterMember, SkipSpace, LiteralBreaks, NoValue;
    if Peek(s, p) == QUOTE {
      if ParseString(s, p).Fail? {
        StringErrors(s, p);
      } else {
        var name, q := ParseString(s, p).value, ParseString(s, p).next;
        var colon := SkipSpace(s, q);
        SpaceEnds(s, q);
        if Peek(s, colon) == COLON {
          var start := SkipSpace(s, colon + 1);
          ValueErrors(s, start, ev + [KeyEvent(name)], fl);
          var r := ParseValue(s, start, ev + [KeyEvent(name)], fl);
          if r.Good? {
            SpaceEnds(s, r.pos);
            NextMemberErrors(s, SkipSpace(s, r.pos), r.events, count + 1, fl);
          }
        }
      }
    }
  }

  lemma {:induction false} NextMemberErrors(s: bytes, p: nat, ev: seq<Event>, count: nat, fl: Flags)
    requires p <= |s| && !IsSpace(Peek(s, p))
    ensures Explained(s, p, AfterMember(s, p, ev, count, fl))
    decreases |s| - p, 0
  {
    hide Members, SkipSpace, LiteralBreaks, NoValue;
    if Peek(s, p) == COMMA {
      SpaceEnds(s, p + 1);
      MemberErrors(s, SkipSpace(s, p + 1), ev, count, fl);
    }
  }

  lemma {:induction false} ElementErrors(s: bytes, p: nat, ev: seq<Event>, count: nat, fl: Flags)
    requires p <= |s|
    ensures Explained(s, p, Elements(s, p, ev, count, fl))
    decreases |s| - p, 3
  {
    hide ParseValue, AfterElement, SkipSpace, Stands;
    ValueErrors(s, p, ev, fl);
    var r := ParseValue(s, p, ev, fl);
    if r.Good? {
      SpaceEnds(s, r.pos);
      NextElementErrors(s, SkipSpace(s, r.pos), r.events, count + 1, fl);
    }
  }

  lemma {:induction false} NextElementErrors(s: bytes, p: nat, ev: seq<Event>, count: nat, fl: Flags)
    requires p <= |s| && !IsSpace(Peek(s, p))
    ensures Explained(s, p, AfterElement(s, p, ev, count, fl))
    decreases |s| - p, 0
  {
    hide Elements, SkipSpace, LiteralBreaks, NoValue;
    if Peek(s, p) == COMMA {
      ElementErrors(s, SkipSpace(s, p + 1), ev, count, fl);
    }
  }

  /** Main result: an error stands where it is reported, for the reason that is reported. */
  lemma ErrorsStand(s: bytes, fl: Flags)
    ensures var r := RecursiveDescent.Parse(s, fl); r.Bad? ==> r.offset <= |s| && Stands(s, r.offset, r.code)
  {
    hide ParseValue, SkipSpace, LiteralBreaks, NoValue;
    var p := SkipSpace(s, 0);
    if Peek(s, p) != NUL {
      ValueErrors(s, p, [], fl);
      var r := ParseValue(s, p, [], fl);
      if r.Good? {
        SpaceEnds(s, r.pos);
      }
    }
  }
}
