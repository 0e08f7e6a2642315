/**
 The errors of parsing a JSON pointer: each code, with the offset it comes with, tells what
 stands in the text.
 */
module PointerErrors {
  import opened Bytes
  import opened Json
  import opened PointerTree
  import opened PointerText
  import Utf8

  /** A tilde ends at position `i`, plain or percent-encoded. */
  predicate TildeBefore(s: bytes, i: nat, fragment: bool)
    requires i <= |s|
  {
    || (1 <= i && s[i - 1] == 0x7E)
    || (fragment && 3 <= i && s[i - 3] == 0x25 && s[i - 2] == 0x37 && s[i - 1] in {0x45, 0x65})
  }

  /** The bytes stand at position `i`, percent-encoded in letters of either case. */
  predicate TripletsAt(s: bytes, i: nat, d: bytes) {
    && i + 3 * |d| <= |s|
    && forall k :: 0 <= k < |d| ==> TripletAt(s, i + 3 * k, d[k])
  }

  predicate TripletAt(s: bytes, i: nat, c: byte)
    requires i + 3 <= |s|
  {
    s[i] == 0x25 && HexValue(s[i + 1]) == c as int / 16 && HexValue(s[i + 2]) == c as int % 16
  }

  /** What stands where parsing fails, for each error. */
  ghost predicate Stands(s: bytes, fragment: bool, code: PointerError, offset: nat)
    requires offset <= |s|
  {
    match code
    case TokenMustBeginWithSolidus => offset < |s| && s[offset] != 0x2F && offset == if fragment then 1 else 0
    case InvalidEscape => TildeBefore(s, offset, fragment) && (offset < |s| ==> s[offset] != 0x30 && s[offset] != 0x31)
    case InvalidPercentEncoding =>
      && fragment && offset < |s| && s[offset] == 0x25
      && forall cp :: Utf8.IsScalar(cp) ==> !TripletsAt(s, offset, Utf8.Encode(cp))
    case CharacterMustPercentEncode =>
      fragment && offset < |s| && s[offset] != 0x25 && s[offset] != 0x2F && NeedPercentEncode(s[offset])
  }

  // ---------- triplets ----------

  lemma TripletByte(s: bytes, i: nat, c: byte)
    requires i + 3 <= |s| && TripletAt(s, i, c)
    ensures PercentByte(s, i) == Some(c)
  {
  }

  lemma {:induction false} TripletsBytes(s: bytes, i: nat, d: bytes, n: nat)
    requires TripletsAt(s, i, d) && |d| <= n
    ensures |PercentBytes(s, i, n)| >= |d| && PercentBytes(s, i, n)[..|d|] == d
    decreases |d|
  {
    hide PercentByte, TripletAt;
    if d != [] {
      assert TripletAt(s, i + 3 * 0, d[0]);
      TripletByte(s, i, d[0]);
      forall k | 0 <= k < |d| - 1 ensures TripletAt(s, i + 3 + 3 * k, d[1..][k]) {
        assert TripletAt(s, i + 3 * (k + 1), d[k + 1]);
      }
      TripletsBytes(s, i + 3, d[1..], n - 1);
      assert PercentBytes(s, i, n) == [d[0]] + PercentBytes(s, i + 3, n - 1);
      assert d == [d[0]] + d[1..];
    }
  }

  /** Where percent-decoding fails, no character stands percent-encoded. */
  lemma NoCharacter(s: bytes, i: nat, cp: int)
    requires PercentChar(s, i).None? && Utf8.IsScalar(cp)
    ensures !TripletsAt(s, i, Utf8.Encode(cp))
  {
    var d := Utf8.Encode(cp);
    assert d[0..|d|] == d;
    hide Utf8.Encode;
    Utf8.EncodingIsChar(d, 0, cp);
    if TripletsAt(s, i, d) {
      hide Utf8.CharLength, TripletsAt;
      TripletsBytes(s, i, d, 4);
      CharLengthOfPrefix(d, 0, PercentBytes(s, i, 4));
    }
  }

  /** A percent-encoded tilde. */
  lemma EncodedTilde(s: bytes, i: nat)
    requires PercentChar(s, i).Some? && |PercentChar(s, i).value| == 1 && PercentChar(s, i).value[0] == TILDE
    ensures i + 3 <= |s| && TildeBefore(s, i + 3, true)
  {
    hide Utf8.CharLength;
    var c := PercentByte(s, i);
    assert c == Some(TILDE);
    HexLetterOf(s[i + 1]);
    HexLetterOf(s[i + 2]);
  }

  // ---------- names, tokens, texts ----------

  lemma {:induction false} NameErrors(s: bytes, i: nat, fragment: bool, acc: bytes)
    requires i <= |s|
    ensures var r := NameFrom(s, i, fragment, acc);
            r.BadName? ==> i <= r.offset <= |s| && Stands(s, fragment, r.code, r.offset)
    decreases |s| - i, 1
  {
    hide PercentChar, TildeBefore, TripletsAt, NeedPercentEncode;
    if i < |s| && s[i] != SLASH {
      if fragment && s[i] == PERCENT {
        var d := PercentChar(s, i);
        if d.None? {
          forall cp | Utf8.IsScalar(cp) ensures !TripletsAt(s, i, Utf8.Encode(cp)) {
            NoCharacter(s, i, cp);
          }
        } else if |d.value| > 1 {
          NameErrors(s, i + 3 * |d.value|, fragment, acc + d.value);
        } else {
          if d.value[0] == TILDE {
            EncodedTilde(s, i);
          }
          EscapeErrors(s, i + 3, fragment, acc, d.value[0]);
        }
      } else if !(fragment && NeedPercentEncode(s[i])) {
        PlainTilde(s, i, fragment);
        EscapeErrors(s, i + 1, fragment, acc, s[i]);
      }
    }
  }

  lemma PlainTilde(s: bytes, i: nat, fragment: bool)
    requires i < |s|
    ensures s[i] == TILDE ==> TildeBefore(s, i + 1, fragment)
  {
  }

  lemma {:induction false} EscapeErrors(s: bytes, i: nat, fragment: bool, acc: bytes, c: byte)
    requires i <= |s| && (c == TILDE ==> TildeBefore(s, i, fragment))
    ensures var r := AfterChar(s, i, fragment, acc, c);
            r.BadName? ==> i <= r.offset <= |s| && Stands(s, fragment, r.code, r.offset)
    decreases |s| - i, 2
  {
    hide NameFrom, TildeBefore;
    if c != TILDE {
      NameErrors(s, i, fragment, acc + [c]);
    } else if i < |s| && s[i] == ZERO {
      NameErrors(s, i + 1, fragment, acc + [TILDE]);
    } else if i < |s| && s[i] == ONE {
      NameErrors(s, i + 1, fragment, acc + [SLASH]);
    }
  }

  lemma {:induction false} TokenErrors(s: bytes, i: nat, fragment: bool, acc: seq<Token>)
    requires i <= |s| && (i < |s| ==> s[i] == SLASH)
    ensures var r := TokensFrom(s, i, fragment, acc);
            r.Failed? ==> i <= r.offset <= |s| && Stands(s, fragment, r.code, r.offset)
    decreases |s| - i
  {
    hide NameFrom, Stands, IndexOf;
    if i < |s| {
      NameErrors(s, i + 1, fragment, []);
      var r := NameFrom(s, i + 1, fragment, []);
      if r.Name? {
        TokenErrors(s, r.next, fragment, acc + [Token(r.name, IndexOf(r.name))]);
      }
    }
  }

  /** Main result: an error stands where it is reported, for the reason that is reported. */
  lemma ErrorsStand(s: bytes)
    ensures var fragment := s != [] && s[0] == 0x23;
            var r := Parse(s);
            r.Failed? ==> r.offset <= |s| && Stands(s, fragment, r.code, r.offset)
  {
    hide TokensFrom;
    var fragment := Peek(s, 0) == HASH;
    var i := if fragment then 1 else 0;
    if i == |s| || s[i] == SLASH {
      hide Stands;
      TokenErrors(s, i, fragment, []);
    }
  }
}
