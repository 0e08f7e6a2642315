/**
 Validating while reading: the reader's events of any accepted text give the validator the
 verdict on the document. They are the events of the document's value but for the kind of
 a number: the reader sends `-0` as a signed zero.
 */
module SchemaReading {
  import opened Bytes
  import opened Json
  import opened Schema
  import opened SchemaValidator
  import opened SchemaStreaming
  import opened NumberFlags
  import Scalars
  import Document
  import RoundTrip
  import Accepted
  import Minify
  import SchemaTheorem
  import RD = RecursiveDescent

  // ---------- events that differ in kind only ----------

  /** The same event, or the same number in two kinds. */
  predicate SameEvent(e: Event, f: Event) {
    e == f || (InKind(e) && InKind(f) && NumberOf(e) == NumberOf(f))
  }

  predicate Alike(es: seq<Event>, fs: seq<Event>) {
    |es| == |fs| && forall i :: 0 <= i < |es| ==> SameEvent(es[i], fs[i])
  }

  lemma AlikeSelf(es: seq<Event>)
    ensures Alike(es, es)
  {
  }

  lemma AlikeTrans(a: seq<Event>, b: seq<Event>, c: seq<Event>)
    requires Alike(a, b) && Alike(b, c)
    ensures Alike(a, c)
  {
    hide InKind, NumberOf;
  }

  lemma AlikeConcat(a: seq<Event>, b: seq<Event>, c: seq<Event>, d: seq<Event>)
    requires Alike(a, b) && Alike(c, d)
    ensures Alike(a + c, b + d)
  {
    hide SameEvent;
  }

  /** The check on a number does not depend on the kind it is sent in. */
  lemma KindIsUnseen(s: Schema, e: Event)
    requires InKind(e)
    ensures StartAllowed(s, e) <==> NumberAllowed(s, NumberOf(e))
  {
    if s.multipleOf.Some? {
      NegatedMultiple(NumberOf(e), s.multipleOf.value);
    }
  }

  /** One number event: begin the value, check it, tell the sub-validators, and end it. */
  lemma NumberStep(vd: Validator, e: Event)
    requires InKind(e) && vd.valid
    ensures var (began, stack) := BeginValue(vd);
            && (!began ==> Handle(vd, e) == vd.(stack := stack, valid := false))
            && (began ==>
                  var started := Below(stack) + [Started(Top(stack), e)];
                  && StackRank(started) <= Rank(vd)
                  && Handle(vd, e) == if !StartAllowed(Top(stack).schema, e) then vd.(stack := started, valid := false)
                                      else EndValue(vd.(stack := Parallel(started, e, Rank(vd)))))
  {
    BeginValueRank(vd);
    hide BeginValue, StackRank, Rank, StartAllowed, EndValue, Parallel, NumberOf;
    var (began, stack) := BeginValue(vd);
    if began {
      StartedStackRank(stack, e);
      StartedSchema(Top(stack), e);
      hide Started;
    }
  }

  lemma StartedSchema(c: Context, e: Event)
    ensures Started(c, e).schema == c.schema
  {
    hide StartAllowed;
  }

  lemma {:induction false} HandleSame(vd: Validator, e: Event, f: Event)
    requires SameEvent(e, f)
    ensures Handle(vd, e) == Handle(vd, f)
    decreases Rank(vd), 3
  {
    if e != f && vd.valid {
      hide Handle, BeginValue, StackRank, Rank, StartAllowed, EndValue, Parallel, Started;
      NumberStep(vd, e);
      NumberStep(vd, f);
      var (began, stack) := BeginValue(vd);
      if began {
        StartedSame(Top(stack), e, f);
        ParallelSame(Below(stack) + [Started(Top(stack), e)], e, f, Rank(vd));
      }
    }
  }

  lemma StartedSame(c: Context, e: Event, f: Event)
    requires SameEvent(e, f) && e != f
    ensures Started(c, e) == Started(c, f) && (StartAllowed(c.schema, e) <==> StartAllowed(c.schema, f))
  {
    KindIsUnseen(c.schema, e);
    KindIsUnseen(c.schema, f);
  }

  lemma {:induction false} ParallelSame(stack: seq<Context>, e: Event, f: Event, n: nat)
    requires StackRank(stack) <= n && SameEvent(e, f)
    ensures Parallel(stack, e, n) == Parallel(stack, f, n)
    decreases n, 1, |stack|
  {
    hide SameEvent, Handle, TellAll, Depth;
    if stack != [] {
      assert ContextRank(stack[0]) <= n;
      TellAllSame(stack[0].validators, e, f, n);
      ParallelSame(stack[1..], e, f, n);
    }
  }

  lemma {:induction false} TellAllSame(vs: seq<Validator>, e: Event, f: Event, n: nat)
    requires ListRank(vs) < n && SameEvent(e, f)
    ensures TellAll(vs, e, n) == TellAll(vs, f, n)
    decreases n, 0, |vs|
  {
    hide SameEvent, Handle, Rank;
    if vs != [] {
      HandleSame(vs[0], e, f);
      TellAllSame(vs[1..], e, f, n);
    }
  }

  /** So runs of alike events end alike. */
  lemma {:induction false} RunsSame(vd: Validator, es: seq<Event>, fs: seq<Event>)
    requires Alike(es, fs)
    ensures RunEvents(vd, es) == RunEvents(vd, fs)
    decreases |es|
  {
    hide Handle, SameEvent;
    if es != [] {
      HandleSame(vd, es[0], fs[0]);
      RunsSame(Handle(vd, es[0]), es[1..], fs[1..]);
    }
  }

  /** And leave the same document. */
  lemma {:induction false} BuildSame(es: seq<Event>, fs: seq<Event>)
    requires Alike(es, fs)
    ensures Document.Build(es) == Document.Build(fs)
    decreases |es|
  {
    if es != [] {
      var n := |es| - 1;
      BuildSame(es[..n], fs[..n]);
      assert SameEvent(es[n], fs[n]);
      hide Document.Build, Alike;
    }
  }

  // ---------- what the reader sends ----------

  /** The events of an accepted value are those of some value, but for the kinds of numbers. */
  lemma {:induction false} ValueSent(s: bytes, p: nat, ev: seq<Event>, fl: RD.Flags) returns (v: Value)
    requires p <= |s| && RD.ParseValue(s, p, ev, fl).Good?
    ensures Alike(RD.ParseValue(s, p, ev, fl).events, ev + RoundTrip.Read(v))
    decreases |s| - p, 2
  {
    hide Alike, Scalars.ParseScalar, RoundTrip.Read;
    var c := Peek(s, p);
    if c == LBRACE {
      v := ObjectSent(s, p, ev, fl);
    } else if c == LBRACKET {
      v := ArraySent(s, p, ev, fl);
    } else {
      var e := Scalars.ParseScalar(s, p).value;
      Accepted.ScalarFacts(s, p, false);
      v := Accepted.ScalarValue(e);
      ScalarSent(s, p);
      AlikeSelf(ev);
      AlikeConcat(ev, ev, [e], RoundTrip.Read(v));
    }
  }

  lemma ScalarSent(s: bytes, p: nat)
    requires p <= |s| && Scalars.ParseScalar(s, p).Done?
    ensures var e := Scalars.ParseScalar(s, p).value; Alike([e], RoundTrip.Read(Accepted.ScalarValue(e)))
  {
    Accepted.ScalarFacts(s, p, false);
    var e := Scalars.ParseScalar(s, p).value;
    NumberSentInKind(s, p);
    hide Scalars.ParseScalar;
  }

  lemma NumberSentInKind(s: bytes, p: nat)
    requires p <= |s| && Scalars.ParseScalar(s, p).Done?
    ensures var e := Scalars.ParseScalar(s, p).value;
            e.IntEvent? || e.UintEvent? || e.Int64Event? || e.Uint64Event? ==>
              InKind(e) && InKind(RoundTrip.NumberRead(NumberOf(e)))
  {
    var c := Peek(s, p);
    if c == 0x6E || c == 0x74 || c == 0x66 {
      hide Scalars.ParseNumber;
      Accepted.LiteralFits(s, p, false);
    } else if c != QUOTE {
      var minus := c == MINUS;
      var q := if minus then p + 1 else p;
      Accepted.MagnitudeIsDecimal(s, q, minus);
      NumberEventInKind(minus, Scalars.ParseMagnitude(s, q, minus).value);
    }
  }

  lemma NumberEventInKind(minus: bool, m: Scalars.Magnitude)
    requires !m.TooLarge? && (if m.Small? then m.i else m.i64) <= Scalars.Limit(minus, m.Large?)
    ensures var e := Scalars.NumberEvent(minus, m); InKind(e) && InKind(RoundTrip.NumberRead(NumberOf(e)))
  {
  }

  lemma {:induction false} ArraySent(s: bytes, p: nat, ev: seq<Event>, fl: RD.Flags) returns (v: Value)
    requires p < |s| && s[p] == LBRACKET && RD.ParseArray(s, p, ev, fl).Good?
    ensures Alike(RD.ParseArray(s, p, ev, fl).events, ev + RoundTrip.Read(v))
    decreases |s| - p, 1
  {
    hide Alike, RoundTrip.Read, RoundTrip.ReadElements, RD.Elements;
    var q := SkipSpace(s, p + 1);
    var elems: seq<Value> := [];
    if Peek(s, q) == RBRACKET {
      NoElements();
      AlikeSelf(ev + [StartArrayEvent] + [EndArrayEvent(0)]);
    } else {
      elems := ElementsSent(s, q, ev + [StartArrayEvent], 0, fl);
    }
    v := Array(elems);
    RoundTrip.ReadArray(elems);
    Bracketed(ev, StartArrayEvent, RoundTrip.ReadElements(elems), EndArrayEvent(|elems|));
  }

  lemma NoElements()
    ensures RoundTrip.ReadElements([]) == [] && RoundTrip.ReadMembers([]) == []
  {
  }

  lemma Bracketed(ev: seq<Event>, start: Event, mid: seq<Event>, end: Event)
    ensures ev + [start] + mid + [end] == ev + ([start] + mid + [end])
    ensures mid == [] ==> ev + [start] + [end] == ev + ([start] + mid + [end])
  {
  }

  lemma {:induction false} ElementsSent(s: bytes, p: nat, ev: seq<Event>, count: nat, fl: RD.Flags)
    returns (elems: seq<Value>)
    requires p <= |s| && RD.Elements(s, p, ev, count, fl).Good?
    ensures Alike(RD.Elements(s, p, ev, count, fl).events,
            ev + RoundTrip.ReadElements(elems) + [EndArrayEvent(count + |elems|)])
    decreases |s| - p, 3
  {
    hide Alike, RoundTrip.Read, RoundTrip.ReadElements, RD.ParseValue, RD.AfterElement;
    var r := RD.ParseValue(s, p, ev, fl);
    var e := ValueSent(s, p, ev, fl);
    var rest := AfterElementSent(s, SkipSpace(s, r.pos), r.events, count + 1, fl);
    elems := [e] + rest;
    FirstElement(ev, e, rest);
    var tail := RoundTrip.ReadElements(rest) + [EndArrayEvent(count + 1 + |rest|)];
    AlikeSelf(tail);
    AlikeConcat(r.events, ev + RoundTrip.Read(e), tail, tail);
    assert r.events + tail == r.events + RoundTrip.ReadElements(rest) + [EndArrayEvent(count + 1 + |rest|)];
    assert ev + RoundTrip.Read(e) + tail == ev + RoundTrip.ReadElements(elems) + [EndArrayEvent(count + |elems|)];
    AlikeTrans(RD.Elements(s, p, ev, count, fl).events, r.events + tail, ev + RoundTrip.Read(e) + tail);
  }

  lemma FirstElement(ev: seq<Event>, e: Value, rest: seq<Value>)
    ensures RoundTrip.ReadElements([e] + rest) == RoundTrip.Read(e) + RoundTrip.ReadElements(rest)
  {
    hide RoundTrip.Read;
    assert ([e] + rest)[1..] == rest;
  }

  lemma {:induction false} AfterElementSent(s: bytes, p: nat, ev: seq<Event>, count: nat, fl: RD.Flags)
    returns (rest: seq<Value>)
    requires p <= |s| && RD.AfterElement(s, p, ev, count, fl).Good?
    ensures Alike(RD.AfterElement(s, p, ev, count, fl).events,
            ev + RoundTrip.ReadElements(rest) + [EndArrayEvent(count + |rest|)])
    decreases |s| - p, 0
  {
    hide Alike, RoundTrip.ReadElements, RD.Elements;
    var next := if p < |s| then SkipSpace(s, p + 1) else p;
    if Peek(s, p) == COMMA && !(fl.trailingCommas && Peek(s, next) == RBRACKET) {
      rest := ElementsSent(s, next, ev, count, fl);
    } else {
      rest := [];
      NoElements();
      assert ev + [] + [EndArrayEvent(count)] == ev + [EndArrayEvent(count)];
      AlikeSelf(ev + [EndArrayEvent(count)]);
    }
  }

  lemma {:induction false} ObjectSent(s: bytes, p: nat, ev: seq<Event>, fl: RD.Flags) returns (v: Value)
    requires p < |s| && s[p] == LBRACE && RD.ParseObject(s, p, ev, fl).Good?
    ensures Alike(RD.ParseObject(s, p, ev, fl).events, ev + RoundTrip.Read(v))
    decreases |s| - p, 1
  {
    hide Alike, RoundTrip.Read, RoundTrip.ReadMembers, RD.Members;
    var q := SkipSpace(s, p + 1);
    var members: seq<Member> := [];
    if Peek(s, q) == RBRACE {
      NoElements();
      AlikeSelf(ev + [StartObjectEvent] + [EndObjectEvent(0)]);
    } else {
      members := MembersSent(s, q, ev + [StartObjectEvent], 0, fl);
    }
    v := Object(members);
    RoundTrip.ReadObject(members);
    Bracketed(ev, StartObjectEvent, RoundTrip.ReadMembers(members), EndObjectEvent(|members|));
  }

  lemma {:induction false} MembersSent(s: bytes, p: nat, ev: seq<Event>, count: nat, fl: RD.Flags)
    returns (members: seq<Member>)
    requires p <= |s| && RD.Members(s, p, ev, count, fl).Good?
    ensures Alike(RD.Members(s, p, ev, count, fl).events,
            ev + RoundTrip.ReadMembers(members) + [EndObjectEvent(count + |members|)])
    decreases |s| - p, 3
  {
    hide Alike, RoundTrip.Read, RoundTrip.ReadMembers, RD.ParseValue, RD.AfterMember, Scalars.ParseString;
    var scan := Scalars.ParseString(s, p);
    var colon := SkipSpace(s, scan.next);
    var q := SkipSpace(s, colon + 1);
    var named := ev + [KeyEvent(scan.value)];
    var r := RD.ParseValue(s, q, named, fl);
    var v := ValueSent(s, q, named, fl);
    var rest := AfterMemberSent(s, SkipSpace(s, r.pos), r.events, count + 1, fl);
    members := [Member(scan.value, v)] + rest;
    FirstMember(Member(scan.value, v), rest);
    var tail := RoundTrip.ReadMembers(rest) + [EndObjectEvent(count + 1 + |rest|)];
    AlikeSelf(tail);
    AlikeConcat(r.events, named + RoundTrip.Read(v), tail, tail);
    assert r.events + tail == r.events + RoundTrip.ReadMembers(rest) + [EndObjectEvent(count + 1 + |rest|)];
    assert named + RoundTrip.Read(v) + tail
      == ev + RoundTrip.ReadMembers(members) + [EndObjectEvent(count + |members|)];
    AlikeTrans(RD.Members(s, p, ev, count, fl).events, r.events + tail, named + RoundTrip.Read(v) + tail);
  }

  lemma FirstMember(m: Member, rest: seq<Member>)
    ensures RoundTrip.ReadMembers([m] + rest)
            == [KeyEvent(m.name)] + RoundTrip.Read(m.value) + RoundTrip.ReadMembers(rest)
  {
    hide RoundTrip.Read;
    assert ([m] + rest)[1..] == rest;
  }

  lemma {:induction false} AfterMemberSent(s: bytes, p: nat, ev: seq<Event>, count: nat, fl: RD.Flags)
    returns (rest: seq<Member>)
    requires p <= |s| && RD.AfterMember(s, p, ev, count, fl).Good?
    ensures Alike(RD.AfterMember(s, p, ev, count, fl).events,
            ev + RoundTrip.ReadMembers(rest) + [EndObjectEvent(count + |rest|)])
    decreases |s| - p, 0
  {
    hide Alike, RoundTrip.ReadMembers, RD.Members;
    var next := if p < |s| then SkipSpace(s, p + 1) else p;
    if Peek(s, p) == COMMA && !(fl.trailingCommas && Peek(s, next) == RBRACE) {
      rest := MembersSent(s, next, ev, count, fl);
    } else {
      rest := [];
      NoElements();
      assert ev + [] + [EndObjectEvent(count)] == ev + [EndObjectEvent(count)];
      AlikeSelf(ev + [EndObjectEvent(count)]);
    }
  }

  // ---------- the theorem ----------

  /**
   Main result: fed straight from the reader, a validator decides whether the document an accepted text
   denotes satisfies its schema.
   */
  lemma AcceptedTextValidates(root: Schema, s: bytes, fl: RD.Flags)
    requires RD.Parse(s, fl).Good?
    ensures var run := RD.Parse(s, fl);
            && Minify.RunDom(run).Some?
            && (RunEvents(Fresh(root), run.events).valid <==> Satisfies(root, Minify.RunDom(run).value))
  {
    hide RunEvents, Satisfies, RD.ParseValue, Alike, RoundTrip.Read;
    var p := SkipSpace(s, 0);
    var v := ValueSent(s, p, [], fl);
    var events := RD.Parse(s, fl).events;
    assert [] + RoundTrip.Read(v) == RoundTrip.Read(v);
    BuildSame(events, RoundTrip.Read(v));
    Minify.BuildRead([], [], v);
    RunsSame(Fresh(root), events, RoundTrip.Read(v));
    SchemaTheorem.ReaderSends(v);
    SchemaTheorem.ValidatorDecides(root, v, FromReader);
  }

  /** Minifying does not change the verdict, whichever of the two texts is read. */
  lemma MinifyingKeepsVerdict(root: Schema, s: bytes)
    requires Minify.Minified(s).Some?
    ensures var before, after :=
            RD.Parse(s, Minify.DEFAULT_FLAGS), RD.Parse(Minify.Minified(s).value, Minify.DEFAULT_FLAGS);
            && before.Good? && after.Good?
            && (RunEvents(Fresh(root), before.events).valid <==> RunEvents(Fresh(root), after.events).valid)
  {
    hide RunEvents, Satisfies, RD.Parse;
    Minify.MinifyPreserves(s);
    AcceptedTextValidates(root, s, Minify.DEFAULT_FLAGS);
    AcceptedTextValidates(root, Minify.Minified(s).value, Minify.DEFAULT_FLAGS);
  }
}
