/**
 The theorem about the streaming validator: for every schema and value, the events of
 the value leave a fresh validator valid exactly when the value satisfies the schema.
 The induction is over an arbitrary validator in mid-stream.
 */
module SchemaTheorem {
  import opened Bytes
  import opened Json
  import opened Schema
  import opened SchemaValidator
  import opened SchemaStreaming
  import RoundTrip

  /** The outcome of streaming one value into a validator. */
  predicate Decided(vd: Validator, r: Validator, es: seq<Event>, good: bool) {
    if good then Consumed(vd, r, es) else !r.valid
  }

  /** The sub-validators of a value that has just begun: none have seen anything yet. */
  lemma BegunValidators(s: Schema, e: Event)
    requires StartAllowed(s, e)
    ensures Begun(s, e).schema == s
    ensures Begun(s, e).validators == AdvanceAll(FreshAll(Combined(s)), [e])
    ensures Begun(s, e).inArray == e.StartArrayEvent? && Begun(s, e).arrayElementIndex == 0
    ensures Begun(s, e).propertyExist == if e.StartObjectEvent? && HasRequired(s) then Absent(|s.properties|) else []
  {
    hide StartAllowed, AdvanceAll, HasRequired, Combined;
  }

  lemma BumpedConsumed(vd: Validator, es: seq<Event>)
    requires vd.valid
    ensures Consumed(vd, vd.(stack := AdvanceStack(BumpedStack(vd.stack), es)), es)
  {
    hide AdvanceStack, AdvanceAll;
    if vd.stack != [] {
      AdvanceTop(Below(vd.stack), Bumped(Top(vd.stack)), es);
    }
  }

  /** Fresh validators for the sub-schemas, fed the events of the value, reach the right verdicts. */
  predicate Judges(s: Schema, v: Value, who: Sender) {
    forall i :: 0 <= i < |Combined(s)| ==>
      RunEvents(Fresh(Combined(s)[i]), Events(v, who)).valid == Satisfies(Combined(s)[i], v)
  }

  lemma JudgedContext(c: Context, s: Schema, v: Value, who: Sender)
    requires Judges(s, v, who) && c.schema == s
    requires c.validators == AdvanceAll(FreshAll(Combined(s)), Events(v, who))
    ensures ValueEnds(c) <==> CombinatorsHold(s, v)
  {
    assert Judged(c, s, v) by {
      hide RunEvents, Events, Satisfies, Combined, AdvanceAll;
    }
    ValueEndsDecides(c, s, v);
  }

  lemma LeafEvent(v: Value, who: Sender)
    requires !v.Array? && !v.Object?
    ensures !Events(v, who)[0].StartObjectEvent? && !Events(v, who)[0].StartArrayEvent?
  {
  }

  /** Streaming a value that is neither array nor object. */
  lemma LeafStream(vd: Validator, v: Value, who: Sender, s: Schema)
    requires vd.valid && NextSchema(vd) == Some(s) && !v.Array? && !v.Object?
    requires Judges(s, v, who)
    ensures Decided(vd, RunEvents(vd, Events(v, who)), Events(v, who), Satisfies(s, v))
  {
    hide Events, StartAllowed, Handle, NextSchema, AdvanceStack, RunEvents, BumpedStack, Begun, Consumed, Judges,
      ShapeAllowed, CombinatorsHold, ValueEnds, AdvanceAll, Combined;
    StartAllowedDecides(s, v, who);
    var e := Events(v, who)[0];
    assert Events(v, who) == [e];
    StartStep(vd, e, s);
    RunOne(vd, e);
    if StartAllowed(s, e) {
      LeafEvent(v, who);
      BegunValidators(s, e);
      JudgedContext(Begun(s, e), s, v, who);
      var told := vd.(stack := AdvanceStack(BumpedStack(vd.stack), [e]) + [Begun(s, e)]);
      assert Below(told.stack) == AdvanceStack(BumpedStack(vd.stack), [e]) && Top(told.stack) == Begun(s, e);
      BumpedConsumed(vd, [e]);
    }
  }

  // ---------- elements ----------

  /** The schema the validator chooses for an element is what the element must satisfy. */
  lemma ElementMeans(s: Schema, index: nat, v: Value)
    ensures ElementAllowed(s, index, v)
            <==> ElementSchema(s, index).Some? && Satisfies(ElementSchema(s, index).value, v)
  {
    hide ShapeAllowed, CombinatorsHold;
    TypelessAcceptsAll(v);
  }

  predicate ElementsAllowed(s: Schema, index: nat, elems: seq<Value>) {
    forall i :: 0 <= i < |elems| ==> ElementAllowed(s, index + i, elems[i])
  }

  lemma ElementsAllowedUnfold(s: Schema, index: nat, elems: seq<Value>)
    requires elems != []
    ensures ElementsAllowed(s, index, elems)
            <==> ElementAllowed(s, index, elems[0]) && ElementsAllowed(s, index + 1, elems[1..])
  {
    hide ElementAllowed;
    if ElementsAllowed(s, index, elems) {
      assert ElementAllowed(s, index + 0, elems[0]);
      forall i | 0 <= i < |elems[1..]| ensures ElementAllowed(s, index + 1 + i, elems[1..][i]) {
        assert index + 1 + i == index + (i + 1) && elems[1..][i] == elems[i + 1];
      }
    }
    if ElementAllowed(s, index, elems[0]) && ElementsAllowed(s, index + 1, elems[1..]) {
      forall i | 0 <= i < |elems| ensures ElementAllowed(s, index + i, elems[i]) {
        if i > 0 {
          assert elems[1..][i - 1] == elems[i] && index + 1 + (i - 1) == index + i;
        }
      }
    }
  }

  /**
   Part of the way through an open value: the contexts below moved on, and the value's own context kept
   what it will be judged by.
   */
  predicate Progressed(vd: Validator, r: Validator, es: seq<Event>)
    requires vd.stack != []
  {
    && r.valid && r.root == vd.root && |r.stack| == |vd.stack|
    && Below(r.stack) == AdvanceStack(Below(vd.stack), es)
    && Top(r.stack).schema == Top(vd.stack).schema
    && Top(r.stack).validators == AdvanceAll(Top(vd.stack).validators, es)
    && Top(r.stack).inArray == Top(vd.stack).inArray
  }

  lemma ProgressedTrans(vd: Validator, r: Validator, t: Validator, a: seq<Event>, b: seq<Event>)
    requires vd.stack != [] && Progressed(vd, r, a) && Progressed(r, t, b)
    ensures Progressed(vd, t, a + b)
  {
    hide AdvanceStack, AdvanceAll;
    AdvanceStackAppend(Below(vd.stack), a, b);
    AdvanceAllAppend(Top(vd.stack).validators, a, b);
  }

  lemma ConsumedProgresses(vd: Validator, r: Validator, es: seq<Event>)
    requires vd.stack != [] && Consumed(vd, r, es)
    ensures Progressed(vd, r, es)
  {
    hide AdvanceStack, AdvanceAll;
  }

  lemma {:induction false} ElementsStream(vd: Validator, elems: seq<Value>, who: Sender)
    requires vd.valid && vd.stack != [] && Top(vd.stack).inArray
    ensures var r := RunEvents(vd, ElementEvents(elems, who));
            if ElementsAllowed(Top(vd.stack).schema, Top(vd.stack).arrayElementIndex, elems)
            then Progressed(vd, r, ElementEvents(elems, who)) else !r.valid
    decreases elems
  {
    hide RunEvents, Handle, AdvanceStack, AdvanceAll, Events, ElementSchema, Satisfies, Consumed, Progressed,
      ElementAllowed, ElementsAllowed;
    var c := Top(vd.stack);
    if elems == [] {
      assert ElementsAllowed(c.schema, c.arrayElementIndex, elems) by {
        NoElements(c.schema, c.arrayElementIndex);
      }
      NothingProgresses(vd);
    } else {
      ElementsAllowedUnfold(c.schema, c.arrayElementIndex, elems);
      ElementMeans(c.schema, c.arrayElementIndex, elems[0]);
      var first, rest := Events(elems[0], who), ElementEvents(elems[1..], who);
      RunAppend(vd, first, rest);
      var r := RunEvents(vd, first);
      if NextSchema(vd).None? {
        FirstEvent(elems[0], who);
        NoNextFails(vd, first[0]);
        RunFails(vd, first);
        RunInvalid(r, rest);
      } else {
        Stream(vd, elems[0], who, NextSchema(vd).value);
        if Satisfies(NextSchema(vd).value, elems[0]) {
          ConsumedProgresses(vd, r, first);
          ProgressedIndex(vd, r, first);
          ElementsStream(r, elems[1..], who);
          if ElementsAllowed(c.schema, c.arrayElementIndex + 1, elems[1..]) {
            ProgressedTrans(vd, r, RunEvents(r, rest), first, rest);
          }
        } else {
          RunInvalid(r, rest);
        }
      }
    }
  }

  lemma NoElements(s: Schema, index: nat)
    ensures ElementsAllowed(s, index, [])
  {
  }

  lemma NothingProgresses(vd: Validator)
    requires vd.valid && vd.stack != []
    ensures RunEvents(vd, []) == vd && Progressed(vd, vd, [])
  {
    hide Handle;
    forall x: seq<Validator> | true ensures AdvanceAll(x, []) == x {
      assert forall i :: 0 <= i < |x| ==> AdvanceAll(x, [])[i] == x[i];
    }
    assert AdvanceStack(Below(vd.stack), []) == Below(vd.stack);
  }

  lemma ProgressedIndex(vd: Validator, r: Validator, es: seq<Event>)
    requires vd.stack != [] && Consumed(vd, r, es) && Top(vd.stack).inArray
    ensures r.valid && r.stack != [] && Top(r.stack).inArray
    ensures Top(r.stack).schema == Top(vd.stack).schema
    ensures Top(r.stack).arrayElementIndex == Top(vd.stack).arrayElementIndex + 1
  {
    hide AdvanceStack, AdvanceAll;
  }

  lemma FirstEvent(v: Value, who: Sender)
    ensures StartsValue(Events(v, who)[0])
  {
    hide ElementEvents, MemberEvents;
  }

  lemma RunFails(vd: Validator, es: seq<Event>)
    requires es != [] && !Handle(vd, es[0]).valid
    ensures !RunEvents(vd, es).valid
  {
    hide Handle;
    RunInvalid(Handle(vd, es[0]), es[1..]);
  }

  // ---------- members ----------

  /** The schema the validator chooses for a member is what its value must satisfy. */
  lemma MemberMeans(s: Schema, name: bytes, v: Value)
    ensures MemberAllowed(s, name, v)
            <==> MemberSchema(s, name).Some? && Satisfies(MemberSchema(s, name).value, v)
  {
    hide ShapeAllowed, CombinatorsHold;
    TypelessAcceptsAll(v);
    var index := FindProperty(s.properties, name);
    if index.Some? {
      assert IsFirst(s.properties, index.value, name);
    }
  }

  predicate MembersAllowed(s: Schema, members: seq<Member>) {
    forall i :: 0 <= i < |members| ==> MemberAllowed(s, members[i].name, members[i].value)
  }

  lemma MembersAllowedUnfold(s: Schema, members: seq<Member>)
    requires members != []
    ensures MembersAllowed(s, members)
            <==> && MemberSchema(s, members[0].name).Some?
                 && Satisfies(MemberSchema(s, members[0].name).value, members[0].value)
                 && MembersAllowed(s, members[1..])
  {
    MemberMeans(s, members[0].name, members[0].value);
    hide MemberAllowed, MemberSchema, Satisfies;
    assert forall i :: 0 <= i < |members[1..]| ==> members[1..][i] == members[i + 1];
    if MembersAllowed(s, members[1..]) && MemberAllowed(s, members[0].name, members[0].value) {
      forall i | 0 <= i < |members| ensures MemberAllowed(s, members[i].name, members[i].value) {
        if i > 0 {
          assert members[1..][i - 1] == members[i];
        }
      }
    }
  }

  function Mark(s: Schema, flags: seq<bool>, name: bytes): (r: seq<bool>)
    ensures |r| == |flags|
  {
    var index := FindProperty(s.properties, name);
    if index.Some? && index.value < |flags| then flags[index.value := true] else flags
  }

  /** The presence flags after the keys of the members. */
  function Marked(s: Schema, flags: seq<bool>, members: seq<Member>): (r: seq<bool>)
    ensures |r| == |flags|
    decreases |members|
  {
    if members == [] then flags else Marked(s, Mark(s, flags, members[0].name), members[1..])
  }

  lemma PresentUnfold(s: Schema, members: seq<Member>, i: nat)
    requires members != []
    ensures Present(s, members, i)
            <==> FindProperty(s.properties, members[0].name) == Some(i) || Present(s, members[1..], i)
  {
    hide FindProperty;
    assert forall k :: 0 <= k < |members[1..]| ==> members[1..][k] == members[k + 1];
    if k :| 0 <= k < |members| && FindProperty(s.properties, members[k].name) == Some(i) {
      if k > 0 {
        assert members[1..][k - 1] == members[k];
      }
    }
  }

  lemma {:induction false} MarkedPresent(s: Schema, flags: seq<bool>, members: seq<Member>, i: nat)
    requires i < |flags|
    ensures Marked(s, flags, members)[i] <==> flags[i] || Present(s, members, i)
    decreases |members|
  {
    hide FindProperty, Present;
    if members == [] {
      assert !Present(s, members, i) by {
        NoMembers(s, i);
      }
    } else {
      PresentUnfold(s, members, i);
      MarkedPresent(s, Mark(s, flags, members[0].name), members[1..], i);
    }
  }

  lemma NoMembers(s: Schema, i: nat)
    ensures !Present(s, [], i) && MembersAllowed(s, [])
  {
  }

  /** The check at the end of an object reads the flags the keys have set. */
  lemma ObjectEndsDecides(c: Context, members: seq<Member>)
    requires c.propertyExist
             == Marked(c.schema, if HasRequired(c.schema) then Absent(|c.schema.properties|) else [], members)
    ensures ObjectEnds(c, |members|) <==>
            RequiredPresent(c.schema, members) && Within(|members|, c.schema.minProperties, c.schema.maxProperties)
  {
    hide Marked, Present, Absent;
    var s := c.schema;
    if HasRequired(s) {
      forall i | 0 <= i < |s.properties|
        ensures Missing(c, i)
                <==> s.properties[i].required && s.properties[i].schema.defaultValueLength == 0
                     && !Present(s, members, i)
      {
        MarkedPresent(s, Absent(|s.properties|), members, i);
      }
      hide Missing;
      if RequiredPresent(s, members) {
        forall i | 0 <= i < |s.properties| ensures !Missing(c, i) {
        }
      }
      if forall i :: 0 <= i < |s.properties| ==> !Missing(c, i) {
        forall i | 0 <= i < |s.properties| && s.properties[i].required && s.properties[i].schema.defaultValueLength == 0
          ensures Present(s, members, i)
        {
          assert !Missing(c, i);
        }
      }
    }
  }

  lemma KeyProgress(vd: Validator, name: bytes)
    requires vd.valid && vd.stack != [] && !Top(vd.stack).inArray
    ensures var c := Top(vd.stack);
            var r := Handle(vd, KeyEvent(name));
            if MemberSchema(c.schema, name).Some?
            then Progressed(vd, r, [KeyEvent(name)]) && NextSchema(r) == MemberSchema(c.schema, name)
                 && Top(r.stack).propertyExist == Mark(c.schema, c.propertyExist, name)
            else !r.valid
  {
    hide AdvanceStack, AdvanceAll, Advance, Keyed, Mark, Handle, MemberSchema, FindProperty;
    KeyStep(vd, name);
    if MemberSchema(Top(vd.stack).schema, name).Some? {
      KeyedParts(Top(vd.stack), name);
    }
  }

  lemma KeyedParts(c: Context, name: bytes)
    requires MemberSchema(c.schema, name).Some?
    ensures var k := Advance(Keyed(c, name), [KeyEvent(name)]);
            && k.schema == c.schema && k.validators == AdvanceAll(c.validators, [KeyEvent(name)])
            && k.inArray == c.inArray && k.valueSchema == MemberSchema(c.schema, name)
            && k.propertyExist == Mark(c.schema, c.propertyExist, name)
  {
    hide AdvanceAll, MemberSchema, FindProperty;
  }

  lemma ConsumedMembers(vd: Validator, r: Validator, es: seq<Event>)
    requires vd.stack != [] && Consumed(vd, r, es)
    ensures r.valid && r.stack != [] && Top(r.stack).inArray == Top(vd.stack).inArray
    ensures Top(r.stack).schema == Top(vd.stack).schema && Top(r.stack).propertyExist == Top(vd.stack).propertyExist
  {
    hide AdvanceStack, AdvanceAll;
  }

  lemma ProgressedParts(vd: Validator, r: Validator, es: seq<Event>)
    requires vd.stack != [] && Progressed(vd, r, es)
    ensures r.valid && r.stack != [] && Top(r.stack).schema == Top(vd.stack).schema
    ensures Top(r.stack).inArray == Top(vd.stack).inArray
  {
    hide AdvanceStack, AdvanceAll;
  }

  /** What streaming members decides, and the flags it leaves. */
  predicate MembersDecided(vd: Validator, r: Validator, members: seq<Member>, es: seq<Event>)
    requires vd.stack != []
  {
    if MembersAllowed(Top(vd.stack).schema, members)
    then Progressed(vd, r, es)
      && Top(r.stack).propertyExist == Marked(Top(vd.stack).schema, Top(vd.stack).propertyExist, members)
    else !r.valid
  }

  lemma {:induction false} MembersStream(vd: Validator, members: seq<Member>, who: Sender)
    requires vd.valid && vd.stack != [] && !Top(vd.stack).inArray
    ensures MembersDecided(vd, RunEvents(vd, MemberEvents(members, who)), members, MemberEvents(members, who))
    decreases members
  {
    hide RunEvents, Handle, AdvanceStack, AdvanceAll, Events, MemberSchema, Satisfies, Consumed, Progressed,
      MembersAllowed, Mark, NextSchema;
    var c := Top(vd.stack);
    if members == [] {
      NoMembers(c.schema, 0);
      NothingProgresses(vd);
    } else {
      MembersAllowedUnfold(c.schema, members);
      var key, value, rest :=
        [KeyEvent(members[0].name)], Events(members[0].value, who), MemberEvents(members[1..], who);
      var r := Handle(vd, key[0]);
      KeyProgress(vd, members[0].name);
      RunOne(vd, key[0]);
      RunAppend(vd, key + value, rest);
      RunAppend(vd, key, value);
      if MemberSchema(c.schema, members[0].name).None? {
        RunInvalid(r, value);
        RunInvalid(r, rest);
      } else {
        ProgressedParts(vd, r, key);
        MemberValueStream(vd, r, members, who);
      }
    }
  }

  lemma {:induction false} MemberValueStream(vd: Validator, r: Validator, members: seq<Member>, who: Sender)
    requires vd.valid && vd.stack != [] && !Top(vd.stack).inArray && members != []
    requires Progressed(vd, r, [KeyEvent(members[0].name)]) && r.valid
    requires MemberSchema(Top(vd.stack).schema, members[0].name).Some?
    requires NextSchema(r) == MemberSchema(Top(vd.stack).schema, members[0].name)
    requires Top(r.stack).propertyExist == Mark(Top(vd.stack).schema, Top(vd.stack).propertyExist, members[0].name)
    ensures var t := RunEvents(RunEvents(r, Events(members[0].value, who)), MemberEvents(members[1..], who));
            MembersDecided(vd, t, members, MemberEvents(members, who))
    decreases members, 0
  {
    hide RunEvents, Handle, AdvanceStack, AdvanceAll, Events, MemberSchema, Satisfies, Consumed, Progressed,
      MembersAllowed, Mark, NextSchema;
    var c := Top(vd.stack);
    MembersAllowedUnfold(c.schema, members);
    ProgressedParts(vd, r, [KeyEvent(members[0].name)]);
    var key, value, rest := [KeyEvent(members[0].name)], Events(members[0].value, who), MemberEvents(members[1..], who);
    var u := RunEvents(r, value);
    Stream(r, members[0].value, who, NextSchema(r).value);
    if Satisfies(NextSchema(r).value, members[0].value) {
      ConsumedMembers(r, u, value);
      ConsumedProgresses(r, u, value);
      ProgressedTrans(vd, r, u, key, value);
      MembersStream(u, members[1..], who);
      if MembersAllowed(c.schema, members[1..]) {
        ProgressedTrans(vd, u, RunEvents(u, rest), key + value, rest);
      }
    } else {
      RunInvalid(u, rest);
    }
  }

  // ---------- arrays and objects ----------

  /** The end of an array or object whose parts have all been consumed. */
  lemma Finish(vd: Validator, s: Schema, v: Value, who: Sender, start: Event, mid: seq<Event>, end: Event,
               begun: Validator, r: Validator)
    requires vd.valid && (end.EndObjectEvent? || end.EndArrayEvent?)
    requires Events(v, who) == [start] + mid + [end] && Judges(s, v, who) && StartAllowed(s, start)
    requires begun == vd.(stack := AdvanceStack(BumpedStack(vd.stack), [start]) + [Begun(s, start)])
    requires Progressed(begun, r, mid)
    ensures var c := Advance(Top(r.stack), [end]);
            var allowed := if end.EndObjectEvent? then ObjectEnds(c, end.memberCount)
              else ArrayEnds(c, end.elementCount);
            && c.schema == s && c.propertyExist == Top(r.stack).propertyExist
            && Decided(vd, Handle(r, end), Events(v, who), allowed && CombinatorsHold(s, v))
  {
    hide Handle, Events, Judges, RunEvents, AdvanceStack, AdvanceAll, ObjectEnds, ArrayEnds, ValueEnds,
      CombinatorsHold, Begun, BumpedStack, Consumed, StartAllowed;
    BegunValidators(s, start);
    assert Top(begun.stack) == Begun(s, start) && Below(begun.stack) == AdvanceStack(BumpedStack(vd.stack), [start]);
    EndStep(r, end);
    var c := Advance(Top(r.stack), [end]);
    var subs := FreshAll(Combined(s));
    AdvanceAllAppend(subs, [start], mid);
    AdvanceAllAppend(subs, [start] + mid, [end]);
    JudgedContext(c, s, v, who);
    AdvanceStackAppend(BumpedStack(vd.stack), [start], mid);
    AdvanceStackAppend(BumpedStack(vd.stack), [start] + mid, [end]);
    BumpedConsumed(vd, Events(v, who));
  }

  lemma RunBracketed(vd: Validator, start: Event, mid: seq<Event>, end: Event)
    ensures RunEvents(vd, [start] + mid + [end]) == Handle(RunEvents(Handle(vd, start), mid), end)
  {
    hide Handle, RunEvents;
    RunAppend(vd, [start] + mid, [end]);
    RunAppend(vd, [start], mid);
    RunOne(vd, start);
    RunOne(RunEvents(Handle(vd, start), mid), end);
  }

  lemma ArrayParts(s: Schema, elems: seq<Value>, who: Sender)
    ensures Events(Array(elems), who) == [StartArrayEvent] + ElementEvents(elems, who) + [EndArrayEvent(|elems|)]
    ensures Satisfies(s, Array(elems)) <==>
            && StartAllowed(s, StartArrayEvent) && Within(|elems|, s.minItems, s.maxItems)
            && ElementsAllowed(s, 0, elems) && CombinatorsHold(s, Array(elems))
  {
    hide CombinatorsHold, ElementAllowed, Within, ElementEvents;
    assert ShapeAllowed(s, Array(elems)) == ArrayAllowed(s, elems);
    if ArrayAllowed(s, elems) {
      forall i | 0 <= i < |elems| ensures ElementAllowed(s, 0 + i, elems[i]) {
        assert ElementAllowed(s, i, elems[i]);
      }
    }
    if ElementsAllowed(s, 0, elems) {
      forall i | 0 <= i < |elems| ensures ElementAllowed(s, i, elems[i]) {
        assert ElementAllowed(s, 0 + i, elems[i]);
      }
    }
  }

  lemma ObjectParts(s: Schema, members: seq<Member>, who: Sender)
    ensures Events(Object(members), who)
            == [StartObjectEvent] + MemberEvents(members, who) + [EndObjectEvent(|members|)]
    ensures Satisfies(s, Object(members)) <==>
            && StartAllowed(s, StartObjectEvent) && Within(|members|, s.minProperties, s.maxProperties)
            && RequiredPresent(s, members) && MembersAllowed(s, members) && CombinatorsHold(s, Object(members))
  {
    hide CombinatorsHold, MemberAllowed, Within, RequiredPresent, MemberEvents;
    assert ShapeAllowed(s, Object(members)) == ObjectAllowed(s, members);
  }

  lemma {:induction false} ArrayStream(vd: Validator, elems: seq<Value>, who: Sender, s: Schema)
    requires vd.valid && NextSchema(vd) == Some(s) && Judges(s, Array(elems), who)
    ensures Decided(vd, RunEvents(vd, Events(Array(elems), who)), Events(Array(elems), who), Satisfies(s, Array(elems)))
    decreases Array(elems), s, 0
  {
    hide Handle, Events, ElementEvents, RunEvents, AdvanceStack, Begun, BumpedStack, NextSchema, StartAllowed, Judges,
      ArrayAllowed, CombinatorsHold, Satisfies, ElementsAllowed, Consumed, Progressed, AdvanceAll, Combined;
    var v := Array(elems);
    var mid, end := ElementEvents(elems, who), EndArrayEvent(|elems|);
    ArrayParts(s, elems, who);
    RunBracketed(vd, StartArrayEvent, mid, end);
    StartStep(vd, StartArrayEvent, s);
    var begun := Handle(vd, StartArrayEvent);
    if StartAllowed(s, StartArrayEvent) {
      BegunValidators(s, StartArrayEvent);
      assert Top(begun.stack) == Begun(s, StartArrayEvent);
      ElementsStream(begun, elems, who);
      var r := RunEvents(begun, mid);
      if ElementsAllowed(s, 0, elems) {
        Finish(vd, s, v, who, StartArrayEvent, mid, end, begun, r);
      } else {
        assert !Handle(r, end).valid;
      }
    } else {
      RunInvalid(begun, mid);
    }
  }

  lemma {:induction false} ObjectStream(vd: Validator, members: seq<Member>, who: Sender, s: Schema)
    requires vd.valid && NextSchema(vd) == Some(s) && Judges(s, Object(members), who)
    ensures Decided(vd, RunEvents(vd, Events(Object(members), who)), Events(Object(members), who),
            Satisfies(s, Object(members)))
    decreases Object(members), s, 0
  {
    hide Handle, Events, MemberEvents, RunEvents, AdvanceStack, Begun, BumpedStack, NextSchema, StartAllowed, Judges,
      HasRequired, Absent, ObjectAllowed, CombinatorsHold, Satisfies, MembersAllowed, Consumed, Progressed,
      RequiredPresent, ObjectEnds, Marked, AdvanceAll, Combined;
    var v := Object(members);
    var mid, end := MemberEvents(members, who), EndObjectEvent(|members|);
    ObjectParts(s, members, who);
    RunBracketed(vd, StartObjectEvent, mid, end);
    StartStep(vd, StartObjectEvent, s);
    var begun := Handle(vd, StartObjectEvent);
    if StartAllowed(s, StartObjectEvent) {
      BegunValidators(s, StartObjectEvent);
      assert Top(begun.stack) == Begun(s, StartObjectEvent);
      MembersStream(begun, members, who);
      var r := RunEvents(begun, mid);
      if MembersAllowed(s, members) {
        Finish(vd, s, v, who, StartObjectEvent, mid, end, begun, r);
        ProgressedParts(begun, r, mid);
        ObjectEndsDecides(Advance(Top(r.stack), [end]), members);
      } else {
        assert !Handle(r, end).valid;
      }
    } else {
      RunInvalid(begun, mid);
    }
  }

  // ---------- the theorem ----------

  lemma FreshNext(s: Schema)
    ensures Fresh(s).valid && NextSchema(Fresh(s)) == Some(s)
    ensures forall r, es, good :: Decided(Fresh(s), r, es, good) ==> r.valid == good
  {
    hide AdvanceStack, SameOpen;
  }

  lemma {:induction false} Judging(s: Schema, v: Value, who: Sender)
    ensures Judges(s, v, who)
    decreases v, s, 0
  {
    hide RunEvents, Events, Satisfies, Combined, Handle, NextSchema, Decided;
    CombinedAt(s);
    var a := |s.allOf|;
    var b := a + |s.anyOf|;
    var n := b + |s.oneOf|;
    forall i | 0 <= i < |Combined(s)|
      ensures RunEvents(Fresh(Combined(s)[i]), Events(v, who)).valid == Satisfies(Combined(s)[i], v)
    {
      if i < a {
        assert Combined(s)[i] == Combined(s)[..a][i] == s.allOf[i];
        FreshNext(s.allOf[i]);
        Stream(Fresh(s.allOf[i]), v, who, s.allOf[i]);
      } else if i < b {
        assert Combined(s)[i] == Combined(s)[a..b][i - a] == s.anyOf[i - a];
        FreshNext(s.anyOf[i - a]);
        Stream(Fresh(s.anyOf[i - a]), v, who, s.anyOf[i - a]);
      } else if i < n {
        assert Combined(s)[i] == Combined(s)[b..n][i - b] == s.oneOf[i - b];
        FreshNext(s.oneOf[i - b]);
        Stream(Fresh(s.oneOf[i - b]), v, who, s.oneOf[i - b]);
      } else {
        FreshNext(s.negated.value);
        Stream(Fresh(s.negated.value), v, who, s.negated.value);
      }
    }
  }

  /**
   Whatever is already open, the next value is consumed if it satisfies the schema chosen for it, and
   fails the validator otherwise.
   */
  lemma {:induction false} Stream(vd: Validator, v: Value, who: Sender, s: Schema)
    requires vd.valid && NextSchema(vd) == Some(s)
    ensures Decided(vd, RunEvents(vd, Events(v, who)), Events(v, who), Satisfies(s, v))
    decreases v, s, 1
  {
    hide RunEvents, Events, Satisfies, Decided, NextSchema, Judges;
    Judging(s, v, who);
    match v {
      case Array(elems) => ArrayStream(vd, elems, who, s);
      case Object(members) => ObjectStream(vd, members, who, s);
      case _ => LeafStream(vd, v, who, s);
    }
  }

  /** A validator decides its root schema on every value. */
  lemma ValidatorDecides(root: Schema, v: Value, who: Sender)
    ensures RunEvents(Fresh(root), Events(v, who)).valid <==> Satisfies(root, v)
    ensures Satisfies(root, v) ==> RunEvents(Fresh(root), Events(v, who)) == Fresh(root)
  {
    hide RunEvents, Events, Satisfies;
    Stream(Fresh(root), v, who, root);
  }

  // ---------- validating while reading ----------

  lemma {:induction false} ReaderSends(v: Value)
    ensures Events(v, FromReader) == RoundTrip.Read(v)
    decreases v, 0
  {
    match v {
      case Array(elems) => ReaderSendsElements(elems);
      case Object(members) => ReaderSendsMembers(members);
      case _ =>
    }
  }

  lemma {:induction false} ReaderSendsElements(elems: seq<Value>)
    ensures ElementEvents(elems, FromReader) == RoundTrip.ReadElements(elems)
    decreases elems, 1
  {
    if elems != [] {
      ReaderSends(elems[0]);
      ReaderSendsElements(elems[1..]);
    }
  }

  lemma {:induction false} ReaderSendsMembers(members: seq<Member>)
    ensures MemberEvents(members, FromReader) == RoundTrip.ReadMembers(members)
    decreases members, 1
  {
    if members != [] {
      ReaderSends(members[0].value);
      ReaderSendsMembers(members[1..]);
    }
  }
}
