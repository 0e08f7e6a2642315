/**
 Streaming a value's events through the validator decides whether the value satisfies
 the schema, whatever is already open and whatever sub-validators run beside it.
 */
module SchemaStreaming {
  import opened Arithmetic
  import opened Bytes
  import opened Json
  import opened Schema
  import opened SchemaValidator
  import NumberFlags
  import RoundTrip
  import Utf8

  /** Who sends the events: the two senders pick different kinds for the same number. */
  datatype Sender = FromReader | FromDocument

  function NumberSent(n: int, who: Sender): Event {
    if who.FromReader? then RoundTrip.NumberRead(n)
    else if -0x8000_0000 <= n < 0x8000_0000 then IntEvent(n)
    else if 0 <= n < 0x1_0000_0000 then UintEvent(n)
    else if n < 0x8000_0000_0000_0000 then Int64Event(n)
    else Uint64Event(n)
  }

  /** The document's choice is the one its number flags make. */
  lemma DocumentSends(e: Event)
    requires NumberFlags.InKind(e)
    ensures NumberFlags.Accepted(NumberFlags.FlagsOf(e), NumberFlags.NumberOf(e))
            == NumberSent(NumberFlags.NumberOf(e), FromDocument)
  {
    hide NumberFlags.FlagsOf;
    NumberFlags.FlagsSayWhatFits(e);
  }

  function Events(v: Value, who: Sender): (es: seq<Event>)
    ensures es != []
    decreases v, 0
  {
    match v
    case Null => [NullEvent]
    case Bool(b) => [BoolEvent(b)]
    case Number(n) => [NumberSent(n, who)]
    case String(str) => [StringEvent(str)]
    case Array(elems) => [StartArrayEvent] + ElementEvents(elems, who) + [EndArrayEvent(|elems|)]
    case Object(members) => [StartObjectEvent] + MemberEvents(members, who) + [EndObjectEvent(|members|)]
  }

  function ElementEvents(elems: seq<Value>, who: Sender): seq<Event>
    decreases elems, 1
  {
    if elems == [] then [] else Events(elems[0], who) + ElementEvents(elems[1..], who)
  }

  function MemberEvents(members: seq<Member>, who: Sender): seq<Event>
    decreases members, 1
  {
    if members == [] then []
    else [KeyEvent(members[0].name)] + Events(members[0].value, who) + MemberEvents(members[1..], who)
  }

  // ---------- running ----------

  lemma {:induction false} RunAppend(vd: Validator, a: seq<Event>, b: seq<Event>)
    ensures RunEvents(vd, a + b) == RunEvents(RunEvents(vd, a), b)
    decreases |a|
  {
    hide Handle;
    if a == [] {
      assert a + b == b;
    } else {
      assert (a + b)[1..] == a[1..] + b;
      RunAppend(Handle(vd, a[0]), a[1..], b);
    }
  }

  /** A validator that has failed stays as it is. */
  lemma {:induction false} RunInvalid(vd: Validator, es: seq<Event>)
    requires !vd.valid
    ensures RunEvents(vd, es) == vd
    decreases |es|
  {
    hide Handle;
    if es != [] {
      RunInvalid(vd, es[1..]);
    }
  }

  lemma RunOne(vd: Validator, e: Event)
    ensures RunEvents(vd, [e]) == Handle(vd, e)
  {
    hide Handle;
    assert [e][1..] == [];
  }

  function AdvanceAll(vs: seq<Validator>, es: seq<Event>): (r: seq<Validator>)
    ensures |r| == |vs| && forall i :: 0 <= i < |vs| ==> r[i] == RunEvents(vs[i], es)
  {
    if vs == [] then [] else [RunEvents(vs[0], es)] + AdvanceAll(vs[1..], es)
  }

  function Advance(c: Context, es: seq<Event>): Context {
    c.(validators := AdvanceAll(c.validators, es))
  }

  function AdvanceStack(stack: seq<Context>, es: seq<Event>): (r: seq<Context>)
    ensures |r| == |stack| && forall i :: 0 <= i < |stack| ==> r[i] == Advance(stack[i], es)
  {
    if stack == [] then [] else [Advance(stack[0], es)] + AdvanceStack(stack[1..], es)
  }

  lemma AdvanceAllAppend(vs: seq<Validator>, a: seq<Event>, b: seq<Event>)
    ensures AdvanceAll(AdvanceAll(vs, a), b) == AdvanceAll(vs, a + b)
  {
    hide RunEvents, AdvanceAll;
    forall i | 0 <= i < |vs| ensures AdvanceAll(AdvanceAll(vs, a), b)[i] == AdvanceAll(vs, a + b)[i] {
      RunAppend(vs[i], a, b);
    }
  }

  lemma AdvanceStackAppend(stack: seq<Context>, a: seq<Event>, b: seq<Event>)
    ensures AdvanceStack(AdvanceStack(stack, a), b) == AdvanceStack(stack, a + b)
  {
    hide RunEvents, AdvanceAll, AdvanceStack;
    forall i | 0 <= i < |stack| ensures AdvanceStack(AdvanceStack(stack, a), b)[i] == AdvanceStack(stack, a + b)[i] {
      AdvanceAllAppend(stack[i].validators, a, b);
    }
  }

  lemma {:induction false} TellAllAdvances(vs: seq<Validator>, e: Event, n: nat)
    requires ListRank(vs) < n
    ensures TellAll(vs, e, n) == AdvanceAll(vs, [e])
    decreases |vs|
  {
    hide Handle, RunEvents, Rank;
    if vs != [] {
      RunOne(vs[0], e);
      TellAllAdvances(vs[1..], e, n);
    }
  }

  lemma {:induction false} ParallelAdvances(stack: seq<Context>, e: Event, n: nat)
    requires StackRank(stack) <= n
    ensures Parallel(stack, e, n) == AdvanceStack(stack, [e])
    decreases |stack|
  {
    hide Handle, RunEvents, TellAll, Depth, AdvanceAll;
    if stack != [] {
      assert ContextRank(stack[0]) <= n;
      TellAllAdvances(stack[0].validators, e, n);
      ParallelAdvances(stack[1..], e, n);
    }
  }

  // ---------- one event ----------

  /** The schema the next value is checked against. */
  function NextSchema(vd: Validator): Option<Schema> {
    if vd.stack == [] then Some(vd.root)
    else
      var c := Top(vd.stack);
      if c.inArray then ElementSchema(c.schema, c.arrayElementIndex) else c.valueSchema
  }

  /** The open context after one more value has begun in it. */
  function Bumped(c: Context): Context {
    if c.inArray
    then c.(valueSchema := ElementSchema(c.schema, c.arrayElementIndex), arrayElementIndex := c.arrayElementIndex + 1)
    else c
  }

  function BumpedStack(stack: seq<Context>): (r: seq<Context>)
    ensures |r| == |stack|
  {
    if stack == [] then [] else Below(stack) + [Bumped(Top(stack))]
  }

  /** The context of a value that has just begun, sub-validators told of the event. */
  function Begun(s: Schema, e: Event): Context {
    Advance(Started(NewContext(s), e), [e])
  }

  predicate StartsValue(e: Event) {
    !(e.KeyEvent? || e.EndObjectEvent? || e.EndArrayEvent?)
  }

  lemma BeginValueNext(vd: Validator)
    ensures BeginValue(vd).0 <==> NextSchema(vd).Some?
    ensures NextSchema(vd).Some? ==> BeginValue(vd).1 == BumpedStack(vd.stack) + [NewContext(NextSchema(vd).value)]
  {
    if vd.stack != [] {
      assert Below(vd.stack) + [Top(vd.stack)] == vd.stack;
    }
  }

  lemma NoNextFails(vd: Validator, e: Event)
    requires vd.valid && StartsValue(e) && NextSchema(vd).None?
    ensures !Handle(vd, e).valid
  {
    BeginValueNext(vd);
    hide BeginValue, NextSchema, Parallel;
  }

  lemma AdvanceTop(stack: seq<Context>, c: Context, es: seq<Event>)
    ensures AdvanceStack(stack + [c], es) == AdvanceStack(stack, es) + [Advance(c, es)]
    ensures Below(AdvanceStack(stack + [c], es)) == AdvanceStack(stack, es)
    ensures Top(AdvanceStack(stack + [c], es)) == Advance(c, es)
  {
    hide Advance, AdvanceStack;
  }

  /** An event that begins a value, in one step: the stack so far moves on and the value's context is pushed. */
  lemma StartStep(vd: Validator, e: Event, s: Schema)
    requires vd.valid && StartsValue(e) && NextSchema(vd) == Some(s)
    ensures !StartAllowed(s, e) ==> !Handle(vd, e).valid
    ensures StartAllowed(s, e) ==>
              var told := vd.(stack := AdvanceStack(BumpedStack(vd.stack), [e]) + [Begun(s, e)]);
              Handle(vd, e) == if e.StartObjectEvent? || e.StartArrayEvent? then told else EndValue(told)
  {
    BeginValueNext(vd);
    BeginValueRank(vd);
    hide BeginValue, NextSchema, StartAllowed, StackRank, Rank, BumpedStack;
    var stack := BeginValue(vd).1;
    assert Below(stack) == BumpedStack(vd.stack) && Top(stack) == NewContext(s);
    StartStepAt(vd, e, s, stack);
  }

  lemma StartStepAt(vd: Validator, e: Event, s: Schema, stack: seq<Context>)
    requires vd.valid && StartsValue(e)
    requires BeginValue(vd) == (true, stack) && stack != []
    requires Below(stack) == BumpedStack(vd.stack) && Top(stack) == NewContext(s) && StackRank(stack) <= Rank(vd)
    ensures !StartAllowed(s, e) ==> !Handle(vd, e).valid
    ensures StartAllowed(s, e) ==>
              var told := vd.(stack := AdvanceStack(BumpedStack(vd.stack), [e]) + [Begun(s, e)]);
              Handle(vd, e) == if e.StartObjectEvent? || e.StartArrayEvent? then told else EndValue(told)
  {
    hide BeginValue, StartAllowed, StackRank, Rank, BumpedStack, Parallel, AdvanceStack, Advance;
    var c := Started(NewContext(s), e);
    assert c.schema == s;
    hide Started;
    var started := Below(stack) + [c];
    if StartAllowed(s, e) {
      StartedStackRank(stack, e);
      ParallelAdvances(started, e, Rank(vd));
      AdvanceTop(Below(stack), c, [e]);
      hide EndValue;
      assert HandleStart(vd, e) == Handle(vd, e);
    }
  }

  lemma HandleKeySteps(vd: Validator, name: bytes)
    requires vd.valid && vd.stack != []
    ensures var keyed := Below(vd.stack) + [Keyed(Top(vd.stack), name)];
            Handle(vd, KeyEvent(name))
            == if MemberSchema(Top(vd.stack).schema, name).None? then vd.(stack := keyed, valid := false)
               else vd.(stack := AdvanceStack(keyed, [KeyEvent(name)]))
  {
    hide AdvanceStack, Parallel, StackRank, Keyed, MemberSchema, Depth, Top, Below;
    KeyedStackRank(vd.stack, name);
    ParallelAdvances(Below(vd.stack) + [Keyed(Top(vd.stack), name)], KeyEvent(name), Rank(vd));
    assert HandleKey(vd, name) == Handle(vd, KeyEvent(name));
  }

  lemma KeyStep(vd: Validator, name: bytes)
    requires vd.valid && vd.stack != []
    ensures MemberSchema(Top(vd.stack).schema, name).None? ==> !Handle(vd, KeyEvent(name)).valid
    ensures MemberSchema(Top(vd.stack).schema, name).Some? ==>
              Handle(vd, KeyEvent(name))
              == vd.(stack := AdvanceStack(Below(vd.stack), [KeyEvent(name)])
                 + [Advance(Keyed(Top(vd.stack), name), [KeyEvent(name)])])
  {
    hide Handle, Keyed, MemberSchema, AdvanceStack, Advance;
    HandleKeySteps(vd, name);
    if MemberSchema(Top(vd.stack).schema, name).Some? {
      AdvanceTop(Below(vd.stack), Keyed(Top(vd.stack), name), [KeyEvent(name)]);
    }
  }

  lemma HandleEndSteps(vd: Validator, e: Event)
    requires vd.valid && vd.stack != [] && (e.EndObjectEvent? || e.EndArrayEvent?)
    ensures var told := AdvanceStack(vd.stack, [e]);
            var c := Top(told);
            var closed := vd.(stack := Below(told) + [if e.EndArrayEvent? then c.(inArray := false) else c]);
            var ends := if e.EndObjectEvent? then ObjectEnds(c, e.memberCount) else ArrayEnds(c, e.elementCount);
            Handle(vd, e) == if ends then EndValue(closed) else closed.(valid := false)
  {
    hide Parallel, StackRank, AdvanceStack, EndValue, ObjectEnds, ArrayEnds, Depth, Top, Below;
    ParallelAdvances(vd.stack, e, Rank(vd));
    assert HandleEnd(vd, e) == Handle(vd, e);
  }

  lemma EndStep(vd: Validator, e: Event)
    requires vd.valid && vd.stack != [] && (e.EndObjectEvent? || e.EndArrayEvent?)
    ensures var c := Advance(Top(vd.stack), [e]);
            var allowed := if e.EndObjectEvent? then ObjectEnds(c, e.memberCount) else ArrayEnds(c, e.elementCount);
            if allowed && ValueEnds(c) then Handle(vd, e) == vd.(stack := AdvanceStack(Below(vd.stack), [e]))
            else !Handle(vd, e).valid
  {
    hide Handle, AdvanceStack, Advance, ObjectEnds, ArrayEnds;
    HandleEndSteps(vd, e);
    AdvanceTop(Below(vd.stack), Top(vd.stack), [e]);
    assert Below(vd.stack) + [Top(vd.stack)] == vd.stack;
    ClosedTop(AdvanceStack(vd.stack, [e]), e);
  }

  /** Closing an array marks its context, which leaves what its sub-validators say. */
  lemma ClosedTop(told: seq<Context>, e: Event)
    requires told != []
    ensures var c := if e.EndArrayEvent? then Top(told).(inArray := false) else Top(told);
            var closed := Below(told) + [c];
            Top(closed) == c && Below(closed) == Below(told) && ValueEnds(c) == ValueEnds(Top(told))
  {
  }

  // ---------- verdicts ----------

  /**
   A validator has consumed a whole value: the open contexts moved on, and nothing else about them
   changed but the cursor.
   */
  predicate Consumed(vd: Validator, r: Validator, es: seq<Event>) {
    && r.valid && r.root == vd.root && |r.stack| == |vd.stack|
    && (vd.stack != [] ==>
          && Below(r.stack) == AdvanceStack(Below(vd.stack), es)
          && SameOpen(Advance(Top(vd.stack), es), Top(r.stack))
          && Top(r.stack).arrayElementIndex
             == Top(vd.stack).arrayElementIndex + (if Top(vd.stack).inArray then 1 else 0))
  }

  predicate SameOpen(c: Context, d: Context) {
    d.schema == c.schema && d.validators == c.validators && d.inArray == c.inArray && d.propertyExist == c.propertyExist
  }

  /** The sub-validators of a value's context know their verdicts on it. */
  predicate Judged(c: Context, s: Schema, v: Value) {
    && c.schema == s
    && |c.validators| == |Combined(s)|
    && forall i :: 0 <= i < |Combined(s)| ==> c.validators[i].valid == Satisfies(Combined(s)[i], v)
  }

  lemma {:induction false} CountValidAll(vs: seq<Validator>)
    ensures CountValid(vs) == |vs| <==> forall i :: 0 <= i < |vs| ==> vs[i].valid
    ensures CountValid(vs) > 0 <==> exists i :: 0 <= i < |vs| && vs[i].valid
  {
    if vs != [] {
      CountValidAll(vs[1..]);
      assert forall i :: 0 < i < |vs| ==> vs[i] == vs[1..][i - 1];
      if CountValid(vs[1..]) > 0 {
        var i :| 0 <= i < |vs[1..]| && vs[1..][i].valid;
        assert vs[i + 1].valid;
      }
      assert forall i :: 0 <= i < |vs[1..]| ==> vs[1..][i] == vs[i + 1];
    }
  }

  predicate OthersInvalid(vs: seq<Validator>, i: nat) {
    forall j :: 0 <= j < |vs| && j != i ==> !vs[j].valid
  }

  lemma {:induction false} CountValidOne(vs: seq<Validator>)
    ensures CountValid(vs) == 1 <==> exists i :: 0 <= i < |vs| && vs[i].valid && OthersInvalid(vs, i)
  {
    if vs != [] {
      CountValidOne(vs[1..]);
      CountValidAll(vs[1..]);
      assert forall j :: 0 <= j < |vs[1..]| ==> vs[1..][j] == vs[j + 1];
      assert forall i :: 0 < i < |vs| ==> vs[i] == vs[1..][i - 1];
      if CountValid(vs) == 1 {
        if vs[0].valid {
          assert OthersInvalid(vs, 0);
        } else {
          var k :| 0 <= k < |vs[1..]| && vs[1..][k].valid && OthersInvalid(vs[1..], k);
          assert vs[k + 1].valid && OthersInvalid(vs, k + 1);
        }
      }
      if i :| 0 <= i < |vs| && vs[i].valid && OthersInvalid(vs, i) {
        if i > 0 {
          assert !vs[0].valid;
          assert vs[1..][i - 1].valid && OthersInvalid(vs[1..], i - 1);
        }
      }
    }
  }

  lemma JudgedAt(c: Context, s: Schema, v: Value)
    requires Judged(c, s, v)
    ensures c.schema == s && |c.validators| == |Combined(s)|
    ensures forall i :: 0 <= i < |Combined(s)| ==> c.validators[i].valid == Satisfies(Combined(s)[i], v)
  {
  }

  /** Where the schemas of each keyword stand among the sub-validators. */
  lemma CombinedAt(s: Schema)
    ensures var a := |s.allOf|; var b := a + |s.anyOf|; var n := b + |s.oneOf|;
            && |Combined(s)| == n + (if s.negated.Some? then 1 else 0)
            && Combined(s)[..a] == s.allOf && Combined(s)[a..b] == s.anyOf && Combined(s)[b..n] == s.oneOf
            && (s.negated.Some? ==> Combined(s)[n] == s.negated.value)
  {
  }

  /** The verdicts of one keyword's range of sub-validators. */
  lemma RangeVerdicts(c: Context, s: Schema, v: Value, from: nat, to: nat)
    requires Judged(c, s, v) && from <= to <= |Combined(s)|
    ensures |c.validators[from..to]| == |Combined(s)[from..to]|
    ensures forall i :: 0 <= i < to - from ==> c.validators[from..to][i].valid == Satisfies(Combined(s)[from..to][i], v)
  {
    hide Satisfies, Combined;
  }

  /** What `EndValue` decides from the verdicts is what the four keywords mean. */
  lemma ValueEndsDecides(c: Context, s: Schema, v: Value)
    requires Judged(c, s, v)
    ensures ValueEnds(c) <==> CombinatorsHold(s, v)
  {
    hide CountValid, Satisfies, Combined, Judged, AllSatisfied, SomeSatisfied, OneSatisfied;
    var vs := c.validators;
    var a := |s.allOf|;
    var b := a + |s.anyOf|;
    var n := b + |s.oneOf|;
    JudgedAt(c, s, v);
    CombinedAt(s);
    RangeVerdicts(c, s, v, 0, a);
    RangeVerdicts(c, s, v, a, b);
    RangeVerdicts(c, s, v, b, n);
    assert vs[0..a] == vs[..a] && Combined(s)[0..a] == Combined(s)[..a];
    AllOfMeans(s.allOf, v, vs[..a]);
    AnyOfMeans(s.anyOf, v, vs[a..b]);
    OneOfMeans(s.oneOf, v, vs[b..n]);
    if |vs| == 0 {
      assert AllSatisfied(s.allOf, v) by {
        assert vs[..a] == [];
      }
    }
  }

  lemma AllOfMeans(ss: seq<Schema>, v: Value, vs: seq<Validator>)
    requires |vs| == |ss| && forall i :: 0 <= i < |vs| ==> vs[i].valid == Satisfies(ss[i], v)
    ensures CountValid(vs) == |vs| <==> AllSatisfied(ss, v)
  {
    hide Satisfies, CountValid;
    CountValidAll(vs);
    if forall i :: 0 <= i < |vs| ==> vs[i].valid {
      forall i | 0 <= i < |ss| ensures Satisfies(ss[i], v) {
        assert vs[i].valid;
      }
    }
  }

  lemma AnyOfMeans(ss: seq<Schema>, v: Value, vs: seq<Validator>)
    requires |vs| == |ss| && forall i :: 0 <= i < |vs| ==> vs[i].valid == Satisfies(ss[i], v)
    ensures CountValid(vs) > 0 <==> SomeSatisfied(ss, v)
  {
    hide Satisfies, CountValid;
    CountValidAll(vs);
    if i :| 0 <= i < |ss| && Satisfies(ss[i], v) {
      assert vs[i].valid;
    }
  }

  lemma OneOfMeans(ss: seq<Schema>, v: Value, vs: seq<Validator>)
    requires |vs| == |ss| && forall i :: 0 <= i < |vs| ==> vs[i].valid == Satisfies(ss[i], v)
    ensures CountValid(vs) == 1 <==> OneSatisfied(ss, v)
  {
    hide CountValid;
    CountValidOne(vs);
    if i :| 0 <= i < |ss| && Satisfies(ss[i], v) && OthersUnsatisfied(ss, v, i) {
      OthersMean(ss, v, vs, i);
      assert vs[i].valid;
    }
    hide OthersUnsatisfied, OthersInvalid, Satisfies;
    if i :| 0 <= i < |vs| && vs[i].valid && OthersInvalid(vs, i) {
      OthersMean(ss, v, vs, i);
      assert Satisfies(ss[i], v);
    }
  }

  lemma OthersMean(ss: seq<Schema>, v: Value, vs: seq<Validator>, i: nat)
    requires |vs| == |ss| && forall i :: 0 <= i < |vs| ==> vs[i].valid == Satisfies(ss[i], v)
    ensures OthersInvalid(vs, i) <==> OthersUnsatisfied(ss, v, i)
  {
    hide Satisfies;
    if OthersInvalid(vs, i) {
      forall j | 0 <= j < |ss| && j != i ensures !Satisfies(ss[j], v) {
        assert !vs[j].valid;
      }
    }
  }

  /** The kind a number is sent as does not matter to the validator. */
  lemma NumberCheckIsKindless(s: Schema, n: int, who: Sender)
    ensures StartAllowed(s, NumberSent(n, who)) <==> NumberAllowed(s, n)
  {
    if s.multipleOf.Some? {
      NegatedMultiple(n, s.multipleOf.value);
    }
  }

  lemma NegatedMultiple(n: int, m: pos)
    ensures Abs(n) % m == 0 <==> n % m == 0
  {
    if n < 0 {
      var q, r := n / m, n % m;
      assert n == q * m + r;
      if r == 0 {
        assert (-q) * m == -(q * m);
        QuotientIs(-n, m, -q, 0);
      } else {
        assert (-q - 1) * m == -(q * m) - m;
        QuotientIs(-n, m, -q - 1, m - r);
      }
    }
  }

  /** A value with no parts is checked in one event. */
  lemma StartAllowedDecides(s: Schema, v: Value, who: Sender)
    requires !v.Array? && !v.Object?
    ensures |Events(v, who)| == 1 && StartsValue(Events(v, who)[0])
    ensures StartAllowed(s, Events(v, who)[0]) <==> ShapeAllowed(s, v)
  {
    if v.Number? {
      NumberCheckIsKindless(s, v.n, who);
    }
    if v.String? {
      StringCheckDecides(s, v.str);
    }
  }

  lemma {:induction false} CountIsLength(str: bytes, p: nat, n: nat)
    ensures CountCodePoints(str, p, n)
            == if Utf8.ValidFrom(str, p) then Some(n + |Utf8.DecodeFrom(str, p)|) else None
    decreases |str| - p
  {
    hide Utf8.CharLength, Utf8.CharValue;
    if p < |str| && Utf8.CharLength(str, p) > 0 {
      CountIsLength(str, p + Utf8.CharLength(str, p), n + 1);
    }
  }

  lemma StringCheckDecides(s: Schema, str: bytes)
    ensures CheckString(s, str) <==> StringAllowed(s, str)
  {
    hide CountCodePoints, Utf8.ValidFrom, Utf8.DecodeFrom;
    CountIsLength(str, 0, 0);
  }

  /** The length of a string is the number of its code points: of the scalar values that it spells in UTF-8. */
  lemma LengthsCountCodePoints(s: Schema, cps: seq<int>)
    requires StringType in s.types && Utf8.AllScalar(cps)
    ensures StartAllowed(s, StringEvent(Utf8.EncodeAll(cps)))
            <==> s.minLength <= |cps| && (s.maxLength.Some? ==> |cps| <= s.maxLength.value)
    ensures ShapeAllowed(s, String(Utf8.EncodeAll(cps)))
            <==> s.minLength <= |cps| && (s.maxLength.Some? ==> |cps| <= s.maxLength.value)
  {
    hide Utf8.EncodeAll, Utf8.ValidFrom, Utf8.DecodeFrom, CheckString;
    var str := Utf8.EncodeAll(cps);
    assert str[0..] == str;
    Utf8.EncodeThenDecode(str, 0, cps);
    StringCheckDecides(s, str);
  }

  /** A string that is not valid UTF-8 has no length, and none of the limits refuses it. */
  lemma InvalidStringsHaveNoLength(s: Schema, str: bytes)
    requires StringType in s.types && !Utf8.Valid(str)
    ensures StartAllowed(s, StringEvent(str)) && ShapeAllowed(s, String(str))
  {
    StringCheckDecides(s, str);
  }
}
