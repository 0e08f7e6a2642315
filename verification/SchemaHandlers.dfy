/**
 The validator as the object the parser drives: each handler updates the stack of
 contexts and the `valid` flag in place. Every handler is proved equal to one step of
 `SchemaValidator.Handle`, the function the streaming theorem is about.
 */
module SchemaHandlers {
  import opened Bytes
  import opened Json
  import opened Schema
  import opened SchemaValidator
  import opened SchemaStreaming
  import Utf8

  /** A context that has created its sub-validators has one for each sub-schema. */
  predicate Complete(c: Context) {
    c.validators == [] || |c.validators| == |Combined(c.schema)|
  }

  predicate AllComplete(stack: seq<Context>) {
    forall i :: 0 <= i < |stack| ==> Complete(stack[i])
  }

  // ---------- the schema's part ----------

  /** `CountStringCodePoint`: decodes one code point after another. */
  method CountStringCodePoint(str: bytes) returns (ok: bool, outCount: nat)
    ensures CountCodePoints(str, 0, 0) == if ok then Some(outCount) else None
  {
    hide Utf8.CharLength, Utf8.CharValue;
    var source := new Utf8.Source(str, 0);
    outCount := 0;
    while source.pos < |str|
      invariant source.data == str && source.pos <= |str|
      invariant CountCodePoints(str, source.pos, outCount) == CountCodePoints(str, 0, 0)
      decreases |str| - source.pos
    {
      var codepoint: nat;
      ok, codepoint := source.Decode();
      if !ok {
        return;
      }
      outCount := outCount + 1;
    }
    ok := true;
  }

  /** The schema's `String`, up to the pattern. */
  method SchemaString(s: Schema, str: bytes) returns (allowed: bool)
    ensures allowed == CheckString(s, str)
  {
    hide CountCodePoints;
    if StringType !in s.types {
      return false;
    }
    if s.minLength != 0 || s.maxLength.Some? {
      var counted, count := CountStringCodePoint(str);
      if counted {
        if count < s.minLength {
          return false;
        }
        if s.maxLength.Some? && count > s.maxLength.value {
          return false;
        }
      }
    }
    allowed := true;
  }

  /** What the schema's handlers for events that start a value check of the value itself. */
  method SchemaStart(s: Schema, e: Event) returns (allowed: bool)
    requires StartsValue(e)
    ensures allowed == StartAllowed(s, e)
  {
    match e {
      case NullEvent => allowed := NullType in s.types;
      case BoolEvent(_) => allowed := BooleanType in s.types;
      case StringEvent(str) => allowed := SchemaString(s, str);
      case StartObjectEvent => allowed := ObjectType in s.types;
      case StartArrayEvent => allowed := ArrayType in s.types;
      case _ => allowed := SchemaNumber(s, e);
    }
  }

  /** `Int`, `Uint`, `Int64` and `Uint64`: the type, then the limits. */
  method SchemaNumber(s: Schema, e: Event) returns (allowed: bool)
    requires e.IntEvent? || e.UintEvent? || e.Int64Event? || e.Uint64Event?
    ensures allowed == StartAllowed(s, e)
  {
    match e {
      case IntEvent(i) => allowed := CheckInt(s, i);
      case UintEvent(u) => allowed := CheckUint(s, u);
      case Int64Event(i) => allowed := CheckInt(s, i);
      case Uint64Event(u) => allowed := CheckUint(s, u);
    }
  }

  method FindPropertyIndex(properties: seq<Property>, name: bytes) returns (found: bool, outIndex: nat)
    ensures FindProperty(properties, name) == if found then Some(outIndex) else None
  {
    outIndex := 0;
    while outIndex < |properties|
      invariant outIndex <= |properties|
      invariant forall k :: 0 <= k < outIndex ==> properties[k].name != name
    {
      if properties[outIndex].name == name {
        return true, outIndex;
      }
      outIndex := outIndex + 1;
    }
    found := false;
  }

  lemma {:induction false} CountValidAppend(a: seq<Validator>, b: seq<Validator>)
    ensures CountValid(a + b) == CountValid(a) + CountValid(b)
  {
    if a == [] {
      assert a + b == b;
    } else {
      assert (a + b)[1..] == a[1..] + b;
      CountValidAppend(a[1..], b);
    }
  }

  lemma CountValidNext(vs: seq<Validator>, from: nat, i: nat)
    requires from <= i < |vs|
    ensures CountValid(vs[from..i + 1]) == CountValid(vs[from..i]) + if vs[i].valid then 1 else 0
  {
    assert vs[from..i + 1] == vs[from..i] + [vs[i]];
    CountValidAppend(vs[from..i], [vs[i]]);
    assert [vs[i]][1..] == [];
  }

  lemma CountValidRest(vs: seq<Validator>, from: nat, i: nat, to: nat)
    requires from <= i <= to <= |vs|
    ensures CountValid(vs[from..to]) == CountValid(vs[from..i]) + CountValid(vs[i..to])
  {
    assert vs[from..to] == vs[from..i] + vs[i..to];
    CountValidAppend(vs[from..i], vs[i..to]);
  }

  /** The loops over the sub-validators of one keyword, each leaving at the first verdict that decides. */
  method AllValid(vs: seq<Validator>, begin: nat, count: nat) returns (ok: bool)
    requires begin + count <= |vs|
    ensures ok <==> CountValid(vs[begin..begin + count]) == count
  {
    var i := begin;
    while i < begin + count
      invariant begin <= i <= begin + count
      invariant CountValid(vs[begin..i]) == i - begin
    {
      CountValidNext(vs, begin, i);
      if !vs[i].valid {
        CountValidRest(vs, begin, i + 1, begin + count);
        return false;
      }
      i := i + 1;
    }
    ok := true;
  }

  method AnyValid(vs: seq<Validator>, begin: nat, count: nat) returns (ok: bool)
    requires begin + count <= |vs|
    ensures ok <==> CountValid(vs[begin..begin + count]) > 0
  {
    var i := begin;
    while i < begin + count
      invariant begin <= i <= begin + count
      invariant CountValid(vs[begin..i]) == 0
    {
      CountValidNext(vs, begin, i);
      if vs[i].valid {
        CountValidRest(vs, begin, i + 1, begin + count);
        return true;
      }
      i := i + 1;
    }
    ok := false;
  }

  method ExactlyOneValid(vs: seq<Validator>, begin: nat, count: nat) returns (ok: bool)
    requires begin + count <= |vs|
    ensures ok <==> CountValid(vs[begin..begin + count]) == 1
  {
    var oneValid := false;
    var i := begin;
    while i < begin + count
      invariant begin <= i <= begin + count
      invariant CountValid(vs[begin..i]) == if oneValid then 1 else 0
    {
      CountValidNext(vs, begin, i);
      if vs[i].valid {
        if oneValid {
          CountValidRest(vs, begin, i + 1, begin + count);
          return false;
        }
        oneValid := true;
      }
      i := i + 1;
    }
    ok := oneValid;
  }

  method CheckCombinators(c: Context) returns (ok: bool)
    requires Complete(c)
    ensures ok == ValueEnds(c)
  {
    hide CountValid;
    var s, vs := c.schema, c.validators;
    if |vs| == 0 {
      return true;
    }
    var a := |s.allOf|;
    var b := a + |s.anyOf|;
    var n := b + |s.oneOf|;
    assert vs[0..0 + a] == vs[..a] && vs[a..a + |s.anyOf|] == vs[a..b] && vs[b..b + |s.oneOf|] == vs[b..n];
    ok := AllValid(vs, 0, a);
    if !ok {
      return;
    }
    if s.anyOf != [] {
      ok := AnyValid(vs, a, |s.anyOf|);
      if !ok {
        return;
      }
    }
    if s.oneOf != [] {
      ok := ExactlyOneValid(vs, b, |s.oneOf|);
      if !ok {
        return;
      }
    }
    if s.negated.Some? && vs[n].valid {
      return false;
    }
    ok := true;
  }

  method CheckRequired(c: Context) returns (ok: bool)
    ensures ok <==> forall i :: 0 <= i < |c.schema.properties| ==> !Missing(c, i)
  {
    ok := true;
    var index: nat := 0;
    while index < |c.schema.properties|
      invariant index <= |c.schema.properties|
      invariant ok <==> forall i :: 0 <= i < index ==> !Missing(c, i)
    {
      var p := c.schema.properties[index];
      if p.required && !(index < |c.propertyExist| && c.propertyExist[index]) {
        if p.schema.defaultValueLength == 0 {
          ok := false;
          assert Missing(c, index);
        }
      }
      index := index + 1;
    }
  }

  /** The schema's `Key`: chooses the schema of the member's value and notes its presence. */
  method SchemaKey(context: Context, name: bytes) returns (allowed: bool, c: Context)
    ensures c == Keyed(context, name) && allowed == MemberSchema(context.schema, name).Some?
    ensures Complete(context) ==> Complete(c)
  {
    c := context;
    var s := c.schema;
    var found, index := FindPropertyIndex(s.properties, name);
    hide FindProperty;
    if found {
      c := c.(valueSchema := Some(s.properties[index].schema));
      if index < |c.propertyExist| {
        c := c.(propertyExist := c.propertyExist[index := true]);
      }
      return true, c;
    }
    if s.additionalPropertiesSchema.Some? {
      c := c.(valueSchema := s.additionalPropertiesSchema);
      return true, c;
    } else if s.additionalProperties {
      c := c.(valueSchema := Some(TYPELESS));
      return true, c;
    }
    c := c.(valueSchema := Some(TYPELESS));
    allowed := false;
  }

  method SchemaEndObject(c: Context, memberCount: nat) returns (ok: bool)
    ensures ok == ObjectEnds(c, memberCount)
  {
    hide Missing;
    if HasRequired(c.schema) {
      ok := CheckRequired(c);
      if !ok {
        return;
      }
    }
    if memberCount < c.schema.minProperties {
      return false;
    }
    if c.schema.maxProperties.Some? && memberCount > c.schema.maxProperties.value {
      return false;
    }
    ok := true;
  }

  // ---------- one step of the function, in the order the handlers take ----------

  lemma HandleStartSteps(vd: Validator, e: Event, stack: seq<Context>)
    requires vd.valid && StartsValue(e) && BeginValue(vd) == (true, stack) && stack != []
    ensures var started := Below(stack) + [Started(Top(stack), e)];
            if !StartAllowed(Top(stack).schema, e) then Handle(vd, e) == vd.(stack := started, valid := false)
            else
              var told := AdvanceStack(started, [e]);
              told != []
              && Handle(vd, e)
                 == if e.StartObjectEvent? || e.StartArrayEvent? then vd.(stack := told)
                    else EndValue(vd.(stack := told))
  {
    BeginValueRank(vd);
    hide BeginValue, SchemaValidator.Parallel, StackRank, Rank, AdvanceStack, EndValue, StartAllowed;
    var c := Started(Top(stack), e);
    assert c.schema == Top(stack).schema;
    hide Started;
    if StartAllowed(c.schema, e) {
      StartedStackRank(stack, e);
      ParallelAdvances(Below(stack) + [c], e, Rank(vd));
    }
    assert HandleStart(vd, e) == Handle(vd, e);
  }

  lemma HandleStartFails(vd: Validator, e: Event)
    requires vd.valid && StartsValue(e) && !BeginValue(vd).0
    ensures Handle(vd, e) == vd.(stack := BeginValue(vd).1, valid := false)
  {
    hide BeginValue, SchemaValidator.Parallel;
    assert HandleStart(vd, e) == Handle(vd, e);
  }

  // ---------- the validator ----------

  class GenericSchemaValidator {
    const root: Schema
    var stack: seq<Context>
    var valid: bool

    constructor (root: Schema)
      ensures State() == Fresh(root) && AllComplete(stack)
    {
      this.root := root;
      stack := [];
      valid := true;
    }

    function State(): Validator
      reads this
    {
      Validator(root, stack, valid)
    }

    /** Pushes a context for the value that begins. */
    method Begin() returns (ok: bool)
      requires valid && AllComplete(stack)
      modifies `stack
      ensures (ok, stack) == BeginValue(old(State())) && AllComplete(stack)
    {
      if stack == [] {
        stack := [NewContext(root)];
        return true;
      }
      var c := stack[|stack| - 1];
      var below := stack[..|stack| - 1];
      assert Complete(c);
      if c.inArray {
        var s := c.schema;
        if s.itemsList.Some? {
          c := c.(valueSchema := s.itemsList);
        } else if s.itemsTuple != [] {
          if c.arrayElementIndex < |s.itemsTuple| {
            c := c.(valueSchema := Some(s.itemsTuple[c.arrayElementIndex]));
          } else if s.additionalItemsSchema.Some? {
            c := c.(valueSchema := s.additionalItemsSchema);
          } else if s.additionalItems {
            c := c.(valueSchema := Some(TYPELESS));
          } else {
            c := c.(valueSchema := Some(TYPELESS), arrayElementIndex := c.arrayElementIndex + 1);
            stack := below + [c];
            return false;
          }
        } else {
          c := c.(valueSchema := Some(TYPELESS));
        }
        c := c.(arrayElementIndex := c.arrayElementIndex + 1);
        stack := below + [c];
      } else if c.valueSchema.None? {
        return false;
      }
      stack := stack + [NewContext(c.valueSchema.value)];
      ok := true;
    }

    /** Passes the event to every sub-validator of every open context. */
    method Parallel(e: Event)
      requires AllComplete(stack)
      modifies `stack
      ensures stack == AdvanceStack(old(stack), [e]) && AllComplete(stack)
    {
      hide RunEvents, Handle, AdvanceStack, AdvanceAll, Combined;
      ghost var before := stack;
      var i := 0;
      while i < |stack|
        invariant 0 <= i <= |stack| == |before|
        invariant forall k :: 0 <= k < i ==> stack[k] == Advance(before[k], [e])
        invariant forall k :: i <= k < |stack| ==> stack[k] == before[k]
      {
        var vs := TellEach(stack[i].validators, e);
        stack := stack[i := stack[i].(validators := vs)];
        i := i + 1;
      }
      assert stack == AdvanceStack(before, [e]);
    }

    static method TellEach(validators: seq<Validator>, e: Event) returns (vs: seq<Validator>)
      ensures vs == AdvanceAll(validators, [e])
    {
      hide Handle, RunEvents, AdvanceAll;
      vs := validators;
      var i := 0;
      while i < |vs|
        invariant 0 <= i <= |vs| == |validators|
        invariant forall k :: 0 <= k < i ==> vs[k] == RunEvents(validators[k], [e])
        invariant forall k :: i <= k < |vs| ==> vs[k] == validators[k]
      {
        RunOne(vs[i], e);
        vs := vs[i := Handle(vs[i], e)];
        i := i + 1;
      }
      assert vs == AdvanceAll(validators, [e]);
    }

    /** Checks the combinators and pops the context. */
    method End() returns (ok: bool)
      requires valid && stack != [] && AllComplete(stack)
      modifies this
      ensures State() == EndValue(old(State())) && ok == valid && AllComplete(stack)
    {
      assert Complete(stack[|stack| - 1]);
      ok := CheckCombinators(stack[|stack| - 1]);
      valid := ok;
      if ok {
        stack := stack[..|stack| - 1];
      }
    }

    /** `Null`, `Bool`, the number and string handlers, `StartObject` and `StartArray`. */
    method Start(e: Event) returns (ok: bool)
      requires StartsValue(e) && AllComplete(stack)
      modifies this
      ensures State() == Handle(old(State()), e) && ok == valid && AllComplete(stack)
    {
      hide Handle, BeginValue, AdvanceStack, StartAllowed, Combined, ValueEnds, Rank, StackRank, EndValue;
      if !valid {
        return false;
      }
      ghost var vd := State();
      var began := Begin();
      if !began {
        HandleStartFails(vd, e);
        valid := false;
        return false;
      }
      BeginValueRank(vd);
      HandleStartSteps(vd, e, stack);
      var c := stack[|stack| - 1];
      StartedComplete(c, e);
      stack := stack[..|stack| - 1] + [Started(c, e)];
      hide Started;
      var allowed := SchemaStart(c.schema, e);
      if !allowed {
        valid := false;
        return false;
      }
      Parallel(e);
      if !(e.StartObjectEvent? || e.StartArrayEvent?) {
        ok := End();
      }
      ok := valid;
    }

    method Key(name: bytes) returns (ok: bool)
      requires valid ==> stack != []
      requires AllComplete(stack)
      modifies this
      ensures State() == Handle(old(State()), KeyEvent(name)) && ok == valid && AllComplete(stack)
    {
      if !valid {
        return false;
      }
      hide Handle, AdvanceStack, Keyed, MemberSchema, Combined;
      ghost var vd := State();
      HandleKeySteps(vd, name);
      assert Complete(stack[|stack| - 1]);
      var allowed, c := SchemaKey(stack[|stack| - 1], name);
      stack := stack[..|stack| - 1] + [c];
      if !allowed {
        valid := false;
        return false;
      }
      Parallel(KeyEvent(name));
      ok := true;
    }

    method EndObject(memberCount: nat) returns (ok: bool)
      requires valid ==> stack != []
      requires AllComplete(stack)
      modifies this
      ensures State() == Handle(old(State()), EndObjectEvent(memberCount)) && ok == valid && AllComplete(stack)
    {
      hide Handle, AdvanceStack, ObjectEnds, ValueEnds, Combined;
      if !valid {
        return false;
      }
      ghost var vd := State();
      HandleEndSteps(vd, EndObjectEvent(memberCount));
      Parallel(EndObjectEvent(memberCount));
      assert stack == Below(stack) + [Top(stack)];
      ok := SchemaEndObject(stack[|stack| - 1], memberCount);
      if !ok {
        valid := false;
        return;
      }
      ok := End();
    }

    method EndArray(elementCount: nat) returns (ok: bool)
      requires valid ==> stack != []
      requires AllComplete(stack)
      modifies this
      ensures State() == Handle(old(State()), EndArrayEvent(elementCount)) && ok == valid && AllComplete(stack)
    {
      hide Handle, AdvanceStack, ValueEnds, Combined;
      if !valid {
        return false;
      }
      ghost var vd := State();
      HandleEndSteps(vd, EndArrayEvent(elementCount));
      Parallel(EndArrayEvent(elementCount));
      var c := stack[|stack| - 1];
      assert Complete(c);
      stack := stack[..|stack| - 1] + [c.(inArray := false)];
      if elementCount < c.schema.minItems || (c.schema.maxItems.Some? && elementCount > c.schema.maxItems.value) {
        valid := false;
        return false;
      }
      ok := End();
    }
  }

  lemma StartedComplete(c: Context, e: Event)
    requires Complete(c)
    ensures Complete(Started(c, e))
  {
  }
}
