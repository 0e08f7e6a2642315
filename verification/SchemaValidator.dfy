/**
 The streaming validator as a function of its state and one handler event, under the
 default flags: a stack of contexts, one per value that is still open, each with the
 sub-validators that `allOf`, `anyOf`, `oneOf` and `not` run beside it.
 */
module SchemaValidator {
  import opened Bytes
  import opened Json
  import opened Schema
  import Utf8

  datatype Context = Context(
    schema: Schema,
    validators: seq<Validator>,
    valueSchema: Option<Schema>,
    arrayElementIndex: nat,
    inArray: bool,
    propertyExist: seq<bool>)

  datatype Validator = Validator(root: Schema, stack: seq<Context>, valid: bool)

  function Fresh(root: Schema): Validator {
    Validator(root, [], true)
  }

  function NewContext(s: Schema): Context {
    Context(s, [], None, 0, false, [])
  }

  // ---------- the schema's part ----------

  /** The schemas with a sub-validator each, in the order of their indexes. */
  function Combined(s: Schema): seq<Schema> {
    s.allOf + s.anyOf + s.oneOf + (if s.negated.Some? then [s.negated.value] else [])
  }

  function FreshAll(roots: seq<Schema>): (vs: seq<Validator>)
    ensures |vs| == |roots| && forall i :: 0 <= i < |vs| ==> vs[i] == Fresh(roots[i])
  {
    if roots == [] then [] else [Fresh(roots[0])] + FreshAll(roots[1..])
  }

  predicate IsInt64(n: bound) {
    n <= 0x7FFF_FFFF_FFFF_FFFF
  }

  predicate IsUint64(n: bound) {
    0 <= n
  }

  function Abs(i: int): nat {
    if i >= 0 then i else -i
  }

  predicate CheckInt(s: Schema, i: int) {
    && (IntegerType in s.types || NumberType in s.types)
    && (s.minimum.Some? ==>
          if IsInt64(s.minimum.value)
          then !(if s.exclusiveMinimum then i <= s.minimum.value else i < s.minimum.value)
          else false)
    && (s.maximum.Some? && IsInt64(s.maximum.value) ==>
          !(if s.exclusiveMaximum then i >= s.maximum.value else i > s.maximum.value))
    && (s.multipleOf.Some? ==> Abs(i) % s.multipleOf.value == 0)
  }

  predicate CheckUint(s: Schema, u: int) {
    && (IntegerType in s.types || NumberType in s.types)
    && (s.minimum.Some? && IsUint64(s.minimum.value) ==>
          !(if s.exclusiveMinimum then u <= s.minimum.value else u < s.minimum.value))
    && (s.maximum.Some? ==>
          if IsUint64(s.maximum.value)
          then !(if s.exclusiveMaximum then u >= s.maximum.value else u > s.maximum.value)
          else false)
    && (s.multipleOf.Some? ==> u % s.multipleOf.value == 0)
  }

  /** The code points counted from position `p` on, `n` of them before it, or nothing where one cannot be decoded. */
  function CountCodePoints(str: bytes, p: nat, n: nat): Option<nat>
    decreases |str| - p
  {
    if p >= |str| then Some(n)
    else if Utf8.CharLength(str, p) == 0 then None
    else CountCodePoints(str, p + Utf8.CharLength(str, p), n + 1)
  }

  predicate CheckString(s: Schema, str: bytes) {
    && StringType in s.types
    && (s.minLength != 0 || s.maxLength.Some? ==>
          match CountCodePoints(str, 0, 0)
          case None => true
          case Some(count) => !(count < s.minLength) && !(s.maxLength.Some? && count > s.maxLength.value))
  }

  /** What the schema's handler for an event that starts a value checks before it creates sub-validators. */
  predicate StartAllowed(s: Schema, e: Event) {
    match e
    case NullEvent => NullType in s.types
    case BoolEvent(_) => BooleanType in s.types
    case IntEvent(i) => CheckInt(s, i)
    case Int64Event(i) => CheckInt(s, i)
    case UintEvent(u) => CheckUint(s, u)
    case Uint64Event(u) => CheckUint(s, u)
    case StringEvent(str) => CheckString(s, str)
    case StartObjectEvent => ObjectType in s.types
    case StartArrayEvent => ArrayType in s.types
    case _ => true
  }

  /** The schema for a member of that name, if the validator lets a member of that name begin. */
  function MemberSchema(s: Schema, name: bytes): Option<Schema> {
    var index := FindProperty(s.properties, name);
    if index.Some? then Some(s.properties[index.value].schema)
    else if s.additionalPropertiesSchema.Some? then s.additionalPropertiesSchema
    else if s.additionalProperties then Some(TYPELESS)
    else None
  }

  /** The schema for the element at that index, if the validator lets one begin there. */
  function ElementSchema(s: Schema, index: nat): Option<Schema> {
    if s.itemsList.Some? then s.itemsList
    else if s.itemsTuple != [] then
      if index < |s.itemsTuple| then Some(s.itemsTuple[index])
      else if s.additionalItemsSchema.Some? then s.additionalItemsSchema
      else if s.additionalItems then Some(TYPELESS)
      else None
    else Some(TYPELESS)
  }

  predicate HasRequired(s: Schema) {
    exists i :: 0 <= i < |s.properties| && s.properties[i].required
  }

  function Absent(n: nat): (flags: seq<bool>)
    ensures |flags| == n && forall i :: 0 <= i < n ==> !flags[i]
  {
    seq(n, _ => false)
  }

  /** The context after the schema's handler for an event that starts a value. */
  function Started(c: Context, e: Event): Context {
    var c1 := if e.StartArrayEvent? then c.(arrayElementIndex := 0, inArray := true) else c;
    if !StartAllowed(c.schema, e) then c1
    else
      var c2 :=
        if e.StartObjectEvent? && HasRequired(c.schema) then c1.(propertyExist := Absent(|c.schema.properties|))
        else c1;
      if Combined(c.schema) == [] then c2 else c2.(validators := FreshAll(Combined(c.schema)))
  }

  /** The context after the schema's `Key`: a member that is not allowed leaves the schema with no keyword. */
  function Keyed(c: Context, name: bytes): Context {
    var index := FindProperty(c.schema.properties, name);
    var found := MemberSchema(c.schema, name);
    var c1 := c.(valueSchema := if found.Some? then found else Some(TYPELESS));
    if index.Some? && index.value < |c.propertyExist| then
      c1.(propertyExist := c.propertyExist[index.value := true])
    else c1
  }

  predicate Missing(c: Context, i: nat)
    requires i < |c.schema.properties|
  {
    && c.schema.properties[i].required
    && !(i < |c.propertyExist| && c.propertyExist[i])
    && c.schema.properties[i].schema.defaultValueLength == 0
  }

  predicate ObjectEnds(c: Context, memberCount: nat) {
    && (HasRequired(c.schema) ==> forall i :: 0 <= i < |c.schema.properties| ==> !Missing(c, i))
    && Within(memberCount, c.schema.minProperties, c.schema.maxProperties)
  }

  predicate ArrayEnds(c: Context, elementCount: nat) {
    Within(elementCount, c.schema.minItems, c.schema.maxItems)
  }

  /** How many sub-validators are still valid. */
  function CountValid(vs: seq<Validator>): (n: nat)
    ensures n <= |vs|
  {
    if vs == [] then 0 else (if vs[0].valid then 1 else 0) + CountValid(vs[1..])
  }

  /** The schema's `EndValue`: the verdicts of the sub-validators, by keyword. */
  predicate ValueEnds(c: Context) {
    var s, vs := c.schema, c.validators;
    var a := |s.allOf|;
    var b := a + |s.anyOf|;
    var n := b + |s.oneOf|;
    |vs| == |Combined(s)| && |vs| > 0 ==>
      && CountValid(vs[..a]) == a
      && (s.anyOf != [] ==> CountValid(vs[a..b]) > 0)
      && (s.oneOf != [] ==> CountValid(vs[b..n]) == 1)
      && (s.negated.Some? ==> !vs[n].valid)
  }

  // ---------- the depth of schemas, for termination ----------

  function Max(a: nat, b: nat): nat {
    if a < b then b else a
  }

  function OptionDepth(o: Option<Schema>): nat
    decreases o, 0
  {
    if o.Some? then Depth(o.value) else 0
  }

  function ListDepth(ss: seq<Schema>): nat
    decreases ss, 1
  {
    if ss == [] then 0 else Max(Depth(ss[0]), ListDepth(ss[1..]))
  }

  function PropertiesDepth(ps: seq<Property>): nat
    decreases ps, 1
  {
    if ps == [] then 0 else Max(Depth(ps[0].schema), PropertiesDepth(ps[1..]))
  }

  function Depth(s: Schema): (d: nat)
    ensures d > 0
    decreases s, 0
  {
    1 + Max(Max(Max(ListDepth(s.allOf), ListDepth(s.anyOf)), Max(ListDepth(s.oneOf), OptionDepth(s.negated))),
            Max(Max(PropertiesDepth(s.properties), OptionDepth(s.additionalPropertiesSchema)),
                Max(Max(OptionDepth(s.itemsList), ListDepth(s.itemsTuple)), OptionDepth(s.additionalItemsSchema))))
  }

  lemma {:induction false} ListDepthBounds(ss: seq<Schema>, i: nat)
    requires i < |ss|
    ensures Depth(ss[i]) <= ListDepth(ss)
  {
    hide Depth;
    if i > 0 {
      ListDepthBounds(ss[1..], i - 1);
    }
  }

  lemma {:induction false} PropertiesDepthBounds(ps: seq<Property>, i: nat)
    requires i < |ps|
    ensures Depth(ps[i].schema) <= PropertiesDepth(ps)
  {
    hide Depth;
    if i > 0 {
      PropertiesDepthBounds(ps[1..], i - 1);
    }
  }

  lemma {:induction false} ListDepthConcat(a: seq<Schema>, b: seq<Schema>)
    ensures ListDepth(a + b) == Max(ListDepth(a), ListDepth(b))
  {
    hide Depth;
    if a == [] {
      assert a + b == b;
    } else {
      assert (a + b)[1..] == a[1..] + b;
      ListDepthConcat(a[1..], b);
    }
  }

  /** Sub-validators are for schemas strictly inside the one that creates them. */
  lemma CombinedDepth(s: Schema)
    ensures ListDepth(Combined(s)) < Depth(s)
  {
    var neg := if s.negated.Some? then [s.negated.value] else [];
    ListDepthConcat(s.allOf, s.anyOf);
    ListDepthConcat(s.allOf + s.anyOf, s.oneOf);
    ListDepthConcat(s.allOf + s.anyOf + s.oneOf, neg);
    assert ListDepth(neg) == OptionDepth(s.negated) by {
      if s.negated.Some? {
        assert neg[1..] == [];
      }
    }
  }

  lemma TypelessDepth()
    ensures Depth(TYPELESS) == 1
  {
  }

  lemma MemberSchemaDepth(s: Schema, name: bytes)
    ensures MemberSchema(s, name).Some? ==> Depth(MemberSchema(s, name).value) <= Depth(s)
  {
    TypelessDepth();
    hide FindProperty, ListDepth;
    var index := FindProperty(s.properties, name);
    if index.Some? {
      PropertiesDepthBounds(s.properties, index.value);
    }
  }

  lemma ElementSchemaDepth(s: Schema, index: nat)
    ensures ElementSchema(s, index).Some? ==> Depth(ElementSchema(s, index).value) <= Depth(s)
  {
    TypelessDepth();
    hide PropertiesDepth;
    if index < |s.itemsTuple| {
      ListDepthBounds(s.itemsTuple, index);
    }
  }

  /** A bound on the depth of every schema a validator can still use. */
  function Rank(vd: Validator): (r: nat)
    ensures r > 0
    decreases vd, 0
  {
    Max(Depth(vd.root), StackRank(vd.stack))
  }

  function StackRank(stack: seq<Context>): nat
    decreases stack, 1
  {
    if stack == [] then 0 else Max(ContextRank(stack[0]), StackRank(stack[1..]))
  }

  function ContextRank(c: Context): nat
    decreases c, 0
  {
    Max(1 + ListRank(c.validators), Max(Depth(c.schema), OptionDepth(c.valueSchema)))
  }

  function ListRank(vs: seq<Validator>): nat
    decreases vs, 1
  {
    if vs == [] then 0 else Max(Rank(vs[0]), ListRank(vs[1..]))
  }

  lemma {:induction false} StackRankConcat(a: seq<Context>, b: seq<Context>)
    ensures StackRank(a + b) == Max(StackRank(a), StackRank(b))
  {
    hide ContextRank;
    if a == [] {
      assert a + b == b;
    } else {
      assert (a + b)[1..] == a[1..] + b;
      StackRankConcat(a[1..], b);
    }
  }

  lemma StackRankTop(stack: seq<Context>)
    requires stack != []
    ensures StackRank(stack) == Max(StackRank(Below(stack)), ContextRank(Top(stack)))
  {
    hide ContextRank;
    StackRankConcat(Below(stack), [Top(stack)]);
    assert Below(stack) + [Top(stack)] == stack;
    assert StackRank([Top(stack)]) == ContextRank(Top(stack)) by {
      assert [Top(stack)][1..] == [];
    }
  }

  lemma {:induction false} FreshRank(roots: seq<Schema>)
    ensures ListRank(FreshAll(roots)) == ListDepth(roots)
  {
    hide Depth;
    if roots != [] {
      FreshRank(roots[1..]);
      assert Rank(Fresh(roots[0])) == Depth(roots[0]);
      assert FreshAll(roots)[1..] == FreshAll(roots[1..]);
    }
  }

  lemma StartedRank(c: Context, e: Event)
    requires c.validators == []
    ensures ContextRank(Started(c, e)) <= ContextRank(c)
  {
    hide Depth, StartAllowed, HasRequired, Absent, ContextRank, Rank, Combined, ListDepth, FreshAll;
    ContextRankParts(c);
    ContextRankParts(Started(c, e));
    CombinedDepth(c.schema);
    FreshRank(Combined(c.schema));
  }

  lemma KeyedRank(c: Context, name: bytes)
    ensures ContextRank(Keyed(c, name)) <= ContextRank(c)
  {
    TypelessDepth();
    MemberSchemaDepth(c.schema, name);
    hide Depth, FindProperty, MemberSchema;
  }

  // ---------- the validator's part ----------

  function Top(stack: seq<Context>): Context
    requires stack != []
  {
    stack[|stack| - 1]
  }

  function Below(stack: seq<Context>): seq<Context>
    requires stack != []
  {
    stack[..|stack| - 1]
  }

  /**
   The stack after the validator's `BeginValue`, and whether it succeeds. An event for
   a value where the open object has had no key is an assertion failure in the source;
   it counts as a failure here, and no stream of a value contains one.
   */
  function BeginValue(vd: Validator): (bool, seq<Context>) {
    if vd.stack == [] then (true, [NewContext(vd.root)])
    else
      var c := Top(vd.stack);
      if c.inArray then
        var s := ElementSchema(c.schema, c.arrayElementIndex);
        if s.Some? then
          (true, Below(vd.stack) + [c.(valueSchema := s, arrayElementIndex := c.arrayElementIndex + 1)]
            + [NewContext(s.value)])
        else
          (false, Below(vd.stack) + [c.(valueSchema := Some(TYPELESS), arrayElementIndex := c.arrayElementIndex + 1)])
      else if c.valueSchema.Some? then (true, vd.stack + [NewContext(c.valueSchema.value)])
      else (false, vd.stack)
  }

  lemma BeginValueRank(vd: Validator)
    ensures StackRank(BeginValue(vd).1) <= Rank(vd)
    ensures BeginValue(vd).0 ==> BeginValue(vd).1 != [] && Top(BeginValue(vd).1).validators == []
  {
    hide Depth, ElementSchema, StackRank, ContextRank;
    var r := BeginValue(vd);
    if vd.stack == [] {
      PushedRank([], vd.root);
      assert StackRank([]) == 0 by {
        EmptyRank();
      }
      assert [] + [NewContext(vd.root)] == r.1;
    } else {
      var c := Top(vd.stack);
      StackRankTop(vd.stack);
      assert Below(vd.stack) + [c] == vd.stack;
      if c.inArray {
        TypelessDepth();
        ElementSchemaDepth(c.schema, c.arrayElementIndex);
        var s := ElementSchema(c.schema, c.arrayElementIndex);
        var c1 := c.(
          valueSchema := if s.Some? then s else Some(TYPELESS),
          arrayElementIndex := c.arrayElementIndex + 1);
        ContextRankParts(c);
        ContextRankParts(c1);
        StackRankTop(Below(vd.stack) + [c1]);
        assert Below(Below(vd.stack) + [c1]) == Below(vd.stack);
        if s.Some? {
          PushedRank(Below(vd.stack) + [c1], s.value);
        }
      } else if c.valueSchema.Some? {
        ContextRankParts(c);
        PushedRank(vd.stack, c.valueSchema.value);
      }
    }
  }

  lemma EmptyRank()
    ensures StackRank([]) == 0
  {
  }

  lemma ContextRankParts(c: Context)
    ensures ContextRank(c) == Max(1 + ListRank(c.validators), Max(Depth(c.schema), OptionDepth(c.valueSchema)))
    ensures c.valueSchema.Some? ==> OptionDepth(c.valueSchema) == Depth(c.valueSchema.value)
  {
  }

  lemma PushedRank(stack: seq<Context>, s: Schema)
    ensures StackRank(stack + [NewContext(s)]) == Max(StackRank(stack), Depth(s))
  {
    hide StackRank, Depth;
    StackRankTop(stack + [NewContext(s)]);
    assert Below(stack + [NewContext(s)]) == stack;
    assert ListRank([]) == 0;
  }

  /** The validator after one event. Sub-validators of every open context see the event too. */
  function Handle(vd: Validator, e: Event): (r: Validator)
    ensures r.root == vd.root
    ensures !vd.valid ==> r == vd
    decreases Rank(vd), 3
  {
    if !vd.valid then vd
    else
      match e
      case KeyEvent(name) => HandleKey(vd, name)
      case EndObjectEvent(n) => HandleEnd(vd, e)
      case EndArrayEvent(n) => HandleEnd(vd, e)
      case _ => HandleStart(vd, e)
  }

  /**
   An event that starts a value: begin it, let the schema check it, tell the sub-validators, and end it
   if it is no array or object.
   */
  function HandleStart(vd: Validator, e: Event): (r: Validator)
    requires vd.valid
    ensures r.root == vd.root
    decreases Rank(vd), 2
  {
    var (began, stack) := BeginValue(vd);
    if !began then vd.(stack := stack, valid := false)
    else
      BeginValueRank(vd);
      var c := Started(Top(stack), e);
      var started := Below(stack) + [c];
      if !StartAllowed(c.schema, e) then vd.(stack := started, valid := false)
      else
        StartedStackRank(stack, e);
        var told := Parallel(started, e, Rank(vd));
        if e.StartObjectEvent? || e.StartArrayEvent? then vd.(stack := told) else EndValue(vd.(stack := told))
  }

  function HandleKey(vd: Validator, name: bytes): (r: Validator)
    requires vd.valid
    ensures r.root == vd.root
    decreases Rank(vd), 2
  {
    if vd.stack == [] then vd.(valid := false)
    else
      var c := Top(vd.stack);
      var keyed := Below(vd.stack) + [Keyed(c, name)];
      if MemberSchema(c.schema, name).None? then vd.(stack := keyed, valid := false)
      else
        KeyedStackRank(vd.stack, name);
        vd.(stack := Parallel(keyed, KeyEvent(name), Rank(vd)))
  }

  /** The end of an object or array: the sub-validators are told first. */
  function HandleEnd(vd: Validator, e: Event): (r: Validator)
    requires vd.valid && (e.EndObjectEvent? || e.EndArrayEvent?)
    ensures r.root == vd.root
    decreases Rank(vd), 2
  {
    if vd.stack == [] then vd.(valid := false)
    else
      var told := Parallel(vd.stack, e, Rank(vd));
      var c := Top(told);
      var closed := Below(told) + [if e.EndArrayEvent? then c.(inArray := false) else c];
      if (if e.EndObjectEvent? then ObjectEnds(c, e.memberCount) else ArrayEnds(c, e.elementCount))
      then EndValue(vd.(stack := closed))
      else vd.(stack := closed, valid := false)
  }

  function EndValue(vd: Validator): Validator
    requires vd.stack != []
  {
    if ValueEnds(Top(vd.stack)) then vd.(stack := Below(vd.stack)) else vd.(valid := false)
  }

  lemma StartedStackRank(stack: seq<Context>, e: Event)
    requires stack != [] && Top(stack).validators == []
    ensures StackRank(Below(stack) + [Started(Top(stack), e)]) <= StackRank(stack)
  {
    hide ContextRank, Started;
    var started := Below(stack) + [Started(Top(stack), e)];
    StackRankTop(stack);
    StackRankTop(started);
    StartedRank(Top(stack), e);
  }

  lemma KeyedStackRank(stack: seq<Context>, name: bytes)
    requires stack != []
    ensures StackRank(Below(stack) + [Keyed(Top(stack), name)]) <= StackRank(stack)
  {
    hide ContextRank, Keyed;
    var keyed := Below(stack) + [Keyed(Top(stack), name)];
    StackRankTop(stack);
    StackRankTop(keyed);
    KeyedRank(Top(stack), name);
  }

  /** Every open context passes the event to its sub-validators. */
  function Parallel(stack: seq<Context>, e: Event, ghost n: nat): (r: seq<Context>)
    requires StackRank(stack) <= n
    ensures |r| == |stack|
    decreases n, 1, |stack|
  {
    if stack == [] then []
    else
      assert ContextRank(stack[0]) <= StackRank(stack) && ListRank(stack[0].validators) < ContextRank(stack[0]);
      [stack[0].(validators := TellAll(stack[0].validators, e, n))] + Parallel(stack[1..], e, n)
  }

  function TellAll(vs: seq<Validator>, e: Event, ghost n: nat): (r: seq<Validator>)
    requires ListRank(vs) < n
    ensures |r| == |vs|
    decreases n, 0, |vs|
  {
    if vs == [] then [] else [Handle(vs[0], e)] + TellAll(vs[1..], e, n)
  }

  /** The validator after a run of events. */
  function RunEvents(vd: Validator, events: seq<Event>): (r: Validator)
    ensures r.root == vd.root
    decreases |events|
  {
    if events == [] then vd else RunEvents(Handle(vd, events[0]), events[1..])
  }
}
