/**
 JSON schemas as the validator holds them, and what it means for a value to satisfy
 one. The meaning is a recursion over the value and the schema: it knows nothing of
 events, stacks or parallel validators.

 A schema is a finite tree: references, `enum`, `uniqueItems`, patterns and
 dependencies are not part of this model.
 */
module Schema {
  import opened Bytes
  import opened Json
  import Utf8

  datatype JsonType = NullType | BooleanType | ObjectType | ArrayType | StringType | NumberType | IntegerType

  type pos = x: int | 0 < x witness 1

  /** A bound that is an integer of one of the two 64-bit kinds. */
  type bound = x: int | InRange(x)

  datatype Property = Property(name: bytes, schema: Schema, required: bool)

  /**
   An absent maximum is the initial `SizeType(~0)`, which no count exceeds; an empty list of schemas is
   an absent keyword.
   */
  datatype Schema = Schema(
    types: set<JsonType>,
    allOf: seq<Schema>,
    anyOf: seq<Schema>,
    oneOf: seq<Schema>,
    negated: Option<Schema>,
    properties: seq<Property>,
    additionalPropertiesSchema: Option<Schema>,
    additionalProperties: bool,
    minProperties: nat,
    maxProperties: Option<nat>,
    itemsList: Option<Schema>,
    itemsTuple: seq<Schema>,
    additionalItemsSchema: Option<Schema>,
    additionalItems: bool,
    minItems: nat,
    maxItems: Option<nat>,
    minLength: nat,
    maxLength: Option<nat>,
    minimum: Option<bound>,
    maximum: Option<bound>,
    exclusiveMinimum: bool,
    exclusiveMaximum: bool,
    multipleOf: Option<pos>,
    defaultValueLength: nat)

  const ALL_TYPES: set<JsonType> :=
    {NullType, BooleanType, ObjectType, ArrayType, StringType, NumberType, IntegerType}

  /** The schema with no keyword. */
  const TYPELESS: Schema :=
    Schema(ALL_TYPES, [], [], [], None,
           [], None, true, 0, None,
           None, [], None, true, 0, None,
           0, None,
           None, None, false, false, None, 0)

  predicate Within(count: nat, least: nat, most: Option<nat>) {
    least <= count && (most.Some? ==> count <= most.value)
  }

  /** The first property of that name. */
  function FindProperty(properties: seq<Property>, name: bytes): (index: Option<nat>)
    ensures index.Some? ==>
              index.value < |properties| && properties[index.value].name == name
              && forall k :: 0 <= k < index.value ==> properties[k].name != name
    ensures index.None? ==> forall k :: 0 <= k < |properties| ==> properties[k].name != name
  {
    if properties == [] then None
    else if properties[0].name == name then Some(0)
    else
      match FindProperty(properties[1..], name)
      case None => None
      case Some(i) =>
        assert properties[1..][i] == properties[i + 1];
        Some(i + 1)
  }

  /** Property `k` is the first of that name. */
  predicate IsFirst(properties: seq<Property>, k: nat, name: bytes)
    requires k < |properties|
  {
    properties[k].name == name && forall j :: 0 <= j < k ==> properties[j].name != name
  }

  predicate NoProperty(properties: seq<Property>, name: bytes) {
    forall k :: 0 <= k < |properties| ==> properties[k].name != name
  }

  predicate NumberAllowed(s: Schema, n: int) {
    && (IntegerType in s.types || NumberType in s.types)
    && (s.minimum.Some? ==> if s.exclusiveMinimum then s.minimum.value < n else s.minimum.value <= n)
    && (s.maximum.Some? ==> if s.exclusiveMaximum then n < s.maximum.value else n <= s.maximum.value)
    && (s.multipleOf.Some? ==> n % s.multipleOf.value == 0)
  }

  /** A string that is not valid UTF-8 has no length, and then its length is not checked. */
  predicate StringAllowed(s: Schema, str: bytes) {
    StringType in s.types && (Utf8.Valid(str) ==> Within(|Utf8.DecodeFrom(str, 0)|, s.minLength, s.maxLength))
  }

  /** Property `i` is the one that some member's name finds. */
  predicate Present(s: Schema, members: seq<Member>, i: nat) {
    exists k :: 0 <= k < |members| && FindProperty(s.properties, members[k].name) == Some(i)
  }

  /** Every required property is present, unless its schema has a non-empty default string. */
  predicate RequiredPresent(s: Schema, members: seq<Member>) {
    forall i ::
      0 <= i < |s.properties| && s.properties[i].required && s.properties[i].schema.defaultValueLength == 0 ==>
                  Present(s, members, i)
  }

  /** `items` for every element, or a schema for each place and `additionalItems` behind them. */
  predicate ElementAllowed(s: Schema, index: nat, v: Value)
    decreases v, s, 3
  {
    && (s.itemsList.Some? ==> Satisfies(s.itemsList.value, v))
    && (s.itemsList.None? && index < |s.itemsTuple| ==> Satisfies(s.itemsTuple[index], v))
    && (s.itemsList.None? && 0 < |s.itemsTuple| <= index ==>
          if s.additionalItemsSchema.Some? then Satisfies(s.additionalItemsSchema.value, v) else s.additionalItems)
  }

  /** `properties` for the names it has, `additionalProperties` for all others. */
  predicate MemberAllowed(s: Schema, name: bytes, v: Value)
    decreases v, s, 3
  {
    && (forall k :: 0 <= k < |s.properties| && IsFirst(s.properties, k, name) ==> Satisfies(s.properties[k].schema, v))
    && (NoProperty(s.properties, name) ==>
          if s.additionalPropertiesSchema.Some? then Satisfies(s.additionalPropertiesSchema.value, v)
          else s.additionalProperties)
  }

  predicate ArrayAllowed(s: Schema, elems: seq<Value>)
    decreases elems, s, 0
  {
    && ArrayType in s.types
    && Within(|elems|, s.minItems, s.maxItems)
    && forall i :: 0 <= i < |elems| ==> ElementAllowed(s, i, elems[i])
  }

  predicate ObjectAllowed(s: Schema, members: seq<Member>)
    decreases members, s, 0
  {
    && ObjectType in s.types
    && Within(|members|, s.minProperties, s.maxProperties)
    && RequiredPresent(s, members)
    && forall i :: 0 <= i < |members| ==> MemberAllowed(s, members[i].name, members[i].value)
  }

  /** Type, limits, elements and members. */
  predicate ShapeAllowed(s: Schema, v: Value)
    decreases v, s, 1
  {
    match v
    case Null => NullType in s.types
    case Bool(b) => BooleanType in s.types
    case Number(n) => NumberAllowed(s, n)
    case String(str) => StringAllowed(s, str)
    case Array(elems) => ArrayAllowed(s, elems)
    case Object(members) => ObjectAllowed(s, members)
  }

  predicate AllSatisfied(ss: seq<Schema>, v: Value)
    decreases v, ss, 0
  {
    forall i :: 0 <= i < |ss| ==> Satisfies(ss[i], v)
  }

  predicate SomeSatisfied(ss: seq<Schema>, v: Value)
    decreases v, ss, 0
  {
    exists i :: 0 <= i < |ss| && Satisfies(ss[i], v)
  }

  predicate OthersUnsatisfied(ss: seq<Schema>, v: Value, i: nat)
    decreases v, ss, 0
  {
    forall j :: 0 <= j < |ss| && j != i ==> !Satisfies(ss[j], v)
  }

  predicate OneSatisfied(ss: seq<Schema>, v: Value)
    decreases v, ss, 1
  {
    exists i :: 0 <= i < |ss| && Satisfies(ss[i], v) && OthersUnsatisfied(ss, v, i)
  }

  /** `allOf`, `anyOf`, `oneOf` (exactly one) and `not`. */
  predicate CombinatorsHold(s: Schema, v: Value)
    decreases v, s, 1
  {
    && AllSatisfied(s.allOf, v)
    && (s.anyOf != [] ==> SomeSatisfied(s.anyOf, v))
    && (s.oneOf != [] ==> OneSatisfied(s.oneOf, v))
    && (s.negated.Some? ==> !Satisfies(s.negated.value, v))
  }

  /** The value satisfies the schema. */
  predicate Satisfies(s: Schema, v: Value)
    decreases v, s, 2
  {
    ShapeAllowed(s, v) && CombinatorsHold(s, v)
  }

  /** The types of a value; an integer is a number as well. */
  predicate HasType(v: Value, t: JsonType) {
    match t
    case NullType => v == Null
    case BooleanType => v.Bool?
    case ObjectType => v.Object?
    case ArrayType => v.Array?
    case StringType => v.String?
    case NumberType => v.Number?
    case IntegerType => v.Number?
  }

  /** The keyword `type` asks for one of the types it lists. */
  lemma TypesMean(types: set<JsonType>, v: Value)
    ensures Satisfies(TYPELESS.(types := types), v) <==> exists t <- types :: HasType(v, t)
  {
    var s := TYPELESS.(types := types);
    assert CombinatorsHold(s, v) by {
      hide ShapeAllowed;
    }
    match v
    case Array(elems) =>
      TypelessElements(s, elems);
    case Object(members) =>
      TypelessMembers(s, members);
    case _ =>
  }

  lemma TypelessElements(s: Schema, elems: seq<Value>)
    requires s == TYPELESS.(types := s.types)
    ensures ArrayAllowed(s, elems) <==> ArrayType in s.types
  {
  }

  lemma TypelessMembers(s: Schema, members: seq<Member>)
    requires s == TYPELESS.(types := s.types)
    ensures ObjectAllowed(s, members) <==> ObjectType in s.types
  {
  }

  /** The schema with no keyword is satisfied by every value. */
  lemma TypelessAcceptsAll(v: Value)
    ensures Satisfies(TYPELESS, v)
  {
    hide Satisfies;
    TypesMean(ALL_TYPES, v);
    assert TYPELESS.(types := ALL_TYPES) == TYPELESS;
    assert exists t <- ALL_TYPES :: HasType(v, t) by {
      var t := match v
        case Null => NullType
        case Bool(_) => BooleanType
        case Number(_) => IntegerType
        case String(_) => StringType
        case Array(_) => ArrayType
        case Object(_) => ObjectType;
      assert t in ALL_TYPES && HasType(v, t);
    }
  }
}
