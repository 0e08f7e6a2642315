/**
 How a schema gathers its properties from `properties` and `required`, and what that
 means for objects: a name that only `required` lists is a property without keywords,
 so it is never an additional one.
 */
module SchemaProperties {
  import opened Bytes
  import opened Json
  import opened Schema
  import opened SchemaHandlers
  import opened SchemaValidator

  /** One member of the `properties` keyword; a declaration that is no object has no schema of its own. */
  datatype Declared = Declared(name: bytes, schema: Option<Schema>)

  /** One entry of the document's schema map, under the pointer to the property of that name. */
  datatype SchemaEntry = SchemaEntry(name: bytes, schema: Schema)

  predicate Distinct(names: seq<bytes>) {
    forall i, j :: 0 <= i < j < |names| ==> names[i] != names[j]
  }

  predicate IsDeclared(declared: seq<Declared>, name: bytes) {
    exists k :: 0 <= k < |declared| && declared[k].name == name
  }

  /** The schema of the first declaration of that name that is an object. */
  function FirstObject(declared: seq<Declared>, name: bytes): Option<Schema> {
    if declared == [] then None
    else
      var n := |declared| - 1;
      var before := FirstObject(declared[..n], name);
      if before.Some? || declared[n].name != name then before else declared[n].schema
  }

  /**
   The schema of the property of that name. The last declaration decides whether it has one,
   but the schema is that of the first: a name declared again leads to the same pointer, and
   under a pointer a schema is made once. Nothing else is under these pointers, since
   references are not part of the model.
   */
  function DeclaredSchema(declared: seq<Declared>, name: bytes): Schema {
    if declared == [] then TYPELESS
    else
      var n := |declared| - 1;
      if declared[n].name != name then DeclaredSchema(declared[..n], name)
      else if declared[n].schema.None? then TYPELESS
      else
        match FirstObject(declared[..n], name)
        case Some(schema) => schema
        case None => declared[n].schema.value
  }

  function Added(names: seq<bytes>, name: bytes): seq<bytes> {
    if name in names then names else names + [name]
  }

  /** The names that `properties` declares, each where it occurs first. */
  function DeclaredNames(declared: seq<Declared>): seq<bytes> {
    if declared == [] then []
    else
      var n := |declared| - 1;
      Added(DeclaredNames(declared[..n]), declared[n].name)
  }

  /** Behind them the names that only `required` lists. */
  function AllNames(declared: seq<Declared>, required: seq<bytes>): seq<bytes> {
    if required == [] then DeclaredNames(declared)
    else
      var n := |required| - 1;
      Added(AllNames(declared, required[..n]), required[n])
  }

  /** Every name of either keyword is there, and once. */
  lemma {:induction false} AllNamesAre(declared: seq<Declared>, required: seq<bytes>)
    ensures Distinct(AllNames(declared, required))
    ensures forall name :: name in AllNames(declared, required) <==> IsDeclared(declared, name) || name in required
    decreases |declared| + |required|
  {
    if required != [] {
      var n := |required| - 1;
      assert required == required[..n] + [required[n]];
      AllNamesAre(declared, required[..n]);
    } else if declared != [] {
      var n := |declared| - 1;
      assert declared == declared[..n] + [declared[n]];
      AllNamesAre(declared[..n], []);
      forall name ensures name in AllNames(declared, []) <==> IsDeclared(declared, name) {
        DeclaredSnoc(declared[..n], declared[n], name);
      }
    }
  }

  method AddUniqueElement(names: seq<bytes>, name: bytes) returns (more: seq<bytes>)
    ensures more == Added(names, name)
  {
    var i := 0;
    while i < |names|
      invariant 0 <= i <= |names|
      invariant forall k :: 0 <= k < i ==> names[k] != name
    {
      if names[i] == name {
        return names;
      }
      i := i + 1;
    }
    more := names + [name];
  }

  method GatherNames(declared: seq<Declared>, required: seq<bytes>) returns (names: seq<bytes>)
    ensures names == AllNames(declared, required)
  {
    names := [];
    var i := 0;
    while i < |declared|
      invariant 0 <= i <= |declared| && names == DeclaredNames(declared[..i])
    {
      assert declared[..i + 1][..i] == declared[..i];
      names := AddUniqueElement(names, declared[i].name);
      i := i + 1;
    }
    assert declared[..i] == declared;
    i := 0;
    while i < |required|
      invariant 0 <= i <= |required| && names == AllNames(declared, required[..i])
    {
      assert required[..i + 1][..i] == required[..i];
      names := AddUniqueElement(names, required[i]);
      i := i + 1;
    }
    assert required[..i] == required;
  }

  lemma DeclaredSnoc(declared: seq<Declared>, d: Declared, name: bytes)
    ensures IsDeclared(declared + [d], name) <==> IsDeclared(declared, name) || name == d.name
    ensures FirstObject(declared + [d], name)
            == if FirstObject(declared, name).Some? || name != d.name then FirstObject(declared, name) else d.schema
    ensures DeclaredSchema(declared + [d], name)
            == if name != d.name then DeclaredSchema(declared, name)
               else if d.schema.None? then TYPELESS
               else if FirstObject(declared, name).Some? then FirstObject(declared, name).value else d.schema.value
  {
    var all := declared + [d];
    assert all[..|declared|] == declared;
    if k :| 0 <= k < |declared| && declared[k].name == name {
      assert all[k].name == name;
    }
    assert all[|declared|] == d;
  }

  /** No declaration of that name at the given positions is an object. */
  predicate NoObject(declared: seq<Declared>, name: bytes, from: nat, to: nat)
    requires from <= to <= |declared|
  {
    forall k :: from <= k < to ==> declared[k].name != name || declared[k].schema.None?
  }

  lemma {:induction false} FirstObjectIs(declared: seq<Declared>, name: bytes, i: nat)
    requires i <= |declared| && NoObject(declared, name, 0, i)
    requires i < |declared| ==> declared[i].name == name && declared[i].schema.Some?
    ensures FirstObject(declared, name) == if i < |declared| then declared[i].schema else None
    decreases |declared|
  {
    if declared != [] {
      var n := |declared| - 1;
      FirstObjectIs(declared[..n], name, if i < n then i else n);
    }
  }

  /** Of several declarations of a name, the last says whether there is a schema, and the first object which. */
  lemma {:induction false} FirstDeclarationWins(declared: seq<Declared>, name: bytes, i: nat, last: nat)
    requires i <= last < |declared| && declared[i].name == declared[last].name == name
    requires forall k :: last < k < |declared| ==> declared[k].name != name
    requires declared[i].schema.Some? && NoObject(declared, name, 0, i)
    ensures DeclaredSchema(declared, name) == if declared[last].schema.Some? then declared[i].schema.value else TYPELESS
    decreases |declared|
  {
    var n := |declared| - 1;
    if last < n {
      FirstDeclarationWins(declared[..n], name, i, last);
    } else if i < n {
      FirstObjectIs(declared[..n], name, i);
    } else {
      FirstObjectIs(declared[..n], name, n);
    }
  }

  // ---------- the schema map ----------

  /** The schema of the first entry of that name. */
  function Lookup(entries: seq<SchemaEntry>, name: bytes): Option<Schema> {
    if entries == [] then None
    else if entries[0].name == name then Some(entries[0].schema)
    else Lookup(entries[1..], name)
  }

  lemma {:induction false} LookupSnoc(entries: seq<SchemaEntry>, e: SchemaEntry, name: bytes)
    ensures Lookup(entries + [e], name)
            == if Lookup(entries, name).Some? then Lookup(entries, name)
               else if e.name == name then Some(e.schema) else None
  {
    if entries == [] {
      assert Lookup([], name) == None;
    } else {
      assert (entries + [e])[1..] == entries[1..] + [e];
      LookupSnoc(entries[1..], e, name);
    }
  }

  method GetSchema(entries: seq<SchemaEntry>, name: bytes) returns (schema: Option<Schema>)
    ensures schema == Lookup(entries, name)
  {
    var target := 0;
    while target < |entries|
      invariant 0 <= target <= |entries| && Lookup(entries, name) == Lookup(entries[target..], name)
    {
      assert entries[target..][1..] == entries[target + 1..];
      if entries[target].name == name {
        return Some(entries[target].schema);
      }
      target := target + 1;
    }
    schema := None;
  }

  /** The map holds the first object of every name. */
  ghost predicate Mapped(entries: seq<SchemaEntry>, declared: seq<Declared>) {
    forall name :: Lookup(entries, name) == FirstObject(declared, name)
  }

  lemma MappedSnoc(entries: seq<SchemaEntry>, declared: seq<Declared>, d: Declared)
    requires Mapped(entries, declared)
    ensures var isNew := d.schema.Some? && Lookup(entries, d.name).None?;
            Mapped(if isNew then entries + [SchemaEntry(d.name, d.schema.value)] else entries, declared + [d])
  {
    hide Lookup, FirstObject;
    forall name ensures FirstObject(declared + [d], name)
                        == if FirstObject(declared, name).Some? || name != d.name then FirstObject(declared, name)
                           else d.schema {
      DeclaredSnoc(declared, d, name);
    }
    if d.schema.Some? && Lookup(entries, d.name).None? {
      forall name
        ensures Lookup(entries + [SchemaEntry(d.name, d.schema.value)], name) == FirstObject(declared + [d], name) {
        LookupSnoc(entries, SchemaEntry(d.name, d.schema.value), name);
      }
    }
  }

  /**
   The schema under the pointer to the property: found in the map, or made and put there, or
   the one without keywords. The map then holds the first objects of one more declaration.
   */
  method CreateSchema(entries: seq<SchemaEntry>, d: Declared, ghost declared: seq<Declared>)
    returns (schema: Schema, more: seq<SchemaEntry>)
    requires Mapped(entries, declared)
    ensures schema == DeclaredSchema(declared + [d], d.name)
    ensures Mapped(more, declared + [d])
  {
    DeclaredSnoc(declared, d, d.name);
    MappedSnoc(entries, declared, d);
    more := entries;
    if d.schema.Some? {
      var sc := GetSchema(entries, d.name);
      if sc.Some? {
        schema := sc.value;
      } else {
        schema := d.schema.value;
        more := entries + [SchemaEntry(d.name, schema)];
      }
    } else {
      schema := TYPELESS;
    }
  }

  // ---------- gathering ----------

  /** Property by property: its schema is the declared one, and it is required if `required` lists it. */
  predicate Gathered(ps: seq<Property>, names: seq<bytes>, declared: seq<Declared>, required: seq<bytes>) {
    && |ps| == |names|
    && forall i :: 0 <= i < |ps| ==>
                     ps[i] == Property(names[i], DeclaredSchema(declared, names[i]), names[i] in required)
  }

  /** The properties of a schema made from these keywords. */
  predicate MadeFrom(ps: seq<Property>, declared: seq<Declared>, required: seq<bytes>) {
    Gathered(ps, AllNames(declared, required), declared, required)
  }

  lemma FoundAt(ps: seq<Property>, names: seq<bytes>, index: nat, name: bytes)
    requires |ps| == |names| && Distinct(names) && forall i :: 0 <= i < |ps| ==> ps[i].name == names[i]
    requires index < |ps|
    ensures FindProperty(ps, name) == Some(index) <==> names[index] == name
  {
    hide FindProperty;
    var found := FindProperty(ps, name);
    assert found.Some? ==> names[found.value] == name;
  }

  lemma NamesFound(ps: seq<Property>, names: seq<bytes>, name: bytes)
    requires |ps| == |names| && Distinct(names) && forall i :: 0 <= i < |ps| ==> ps[i].name == names[i]
    ensures forall j :: 0 <= j < |ps| ==> (FindProperty(ps, name) == Some(j) <==> names[j] == name)
  {
    hide FindProperty;
    forall j | 0 <= j < |ps| ensures FindProperty(ps, name) == Some(j) <==> names[j] == name {
      FoundAt(ps, names, j, name);
    }
  }

  lemma NothingDeclared(names: seq<bytes>, ps: seq<Property>, declared: seq<Declared>)
    requires |ps| == |names| && forall i :: 0 <= i < |ps| ==> ps[i] == Property(names[i], TYPELESS, false)
    ensures Mapped([], declared[..0]) && Gathered(ps, names, declared[..0], [])
  {
  }

  lemma DeclaredStep(ps: seq<Property>, names: seq<bytes>, declared: seq<Declared>, d: Declared, index: nat)
    requires Gathered(ps, names, declared, []) && Distinct(names)
    requires index < |names| && names[index] == d.name
    ensures Gathered(ps[index := ps[index].(schema := DeclaredSchema(declared + [d], d.name))],
                     names, declared + [d], [])
  {
    hide DeclaredSchema, FirstObject;
    forall i | 0 <= i < |names| && i != index
      ensures DeclaredSchema(declared + [d], names[i]) == DeclaredSchema(declared, names[i])
    {
      DeclaredSnoc(declared, d, names[i]);
    }
  }

  lemma EveryNameFound(ps: seq<Property>, names: seq<bytes>, declared: seq<Declared>, required: seq<bytes>, i: nat)
    requires names == AllNames(declared, required) && i < |declared|
    requires |ps| == |names|
    requires forall j :: 0 <= j < |ps| ==>
               (FindProperty(ps, declared[i].name) == Some(j) <==> names[j] == declared[i].name)
    ensures FindProperty(ps, declared[i].name).Some?
  {
    hide FindProperty, AllNames;
    AllNamesAre(declared, required);
    assert IsDeclared(declared, declared[i].name);
    assert declared[i].name in names;
  }

  method MakeProperties(declared: seq<Declared>, required: seq<bytes>) returns (ps: seq<Property>)
    ensures MadeFrom(ps, declared, required)
  {
    hide FindProperty, AllNames, DeclaredSchema, FirstObject, Lookup, Mapped;
    var names := GatherNames(declared, required);
    AllNamesAre(declared, required);
    ps := seq(|names|, i requires 0 <= i < |names| => Property(names[i], TYPELESS, false));
    var schemaMap: seq<SchemaEntry> := [];
    NothingDeclared(names, ps, declared);
    var i := 0;
    while i < |declared|
      invariant 0 <= i <= |declared| && Gathered(ps, names, declared[..i], []) && Mapped(schemaMap, declared[..i])
    {
      ghost var before := declared[..i];
      assert declared[..i + 1] == before + [declared[i]];
      var found, index := FindPropertyIndex(ps, declared[i].name);
      NamesFound(ps, names, declared[i].name);
      EveryNameFound(ps, names, declared, required, i);
      if found {
        var schema, more := CreateSchema(schemaMap, declared[i], before);
        DeclaredStep(ps, names, before, declared[i], index);
        ps := ps[index := ps[index].(schema := schema)];
        schemaMap := more;
      }
      i := i + 1;
    }
    assert declared[..i] == declared;
    i := 0;
    while i < |required|
      invariant 0 <= i <= |required| && Gathered(ps, names, declared, required[..i])
    {
      assert required[..i + 1] == required[..i] + [required[i]];
      var found, index := FindPropertyIndex(ps, required[i]);
      NamesFound(ps, names, required[i]);
      if found {
        ps := ps[index := ps[index].(required := true)];
      }
      i := i + 1;
    }
    assert required[..i] == required;
  }

  /** Which members an object may have, for a schema made from `properties` and `required`. */
  lemma NameAllowed(s: Schema, declared: seq<Declared>, required: seq<bytes>, name: bytes, v: Value)
    requires MadeFrom(s.properties, declared, required)
    ensures MemberAllowed(s, name, v) <==>
            if IsDeclared(declared, name) || name in required then Satisfies(DeclaredSchema(declared, name), v)
            else if s.additionalPropertiesSchema.Some? then Satisfies(s.additionalPropertiesSchema.value, v)
            else s.additionalProperties
  {
    hide FindProperty, AllNames, Satisfies;
    AllNamesAre(declared, required);
    var names := AllNames(declared, required);
    if name in names {
      var index :| 0 <= index < |names| && names[index] == name;
      FoundAt(s.properties, names, index, name);
    }
  }

  /** A name that only `required` lists escapes `additionalProperties`: any value is allowed for it. */
  lemma RequiredNameEscapes(s: Schema, declared: seq<Declared>, required: seq<bytes>, name: bytes, v: Value)
    requires MadeFrom(s.properties, declared, required)
    requires name in required && !IsDeclared(declared, name)
    ensures MemberAllowed(s, name, v)
  {
    hide Satisfies, MemberAllowed;
    NameAllowed(s, declared, required, name, v);
    UndeclaredSchema(declared, name);
    TypelessAcceptsAll(v);
  }

  lemma {:induction false} UndeclaredSchema(declared: seq<Declared>, name: bytes)
    requires !IsDeclared(declared, name)
    ensures DeclaredSchema(declared, name) == TYPELESS
  {
    if declared != [] {
      var n := |declared| - 1;
      assert declared[..n] + [declared[n]] == declared;
      DeclaredSnoc(declared[..n], declared[n], name);
      UndeclaredSchema(declared[..n], name);
    }
  }

  predicate HasMember(members: seq<Member>, name: bytes) {
    exists k :: 0 <= k < |members| && members[k].name == name
  }

  /**
   What `required` demands of an object: a listed name must occur, unless it is declared with a non-
   empty default string.
   */
  lemma RequiredMeans(s: Schema, declared: seq<Declared>, required: seq<bytes>, members: seq<Member>)
    requires MadeFrom(s.properties, declared, required)
    ensures RequiredPresent(s, members) <==>
            forall name <- required ::
              HasMember(members, name) || DeclaredSchema(declared, name).defaultValueLength != 0
  {
    hide FindProperty, AllNames;
    AllNamesAre(declared, required);
    var names := AllNames(declared, required);
    forall i | 0 <= i < |names| ensures Present(s, members, i) <==> HasMember(members, names[i]) {
      forall k | 0 <= k < |members|
        ensures FindProperty(s.properties, members[k].name) == Some(i) <==> members[k].name == names[i] {
        FoundAt(s.properties, names, i, members[k].name);
      }
      if k :| 0 <= k < |members| && FindProperty(s.properties, members[k].name) == Some(i) {
        assert members[k].name == names[i];
      }
      if k :| 0 <= k < |members| && members[k].name == names[i] {
        assert FindProperty(s.properties, members[k].name) == Some(i);
      }
    }
    hide Present, HasMember;
    if RequiredPresent(s, members) {
      forall name | name in required
        ensures HasMember(members, name) || DeclaredSchema(declared, name).defaultValueLength != 0 {
        assert name in names;
        var i :| 0 <= i < |names| && names[i] == name;
        assert s.properties[i] == Property(names[i], DeclaredSchema(declared, names[i]), names[i] in required);
      }
    }
  }

  /**
   A name declared twice: the second declaration's default string does not count, and the object
   without it is refused.
   */
  lemma SecondDefaultIgnored(s: Schema, name: bytes)
    requires MadeFrom(s.properties,
             [Declared(name, Some(TYPELESS)), Declared(name, Some(TYPELESS.(defaultValueLength := 1)))], [name])
    ensures !RequiredPresent(s, [])
  {
    hide RequiredPresent;
    var declared := [Declared(name, Some(TYPELESS)), Declared(name, Some(TYPELESS.(defaultValueLength := 1)))];
    FirstDeclarationWins(declared, name, 0, 1);
    RequiredMeans(s, declared, [name], []);
    assert !HasMember([], name) && name in [name];
  }
}
