/**
 JSON pointers as paths into a document: `Get`, `Create`, `Set` and `Erase`, and the laws
 that tie them together. A place in a document is the list of child positions that lead
 to it; the object that edits a document in place keeps such a place as its cursor.
 */
module PointerTree {
  import opened Bytes
  import opened Json

  /** A token's index is absent where the source has `kPointerInvalidIndex`. */
  datatype Token = Token(name: bytes, index: Option<nat>)

  type place = seq<nat>

  const DASH: bytes := [0x2D]

  /** Tokens that come from parsing: the name `-` is no number. */
  predicate WellFormed(tokens: seq<Token>) {
    forall i :: 0 <= i < |tokens| && tokens[i].name == DASH ==> tokens[i].index.None?
  }

  // ---------- places ----------

  /** The number of children. */
  function Arity(v: Value): nat {
    match v
    case Array(elems) => |elems|
    case Object(members) => |members|
    case _ => 0
  }

  function Child(v: Value, k: nat): Value
    requires k < Arity(v)
  {
    if v.Array? then v.elems[k] else v.members[k].value
  }

  function WithChild(v: Value, k: nat, c: Value): (w: Value)
    requires k < Arity(v)
    ensures Arity(w) == Arity(v) && Child(w, k) == c
    ensures w.Array? == v.Array? && w.Object? == v.Object?
  {
    if v.Array? then Array(v.elems[k := c]) else Object(v.members[k := Member(v.members[k].name, c)])
  }

  predicate IsPlace(v: Value, p: place) {
    p == [] || (p[0] < Arity(v) && IsPlace(Child(v, p[0]), p[1..]))
  }

  function NodeAt(v: Value, p: place): Value
    requires IsPlace(v, p)
  {
    if p == [] then v else NodeAt(Child(v, p[0]), p[1..])
  }

  function Replaced(v: Value, p: place, x: Value): Value
    requires IsPlace(v, p)
  {
    if p == [] then x else WithChild(v, p[0], Replaced(Child(v, p[0]), p[1..], x))
  }

  // ---------- resolving ----------

  /** The position of the first member of that name. */
  function Find(members: seq<Member>, name: bytes): (k: Option<nat>)
    ensures k.Some? ==> k.value < |members| && members[k.value].name == name
    ensures k.Some? ==> forall j :: 0 <= j < k.value ==> members[j].name != name
    ensures k.None? ==> forall j :: 0 <= j < |members| ==> members[j].name != name
  {
    if members == [] then None
    else if members[0].name == name then Some(0)
    else
      match Find(members[1..], name)
      case None => None
      case Some(k) =>
        assert members[1..][k] == members[k + 1];
        Some(k + 1)
  }

  /** The child a token selects. */
  function Step(v: Value, t: Token): (k: Option<nat>)
    ensures k.Some? ==> k.value < Arity(v)
  {
    match v
    case Object(members) => Find(members, t.name)
    case Array(elems) => if t.index.Some? && t.index.value < |elems| then t.index else None
    case _ => None
  }

  function Locate(v: Value, tokens: seq<Token>): (p: Option<place>)
    ensures p.Some? ==> IsPlace(v, p.value) && |p.value| == |tokens|
    decreases |tokens|
  {
    if tokens == [] then Some([])
    else
      var k := Step(v, tokens[0]);
      if k.None? then None
      else
        var rest := Locate(Child(v, k.value), tokens[1..]);
        if rest.None? then None else Some([k.value] + rest.value)
  }

  function Get(v: Value, tokens: seq<Token>): Option<Value> {
    var p := Locate(v, tokens);
    if p.Some? then Some(NodeAt(v, p.value)) else None
  }

  // ---------- creating ----------

  function Nulls(n: nat): (vs: seq<Value>)
    ensures |vs| == n && forall i :: 0 <= i < n ==> vs[i] == Null
  {
    seq(n, _ => Null)
  }

  /**
   The node changed to one the token can select in: an array or object stays, unless the token is no
   index and the node no object.
   */
  function Converted(v: Value, t: Token): (w: Value)
    ensures w.Array? || w.Object?
    ensures w.Array? ==> t.index.Some?
  {
    if t.index.None? then (if v.Object? then v else Object([]))
    else if v.Array? || v.Object? then v
    else Array([])
  }

  predicate Appends(v: Value, t: Token) {
    v.Array? && t.name == DASH
  }

  /** The node with a child for the token, and the position of that child. */
  function Grown(v: Value, t: Token): (r: (Value, nat))
    ensures r.1 < Arity(r.0)
  {
    if Appends(v, t) then (Array(v.elems + [Null]), |v.elems|)
    else
      var w := Converted(v, t);
      if w.Array? then
        (if t.index.value >= |w.elems| then Array(w.elems + Nulls(t.index.value + 1 - |w.elems|)) else w, t.index.value)
      else
        var k := Find(w.members, t.name);
        if k.Some? then (w, k.value) else (Object(w.members + [Member(t.name, Null)]), |w.members|)
  }

  /** Whether the child was there already. */
  predicate Exists(v: Value, t: Token) {
    && !Appends(v, t)
    && var w := Converted(v, t);
       if w.Array? then t.index.value < |w.elems| else Find(w.members, t.name).Some?
  }

  datatype Creation = Creation(root: Value, at: place, exist: bool)

  function Create(v: Value, tokens: seq<Token>): (r: Creation)
    ensures IsPlace(r.root, r.at)
    decreases |tokens|
  {
    if tokens == [] then Creation(v, [], true)
    else
      var (w, k) := Grown(v, tokens[0]);
      var r := Create(Child(w, k), tokens[1..]);
      Creation(WithChild(w, k, r.root), [k] + r.at, Exists(v, tokens[0]) && r.exist)
  }

  function Set(v: Value, tokens: seq<Token>, x: Value): Value {
    var r := Create(v, tokens);
    Replaced(r.root, r.at, x)
  }

  /**
   What one token makes of a node, by the kinds of both: a node that is neither array nor object becomes
   an array for an index and an object otherwise, an array stays one for an index and for `-`, and an
   object stays one. Whatever is new, padding included, is null, and what was there stays.
   */
  lemma CreateOne(v: Value, t: Token)
    ensures var (w, at) := (Create(v, [t]).root, Create(v, [t]).at);
            && |at| == 1
            && (if v.Object? then
                  && w.Object? && at[0] < |w.members| && w.members[at[0]].name == t.name
                  && (forall j :: 0 <= j < at[0] ==> w.members[j].name != t.name)
                  && v.members == w.members[..|v.members|] && at[0] <= |v.members|
                  && (if at[0] < |v.members| then |w.members| == |v.members|
                      else |w.members| == |v.members| + 1 && w.members[at[0]].value == Null)
                else if v.Array? && t.name == [0x2D] then
                  w == Array(v.elems + [Null]) && at[0] == |v.elems|
                else if t.index.None? then
                  w == Object([Member(t.name, Null)]) && at[0] == 0
                else
                  var elems := if v.Array? then v.elems else [];
                  && w.Array? && at[0] == t.index.value
                  && |w.elems| == (if at[0] < |elems| then |elems| else at[0] + 1)
                  && forall j :: 0 <= j < |w.elems| ==> w.elems[j] == if j < |elems| then elems[j] else Null)
  {
    hide WithChild, Find;
    assert [t][1..] == [];
    var (w, k) := Grown(v, t);
    assert Create(Child(w, k), []) == Creation(Child(w, k), [], true);
    WithSameChild(w, k);
    assert [k] + [] == [k];
  }

  // ---------- laws of Get and Create ----------

  lemma StepExists(v: Value, t: Token)
    requires t.name == DASH ==> t.index.None?
    ensures Exists(v, t) <==> Step(v, t).Some?
    ensures Exists(v, t) ==> Grown(v, t) == (v, Step(v, t).value)
  {
  }

  lemma WithSameChild(v: Value, k: nat)
    requires k < Arity(v)
    ensures WithChild(v, k, Child(v, k)) == v
  {
    if v.Object? {
      assert v.members[k := Member(v.members[k].name, v.members[k].value)] == v.members;
    }
  }

  /** Create finds the node everything resolves to exactly when Get does, and then changes nothing. */
  lemma {:induction false} CreateFindsWhatGetFinds(v: Value, tokens: seq<Token>)
    requires WellFormed(tokens)
    ensures Create(v, tokens).exist <==> Locate(v, tokens).Some?
    ensures Locate(v, tokens).Some? ==> Create(v, tokens) == Creation(v, Locate(v, tokens).value, true)
    decreases |tokens|
  {
    hide Exists, Step, Grown, WithChild;
    if tokens != [] {
      var t := tokens[0];
      StepExists(v, t);
      var (w, k) := Grown(v, t);
      CreateFindsWhatGetFinds(Child(w, k), tokens[1..]);
      if Exists(v, t) {
        WithSameChild(v, k);
      }
    }
  }

  /** A `-` token meets an array somewhere on the way. */
  predicate DashOnArray(v: Value, tokens: seq<Token>)
    decreases |tokens|
  {
    tokens != []
    && (Appends(v, tokens[0])
        || var (w, k) := Grown(v, tokens[0]); DashOnArray(Child(w, k), tokens[1..]))
  }

  lemma StepAfterGrowth(v: Value, t: Token, c: Value)
    requires t.name == DASH ==> t.index.None?
    ensures var (w, k) := Grown(v, t);
            Step(WithChild(w, k, c), t) == if Appends(v, t) then None else Some(k)
  {
    var (w, k) := Grown(v, t);
    if !Appends(v, t) && w.Object? {
      var u := WithChild(w, k, c);
      assert forall j :: 0 <= j < |u.members| ==> u.members[j].name == w.members[j].name;
      assert w.members[k].name == t.name;
      assert forall j :: 0 <= j < k ==> w.members[j].name != t.name;
      var f := Find(u.members, t.name);
      assert u.members[k].name == t.name;
    }
  }

  /** After Set, Get finds the value exactly when no `-` token meets an array. */
  lemma {:induction false} GetAfterSet(v: Value, tokens: seq<Token>, x: Value)
    requires WellFormed(tokens)
    ensures Locate(Set(v, tokens, x), tokens) == if DashOnArray(v, tokens) then None else Some(Create(v, tokens).at)
    ensures Get(Set(v, tokens, x), tokens) == Some(x) <==> !DashOnArray(v, tokens)
    decreases |tokens|
  {
    if tokens != [] {
      var t := tokens[0];
      var (w, k) := Grown(v, t);
      var r := Create(Child(w, k), tokens[1..]);
      GetAfterSet(Child(w, k), tokens[1..], x);
      var c := Replaced(r.root, r.at, x);
      SetUnfold(v, tokens, x);
      StepAfterGrowth(v, t, c);
      hide Grown, Appends, Step, WithChild;
      assert Set(v, tokens, x) == WithChild(w, k, c);
      if !DashOnArray(v, tokens) {
        AtUnfold(Set(v, tokens, x), tokens);
      }
    }
  }

  lemma SetUnfold(v: Value, tokens: seq<Token>, x: Value)
    requires tokens != []
    ensures var (w, k) := Grown(v, tokens[0]);
            Set(v, tokens, x) == WithChild(w, k, Set(Child(w, k), tokens[1..], x))
  {
    hide Grown;
    var (w, k) := Grown(v, tokens[0]);
    var r := Create(Child(w, k), tokens[1..]);
    assert ([k] + r.at)[1..] == r.at;
    WithChildTwice(w, k, r.root, Replaced(r.root, r.at, x));
  }

  lemma WithChildTwice(v: Value, k: nat, c: Value, d: Value)
    requires k < Arity(v)
    ensures WithChild(WithChild(v, k, c), k, d) == WithChild(v, k, d)
  {
    if v.Array? {
      assert v.elems[k := c][k := d] == v.elems[k := d];
    } else {
      var m := v.members[k].name;
      assert v.members[k := Member(m, c)][k := Member(m, d)] == v.members[k := Member(m, d)];
    }
  }

  lemma AtUnfold(v: Value, tokens: seq<Token>)
    requires tokens != [] && Locate(v, tokens).Some?
    ensures Step(v, tokens[0]).Some?
    ensures Get(v, tokens) == Get(Child(v, Step(v, tokens[0]).value), tokens[1..])
  {
    hide Step;
    var k := Step(v, tokens[0]).value;
    var rest := Locate(Child(v, k), tokens[1..]).value;
    assert ([k] + rest)[1..] == rest;
  }

  /** Setting what is there changes nothing. */
  lemma {:induction false} SetWhatIsThere(v: Value, tokens: seq<Token>)
    requires WellFormed(tokens) && Get(v, tokens).Some?
    ensures Set(v, tokens, Get(v, tokens).value) == v
  {
    CreateFindsWhatGetFinds(v, tokens);
    ReplaceSame(v, Locate(v, tokens).value);
  }

  lemma {:induction false} ReplaceSame(v: Value, p: place)
    requires IsPlace(v, p)
    ensures Replaced(v, p, NodeAt(v, p)) == v
    decreases |p|
  {
    hide WithChild;
    if p != [] {
      ReplaceSame(Child(v, p[0]), p[1..]);
      WithSameChild(v, p[0]);
    }
  }

  lemma {:induction false} ReplaceTwice(v: Value, p: place, x: Value, y: Value)
    requires IsPlace(v, p)
    ensures IsPlace(Replaced(v, p, x), p)
    ensures NodeAt(Replaced(v, p, x), p) == x
    ensures Replaced(Replaced(v, p, x), p, y) == Replaced(v, p, y)
    decreases |p|
  {
    hide WithChild;
    if p != [] {
      ReplaceTwice(Child(v, p[0]), p[1..], x, y);
      WithChildTwice(v, p[0], Replaced(Child(v, p[0]), p[1..], x), Replaced(Child(v, p[0]), p[1..], y));
    }
  }

  /** The later of two Sets wins, where no `-` token meets an array. */
  lemma SetTwice(v: Value, tokens: seq<Token>, x: Value, y: Value)
    requires WellFormed(tokens) && !DashOnArray(v, tokens)
    ensures Set(Set(v, tokens, x), tokens, y) == Set(v, tokens, y)
  {
    hide Create, Replaced, Locate;
    GetAfterSet(v, tokens, x);
    CreateFindsWhatGetFinds(Set(v, tokens, x), tokens);
    ReplaceTwice(Create(v, tokens).root, Create(v, tokens).at, x, y);
  }

  /** Creating a second time finds what the first time created, exactly when no `-` token meets an array. */
  lemma CreateTwice(v: Value, tokens: seq<Token>)
    requires WellFormed(tokens)
    ensures var r := Create(v, tokens);
            Create(r.root, tokens) == Creation(r.root, r.at, true) <==> !DashOnArray(v, tokens)
  {
    var r := Create(v, tokens);
    var x := NodeAt(r.root, r.at);
    ReplaceSame(r.root, r.at);
    GetAfterSet(v, tokens, x);
    CreateFindsWhatGetFinds(r.root, tokens);
  }

  // ---------- what Set leaves alone ----------

  /** The node takes the token without being changed to another type. */
  predicate Accepts(v: Value, t: Token) {
    Appends(v, t) || Converted(v, t) == v
  }

  /** The two paths part at some node that keeps its type, and the second leads on to a child of that node. */
  predicate Diverge(v: Value, p: seq<Token>, q: seq<Token>)
    decreases |p|
  {
    && p != [] && q != []
    && Accepts(v, p[0]) && Step(v, q[0]).Some?
    && var k := Grown(v, p[0]).1;
       k != Step(v, q[0]).value || (k < Arity(v) && Diverge(Child(v, k), p[1..], q[1..]))
  }

  lemma GrowthKeepsChildren(v: Value, t: Token, j: nat)
    requires Accepts(v, t) && j < Arity(v)
    ensures j < Arity(Grown(v, t).0) && Child(Grown(v, t).0, j) == Child(v, j)
  {
  }

  lemma StepBesideGrowth(v: Value, t: Token, c: Value, u: Token)
    requires Accepts(v, t) && Step(v, u).Some?
    ensures var (w, k) := Grown(v, t); Step(WithChild(w, k, c), u) == Step(v, u)
  {
    var (w, k) := Grown(v, t);
    var j := Step(v, u).value;
    if v.Object? {
      var after := WithChild(w, k, c).members;
      assert forall i :: 0 <= i < |v.members| ==> after[i].name == v.members[i].name;
      var f := Find(after, u.name);
      assert after[j].name == u.name;
      assert forall i :: 0 <= i < j ==> v.members[i].name != u.name;
    }
  }

  /** A value whose path parts from the path that is set keeps its value. */
  lemma {:induction false} SetElsewhere(v: Value, p: seq<Token>, q: seq<Token>, x: Value)
    requires Diverge(v, p, q)
    ensures Get(Set(v, p, x), q) == Get(v, q)
    decreases |p|
  {
    hide Accepts, Grown, Step, WithChild, Create;
    var (w, k) := Grown(v, p[0]);
    var j := Step(v, q[0]).value;
    SetUnfold(v, p, x);
    var c := Set(Child(w, k), p[1..], x);
    StepBesideGrowth(v, p[0], c, q[0]);
    GrowthKeepsChildren(v, p[0], j);
    GetStep(v, q);
    GetStep(WithChild(w, k, c), q);
    hide Set, Get, Locate;
    if k == j {
      SetElsewhere(Child(v, k), p[1..], q[1..], x);
    } else {
      OtherChild(w, k, c, j);
    }
  }

  lemma GetStep(v: Value, tokens: seq<Token>)
    requires tokens != [] && Step(v, tokens[0]).Some?
    ensures Get(v, tokens) == Get(Child(v, Step(v, tokens[0]).value), tokens[1..])
  {
    hide Step;
    if Locate(v, tokens).Some? {
      AtUnfold(v, tokens);
    }
  }

  lemma OtherChild(v: Value, k: nat, c: Value, j: nat)
    requires k < Arity(v) && j < Arity(v) && j != k
    ensures Child(WithChild(v, k, c), j) == Child(v, j)
  {
  }

  // ---------- erasing ----------

  /** The node without its child `k`; the children after it move down. */
  function Without(v: Value, k: nat): (w: Value)
    requires k < Arity(v)
    ensures Arity(w) == Arity(v) - 1
  {
    if v.Array? then Array(v.elems[..k] + v.elems[k + 1..]) else Object(v.members[..k] + v.members[k + 1..])
  }

  datatype Erasure = Erasure(root: Value, erased: bool)

  function Erase(v: Value, tokens: seq<Token>): Erasure
    decreases |tokens|
  {
    if tokens == [] then Erasure(v, false)
    else
      var k := Step(v, tokens[0]);
      if k.None? then Erasure(v, false)
      else if |tokens| == 1 then Erasure(Without(v, k.value), true)
      else
        var r := Erase(Child(v, k.value), tokens[1..]);
        Erasure(WithChild(v, k.value, r.root), r.erased)
  }

  /** Erase succeeds exactly on what Get finds below the root, and failing it changes nothing. */
  lemma {:induction false} EraseFindsWhatGetFinds(v: Value, tokens: seq<Token>)
    ensures Erase(v, tokens).erased <==> tokens != [] && Get(v, tokens).Some?
    ensures !Erase(v, tokens).erased ==> Erase(v, tokens).root == v
    decreases |tokens|
  {
    hide Step, WithChild, Without;
    if tokens != [] && Step(v, tokens[0]).Some? {
      var k := Step(v, tokens[0]).value;
      GetStep(v, tokens);
      if |tokens| > 1 {
        EraseFindsWhatGetFinds(Child(v, k), tokens[1..]);
        WithSameChild(v, k);
      }
    }
  }

  /** The node that holds what the pointer leads to. */
  function Parent(v: Value, tokens: seq<Token>): Option<Value>
    requires tokens != []
  {
    Get(v, tokens[..|tokens| - 1])
  }

  /** What the last token selects after its child is gone: the next member of that name, or the next element. */
  function Successor(parent: Value, t: Token): Option<Value>
    requires Step(parent, t).Some?
  {
    var k := Step(parent, t).value;
    if parent.Array? then (if k + 1 < |parent.elems| then Some(parent.elems[k + 1]) else None)
    else
      var next := Find(parent.members[k + 1..], t.name);
      if next.Some? then Some(parent.members[k + 1..][next.value].value) else None
  }

  lemma GetOne(v: Value, t: Token)
    ensures Get(v, [t]) == if Step(v, t).Some? then Some(Child(v, Step(v, t).value)) else None
  {
    hide Step;
    if Step(v, t).Some? {
      GetStep(v, [t]);
      assert [t][1..] == [];
    }
  }

  lemma GetAfterWithout(v: Value, t: Token)
    requires Step(v, t).Some?
    ensures Get(Without(v, Step(v, t).value), [t]) == Successor(v, t)
  {
    hide Get;
    var k := Step(v, t).value;
    GetOne(Without(v, k), t);
    if v.Object? {
      FindWithout(v.members, k, t.name);
    }
  }

  lemma {:induction false} FindConcat(a: seq<Member>, b: seq<Member>, name: bytes)
    ensures var f, g := Find(a, name), Find(b, name);
            Find(a + b, name) == if f.Some? then f else if g.Some? then Some(|a| + g.value) else None
  {
    if a == [] {
      assert a + b == b;
    } else {
      assert (a + b)[1..] == a[1..] + b;
      FindConcat(a[1..], b, name);
    }
  }

  lemma FindWithout(members: seq<Member>, k: nat, name: bytes)
    requires Find(members, name) == Some(k)
    ensures var next := Find(members[k + 1..], name);
            Find(members[..k] + members[k + 1..], name) == if next.Some? then Some(k + next.value) else None
  {
    hide Find;
    var before := Find(members[..k], name);
    assert forall j :: 0 <= j < k ==> members[..k][j] == members[j];
    FindConcat(members[..k], members[k + 1..], name);
  }

  /**
   Main result on Erase: afterwards the pointer leads to the next of that name or the next element, if
   there is one.
   */
  lemma {:induction false} GetAfterErase(v: Value, tokens: seq<Token>)
    requires tokens != [] && Get(v, tokens).Some?
    ensures Parent(v, tokens).Some? && Step(Parent(v, tokens).value, tokens[|tokens| - 1]).Some?
    ensures Get(Erase(v, tokens).root, tokens) == Successor(Parent(v, tokens).value, tokens[|tokens| - 1])
    decreases |tokens|
  {
    hide Step, WithChild, Without, Successor;
    var k := Step(v, tokens[0]).value;
    if |tokens| == 1 {
      assert tokens == [tokens[0]] && tokens[..0] == [];
      assert Get(v, []) == Some(v);
      GetAfterWithout(v, tokens[0]);
    } else {
      GetStep(v, tokens);
      GetAfterErase(Child(v, k), tokens[1..]);
      var init := tokens[..|tokens| - 1];
      assert init[0] == tokens[0] && init[1..] == tokens[1..][..|tokens| - 2];
      GetStep(v, init);
      var c := Erase(Child(v, k), tokens[1..]).root;
      SameStep(v, k, c, tokens[0]);
      GetStep(WithChild(v, k, c), tokens);
    }
  }

  lemma SameStep(v: Value, k: nat, c: Value, t: Token)
    requires Step(v, t) == Some(k)
    ensures Step(WithChild(v, k, c), t) == Some(k) && Child(WithChild(v, k, c), k) == c
  {
    if v.Object? {
      var after := WithChild(v, k, c).members;
      assert forall i :: 0 <= i < |v.members| ==> after[i].name == v.members[i].name;
      var f := Find(after, t.name);
      assert after[k].name == t.name;
      assert forall i :: 0 <= i < k ==> v.members[i].name != t.name;
    }
  }

  predicate DistinctNames(members: seq<Member>) {
    forall i, j :: 0 <= i < j < |members| ==> members[i].name != members[j].name
  }

  /** Erasing a member of an object with distinct names makes the pointer lead nowhere. */
  lemma EraseMember(v: Value, tokens: seq<Token>)
    requires tokens != [] && Get(v, tokens).Some?
    requires Parent(v, tokens).Some? && Parent(v, tokens).value.Object?
    requires DistinctNames(Parent(v, tokens).value.members)
    ensures Get(Erase(v, tokens).root, tokens) == None
  {
    hide Get, Erase;
    GetAfterErase(v, tokens);
    var parent, t := Parent(v, tokens).value, tokens[|tokens| - 1];
    var k := Step(parent, t).value;
    assert parent.members[k].name == t.name;
  }

  // ---------- what Erase leaves alone ----------

  /** The children before the one that is erased stay where they are, and those behind it move down by one. */
  lemma WithoutKeepsRest(v: Value, k: nat)
    requires k < Arity(v)
    ensures var w := Without(v, k);
            && w.Array? == v.Array? && w.Object? == v.Object? && Arity(w) == Arity(v) - 1
            && (forall j :: 0 <= j < k ==> Child(w, j) == Child(v, j))
            && (forall j :: k <= j < Arity(w) ==> Child(w, j) == Child(v, j + 1))
            && (v.Object? ==>
                  && (forall j :: 0 <= j < k ==> w.members[j].name == v.members[j].name)
                  && (forall j :: k <= j < Arity(w) ==> w.members[j].name == v.members[j + 1].name))
  {
  }

  /** The two paths part at some child: before the last token of the first, or there. */
  predicate Part(v: Value, p: seq<Token>, q: seq<Token>)
    decreases |p|
  {
    && p != [] && q != [] && Step(v, p[0]).Some?
    && (Step(v, q[0]) == Step(v, p[0]) ==> Part(Child(v, Step(v, p[0]).value), p[1..], q[1..]))
  }

  /**
   The path that leads where `q` led once what `p` leads to is erased: behind an erased element indexes
   drop by one.
   */
  function Renumbered(v: Value, p: seq<Token>, q: seq<Token>): seq<Token>
    requires Part(v, p, q)
    decreases |p|
  {
    var k := Step(v, p[0]).value;
    if Step(v, q[0]) == Some(k) then [q[0]] + Renumbered(Child(v, k), p[1..], q[1..])
    else if |p| == 1 && v.Array? && q[0].index.Some? && q[0].index.value > k then
      [q[0].(index := Some(q[0].index.value - 1))] + q[1..]
    else q
  }

  lemma ChildWithout(v: Value, k: nat, j: nat)
    requires k < Arity(v) && j < Arity(v) && j != k
    ensures var i := if j < k then j else j - 1;
            i < Arity(Without(v, k)) && Child(Without(v, k), i) == Child(v, j)
  {
    WithoutKeepsRest(v, k);
  }

  /** An element keeps its index before the one that is erased, and has the next lower one behind it. */
  lemma ElementWithout(v: Value, k: nat, t: Token)
    requires v.Array? && k < Arity(v) && Step(v, t) != Some(k)
    ensures var u := if t.index.Some? && t.index.value > k then t.(index := Some(t.index.value - 1)) else t;
            var j := Step(v, t);
            Step(Without(v, k), u) == if j.None? then None else Some(if j.value < k then j.value else j.value - 1)
  {
  }

  /** A member of another name is still found under its name. */
  lemma MemberWithout(v: Value, k: nat, t: Token)
    requires v.Object? && k < Arity(v) && v.members[k].name != t.name
    ensures var j := Step(v, t);
            Step(Without(v, k), t) == if j.None? then None else Some(if j.value < k then j.value else j.value - 1)
  {
    hide Find;
    WithoutKeepsRest(v, k);
    var w, j, i := Without(v, k), Step(v, t), Step(Without(v, k), t);
    if i.Some? {
      var was := if i.value < k then i.value else i.value + 1;
      assert v.members[was].name == t.name;
    }
    if j.Some? {
      var now := if j.value < k then j.value else j.value - 1;
      assert w.members[now].name == t.name;
    }
  }

  /** Erasing leaves alone whatever a path leads to that parts from the erased one. */
  lemma {:induction false} EraseElsewhere(v: Value, p: seq<Token>, q: seq<Token>)
    requires Part(v, p, q)
    ensures Get(Erase(v, p).root, Renumbered(v, p, q)) == Get(v, q)
    decreases |p|
  {
    hide Step, WithChild, Without;
    var k := Step(v, p[0]).value;
    if Step(v, q[0]) == Some(k) {
      var c := Erase(Child(v, k), p[1..]).root;
      var rest := Renumbered(Child(v, k), p[1..], q[1..]);
      EraseElsewhere(Child(v, k), p[1..], q[1..]);
      SameStep(v, k, c, q[0]);
      GetStep(v, q);
      assert ([q[0]] + rest)[1..] == rest;
      GetStep(WithChild(v, k, c), [q[0]] + rest);
    } else if |p| == 1 {
      EraseBeside(v, k, p[0], q);
    } else {
      var c := Erase(Child(v, k), p[1..]).root;
      OtherStep(v, k, c, q[0]);
      if Step(v, q[0]).Some? {
        GetStep(v, q);
        GetStep(WithChild(v, k, c), q);
      }
    }
  }

  /** The last token of the erased path: its siblings are still there. */
  lemma EraseBeside(v: Value, k: nat, t: Token, q: seq<Token>)
    requires q != [] && Step(v, t) == Some(k) && Step(v, q[0]) != Some(k)
    ensures Get(Without(v, k), Renumbered(v, [t], q)) == Get(v, q)
  {
    var u := Renumbered(v, [t], q);
    assert u[1..] == q[1..];
    if v.Array? {
      ElementWithout(v, k, q[0]);
    } else {
      MemberWithout(v, k, q[0]);
    }
    hide Step, Without;
    var j := Step(v, q[0]);
    if j.Some? {
      ChildWithout(v, k, j.value);
      GetStep(v, q);
      GetStep(Without(v, k), u);
    }
  }

  lemma OtherStep(v: Value, k: nat, c: Value, t: Token)
    requires k < Arity(v) && Step(v, t) != Some(k)
    ensures var w := WithChild(v, k, c);
            Step(w, t) == Step(v, t) && (Step(v, t).Some? ==> Child(w, Step(v, t).value) == Child(v, Step(v, t).value))
  {
    if v.Object? {
      hide Find;
      var members, after := v.members, WithChild(v, k, c).members;
      assert forall i :: 0 <= i < |members| ==> after[i].name == members[i].name;
      var f, g := Find(members, t.name), Find(after, t.name);
      assert f.Some? ==> after[f.value].name == t.name;
      assert g.Some? ==> members[g.value].name == t.name;
    }
  }

  // ---------- one token more ----------

  lemma LocateOne(v: Value, t: Token)
    ensures Locate(v, [t]) == if Step(v, t).Some? then Some([] + [Step(v, t).value]) else None
  {
    hide Step, Child;
    assert [t] != [] && [t][0] == t && [t][1..] == [];
    if Step(v, t).Some? {
      var k := Step(v, t).value;
      assert Locate(Child(v, k), []) == Some([]);
      assert [k] + [] == [] + [k];
    }
  }

  lemma {:induction false} LocateSnoc(v: Value, tokens: seq<Token>, t: Token)
    requires Locate(v, tokens).Some?
    ensures var at := Locate(v, tokens).value;
            var k := Step(NodeAt(v, at), t);
            Locate(v, tokens + [t]) == if k.Some? then Some(at + [k.value]) else None
    decreases |tokens|
  {
    hide Step, Child;
    if tokens == [] {
      assert [] + [t] == [t];
      LocateOne(v, t);
    } else {
      var k := Step(v, tokens[0]).value;
      assert (tokens + [t])[1..] == tokens[1..] + [t];
      LocateSnoc(Child(v, k), tokens[1..], t);
      var rest := Locate(Child(v, k), tokens[1..]).value;
      assert ([k] + rest)[1..] == rest;
      var j := Step(NodeAt(Child(v, k), rest), t);
      if j.Some? {
        assert [k] + (rest + [j.value]) == ([k] + rest) + [j.value];
      }
    }
  }

  lemma {:induction false} LocatePrefix(v: Value, tokens: seq<Token>, more: seq<Token>)
    requires Locate(v, tokens).None?
    ensures Locate(v, tokens + more).None?
    decreases |tokens|
  {
    hide Step;
    assert (tokens + more)[0] == tokens[0] && (tokens + more)[1..] == tokens[1..] + more;
    var k := Step(v, tokens[0]);
    if k.Some? {
      LocatePrefix(Child(v, k.value), tokens[1..], more);
    }
  }

  lemma LocateNothing(v: Value)
    ensures Locate(v, []) == Some([])
  {
  }

  lemma CreateNothing(v: Value)
    ensures Create(v, []) == Creation(v, [], true)
  {
  }

  /** One more token: the node reached so far grows. */
  lemma {:induction false} CreateSnoc(v: Value, tokens: seq<Token>, t: Token)
    ensures var r := Create(v, tokens);
            var node := NodeAt(r.root, r.at);
            var (w, k) := Grown(node, t);
            Create(v, tokens + [t]) == Creation(Replaced(r.root, r.at, w), r.at + [k], r.exist && Exists(node, t))
    decreases |tokens|
  {
    hide Grown, Exists, WithChild;
    if tokens == [] {
      assert [] + [t] == [t] && [t][1..] == [];
      var (w, k) := Grown(v, t);
      WithSameChild(w, k);
      assert Create(Child(w, k), []) == Creation(Child(w, k), [], true);
      assert [k] + [] == [] + [k];
    } else {
      var (w, k) := Grown(v, tokens[0]);
      assert (tokens + [t])[1..] == tokens[1..] + [t];
      CreateSnoc(Child(w, k), tokens[1..], t);
      var r := Create(Child(w, k), tokens[1..]);
      var node := NodeAt(r.root, r.at);
      var (u, j) := Grown(node, t);
      var all := Create(v, tokens);
      assert all.at[1..] == r.at;
      ChildOfWith(w, k, r.root);
      WithChildTwice(w, k, r.root, Replaced(r.root, r.at, u));
      assert [k] + (r.at + [j]) == ([k] + r.at) + [j];
    }
  }

  lemma ChildOfWith(v: Value, k: nat, c: Value)
    requires k < Arity(v)
    ensures Child(WithChild(v, k, c), k) == c
  {
  }

  /** Erasing goes to the parent and removes one child there. */
  lemma {:induction false} EraseAt(v: Value, tokens: seq<Token>)
    requires tokens != []
    ensures var n := |tokens| - 1;
            var at := Locate(v, tokens[..n]);
            Erase(v, tokens)
            == if at.None? || Step(NodeAt(v, at.value), tokens[n]).None? then Erasure(v, false)
               else
                 var rest := Without(NodeAt(v, at.value), Step(NodeAt(v, at.value), tokens[n]).value);
                 Erasure(Replaced(v, at.value, rest), true)
    decreases |tokens|
  {
    hide Step, WithChild, Without;
    var n := |tokens| - 1;
    if n == 0 {
      assert tokens[..0] == [];
      assert Locate(v, []) == Some([]);
    } else {
      var init := tokens[..n];
      assert init[0] == tokens[0] && init[1..] == tokens[1..][..n - 1];
      var k := Step(v, tokens[0]);
      if k.Some? {
        EraseAt(Child(v, k.value), tokens[1..]);
        var rest := Locate(Child(v, k.value), init[1..]);
        if rest.Some? {
          assert ([k.value] + rest.value)[1..] == rest.value;
        }
        EraseFindsWhatGetFinds(v, tokens);
      }
    }
  }
}
