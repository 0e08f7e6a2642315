/**
 The document as a handler: a stack of values that events push and fold into arrays
 and objects. A key is pushed as a string value, so an object with n members takes
 2n entries off the stack.
 */
module Document {
  import opened Bytes
  import opened Json

  /** Reads a run of stack entries as members: even positions hold names, odd ones values. */
  predicate ArePairs(entries: seq<Value>)
    decreases |entries|
  {
    entries == [] || (|entries| >= 2 && entries[|entries| - 2].String? && ArePairs(entries[..|entries| - 2]))
  }

  function Pairs(entries: seq<Value>): (members: seq<Member>)
    requires ArePairs(entries)
    ensures |entries| == 2 * |members|
    decreases |entries|
  {
    if entries == [] then []
    else
      var n := |entries| - 2;
      Pairs(entries[..n]) + [Member(entries[n].str, entries[n + 1])]
  }

  /** The stack after one event; `None` when the source would pop below the stack or read a name that is no string. */
  function Handle(stack: seq<Value>, e: Event): Option<seq<Value>> {
    match e
    case NullEvent => Some(stack + [Null])
    case BoolEvent(b) => Some(stack + [Bool(b)])
    case IntEvent(i) => Some(stack + [Number(i)])
    case UintEvent(u) => Some(stack + [Number(u)])
    case Int64Event(i) => Some(stack + [Number(i)])
    case Uint64Event(u) => Some(stack + [Number(u)])
    case StringEvent(str) => Some(stack + [String(str)])
    case KeyEvent(name) => Some(stack + [String(name)])
    case StartObjectEvent => Some(stack + [Object([])])
    case StartArrayEvent => Some(stack + [Array([])])
    case EndArrayEvent(n) =>
      if |stack| < n + 1 then None
      else Some(stack[..|stack| - n - 1] + [Array(stack[|stack| - n..])])
    case EndObjectEvent(n) =>
      if |stack| < 2 * n + 1 || !ArePairs(stack[|stack| - 2 * n..]) then None
      else Some(stack[..|stack| - 2 * n - 1] + [Object(Pairs(stack[|stack| - 2 * n..]))])
  }

  /** The stack after a log of events, starting from an empty stack. */
  function Build(events: seq<Event>): Option<seq<Value>> {
    if events == [] then Some([])
    else
      match Build(events[..|events| - 1])
      case None => None
      case Some(stack) => Handle(stack, events[|events| - 1])
  }

  lemma BuildAppend(events: seq<Event>, e: Event)
    requires Build(events).Some?
    ensures Build(events + [e]) == Handle(Build(events).value, e)
  {
    assert (events + [e])[..|events|] == events;
  }

  lemma {:induction false} PairsPrefix(entries: seq<Value>, n: nat)
    requires ArePairs(entries) && 2 * n <= |entries|
    ensures ArePairs(entries[..2 * n])
    decreases |entries|
  {
    var k := |Pairs(entries)|;
    if n == k {
      assert entries[..2 * n] == entries;
    } else {
      PairsPrefix(entries[..|entries| - 2], n);
      assert entries[..|entries| - 2][..2 * n] == entries[..2 * n];
    }
  }

  /** Copies a run of stack entries into a member array. */
  method CopyMembers(entries: seq<Value>) returns (members: seq<Member>)
    requires ArePairs(entries)
    ensures members == Pairs(entries)
  {
    members := [];
    var count := |entries| / 2;
    var i := 0;
    while i < count
      invariant 0 <= i <= count && ArePairs(entries[..2 * i])
      invariant members == Pairs(entries[..2 * i])
    {
      PairsPrefix(entries, i + 1);
      assert entries[..2 * (i + 1)][..2 * i] == entries[..2 * i];
      members := members + [Member(entries[2 * i].str, entries[2 * i + 1])];
      i := i + 1;
    }
    assert |entries| == 2 * |Pairs(entries)|;
    assert entries[..2 * count] == entries;
  }

  /** How members lie on the stack: a name and a value each. */
  function Flatten(members: seq<Member>): (entries: seq<Value>)
    ensures |entries| == 2 * |members|
  {
    if members == [] then []
    else
      var n := |members| - 1;
      Flatten(members[..n]) + [String(members[n].name), members[n].value]
  }

  lemma {:induction false} PairsOfFlatten(members: seq<Member>)
    ensures ArePairs(Flatten(members)) && Pairs(Flatten(members)) == members
    decreases |members|
  {
    if members != [] {
      var n := |members| - 1;
      PairsOfFlatten(members[..n]);
      var rest, all := Flatten(members[..n]), Flatten(members);
      assert all[..|all| - 2] == rest;
      assert all[|all| - 2] == String(members[n].name) && all[|all| - 1] == members[n].value;
      assert members[..n] + [members[n]] == members;
    }
  }

  lemma FlattenSnoc(members: seq<Member>, m: Member)
    ensures Flatten(members + [m]) == Flatten(members) + [String(m.name), m.value]
  {
    assert (members + [m])[..|members|] == members;
  }

  /** Ending an array folds the elements above its placeholder into it. */
  lemma PopElements(base: seq<Value>, elems: seq<Value>, ev: seq<Event>)
    requires Build(ev) == Some(base + [Array([])] + elems)
    ensures Build(ev + [EndArrayEvent(|elems|)]) == Some(base + [Array(elems)])
  {
    hide Build;
    BuildAppend(ev, EndArrayEvent(|elems|));
    var stack := base + [Array([])] + elems;
    assert stack[|stack| - |elems|..] == elems;
    assert stack[..|stack| - |elems| - 1] == base;
  }

  /** Ending an object folds the names and values above its placeholder into it. */
  lemma PopMembers(base: seq<Value>, members: seq<Member>, ev: seq<Event>)
    requires Build(ev) == Some(base + [Object([])] + Flatten(members))
    ensures Build(ev + [EndObjectEvent(|members|)]) == Some(base + [Object(members)])
  {
    hide Build, Flatten, ArePairs, Pairs;
    var n := |members|;
    BuildAppend(ev, EndObjectEvent(n));
    PairsOfFlatten(members);
    var stack := base + [Object([])] + Flatten(members);
    assert stack[|stack| - 2 * n..] == Flatten(members);
    assert stack[..|stack| - 2 * n - 1] == base;
  }

  class Document {
    var stack: seq<Value>
    var root: Value

    constructor ()
      ensures stack == [] && root == Null
    {
      stack, root := [], Null;
    }

    method PushValue(v: Value)
      modifies this`stack
      ensures stack == old(stack) + [v]
    {
      stack := stack + [v];
    }

    method EndArray(elementCount: nat)
      requires Handle(stack, EndArrayEvent(elementCount)).Some?
      modifies this`stack
      ensures stack == Handle(old(stack), EndArrayEvent(elementCount)).value
    {
      var base := |stack| - elementCount;
      var elements := stack[base..];
      stack := stack[..base];
      stack := stack[..|stack| - 1] + [Array(elements)];
      assert old(stack)[..base][..base - 1] == old(stack)[..base - 1];
    }

    method EndObject(memberCount: nat)
      requires Handle(stack, EndObjectEvent(memberCount)).Some?
      modifies this`stack
      ensures stack == Handle(old(stack), EndObjectEvent(memberCount)).value
    {
      var base := |stack| - 2 * memberCount;
      var entries := stack[base..];
      var members := CopyMembers(entries);
      stack := stack[..base];
      stack := stack[..|stack| - 1] + [Object(members)];
      assert old(stack)[..base][..base - 1] == old(stack)[..base - 1];
    }

    /** One handler call. */
    method On(e: Event)
      requires Handle(stack, e).Some?
      modifies this`stack
      ensures stack == Handle(old(stack), e).value
    {
      match e
      case NullEvent => PushValue(Null);
      case BoolEvent(b) => PushValue(Bool(b));
      case IntEvent(i) => PushValue(Number(i));
      case UintEvent(u) => PushValue(Number(u));
      case Int64Event(i) => PushValue(Number(i));
      case Uint64Event(u) => PushValue(Number(u));
      case StringEvent(str) => PushValue(String(str));
      case KeyEvent(name) => PushValue(String(name));
      case StartObjectEvent => PushValue(Object([]));
      case StartArrayEvent => PushValue(Array([]));
      case EndArrayEvent(n) => EndArray(n);
      case EndObjectEvent(n) => EndObject(n);
    }

    /** Takes over a completed parse: exactly one value is left on the stack and becomes the root. */
    method Populate(events: seq<Event>)
      requires stack == [] && Build(events).Some? && |Build(events).value| == 1
      modifies this
      ensures stack == [] && root == Build(events).value[0]
    {
      var i := 0;
      while i < |events|
        invariant 0 <= i <= |events|
        invariant Build(events[..i]) == Some(stack)
      {
        assert events[..i + 1][..i] == events[..i];
        BuildPrefix(events, i + 1);
        On(events[i]);
        i := i + 1;
      }
      assert events[..|events|] == events;
      root := stack[|stack| - 1];
      stack := stack[..|stack| - 1];
    }
  }

  lemma {:induction false} BuildPrefix(events: seq<Event>, i: nat)
    requires i <= |events| && Build(events).Some?
    ensures Build(events[..i]).Some?
    decreases |events| - i
  {
    if i == |events| {
      assert events[..i] == events;
    } else {
      BuildPrefix(events, i + 1);
      assert events[..i + 1][..i] == events[..i];
    }
  }
}
