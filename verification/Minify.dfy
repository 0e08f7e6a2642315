/**
 The composition behind `lx_rapidjson_minify`, as a function from text to text:
 read, build the document, write it. Its laws are the point of the normaliser.
 */
module Minify {
  import opened Bytes
  import opened Json
  import opened RecursiveDescent
  import opened Writer
  import opened Document
  import opened RoundTrip
  import opened Accepted
  import Automaton
  import ParserEquivalence
  import Utf8

  /** The flags `Document::Parse` uses. */
  const DEFAULT_FLAGS := Flags(false, false)

  /** The document left by a run, if the run succeeded and left exactly one value. */
  function RunDom(r: Run): Option<Value> {
    match r
    case Bad(_, _, _) => None
    case Good(ev, _) =>
      match Build(ev)
      case None => None
      case Some(stack) => if |stack| == 1 then Some(stack[0]) else None
  }

  /** The document a text denotes. */
  function Dom(s: bytes): Option<Value> {
    RunDom(Parse(s, DEFAULT_FLAGS))
  }

  function Minified(s: bytes): Option<bytes> {
    match Dom(s)
    case None => None
    case Some(v) => Some(Text(v))
  }

  // ---------- from a value to its text and back ----------

  lemma {:induction false} BuildRead(ev: seq<Event>, base: seq<Value>, v: Value)
    requires Build(ev) == Some(base)
    ensures Build(ev + Read(v)) == Some(base + [v])
    decreases v, 0
  {
    hide Build;
    match v
    case Array(elems) => BuildReadArray(ev, base, elems);
    case Object(members) => BuildReadObject(ev, base, members);
    case _ => BuildAppend(ev, Read(v)[0]);
  }

  lemma {:induction false} BuildReadArray(ev: seq<Event>, base: seq<Value>, elems: seq<Value>)
    requires Build(ev) == Some(base)
    ensures Build(ev + Read(Array(elems))) == Some(base + [Array(elems)])
    decreases elems, 2
  {
    hide Build, Read, ReadElements;
    BuildAppend(ev, StartArrayEvent);
    assert base + [Array([])] + [] == base + [Array([])];
    BuildReadElements(ev + [StartArrayEvent], base + [Array([])], [], elems);
    assert [] + elems == elems;
    PopElements(base, elems, ev + [StartArrayEvent] + ReadElements(elems));
    ReadArray(elems);
    assert ev + Read(Array(elems)) == ev + [StartArrayEvent] + ReadElements(elems) + [EndArrayEvent(|elems|)];
  }

  lemma {:induction false} BuildReadObject(ev: seq<Event>, base: seq<Value>, members: seq<Member>)
    requires Build(ev) == Some(base)
    ensures Build(ev + Read(Object(members))) == Some(base + [Object(members)])
    decreases members, 2
  {
    hide Build, Read, ReadMembers, Flatten;
    BuildAppend(ev, StartObjectEvent);
    NoMembers(false);
    assert base + [Object([])] + [] == base + [Object([])];
    BuildReadMembers(ev + [StartObjectEvent], base + [Object([])], [], members);
    assert [] + members == members;
    PopMembers(base, members, ev + [StartObjectEvent] + ReadMembers(members));
    ReadObject(members);
    assert ev + Read(Object(members)) == ev + [StartObjectEvent] + ReadMembers(members) + [EndObjectEvent(|members|)];
  }

  lemma {:induction false} BuildReadElements(ev: seq<Event>, base: seq<Value>, done: seq<Value>, elems: seq<Value>)
    requires Build(ev) == Some(base + done)
    ensures Build(ev + ReadElements(elems)) == Some(base + (done + elems))
    decreases elems, 1
  {
    hide Build, Read;
    if elems == [] {
      assert ev + [] == ev && done + elems == done;
    } else {
      BuildRead(ev, base + done, elems[0]);
      assert base + done + [elems[0]] == base + (done + [elems[0]]);
      BuildReadElements(ev + Read(elems[0]), base, done + [elems[0]], elems[1..]);
      assert done + [elems[0]] + elems[1..] == done + elems;
      assert ev + Read(elems[0]) + ReadElements(elems[1..]) == ev + ReadElements(elems);
    }
  }

  lemma {:induction false} BuildReadMembers(ev: seq<Event>, base: seq<Value>, done: seq<Member>, members: seq<Member>)
    requires Build(ev) == Some(base + Flatten(done))
    ensures Build(ev + ReadMembers(members)) == Some(base + Flatten(done + members))
    decreases members, 1
  {
    hide Build, Read, Flatten;
    if members == [] {
      assert ev + [] == ev && done + members == done;
    } else {
      var m := members[0];
      BuildAppend(ev, KeyEvent(m.name));
      BuildRead(ev + [KeyEvent(m.name)], base + Flatten(done) + [String(m.name)], m.value);
      FlattenSnoc(done, m);
      assert base + Flatten(done) + [String(m.name)] + [m.value] == base + Flatten(done + [m]);
      BuildReadMembers(ev + [KeyEvent(m.name)] + Read(m.value), base, done + [m], members[1..]);
      assert done + [m] + members[1..] == done + members;
      ReadMembersUnfold(members, ev);
    }
  }

  /** Main result: reading back what the writer writes rebuilds the same ordered tree. */
  lemma TextDenotesValue(v: Value)
    requires Representable(v)
    ensures Dom(Text(v)) == Some(v)
  {
    hide Text, ParseValue, Read;
    var s := Text(v);
    assert s[0..|s|] == s;
    assert s + [] == s;
    TextStartsAt(s, 0, v, []);
    ValueReadBack(s, 0, v, [], DEFAULT_FLAGS);
    NoSpace(s, |s|);
    assert [] + Read(v) == Read(v);
    BuildRead([], [], v);
    assert [] + [v] == [v];
  }

  // ---------- every accepted text ----------

  /** An accepted text denotes a value, its numbers are in range, and its text is no longer and still UTF-8. */
  lemma AcceptedDenotes(s: bytes, fl: Flags)
    requires Parse(s, fl).Good?
    ensures RunDom(Parse(s, fl)).Some?
    ensures Fits(RunDom(Parse(s, fl)).value, |s|, Utf8.Valid(s))
    ensures Build(Parse(s, fl).events) == Some([RunDom(Parse(s, fl)).value])
  {
    hide ParseValue, Text;
    var p := SkipSpace(s, 0);
    SkipSpaceKeepsValid(s, 0);
    var v := ValueBuilds(s, p, [], fl, [], Utf8.Valid(s));
    assert [] + [v] == [v];
  }

  /** Main result: minifying preserves meaning, is idempotent, never grows a text and keeps it UTF-8. */
  lemma MinifyPreserves(s: bytes)
    requires Minified(s).Some?
    ensures var t := Minified(s).value;
            && Dom(t) == Dom(s)
            && Minified(t) == Some(t)
            && |t| <= |s|
            && (Utf8.Valid(s) ==> Utf8.Valid(t))
  {
    hide Text, Parse;
    AcceptedDenotes(s, DEFAULT_FLAGS);
    TextDenotesValue(Dom(s).value);
  }

  /** A text is rejected exactly when the reader reports an error. */
  lemma RejectedIsError(s: bytes)
    ensures Minified(s).None? <==> Parse(s, DEFAULT_FLAGS).Bad?
  {
    hide Parse, Text;
    if Parse(s, DEFAULT_FLAGS).Good? {
      AcceptedDenotes(s, DEFAULT_FLAGS);
    }
  }

  /** The values that texts denote are exactly those whose numbers are in range. */
  lemma DenotedValues(v: Value)
    ensures (exists s: bytes :: Dom(s) == Some(v)) <==> Representable(v)
  {
    hide Text, Parse;
    if Representable(v) {
      TextDenotesValue(v);
    }
    forall s: bytes | Dom(s) == Some(v) ensures Representable(v) {
      AcceptedDenotes(s, DEFAULT_FLAGS);
    }
  }

  /** The document does not depend on which of the two parsers reads the text. */
  lemma SameDomFromAutomaton(s: bytes, fl: Flags)
    ensures RunDom(Automaton.IterativeParse(s, fl)) == RunDom(Parse(s, fl))
  {
    hide Parse, Automaton.IterativeParse;
    ParserEquivalence.ParsersAgree(s, fl);
  }
}
