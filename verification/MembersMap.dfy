/**
 The two builds of an object's members: the plain array that is scanned for a name, and
 the array with a multimap from names to positions beside it. Both are proved against
 the same functions on the list of members, so the second refines the first; the
 lookups agree exactly as far as names are distinct.
 */
module MembersMap {
  import opened Bytes
  import opened Json

  const DEFAULT_CAPACITY: nat := 16

  // ---------- what the operations do to the list of members ----------

  /** Removing moves the last member to the place that becomes free. */
  function Swapped(members: seq<Member>, pos: nat): (r: seq<Member>)
    requires pos < |members|
    ensures |r| == |members| - 1
  {
    var n := |members| - 1;
    if pos == n then members[..n] else members[..n][pos := members[n]]
  }

  /** Removing takes one member away, and the others before it keep their places. */
  lemma SwappedKeepsRest(members: seq<Member>, pos: nat)
    requires pos < |members|
    ensures multiset(Swapped(members, pos)) + multiset{members[pos]} == multiset(members)
    ensures Swapped(members, pos)[..pos] == members[..pos]
  {
    var n := |members| - 1;
    assert members == members[..n] + [members[n]];
    if pos < n {
      assert members[..n] == members[..pos] + [members[pos]] + members[pos + 1..n];
      assert Swapped(members, pos) == members[..pos] + [members[n]] + members[pos + 1..n];
    }
  }

  /** Erasing a range keeps the order of the rest. */
  function Erased(members: seq<Member>, first: nat, last: nat): (r: seq<Member>)
    requires first <= last <= |members|
    ensures |r| == |members| - (last - first)
    ensures forall k :: 0 <= k < |r| ==> r[k] == members[if k < first then k else k + (last - first)]
  {
    members[..first] + members[last..]
  }

  /** The position of the first member of that name, or the number of members. */
  function FirstNamed(members: seq<Member>, name: bytes): (k: nat)
    ensures k <= |members| && (k < |members| ==> members[k].name == name)
    ensures forall j :: 0 <= j < k ==> members[j].name != name
  {
    if members == [] || members[0].name == name then 0 else 1 + FirstNamed(members[1..], name)
  }

  predicate DistinctNames(members: seq<Member>) {
    forall i, j :: 0 <= i < j < |members| ==> members[i].name != members[j].name
  }

  /** A position is a right answer to a lookup. */
  predicate Answers(members: seq<Member>, name: bytes, k: nat) {
    if k < |members| then members[k].name == name
    else k == |members| && forall j :: 0 <= j < |members| ==> members[j].name != name
  }

  /** All right answers to every lookup are the first one exactly when the names are distinct. */
  lemma AnswersAreFirst(members: seq<Member>)
    ensures (forall name, k: nat :: Answers(members, name, k) ==> k == FirstNamed(members, name))
            <==> DistinctNames(members)
  {
    hide FirstNamed;
    if DistinctNames(members) {
      forall name, k: nat | Answers(members, name, k) ensures k == FirstNamed(members, name) {
      }
    } else {
      var i, j :| 0 <= i < j < |members| && members[i].name == members[j].name;
      var name := members[i].name;
      var k := if i == FirstNamed(members, name) then j else i;
      assert Answers(members, name, k) && k != FirstNamed(members, name);
    }
  }

  /** Removing and erasing keep names distinct, and so does adding a name that a lookup does not find. */
  lemma DistinctNamesKept(members: seq<Member>, m: Member, pos: nat, first: nat, last: nat)
    requires DistinctNames(members)
    ensures DistinctNames(members + [m]) <==> FirstNamed(members, m.name) == |members|
    ensures pos < |members| ==> DistinctNames(Swapped(members, pos))
    ensures first <= last <= |members| ==> DistinctNames(Erased(members, first, last))
  {
    hide FirstNamed;
    AddKeepsDistinct(members, m);
    if first <= last <= |members| {
      EraseKeepsDistinct(members, first, last);
    }
    if pos < |members| {
      SwapKeepsDistinct(members, pos);
    }
  }

  lemma AddKeepsDistinct(members: seq<Member>, m: Member)
    requires DistinctNames(members)
    ensures DistinctNames(members + [m]) <==> FirstNamed(members, m.name) == |members|
  {
    hide FirstNamed;
    var k := FirstNamed(members, m.name);
    var more := members + [m];
    assert more[|members|] == m && forall i :: 0 <= i < |members| ==> more[i] == members[i];
    if k < |members| {
      assert more[k].name == more[|members|].name;
    }
  }

  lemma EraseKeepsDistinct(members: seq<Member>, first: nat, last: nat)
    requires DistinctNames(members) && first <= last <= |members|
    ensures DistinctNames(Erased(members, first, last))
  {
    var rest := Erased(members, first, last);
    forall i, j | 0 <= i < j < |rest| ensures rest[i].name != rest[j].name {
      var i', j' := if i < first then i else i + (last - first), if j < first then j else j + (last - first);
      assert rest[i] == members[i'] && rest[j] == members[j'];
    }
  }

  lemma SwapKeepsDistinct(members: seq<Member>, pos: nat)
    requires DistinctNames(members) && pos < |members|
    ensures DistinctNames(Swapped(members, pos))
  {
    var n := |members| - 1;
    var rest := Swapped(members, pos);
    forall i, j | 0 <= i < j < |rest| ensures rest[i].name != rest[j].name {
      var i', j' := if i == pos then n else i, if j == pos then n else j;
      assert rest[i] == members[i'] && rest[j] == members[j'];
    }
  }

  function Grown(capacity: nat): nat {
    if capacity > 0 then capacity + (capacity + 1) / 2 else DEFAULT_CAPACITY
  }

  /** The capacity after a member is added to an object with `size` members and that capacity. */
  function Room(size: nat, capacity: nat): nat {
    if size < capacity then capacity else Grown(capacity)
  }

  /** The capacity of an object after `n` members have been added to an empty one. */
  function CapacityAfter(n: nat): nat {
    if n == 0 then 0 else Room(n - 1, CapacityAfter(n - 1))
  }

  /** How many members have been moved to larger blocks by then. */
  function MovedBy(n: nat): nat {
    if n == 0 then 0 else MovedBy(n - 1) + if n - 1 < CapacityAfter(n - 1) then 0 else n - 1
  }

  /** Adding takes amortized constant time: at most three moves a member, and room for half as many more. */
  lemma {:induction false} AddingIsAmortized(n: nat)
    ensures n <= CapacityAfter(n) && (n > 16 ==> 2 * CapacityAfter(n) <= 3 * n)
    ensures n > 0 ==> CapacityAfter(n) >= 16
    ensures MovedBy(n) <= 2 * CapacityAfter(n) && MovedBy(n) <= 3 * n
    ensures n <= 16 ==> CapacityAfter(n) <= 16 && MovedBy(n) == 0
  {
    if n > 0 {
      AddingIsAmortized(n - 1);
    }
  }

  // ---------- the plain array ----------

  class PlainMembers {
    var data: array<Member>
    var size: nat

    predicate Valid()
      reads this
    {
      size <= data.Length
    }

    function Members(): seq<Member>
      reads this, data
      requires Valid()
    {
      data[..size]
    }

    constructor ()
      ensures Valid() && Members() == [] && fresh(data)
    {
      data := new Member[0];
      size := 0;
    }

    /** The linear scan. */
    method Find(name: bytes) returns (k: nat)
      requires Valid()
      ensures k == FirstNamed(Members(), name)
    {
      k := 0;
      while k < size && data[k].name != name
        invariant k <= size
        invariant forall j :: 0 <= j < k ==> data[j].name != name
      {
        k := k + 1;
      }
      FirstIs(Members(), name, k);
    }

    method Reserve(newCapacity: nat)
      requires Valid()
      modifies this, data
      ensures Valid() && Members() == old(Members())
      ensures data.Length == (if newCapacity > old(data.Length) then newCapacity else old(data.Length))
      ensures data == old(data) || fresh(data)
    {
      if newCapacity > data.Length {
        var more := new Member[newCapacity];
        forall i | 0 <= i < size {
          more[i] := data[i];
        }
        data := more;
      }
    }

    method Add(m: Member)
      requires Valid()
      modifies this, data
      ensures Valid() && Members() == old(Members()) + [m]
      ensures data.Length == Room(old(size), old(data.Length))
      ensures if old(size) < old(data.Length) then data == old(data) else fresh(data)
    {
      if size >= data.Length {
        Reserve(Grown(data.Length));
      }
      data[size] := m;
      size := size + 1;
    }

    method Remove(pos: nat)
      requires Valid() && pos < size
      modifies this, data
      ensures Valid() && data == old(data) && Members() == Swapped(old(Members()), pos)
    {
      var last := size - 1;
      if size > 1 && pos != last {
        data[pos] := data[last];
      }
      size := size - 1;
    }

    method Erase(first: nat, last: nat)
      requires Valid() && first <= last <= size
      modifies this, data
      ensures Valid() && data == old(data) && Members() == Erased(old(Members()), first, last)
    {
      hide Moved, Erased;
      ghost var before := data[..size];
      NoneMoved(data[..], size, first, last);
      var itr: nat, next: nat := first, last;
      while next != size
        invariant itr <= next <= size == |before| <= data.Length && data == old(data)
        invariant Moved(data[..], before, first, last, itr, next)
      {
        ghost var was := data[..];
        MovedOn(was, before, first, last, itr, next);
        data[itr] := data[next];
        assert data[..] == was[itr := was[next]];
        itr, next := itr + 1, next + 1;
      }
      AllMoved(data[..], before, first, last, itr);
      size := size - (last - first);
    }
  }

  lemma OneMore(before: seq<Member>, first: nat, last: nat, next: nat)
    requires first <= last <= next < |before|
    ensures before[..first] + before[last..next + 1] == before[..first] + before[last..next] + [before[next]]
  {
    assert before[last..next + 1] == before[last..next] + [before[next]];
  }

  /** One member moves down from `next`, where all behind is as it was before. */
  lemma OneMoved(was: seq<Member>, before: seq<Member>, itr: nat, next: nat)
    requires itr <= next < |before| <= |was| && was[next..|before|] == before[next..]
    ensures was[next] == before[next]
    ensures was[itr := was[next]][..itr + 1] == was[..itr] + [before[next]]
    ensures was[itr := was[next]][next + 1..|before|] == before[next + 1..]
  {
    assert was[next..|before|][0] == before[next..][0];
    assert was[next + 1..|before|] == was[next..|before|][1..] == before[next..][1..] == before[next + 1..];
    assert was[itr := was[next]][next + 1..|before|] == was[next + 1..|before|];
  }

  /** Part of the way through moving members down: those before `itr` and those from `next` on are in place. */
  predicate Moved(now: seq<Member>, before: seq<Member>, first: nat, last: nat, itr: nat, next: nat) {
    && first <= last && first <= itr && last <= next <= |before| <= |now| && next - itr == last - first
    && now[..itr] == before[..first] + before[last..next] && now[next..|before|] == before[next..]
  }

  lemma NoneMoved(now: seq<Member>, size: nat, first: nat, last: nat)
    requires first <= last <= size <= |now|
    ensures Moved(now, now[..size], first, last, first, last)
  {
    assert now[..first] == now[..size][..first] + now[..size][last..last];
    assert now[last..size] == now[..size][last..];
  }

  lemma MovedOn(was: seq<Member>, before: seq<Member>, first: nat, last: nat, itr: nat, next: nat)
    requires Moved(was, before, first, last, itr, next) && itr <= next < |before| <= |was|
    ensures Moved(was[itr := was[next]], before, first, last, itr + 1, next + 1)
  {
    OneMoved(was, before, itr, next);
    OneMore(before, first, last, next);
  }

  lemma AllMoved(now: seq<Member>, before: seq<Member>, first: nat, last: nat, itr: nat)
    requires Moved(now, before, first, last, itr, |before|) && first <= last <= |before| && itr <= |now|
    ensures itr == |before| - (last - first) && now[..itr] == Erased(before, first, last)
  {
    assert before[last..|before|] == before[last..];
  }

  lemma UpdatedPrefix<T>(was: seq<T>, itr: nat, next: nat, size: nat)
    requires itr <= next < size <= |was|
    ensures was[itr := was[next]][..size] == was[..size][itr := was[..size][next]]
  {
  }

  lemma {:induction false} FirstIs(members: seq<Member>, name: bytes, k: nat)
    requires k <= |members| && (k < |members| ==> members[k].name == name)
    requires forall j :: 0 <= j < k ==> members[j].name != name
    ensures FirstNamed(members, name) == k
  {
    if k > 0 {
      FirstIs(members[1..], name, k - 1);
    }
  }

  // ---------- the array with a map beside it ----------

  /** An entry of the multimap. */
  datatype Entry = Entry(name: bytes, index: nat)

  /** Iterator `i` leads to an entry with member `i`'s name and position. */
  predicate LinkedAt(members: seq<Member>, its: seq<nat>, nodes: map<nat, Entry>, i: nat)
    requires i < |members| == |its|
  {
    its[i] in nodes && nodes[its[i]] == Entry(members[i].name, i)
  }

  /** An entry belongs to the iterator at its position, which is not in the gap. */
  predicate LinkedBack(its: seq<nat>, nodes: map<nat, Entry>, node: nat, gap: nat, next: nat)
    requires node in nodes
  {
    var i := nodes[node].index;
    i < |its| && its[i] == node && (i < gap || next <= i)
  }

  /** Members, iterators and entries fit together outside the positions `[gap, next)`, which have no entries. */
  predicate Linked(members: seq<Member>, its: seq<nat>, nodes: map<nat, Entry>, nextNode: nat, gap: nat, next: nat) {
    && gap <= next <= |members| == |its|
    && (forall i :: 0 <= i < |members| && (i < gap || next <= i) ==> LinkedAt(members, its, nodes, i))
    && (forall node <- nodes :: node < nextNode && LinkedBack(its, nodes, node, gap, next))
  }

  lemma LinkAdd(members: seq<Member>, its: seq<nat>, nodes: map<nat, Entry>, nextNode: nat, m: Member)
    requires Linked(members, its, nodes, nextNode, |members|, |members|)
    ensures Linked(members + [m], its + [nextNode], nodes[nextNode := Entry(m.name, |members|)], nextNode + 1,
            |members| + 1, |members| + 1)
  {
    var n := |members|;
    var members', its', nodes' := members + [m], its + [nextNode], nodes[nextNode := Entry(m.name, n)];
    forall i | 0 <= i < n + 1 ensures LinkedAt(members', its', nodes', i) {
      if i < n {
        assert LinkedAt(members, its, nodes, i);
      }
    }
    forall node | node in nodes' ensures node < nextNode + 1 && LinkedBack(its', nodes', node, n + 1, n + 1) {
      if node != nextNode {
        assert LinkedBack(its, nodes, node, n, n);
      }
    }
  }

  lemma NothingLinked()
    ensures Linked([], [], map[], 0, 0, 0)
  {
  }

  lemma LinkDrop(members: seq<Member>, its: seq<nat>, nodes: map<nat, Entry>, nextNode: nat, gap: nat, next: nat)
    requires Linked(members, its, nodes, nextNode, gap, next) && next < |members|
    ensures Linked(members, its, nodes - {its[next]}, nextNode, gap, next + 1)
  {
    var nodes' := nodes - {its[next]};
    assert LinkedAt(members, its, nodes, next);
    forall i | 0 <= i < |members| && (i < gap || next + 1 <= i) ensures LinkedAt(members, its, nodes', i) {
      assert LinkedAt(members, its, nodes, i);
    }
    forall node | node in nodes' ensures node < nextNode && LinkedBack(its, nodes', node, gap, next + 1) {
      assert LinkedBack(its, nodes, node, gap, next);
    }
  }

  /** The member after the gap moves to its start. */
  lemma LinkMove(members: seq<Member>, its: seq<nat>, nodes: map<nat, Entry>, nextNode: nat, gap: nat, next: nat)
    requires Linked(members, its, nodes, nextNode, gap, next) && gap < next < |members|
    ensures its[next] in nodes && nodes[its[next]] == Entry(members[next].name, next)
    ensures Linked(members[gap := members[next]], its[gap := its[next]],
            nodes[its[next] := Entry(members[next].name, gap)], nextNode, gap + 1, next + 1)
  {
    var node0 := its[next];
    var members', its', nodes' :=
      members[gap := members[next]], its[gap := node0], nodes[node0 := Entry(members[next].name, gap)];
    assert LinkedAt(members, its, nodes, next);
    forall i | 0 <= i < |members| && (i < gap + 1 || next + 1 <= i) ensures LinkedAt(members', its', nodes', i) {
      if i != gap {
        assert LinkedAt(members, its, nodes, i);
      }
    }
    forall node | node in nodes' ensures node < nextNode && LinkedBack(its', nodes', node, gap + 1, next + 1) {
      assert LinkedBack(its, nodes, node, gap, next);
    }
  }

  /** The last member moves to a gap of one. */
  lemma LinkSwap(members: seq<Member>, its: seq<nat>, nodes: map<nat, Entry>, nextNode: nat, pos: nat)
    requires Linked(members, its, nodes, nextNode, pos, pos + 1) && pos + 1 < |members|
    ensures var last := |members| - 1;
            && its[last] in nodes && nodes[its[last]] == Entry(members[last].name, last)
            && Linked(members[pos := members[last]], its[pos := its[last]],
               nodes[its[last] := Entry(members[last].name, pos)], nextNode, last, last + 1)
  {
    var last := |members| - 1;
    var node0 := its[last];
    var members', its', nodes' :=
      members[pos := members[last]], its[pos := node0], nodes[node0 := Entry(members[last].name, pos)];
    assert LinkedAt(members, its, nodes, last);
    forall i | 0 <= i < last ensures LinkedAt(members', its', nodes', i) {
      if i != pos {
        assert LinkedAt(members, its, nodes, i);
      }
    }
    forall node | node in nodes' ensures node < nextNode && LinkedBack(its', nodes', node, last, last + 1) {
      assert LinkedBack(its, nodes, node, pos, pos + 1);
    }
  }

  /** A gap at the end is cut off. */
  lemma LinkCut(members: seq<Member>, its: seq<nat>, nodes: map<nat, Entry>, nextNode: nat, n: nat)
    requires Linked(members, its, nodes, nextNode, n, |members|)
    ensures Linked(members[..n], its[..n], nodes, nextNode, n, n)
  {
    forall i | 0 <= i < n ensures LinkedAt(members[..n], its[..n], nodes, i) {
      assert LinkedAt(members, its, nodes, i);
    }
    forall node | node in nodes ensures node < nextNode && LinkedBack(its[..n], nodes, node, n, n) {
      assert LinkedBack(its, nodes, node, n, |members|);
    }
  }

  /** Without a gap it does not matter where the gap is. */
  lemma NoGap(members: seq<Member>, its: seq<nat>, nodes: map<nat, Entry>, nextNode: nat, a: nat, b: nat)
    requires Linked(members, its, nodes, nextNode, a, a) && b <= |members|
    ensures Linked(members, its, nodes, nextNode, b, b)
  {
    forall i | 0 <= i < |members| ensures LinkedAt(members, its, nodes, i) {
    }
    forall node | node in nodes ensures node < nextNode && LinkedBack(its, nodes, node, b, b) {
      assert LinkedBack(its, nodes, node, a, a);
    }
  }

  /** A name looked up in the map gives a right answer, whichever of its entries the map returns. */
  lemma LookupAnswers(members: seq<Member>, its: seq<nat>, nodes: map<nat, Entry>, nextNode: nat, name: bytes)
    requires Linked(members, its, nodes, nextNode, |members|, |members|)
    ensures forall node <- nodes :: nodes[node].name == name ==> Answers(members, name, nodes[node].index)
    ensures (forall node <- nodes :: nodes[node].name != name) ==> Answers(members, name, |members|)
  {
    forall node | node in nodes && nodes[node].name == name ensures Answers(members, name, nodes[node].index) {
      assert LinkedBack(its, nodes, node, |members|, |members|);
      assert LinkedAt(members, its, nodes, nodes[node].index);
    }
    if forall node <- nodes :: nodes[node].name != name {
      forall j | 0 <= j < |members| ensures members[j].name != name {
        assert LinkedAt(members, its, nodes, j);
      }
    }
  }

  /** The map has exactly one entry per member. */
  lemma EntryCount(members: seq<Member>, its: seq<nat>, nodes: map<nat, Entry>, nextNode: nat)
    requires Linked(members, its, nodes, nextNode, |members|, |members|)
    ensures |nodes| == |members|
  {
    var keys := set i | 0 <= i < |its| :: its[i];
    forall node | node in nodes ensures node in keys {
      assert LinkedBack(its, nodes, node, |members|, |members|);
    }
    forall i | 0 <= i < |its| ensures its[i] in nodes && nodes[its[i]].index == i {
      assert LinkedAt(members, its, nodes, i);
    }
    assert keys == nodes.Keys;
    DistinctCount(its, keys);
    assert |nodes| == |nodes.Keys|;
  }

  lemma {:induction false} DistinctCount(its: seq<nat>, keys: set<nat>)
    requires forall i, j :: 0 <= i < j < |its| ==> its[i] != its[j]
    requires keys == set i | 0 <= i < |its| :: its[i]
    ensures |keys| == |its|
  {
    if its == [] {
      assert keys == {};
    } else {
      var n := |its| - 1;
      var fewer := set i | 0 <= i < n :: its[..n][i];
      DistinctCount(its[..n], fewer);
      assert keys == fewer + {its[n]} by {
        assert forall i :: 0 <= i < n ==> its[..n][i] == its[i];
      }
      assert its[n] !in fewer;
    }
  }

  /**
   The entry a map iterator leads to stays in place when others come and go; a node number stands for
   the iterator.
   */
  class MappedMembers {
    var data: array<Member>
    var iterators: array<nat>
    var nodes: map<nat, Entry>
    var nextNode: nat
    var size: nat

    predicate Valid()
      reads this, data, iterators
    {
      size <= data.Length == iterators.Length && Linked(data[..size], iterators[..size], nodes, nextNode, size, size)
    }

    function Members(): seq<Member>
      reads this, data
      requires size <= data.Length
    {
      data[..size]
    }

    constructor ()
      ensures Valid() && Members() == [] && fresh(data) && fresh(iterators)
    {
      data := new Member[0];
      iterators := new nat[0];
      nodes := map[];
      nextNode := 0;
      size := 0;
    }

    /** An object made from members at once: they are copied, then entered into the map one by one. */
    constructor FromMembers(members: seq<Member>)
      ensures Valid() && Members() == members && data.Length == |members| && fresh(data) && fresh(iterators)
    {
      data := new Member[|members|](i requires 0 <= i < |members| => members[i]);
      iterators := new nat[|members|];
      nodes := map[];
      nextNode := 0;
      size := |members|;
      new;
      hide Linked;
      assert data[..size] == members;
      NothingLinked();
      assert members[..0] == [] && iterators[..0] == [];
      var i := 0;
      while i < size
        invariant 0 <= i <= size == |members| == data.Length == iterators.Length && data[..size] == members
        invariant fresh(data) && fresh(iterators)
        invariant Linked(members[..i], iterators[..i], nodes, nextNode, i, i)
      {
        ghost var its := iterators[..i];
        LinkAdd(members[..i], its, nodes, nextNode, members[i]);
        nodes := nodes[nextNode := Entry(data[i].name, i)];
        iterators[i] := nextNode;
        nextNode := nextNode + 1;
        assert members[..i + 1] == members[..i] + [members[i]] && iterators[..i + 1] == its + [nextNode - 1];
        i := i + 1;
      }
      assert members[..i] == members;
    }

    /** The map lookup: any entry of that name will do. */
    method Find(name: bytes) returns (k: nat)
      requires Valid()
      ensures Answers(Members(), name, k)
    {
      LookupAnswers(data[..size], iterators[..size], nodes, nextNode, name);
      if node :| node in nodes && nodes[node].name == name {
        k := nodes[node].index;
      } else {
        k := size;
      }
    }

    /**
     Members and iterators move to a larger block, as many as the map has entries; the entries stay where
     they are.
     */
    method Reserve(newCapacity: nat)
      requires Valid()
      modifies this, data, iterators
      ensures Valid() && Members() == old(Members()) && iterators[..size] == old(iterators[..size])
      ensures data.Length == (if newCapacity > old(data.Length) then newCapacity else old(data.Length))
      ensures nodes == old(nodes) && size == old(size) && nextNode == old(nextNode)
      ensures (data == old(data) && iterators == old(iterators)) || (fresh(data) && fresh(iterators))
    {
      if newCapacity > data.Length {
        ghost var members, kept := data[..size], iterators[..size];
        EntryCount(members, kept, nodes, nextNode);
        hide Linked;
        assert Linked(members, kept, nodes, nextNode, size, size);
        var more, its := new Member[newCapacity], new nat[newCapacity];
        var count := |nodes|;
        forall i | 0 <= i < count {
          more[i] := data[i];
        }
        assert more[..count] == data[..count];
        while count > 0
          invariant 0 <= count <= size
          invariant more[..size] == data[..size]
          invariant forall i :: count <= i < size ==> its[i] == iterators[i]
          modifies its
        {
          count := count - 1;
          its[count] := iterators[count];
        }
        assert its[..size] == iterators[..size];
        data, iterators := more, its;
        assert data[..size] == members && iterators[..size] == kept;
      }
    }

    method Add(m: Member)
      requires Valid()
      modifies this, data, iterators
      ensures Valid() && Members() == old(Members()) + [m]
      ensures data.Length == Room(old(size), old(data.Length))
      ensures if old(size) < old(data.Length) then data == old(data) && iterators == old(iterators)
              else fresh(data) && fresh(iterators)
    {
      if size >= data.Length {
        Reserve(Grown(data.Length));
      }
      hide Linked;
      ghost var members, its := data[..size], iterators[..size];
      LinkAdd(members, its, nodes, nextNode, m);
      data[size] := m;
      nodes := nodes[nextNode := Entry(m.name, size)];
      iterators[size] := nextNode;
      nextNode := nextNode + 1;
      size := size + 1;
      assert data[..size] == members + [m] && iterators[..size] == its + [nextNode - 1];
    }

    /** Drops the entry of the removed member and points the entry of the last one to its new place. */
    method Remove(pos: nat)
      requires Valid() && pos < size
      modifies this, data, iterators
      ensures Valid() && data == old(data) && iterators == old(iterators)
      ensures Members() == Swapped(old(Members()), pos)
    {
      hide Linked;
      ghost var members, its := data[..size], iterators[..size];
      NoGap(members, its, nodes, nextNode, size, pos);
      LinkDrop(members, its, nodes, nextNode, pos, pos);
      nodes := nodes - {iterators[pos]};
      var last := size - 1;
      if size > 1 && pos != last {
        LinkSwap(members, its, nodes, nextNode, pos);
        iterators[pos] := iterators[last];
        nodes := nodes[iterators[pos] := nodes[iterators[pos]].(index := pos)];
        data[pos] := data[last];
        assert data[..size] == members[pos := members[last]] && iterators[..size] == its[pos := its[last]];
      }
      LinkCut(data[..size], iterators[..size], nodes, nextNode, last);
      size := size - 1;
      assert data[..size] == data[..size + 1][..last] && iterators[..size] == iterators[..size + 1][..last];
    }

    /** Drops the entries of the range, then moves members and iterators down one by one. */
    method Erase(first: nat, last: nat)
      requires Valid() && first <= last <= size
      modifies this, data, iterators
      ensures Valid() && data == old(data) && iterators == old(iterators)
      ensures Members() == Erased(old(Members()), first, last)
    {
      hide Linked;
      NoGap(data[..size], iterators[..size], nodes, nextNode, size, first);
      DropEntries(first, last);
      ghost var before := data[..size];
      if first != last {
        MoveDown(first, last);
      } else {
        NoGap(data[..size], iterators[..size], nodes, nextNode, first, size);
      }
      var n := size - (last - first);
      LinkCut(data[..size], iterators[..size], nodes, nextNode, n);
      assert data[..size][..n] == data[..n] && iterators[..size][..n] == iterators[..n];
      size := n;
      assert data[..size] == Erased(before, first, last);
    }

    method DropEntries(first: nat, last: nat)
      requires first <= last <= size <= data.Length == iterators.Length
      requires Linked(data[..size], iterators[..size], nodes, nextNode, first, first)
      modifies this`nodes
      ensures Linked(data[..size], iterators[..size], nodes, nextNode, first, last)
    {
      hide Linked;
      var itr := first;
      while itr != last
        invariant first <= itr <= last
        invariant Linked(data[..size], iterators[..size], nodes, nextNode, first, itr)
      {
        LinkDrop(data[..size], iterators[..size], nodes, nextNode, first, itr);
        nodes := nodes - {iterators[itr]};
        itr := itr + 1;
      }
    }

    method MoveDown(first: nat, last: nat)
      requires first < last <= size <= data.Length == iterators.Length
      requires Linked(data[..size], iterators[..size], nodes, nextNode, first, last)
      modifies this`nodes, data, iterators
      ensures Linked(data[..size], iterators[..size], nodes, nextNode, size - (last - first), size)
      ensures data[..size - (last - first)] == Erased(old(data[..size]), first, last)
    {
      hide Linked, Moved, Erased;
      ghost var before := data[..size];
      NoneMoved(data[..], size, first, last);
      var itr: nat, next: nat := first, last;
      while next != size
        invariant itr < next <= size == |before|
        invariant Linked(data[..size], iterators[..size], nodes, nextNode, itr, next)
        invariant Moved(data[..], before, first, last, itr, next)
      {
        ghost var was, had := data[..], iterators[..];
        LinkMove(was[..size], had[..size], nodes, nextNode, itr, next);
        UpdatedPrefix(was, itr, next, size);
        UpdatedPrefix(had, itr, next, size);
        MovedOn(was, before, first, last, itr, next);
        data[itr] := data[next];
        iterators[itr] := iterators[next];
        nodes := nodes[iterators[itr] := nodes[iterators[itr]].(index := itr)];
        assert data[..] == was[itr := was[next]] && iterators[..] == had[itr := had[next]];
        itr, next := itr + 1, next + 1;
      }
      AllMoved(data[..], before, first, last, itr);
    }
  }
}
