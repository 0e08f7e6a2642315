/**
 The document that pointers edit in place, proved against the functions of `PointerTree`.
 */
module PointerEdit {
  import opened Bytes
  import opened Json
  import opened PointerTree

  /** A document and the operations of a pointer on it; a place stands for the address the source keeps in `v`. */
  class Tree {
    var root: Value

    constructor (value: Value)
      ensures root == value
    {
      root := value;
    }

    /** Walks down from the root; `unresolved` is the position of the first token that leads nowhere. */
    method Locate(tokens: seq<Token>) returns (found: Option<place>, unresolved: nat)
      ensures found == PointerTree.Locate(root, tokens)
      ensures found.None? ==> unresolved < |tokens| && PointerTree.Locate(root, tokens[..unresolved]).Some?
                              && PointerTree.Locate(root, tokens[..unresolved + 1]).None?
    {
      LocateNothing(root);
      hide PointerTree.Locate, Step, NodeAt;
      var at: place := [];
      unresolved := 0;
      assert tokens[..0] == [];
      while unresolved < |tokens|
        invariant unresolved <= |tokens|
        invariant IsPlace(root, at) && PointerTree.Locate(root, tokens[..unresolved]) == Some(at)
      {
        LocateSnoc(root, tokens[..unresolved], tokens[unresolved]);
        assert tokens[..unresolved + 1] == tokens[..unresolved] + [tokens[unresolved]];
        var k := Step(NodeAt(root, at), tokens[unresolved]);
        if k.None? {
          LocatePrefix(root, tokens[..unresolved + 1], tokens[unresolved + 1..]);
          assert tokens == tokens[..unresolved + 1] + tokens[unresolved + 1..];
          return None, unresolved;
        }
        at := at + [k.value];
        unresolved := unresolved + 1;
      }
      assert tokens[..unresolved] == tokens;
      found := Some(at);
    }

    /** Changes and extends nodes on the way down, so that the place exists in the end. */
    method Create(tokens: seq<Token>) returns (at: place, exist: bool)
      modifies this
      ensures Creation(root, at, exist) == PointerTree.Create(old(root), tokens)
    {
      hide Grown, Exists, WithChild, PointerTree.Create;
      at, exist := [], true;
      var i := 0;
      CreateNothing(root);
      assert tokens[..0] == [];
      while i < |tokens|
        invariant 0 <= i <= |tokens| && IsPlace(root, at)
        invariant Creation(root, at, exist) == PointerTree.Create(old(root), tokens[..i])
      {
        var t := tokens[i];
        assert tokens[..i + 1] == tokens[..i] + [t];
        CreateSnoc(old(root), tokens[..i], t);
        var node := NodeAt(root, at);
        var (w, k) := Grown(node, t);
        exist := exist && Exists(node, t);
        root := Replaced(root, at, w);
        at := at + [k];
        i := i + 1;
      }
      assert tokens[..i] == tokens;
    }

    method Set(tokens: seq<Token>, x: Value) returns (at: place)
      modifies this
      ensures root == PointerTree.Set(old(root), tokens, x) && at == PointerTree.Create(old(root), tokens).at
    {
      var exist;
      at, exist := Create(tokens);
      root := Replaced(root, at, x);
    }

    /** Walks to the parent of what the pointer leads to and removes the child there. */
    method Erase(tokens: seq<Token>) returns (erased: bool)
      modifies this
      ensures Erasure(root, erased) == PointerTree.Erase(old(root), tokens)
    {
      if tokens == [] {
        return false;
      }
      var n := |tokens| - 1;
      EraseAt(root, tokens);
      var at, _ := Locate(tokens[..n]);
      if at.None? {
        return false;
      }
      var parent := NodeAt(root, at.value);
      var k := Step(parent, tokens[n]);
      if k.None? {
        return false;
      }
      root := Replaced(root, at.value, Without(parent, k.value));
      erased := true;
    }
  }
}
