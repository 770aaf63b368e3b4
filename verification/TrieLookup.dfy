/** Txn.lookup on nodes in memory (state/immutable-trie/trie.go:267-330). */
module TrieLookup {
  import opened Nibbles
  import opened Rlp
  import opened Options
  import opened PatriciaTree
  import opened TrieNodes
  import opened TrieFrames
  import opened TrieStorage

  /** Cells outside what `n` reaches are as they were. */
  ghost predicate Elsewhere(cells: Cells, cells': Cells, n: Node, t: Tree) {
    |cells| <= |cells'| && forall x :: 0 <= x < |cells| && x !in Reach(cells, n, t) ==> cells'[x] == cells[x]
  }

  /** On the way of the search no reference is left to resolve. */
  ghost predicate Walked(cells: Cells, n: Node, s: Hex, t: Tree)
    decreases t
  {
    match n
    case NilNode => true
    case ValueNode(_) => true
    case HashNode(_) => false
    case Ptr(a) =>
      && a < |cells|
      && match cells[a]
         case ShortCell(_, k, c) => t.Short? && (|k| <= |s| && s[..|k|] == k ==> Walked(cells, c, s[|k|..], t.child))
         case FullCell(_, _, kids) =>
           && t.Full? && |kids| == |t.kids| == 17
           && (s != [] && 0 <= s[0] < 17 ==> Walked(cells, kids[s[0]], s[1..], t.kids[s[0]]))
  }

  lemma {:induction false} WalkedFrame(cells: Cells, cells': Cells, n: Node, s: Hex, t: Tree)
    requires Walked(cells, n, s, t) && SameOn(cells, cells', Reach(cells, n, t))
    ensures Walked(cells', n, s, t)
    decreases t
  {
    if n.Ptr? {
      assert n.addr in Reach(cells, n, t);
      match cells[n.addr]
      case ShortCell(_, k, c) =>
        if |k| <= |s| && s[..|k|] == k {
          WalkedFrame(cells, cells', c, s[|k|..], t.child);
        }
      case FullCell(_, _, kids) =>
        if s != [] && 0 <= s[0] < 17 {
          var i := s[0];
          assert Reach(cells, kids[i], t.kids[i]) <= Reach(cells, n, t);
          WalkedFrame(cells, cells', kids[i], s[1..], t.kids[i]);
        }
    }
  }

  /** A node whose reached cells are all new is not touched by a change to an old one. */
  lemma WalkedFresh(db: Db, cells: Cells, cells': Cells, b: nat, a: nat, n: Node, s: Hex, t: Tree)
    requires Fresh(db, b, cells, n, t) && Walked(cells, n, s, t) && a < b
    requires |cells| == |cells'| && forall x :: 0 <= x < |cells| && x != a ==> cells'[x] == cells[x]
    ensures Walked(cells', n, s, t)
  {
    WalkedFrame(cells, cells', n, s, t);
  }

  /**
   Returns the value at `s`, and in `loaded` the node that replaces `n` when `n` was a hash. Nodes
   loaded below `n` are written into their parents in place; no node changes its meaning.
   */
  method LookupNode(db: Db, cells: Cells, n: Node, s: Hex, ghost t: Tree)
    returns (cells': Cells, loaded: Node, res: Option<Buf>)
    requires Denotes(db, cells, n, t) && Fits(t, s)
    ensures res == Lookup(t, s)
    ensures Keeps(db, |cells|, cells, cells') && Elsewhere(cells, cells', n, t)
    ensures loaded.NilNode? || (n.HashNode? && Fresh(db, |cells|, cells', loaded, t))
    ensures Walked(cells', if loaded.NilNode? then n else loaded, s, t)
    decreases t, if n.HashNode? then 2 else 1
  {
    match n
    case NilNode =>
      cells', loaded, res := cells, NilNode, None;
      AllocKeeps(db, cells, cells);
    case ValueNode(b) =>
      cells', loaded, res := cells, NilNode, Some(b);
      AllocKeeps(db, cells, cells);
    case HashNode(h) =>
      var got, below;
      cells', got := GetNode(db, cells, h, t);
      ghost var cells1 := cells';
      cells', below, res := LookupNode(db, cells', got.node, s, t);
      loaded := got.node;
      AllocKeeps(db, cells, cells1);
      KeepsTransitive(db, |cells|, |cells1|, cells, cells1, cells');
      KeepsFresh(db, |cells|, cells1, cells', loaded, t);
    case Ptr(a) =>
      match cells[a] {
        case ShortCell(_, k, _) =>
          if |k| > |s| || s[..|k|] != k {
            cells', loaded, res := cells, NilNode, None;
            AllocKeeps(db, cells, cells);
          } else {
            cells', res := LookupShort(db, cells, a, s, t);
            loaded := NilNode;
          }
        case FullCell(_, _, _) =>
          cells', res := LookupFull(db, cells, a, s, t);
          loaded := NilNode;
      }
  }

  lemma KeepsFresh(db: Db, b: nat, cells: Cells, cells': Cells, n: Node, t: Tree)
    requires Fresh(db, b, cells, n, t) && Keeps(db, |cells|, cells, cells') && b <= |cells|
    ensures Fresh(db, b, cells', n, t)
  {
    assert KeepsAt(db, |cells|, cells, cells', n, t);
  }

  method LookupShort(db: Db, cells: Cells, a: nat, s: Hex, ghost t: Tree) returns (cells': Cells, res: Option<Buf>)
    requires Denotes(db, cells, Ptr(a), t) && t.Short? && Fits(t, s) && |t.key| <= |s| && s[..|t.key|] == t.key
    ensures res == Lookup(t, s)
    ensures Keeps(db, |cells|, cells, cells') && Elsewhere(cells, cells', Ptr(a), t)
    ensures Walked(cells', Ptr(a), s, t)
    decreases t, 0
  {
    FitsBelowShort(t, s);
    var k, c, child := cells[a].key, cells[a].child, NilNode;
    NotBelowItself(db, cells, a, c, t.child, t);
    cells', child, res := LookupNode(db, cells, c, s[|k|..], t.child);
    if !child.NilNode? {
      ghost var cells1 := cells';
      cells' := cells'[a := cells'[a].(child := child)];
      ResolveShort(db, |cells|, cells1, cells', a, t);
      KeepsTransitive(db, |cells|, |cells|, cells, cells1, cells');
      WalkedFresh(db, cells1, cells', |cells|, a, child, s[|k|..], t.child);
    }
  }

  /** A short node's hash child is replaced by the node it was loaded as. */
  lemma ResolveShort(db: Db, b: nat, cells: Cells, cells': Cells, a: nat, t: Tree)
    requires a < b <= |cells| == |cells'| && UnownedFrom(cells, b)
    requires Denotes(db, cells, Ptr(a), t) && cells[a].ShortCell? && cells'[a].ShortCell?
    requires Fresh(db, b, cells, cells'[a].child, t.child) && cells' == cells[a := cells[a].(child := cells'[a].child)]
    requires cells[a].child.HashNode?
    ensures Keeps(db, b, cells, cells')
  {
    ResolvedShortKept(db, b, cells, cells', a, cells'[a].child, t);
    UpdateKeeps(db, b, cells, cells', a, t);
  }

  lemma ResolvedShortKept(db: Db, b: nat, cells: Cells, cells': Cells, a: nat, c: Node, t: Tree)
    requires a < b <= |cells| && UnownedFrom(cells, b)
    requires Denotes(db, cells, Ptr(a), t) && cells[a].ShortCell? && cells[a].child.HashNode?
    requires Fresh(db, b, cells, c, t.child) && cells' == cells[a := cells[a].(child := c)]
    ensures KeepsAt(db, b, cells, cells', Ptr(a), t)
  {
    Frame(db, cells, cells', c, t.child);
    forall e | e > 0 ensures Separate(cells', e, c, t.child) {
      UnownedSeparate(cells', e, c, t.child);
    }
    assert Reach(cells', Ptr(a), t) == {a} + Reach(cells', c, t.child);
    assert Reach(cells, Ptr(a), t) == {a};
    assert Denotes(db, cells', Ptr(a), t);
  }

  method LookupFull(db: Db, cells: Cells, a: nat, s: Hex, ghost t: Tree) returns (cells': Cells, res: Option<Buf>)
    requires Denotes(db, cells, Ptr(a), t) && t.Full? && Fits(t, s)
    ensures res == Lookup(t, s)
    ensures Keeps(db, |cells|, cells, cells') && Elsewhere(cells, cells', Ptr(a), t)
    ensures Walked(cells', Ptr(a), s, t)
    decreases t, 0
  {
    FitsBelowFull(t, s);
    var i := s[0];
    var child;
    NotBelowItself(db, cells, a, cells[a].kids[i], t.kids[i], t);
    cells', child, res := LookupNode(db, cells, cells[a].kids[i], s[1..], t.kids[i]);
    assert Reach(cells, cells[a].kids[i], t.kids[i]) <= Reach(cells, Ptr(a), t);
    if !child.NilNode? {
      assert i < 16;
      ghost var cells1 := cells';
      cells' := cells'[a := cells'[a].(kids := cells'[a].kids[i := child])];
      ResolveFull(db, |cells|, cells1, cells', a, t, i, child);
      KeepsTransitive(db, |cells|, |cells|, cells, cells1, cells');
      WalkedFresh(db, cells1, cells', |cells|, a, child, s[1..], t.kids[i]);
    }
  }

  /** A full node's hash edge is replaced by the node it was loaded as. */
  lemma ResolveFull(db: Db, b: nat, cells: Cells, cells': Cells, a: nat, t: Tree, i: nat, n: Node)
    requires a < b <= |cells| && UnownedFrom(cells, b)
    requires Denotes(db, cells, Ptr(a), t) && cells[a].FullCell? && i < 16
    requires Fresh(db, b, cells, n, t.kids[i]) && cells[a].kids[i].HashNode?
    requires cells' == cells[a := cells[a].(kids := cells[a].kids[i := n])]
    ensures Keeps(db, b, cells, cells')
  {
    var kids, kids' := cells[a].kids, cells'[a].kids;
    forall j | 0 <= j < 17 ensures KidResolved(db, b, cells, cells', kids[j], kids'[j], t.kids[j]) {
      if j == i {
        Frame(db, cells, cells', n, t.kids[i]);
        forall e | e > 0 ensures Separate(cells', e, n, t.kids[i]) {
          UnownedSeparate(cells', e, n, t.kids[i]);
        }
      } else {
        NotBelowItself(db, cells, a, kids[j], t.kids[j], t);
        Frame(db, cells, cells', kids[j], t.kids[j]);
        forall e: nat | e > 0 && Separate(cells, e, kids[j], t.kids[j]) ensures Separate(cells', e, kids[j], t.kids[j]) {
          FrameSeparate(db, cells, cells', e, kids[j], t.kids[j]);
        }
      }
    }
    FullResolved(db, b, cells, cells', a, t);
    UpdateKeeps(db, b, cells, cells', a, t);
  }

  ghost predicate KidResolved(db: Db, b: nat, cells: Cells, cells': Cells, n: Node, n': Node, t: Tree) {
    && Denotes(db, cells', n', t)
    && Reach(cells, n, t) <= Reach(cells', n', t)
    && (forall x :: x in Reach(cells', n', t) ==> x in Reach(cells, n, t) || x >= b)
    && forall e :: e > 0 && Separate(cells, e, n, t) ==> Separate(cells', e, n', t)
  }

  lemma FullResolved(db: Db, b: nat, cells: Cells, cells': Cells, a: nat, t: Tree)
    requires a < b <= |cells| == |cells'| && UnownedFrom(cells', b)
    requires Denotes(db, cells, Ptr(a), t) && cells[a].FullCell? && |t.kids| == 17
    requires cells'[a].FullCell? && |cells'[a].kids| == 17 && cells'[a] == cells[a].(kids := cells'[a].kids)
    requires forall x :: 0 <= x < |cells| ==> SameOwner(cells[x], cells'[x])
    requires forall j :: 0 <= j < 17 ==> KidResolved(db, b, cells, cells', cells[a].kids[j], cells'[a].kids[j], t.kids[j])
    ensures KeepsAt(db, b, cells, cells', Ptr(a), t)
  {
    var kids, kids' := cells[a].kids, cells'[a].kids;
    assert forall j :: 0 <= j < 17 ==> Denotes(db, cells', kids'[j], t.kids[j]) by {
      assert forall j :: 0 <= j < 17 ==> KidResolved(db, b, cells, cells', kids[j], kids'[j], t.kids[j]);
    }
    forall x | x in KidsReach(cells', kids', t) ensures x in KidsReach(cells, kids, t) || x >= b {
      var j :| 0 <= j < 17 && x in Reach(cells', kids'[j], t.kids[j]);
      assert KidResolved(db, b, cells, cells', kids[j], kids'[j], t.kids[j]);
    }
    forall x | x in KidsReach(cells, kids, t) ensures x in KidsReach(cells', kids', t) {
      var j :| 0 <= j < 17 && x in Reach(cells, kids[j], t.kids[j]);
      assert KidResolved(db, b, cells, cells', kids[j], kids'[j], t.kids[j]);
    }
    forall e: nat | e > 0 && Separate(cells, e, Ptr(a), t) ensures Separate(cells', e, Ptr(a), t) {
      forall j | 0 <= j < 17 ensures Separate(cells', e, kids'[j], t.kids[j]) {
        assert KidResolved(db, b, cells, cells', kids[j], kids'[j], t.kids[j]);
        assert Separate(cells, e, kids[j], t.kids[j]);
      }
      assert forall j :: 0 <= j < 17 ==> KidResolved(db, b, cells, cells', kids[j], kids'[j], t.kids[j]);
      KidsApart(b, cells, cells', e, kids, kids', t, t);
    }
  }
}
