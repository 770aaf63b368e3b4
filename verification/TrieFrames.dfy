/**
 Which changes to node cells leave every trie's meaning alone: changes to cells it does not reach,
 and replacing a node's content by content of the same meaning.
 */
module TrieFrames {
  import opened Nibbles
  import opened Rlp
  import opened Options
  import opened PatriciaTree
  import opened TrieNodes

  // Changes outside a trie's cells.

  ghost predicate SameOn(cells: Cells, cells': Cells, s: set<nat>) {
    |cells| <= |cells'| && forall a :: a in s && a < |cells| ==> cells'[a] == cells[a]
  }

  lemma {:induction false} Frame(db: Db, cells: Cells, cells': Cells, n: Node, t: Tree)
    requires Denotes(db, cells, n, t) && SameOn(cells, cells', Reach(cells, n, t))
    ensures Denotes(db, cells', n, t) && Reach(cells', n, t) == Reach(cells, n, t)
    decreases t
  {
    if n.Ptr? {
      assert n.addr in Reach(cells, n, t);
      match cells[n.addr]
      case ShortCell(_, _, c) => Frame(db, cells, cells', c, t.child);
      case FullCell(_, _, kids) =>
        forall i | 0 <= i < 17
          ensures Denotes(db, cells', kids[i], t.kids[i])
          ensures Reach(cells', kids[i], t.kids[i]) == Reach(cells, kids[i], t.kids[i])
        {
          assert Reach(cells, kids[i], t.kids[i]) <= Reach(cells, n, t);
          Frame(db, cells, cells', kids[i], t.kids[i]);
        }
        assert KidsReach(cells', kids, t) == KidsReach(cells, kids, t);
    }
  }

  lemma {:induction false} FrameSeparate(db: Db, cells: Cells, cells': Cells, e: nat, n: Node, t: Tree)
    requires Denotes(db, cells, n, t) && SameOn(cells, cells', Reach(cells, n, t))
    requires Separate(cells, e, n, t)
    ensures Separate(cells', e, n, t)
    decreases t
  {
    if n.Ptr? {
      assert n.addr in Reach(cells, n, t);
      match cells[n.addr]
      case ShortCell(_, _, c) => FrameSeparate(db, cells, cells', e, c, t.child);
      case FullCell(_, _, kids) =>
        forall i | 0 <= i < 17 ensures Separate(cells', e, kids[i], t.kids[i]) {
          assert Reach(cells, kids[i], t.kids[i]) <= Reach(cells, n, t);
          FrameSeparate(db, cells, cells', e, kids[i], t.kids[i]);
        }
        FrameKids(db, cells, cells', e, n, t);
    }
  }

  lemma FrameKids(db: Db, cells: Cells, cells': Cells, e: nat, n: Node, t: Tree)
    requires Denotes(db, cells, n, t) && SameOn(cells, cells', Reach(cells, n, t))
    requires n.Ptr? && cells[n.addr].FullCell? && Apart(cells, e, cells[n.addr].kids, t)
    ensures Apart(cells', e, cells[n.addr].kids, t)
  {
    var kids := cells[n.addr].kids;
    forall i | 0 <= i < 17
      ensures Reach(cells', kids[i], t.kids[i]) == Reach(cells, kids[i], t.kids[i]) <= Reach(cells, n, t)
    {
      assert Reach(cells, kids[i], t.kids[i]) <= Reach(cells, n, t);
      Frame(db, cells, cells', kids[i], t.kids[i]);
    }
    forall x: nat | Shared(cells', kids, t, x) ensures !Owned(cells', e, x) {
      var i, j :| 0 <= i < j < 17 && x in Reach(cells', kids[i], t.kids[i]) && x in Reach(cells', kids[j], t.kids[j]);
      assert x in Reach(cells, kids[i], t.kids[i]) && x in Reach(cells, kids[j], t.kids[j]);
      assert Shared(cells, kids, t, x);
      ReachBound(cells, kids[i], t.kids[i], x);
    }
  }

  /** The cells a node reaches exist. */
  lemma {:induction false} ReachBound(cells: Cells, n: Node, t: Tree, a: nat)
    requires a in Reach(cells, n, t)
    ensures a < |cells|
    decreases t
  {
    if a != n.addr {
      match cells[n.addr]
      case ShortCell(_, _, c) => ReachBound(cells, c, t.child, a);
      case FullCell(_, _, kids) =>
        var i :| 0 <= i < 17 && a in Reach(cells, kids[i], t.kids[i]);
        ReachBound(cells, kids[i], t.kids[i], a);
    }
  }

  // Changes that keep every meaning.

  ghost predicate SameOwner(c: Cell, c': Cell) {
    c.FullCell? == c'.FullCell? && (c.FullCell? ==> c.epoch == c'.epoch)
  }

  /** Cells from `b` on belong to no transaction: decoded or copied nodes have epoch 0. */
  ghost predicate UnownedFrom(cells: Cells, b: nat) {
    forall a :: b <= a < |cells| && cells[a].FullCell? ==> cells[a].epoch == 0
  }

  ghost predicate KeepsAt(db: Db, b: nat, cells: Cells, cells': Cells, n: Node, t: Tree) {
    && Denotes(db, cells', n, t)
    && Reach(cells, n, t) <= Reach(cells', n, t)
    && (forall x :: x in Reach(cells', n, t) ==> x in Reach(cells, n, t) || x >= b)
    && forall e :: e > 0 && Separate(cells, e, n, t) ==> Separate(cells', e, n, t)
  }

  /** Every node means what it did, and reaches at most unowned cells from `b` on besides its old ones. */
  ghost predicate Keeps(db: Db, b: nat, cells: Cells, cells': Cells) {
    && b <= |cells| <= |cells'|
    && (forall a :: 0 <= a < |cells| ==> SameOwner(cells[a], cells'[a]))
    && UnownedFrom(cells', b)
    && forall n, t :: Denotes(db, cells, n, t) ==> KeepsAt(db, b, cells, cells', n, t)
  }

  lemma KeepsTransitive(db: Db, b: nat, b': nat, cells: Cells, cells': Cells, cells'': Cells)
    requires Keeps(db, b, cells, cells') && Keeps(db, b', cells', cells'') && b <= b'
    ensures Keeps(db, b, cells, cells'')
  {
    forall a | b <= a < |cells''| && cells''[a].FullCell? ensures cells''[a].epoch == 0 {
      if a < |cells'| {
        assert SameOwner(cells'[a], cells''[a]);
      }
    }
    forall a | 0 <= a < |cells| ensures SameOwner(cells[a], cells''[a]) {
      assert SameOwner(cells[a], cells'[a]) && SameOwner(cells'[a], cells''[a]);
    }
    forall n, t | Denotes(db, cells, n, t) ensures KeepsAt(db, b, cells, cells'', n, t) {
      assert KeepsAt(db, b, cells, cells', n, t);
      assert KeepsAt(db, b', cells', cells'', n, t);
    }
  }

  /** Allocation keeps everything. */
  lemma AllocKeeps(db: Db, cells: Cells, cells': Cells)
    requires cells <= cells' && UnownedFrom(cells', |cells|)
    ensures Keeps(db, |cells|, cells, cells')
  {
    forall n, t | Denotes(db, cells, n, t) ensures KeepsAt(db, |cells|, cells, cells', n, t) {
      Frame(db, cells, cells', n, t);
      forall e: nat | e > 0 && Separate(cells, e, n, t) ensures Separate(cells', e, n, t) {
        FrameSeparate(db, cells, cells', e, n, t);
      }
    }
  }

  /** Replacing one cell by one of the same meaning keeps everything. */
  lemma UpdateKeeps(db: Db, b: nat, cells: Cells, cells': Cells, a: nat, u: Tree)
    requires b <= |cells| && a < |cells| == |cells'| && cells' == cells[a := cells'[a]]
    requires SameOwner(cells[a], cells'[a]) && UnownedFrom(cells, b)
    requires Denotes(db, cells, Ptr(a), u) && KeepsAt(db, b, cells, cells', Ptr(a), u)
    ensures Keeps(db, b, cells, cells')
  {
    forall n, t | Denotes(db, cells, n, t) ensures KeepsAt(db, b, cells, cells', n, t) {
      UpdateKeepsAt(db, b, cells, cells', a, u, n, t);
    }
  }

  lemma {:induction false} UpdateKeepsAt(db: Db, b: nat, cells: Cells, cells': Cells, a: nat, u: Tree, n: Node, t: Tree)
    requires b <= |cells| && a < |cells| == |cells'| && cells' == cells[a := cells'[a]]
    requires SameOwner(cells[a], cells'[a]) && UnownedFrom(cells, b)
    requires Denotes(db, cells, Ptr(a), u) && KeepsAt(db, b, cells, cells', Ptr(a), u)
    requires Denotes(db, cells, n, t)
    ensures KeepsAt(db, b, cells, cells', n, t)
    decreases t
  {
    if n == Ptr(a) {
      DenotesUnique(db, cells, n, t, u);
    } else if n.Ptr? {
      match cells[n.addr]
      case ShortCell(_, _, c) => UpdateKeepsAt(db, b, cells, cells', a, u, c, t.child);
      case FullCell(_, _, kids) =>
        forall i | 0 <= i < 17 ensures KeepsAt(db, b, cells, cells', kids[i], t.kids[i]) {
          UpdateKeepsAt(db, b, cells, cells', a, u, kids[i], t.kids[i]);
        }
        KidsKeep(db, b, cells, cells', n, t);
    }
  }

  /** A full node whose edges may have been replaced by others that keep what the old ones meant. */
  lemma KidsKeep(db: Db, b: nat, cells: Cells, cells': Cells, n: Node, t: Tree)
    requires b <= |cells| == |cells'| && UnownedFrom(cells', b)
    requires Denotes(db, cells, n, t) && n.Ptr? && cells[n.addr].FullCell? && cells'[n.addr] == cells[n.addr]
    requires forall x :: 0 <= x < |cells| ==> SameOwner(cells[x], cells'[x])
    requires forall i :: 0 <= i < 17 ==> KeepsAt(db, b, cells, cells', cells[n.addr].kids[i], t.kids[i])
    ensures KeepsAt(db, b, cells, cells', n, t)
  {
    var kids := cells[n.addr].kids;
    forall e: nat | e > 0 && Separate(cells, e, n, t) ensures Separate(cells', e, n, t) {
      forall i | 0 <= i < 17 ensures Separate(cells', e, kids[i], t.kids[i]) {
        assert KeepsAt(db, b, cells, cells', kids[i], t.kids[i]);
        assert Separate(cells, e, kids[i], t.kids[i]);
      }
      KidsApart(b, cells, cells', e, kids, kids, t, t);
    }
  }

  lemma KidsApart(b: nat, cells: Cells, cells': Cells, e: nat, kids: seq<Node>, kids': seq<Node>, t: Tree, t': Tree)
    requires t.Full? && |kids| == |t.kids| == 17 && t'.Full? && |kids'| == |t'.kids| == 17
    requires e > 0 && Apart(cells, e, kids, t)
    requires b <= |cells| <= |cells'| && UnownedFrom(cells', b)
    requires forall x :: 0 <= x < |cells| ==> SameOwner(cells[x], cells'[x])
    requires forall i :: 0 <= i < 17 ==>
      forall x :: x in Reach(cells', kids'[i], t'.kids[i]) ==> x in Reach(cells, kids[i], t.kids[i]) || x >= b
    ensures Apart(cells', e, kids', t')
  {
    forall x: nat | Shared(cells', kids', t', x) ensures !Owned(cells', e, x) {
      var i, j :| 0 <= i < j < 17 && x in Reach(cells', kids'[i], t'.kids[i]) && x in Reach(cells', kids'[j], t'.kids[j]);
      if x < b {
        assert x in Reach(cells, kids[i], t.kids[i]) && x in Reach(cells, kids[j], t.kids[j]);
        assert Shared(cells, kids, t, x);
      }
    }
  }

  /** No node lies below itself. */
  lemma NotBelowItself(db: Db, cells: Cells, a: nat, c: Node, u: Tree, t: Tree)
    requires Denotes(db, cells, Ptr(a), t) && Denotes(db, cells, c, u) && u < t
    ensures a !in Reach(cells, c, u)
  {
    if a in Reach(cells, c, u) {
      var w := ReachDenotes(db, cells, c, u, a);
      DenotesUnique(db, cells, Ptr(a), w, t);
    }
  }

  /** Nodes that own nothing are trivially separate. */
  lemma {:induction false} UnownedSeparate(cells: Cells, e: nat, n: Node, t: Tree)
    requires forall x :: x in Reach(cells, n, t) ==> !Owned(cells, e, x)
    ensures Separate(cells, e, n, t)
    decreases t
  {
    if n.Ptr? && n.addr < |cells| {
      match cells[n.addr]
      case ShortCell(_, _, c) => if t.Short? { UnownedSeparate(cells, e, c, t.child); }
      case FullCell(_, _, kids) =>
        if t.Full? && |kids| == |t.kids| == 17 {
          assert n.addr in Reach(cells, n, t);
          forall i | 0 <= i < 17
            ensures Separate(cells, e, kids[i], t.kids[i])
            ensures Reach(cells, kids[i], t.kids[i]) <= Reach(cells, n, t)
          {
            assert Reach(cells, kids[i], t.kids[i]) <= Reach(cells, n, t);
            UnownedSeparate(cells, e, kids[i], t.kids[i]);
          }
        }
    }
  }
}
