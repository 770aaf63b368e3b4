/** Txn.insert and Txn.writeNode on nodes in memory (state/immutable-trie/trie.go:332-446). */
module TrieInsert {
  import opened Nibbles
  import opened Rlp
  import opened Options
  import opened PatriciaTree
  import opened TrieNodes
  import opened TrieFrames
  import opened TrieStorage

  /** `n` stands for `t`, its owned nodes are separate, and it reaches only `s` and cells from `b` on. */
  ghost predicate Good(db: Db, cells: Cells, e: nat, n: Node, t: Tree, s: set<nat>, b: nat) {
    && Denotes(db, cells, n, t) && Separate(cells, e, n, t)
    && forall x :: x in Reach(cells, n, t) ==> x in s || x >= b
  }

  /** Only cells of `s` that epoch `e` owns were changed, and they still are; new ones have epoch 0 or `e`. */
  ghost predicate Changed(cells: Cells, cells': Cells, e: nat, s: set<nat>) {
    && |cells| <= |cells'|
    && (forall x :: 0 <= x < |cells| && cells'[x] != cells[x] ==> x in s && Owned(cells, e, x) && Owned(cells', e, x))
    && forall x :: |cells| <= x < |cells'| && cells'[x].FullCell? ==> cells'[x].epoch in {0, e}
  }

  lemma GoodFrame(db: Db, cells: Cells, cells': Cells, e: nat, n: Node, t: Tree, s: set<nat>, b: nat)
    requires Good(db, cells, e, n, t, s, b) && SameOn(cells, cells', Reach(cells, n, t))
    ensures Good(db, cells', e, n, t, s, b) && Reach(cells', n, t) == Reach(cells, n, t)
  {
    Frame(db, cells, cells', n, t);
    FrameSeparate(db, cells, cells', e, n, t);
  }

  lemma GoodShort(db: Db, cells: Cells, e: nat, k: Hex, c: Node, u: Tree, s: set<nat>, b: nat)
    requires Good(db, cells, e, c, u, s, b) && b <= |cells|
    ensures Good(db, cells + [ShortCell(None, k, c)], e, Ptr(|cells|), Short(k, u), s, b)
  {
    var cells' := cells + [ShortCell(None, k, c)];
    GoodFrame(db, cells, cells', e, c, u, s, b);
    assert Reach(cells', Ptr(|cells|), Short(k, u)) == {|cells|} + Reach(cells', c, u);
  }

  /** The edges of a full node, all good and apart. */
  ghost predicate GoodKids(db: Db, cells: Cells, e: nat, kids: seq<Node>, t: Tree, s: set<nat>, b: nat) {
    && t.Full? && |kids| == |t.kids| == 17
    && (forall i :: 0 <= i < 17 ==> Good(db, cells, e, kids[i], t.kids[i], s, b))
    && Apart(cells, e, kids, t)
  }

  lemma GoodFull(db: Db, cells: Cells, a: nat, e: nat, t: Tree, s: set<nat>, b: nat)
    requires a < |cells| && cells[a].FullCell? && cells[a].hash.None?
    requires GoodKids(db, cells, e, cells[a].kids, t, s, b) && (a in s || a >= b)
    ensures Good(db, cells, e, Ptr(a), t, s, b)
  {
    var kids := cells[a].kids;
    assert forall i :: 0 <= i < 17 ==> Good(db, cells, e, kids[i], t.kids[i], s, b);
    forall x | x in KidsReach(cells, kids, t) ensures x in s || x >= b {
      var i :| 0 <= i < 17 && x in Reach(cells, kids[i], t.kids[i]);
      assert Good(db, cells, e, kids[i], t.kids[i], s, b);
    }
    assert Reach(cells, Ptr(a), t) == {a} + KidsReach(cells, kids, t);
  }

  /** What is known when an insertion below edge `i` of the owned full node at `a` has returned `n`. */
  ghost predicate EdgeInserted(db: Db, cells: Cells, cells1: Cells, e: nat, a: nat, t: Tree, i: nat, n: Node, u: Tree, s: set<nat>) {
    && a < |cells| && cells[a].FullCell? && cells[a].epoch == e && cells[a].hash.None?
    && GoodKids(db, cells, e, cells[a].kids, t, s, |cells|) && i < 17
    && (forall j :: 0 <= j < 17 ==> a !in Reach(cells, cells[a].kids[j], t.kids[j]))
    && Good(db, cells1, e, n, u, Reach(cells, cells[a].kids[i], t.kids[i]), |cells|)
    && Changed(cells, cells1, e, Reach(cells, cells[a].kids[i], t.kids[i]))
  }

  lemma EdgeKept(db: Db, cells: Cells, cells1: Cells, e: nat, a: nat, t: Tree, i: nat, n: Node, u: Tree, s: set<nat>, c: Cell, j: nat)
    requires EdgeInserted(db, cells, cells1, e, a, t, i, n, u, s) && j < 17 && j != i
    ensures var kids := cells[a].kids;
      && Good(db, cells1[a := c], e, kids[j], t.kids[j], s, |cells|)
      && Reach(cells1[a := c], kids[j], t.kids[j]) == Reach(cells, kids[j], t.kids[j])
  {
    var kids := cells[a].kids;
    assert Good(db, cells, e, kids[j], t.kids[j], s, |cells|);
    forall x: nat | x in Reach(cells, kids[j], t.kids[j]) && x < |cells| ensures cells1[a := c][x] == cells[x] {
      if x in Reach(cells, kids[i], t.kids[i]) {
        assert Shared(cells, kids, t, x);
      }
    }
    GoodFrame(db, cells, cells1[a := c], e, kids[j], t.kids[j], s, |cells|);
  }

  lemma EdgeNew(db: Db, cells: Cells, cells1: Cells, e: nat, a: nat, t: Tree, i: nat, n: Node, u: Tree, s: set<nat>, c: Cell)
    requires EdgeInserted(db, cells, cells1, e, a, t, i, n, u, s)
    ensures Good(db, cells1[a := c], e, n, u, Reach(cells, cells[a].kids[i], t.kids[i]), |cells|)
    ensures Good(db, cells1[a := c], e, n, u, s, |cells|)
  {
    var r := Reach(cells, cells[a].kids[i], t.kids[i]);
    GoodFrame(db, cells1, cells1[a := c], e, n, u, r, |cells|);
    assert Good(db, cells, e, cells[a].kids[i], t.kids[i], s, |cells|);
  }

  lemma EdgesApart(db: Db, cells: Cells, cells1: Cells, e: nat, a: nat, t: Tree, i: nat, n: Node, u: Tree, s: set<nat>, c: Cell)
    requires EdgeInserted(db, cells, cells1, e, a, t, i, n, u, s)
    ensures Apart(cells1[a := c], e, cells[a].kids[i := n], Full(t.kids[i := u]))
  {
    var kids, cells2, kids', t' := cells[a].kids, cells1[a := c], cells[a].kids[i := n], Full(t.kids[i := u]);
    EdgeNew(db, cells, cells1, e, a, t, i, n, u, s, c);
    forall x: nat | Shared(cells2, kids', t', x) ensures !Owned(cells2, e, x) {
      var j, l :| 0 <= j < l < 17 && x in Reach(cells2, kids'[j], t'.kids[j]) && x in Reach(cells2, kids'[l], t'.kids[l]);
      var m := if j == i then l else j;
      EdgeKept(db, cells, cells1, e, a, t, i, n, u, s, c, m);
      ReachBound(cells, kids[m], t.kids[m], x);
      if j != i && l != i {
        EdgeKept(db, cells, cells1, e, a, t, i, n, u, s, c, l);
      }
      assert x in Reach(cells, kids[j], t.kids[j]) && x in Reach(cells, kids[l], t.kids[l]);
      assert Shared(cells, kids, t, x);
    }
  }

  /** setEdge on an owned full node, after the insertion below that edge. */
  lemma SetEdge(db: Db, cells: Cells, cells1: Cells, e: nat, a: nat, t: Tree, i: nat, n: Node, u: Tree, s: set<nat>)
    requires EdgeInserted(db, cells, cells1, e, a, t, i, n, u, s) && (a in s || a >= |cells|)
    ensures cells1[a] == cells[a]
    ensures Good(db, cells1[a := cells[a].(kids := cells[a].kids[i := n])], e, Ptr(a), Full(t.kids[i := u]), s, |cells|)
  {
    var kids := cells[a].kids;
    var c := cells[a].(kids := kids[i := n]);
    forall j | 0 <= j < 17
      ensures Good(db, cells1[a := c], e, c.kids[j], Full(t.kids[i := u]).kids[j], s, |cells|)
    {
      if j == i {
        EdgeNew(db, cells, cells1, e, a, t, i, n, u, s, c);
      } else {
        EdgeKept(db, cells, cells1, e, a, t, i, n, u, s, c, j);
      }
    }
    EdgesApart(db, cells, cells1, e, a, t, i, n, u, s, c);
    GoodFull(db, cells1[a := c], a, e, Full(t.kids[i := u]), s, |cells|);
  }

  /** What every insertion leaves behind: the inserted trie, and no change to a node it does not own. */
  ghost predicate Inserted(db: Db, cells: Cells, cells': Cells, e: nat, n: Node, t: Tree, n': Node, t': Tree) {
    && Good(db, cells', e, n', t', Reach(cells, n, t), |cells|)
    && Changed(cells, cells', e, Reach(cells, n, t))
  }

  method InsertNode(db: Db, cells: Cells, e: nat, n: Node, s: Hex, v: Buf, ghost t: Tree)
    returns (cells': Cells, n': Node)
    requires e > 0 && v != EMPTY && Fits(t, s)
    requires Denotes(db, cells, n, t) && Separate(cells, e, n, t)
    ensures Inserted(db, cells, cells', e, n, t, n', Insert(t, s, v))
    decreases |s|, t, if n.HashNode? then 2 else 1
  {
    match n
    case NilNode =>
      cells', n' := NewLeaf(db, cells, e, s, v);
    case ValueNode(_) =>
      cells', n' := cells, ValueNode(v);
    case HashNode(h) =>
      var got;
      cells', got := GetNode(db, cells, h, t);
      ghost var cells1 := cells';
      UnownedSeparate(cells1, e, got.node, t);
      cells', n' := InsertNode(db, cells', e, got.node, s, v, t);
      InsertedLoaded(db, cells, cells1, cells', e, n, got.node, t, n', Insert(t, s, v));
    case Ptr(a) =>
      match cells[a] {
        case ShortCell(_, _, _) =>
          cells', n' := InsertShort(db, cells, e, a, s, v, t);
        case FullCell(_, _, _) =>
          cells', n' := InsertFull(db, cells, e, a, s, v, t);
      }
  }

  method NewLeaf(ghost db: Db, cells: Cells, ghost e: nat, s: Hex, v: Buf) returns (cells': Cells, n': Node)
    requires v != EMPTY && (s == [] || Terminated(s))
    ensures cells <= cells' && UnownedFrom(cells', |cells|)
    ensures Good(db, cells', e, n', Insert(Nil, s, v), {}, |cells|)
  {
    if s == [] {
      cells', n' := cells, ValueNode(v);
    } else {
      GoodShort(db, cells, e, s, ValueNode(v), Leaf(v), {}, |cells|);
      cells', n' := cells + [ShortCell(None, s, ValueNode(v))], Ptr(|cells|);
    }
  }

  /** Inserting into a node just loaded changes no older cell. */
  lemma InsertedLoaded(db: Db, cells: Cells, cells1: Cells, cells': Cells, e: nat, n: Node, m: Node, t: Tree, n': Node, t': Tree)
    requires cells <= cells1 && UnownedFrom(cells1, |cells|) && e > 0
    requires Fresh(db, |cells|, cells1, m, t) && Inserted(db, cells1, cells', e, m, t, n', t')
    ensures Inserted(db, cells, cells', e, n, t, n', t')
  {
  }

  method InsertShort(db: Db, cells: Cells, e: nat, a: nat, s: Hex, v: Buf, ghost t: Tree)
    returns (cells': Cells, n': Node)
    requires e > 0 && v != EMPTY && Fits(t, s) && t.Short?
    requires Denotes(db, cells, Ptr(a), t) && Separate(cells, e, Ptr(a), t)
    ensures Inserted(db, cells, cells', e, Ptr(a), t, n', Insert(t, s, v))
    decreases |s|, t, 0
  {
    var k, c := cells[a].key, cells[a].child;
    var p := ComputePrefixLen(s, k);
    ghost var reach := Reach(cells, Ptr(a), t);
    if p == |k| {
      FitsBelowShort(t, s);
      var child;
      cells', child := InsertNode(db, cells, e, c, s[p..], v, t.child);
      GoodShort(db, cells', e, k, child, Insert(t.child, s[p..], v), reach, |cells|);
      n' := Ptr(|cells'|);
      cells' := cells' + [ShortCell(None, k, child)];
    } else {
      cells', n' := SplitAndInsert(db, cells, e, a, p, s, v, t);
    }
  }

  method SplitAndInsert(ghost db: Db, cells: Cells, e: nat, a: nat, p: nat, s: Hex, v: Buf, ghost t: Tree)
    returns (cells': Cells, n': Node)
    requires e > 0 && v != EMPTY && Fits(t, s) && t.Short? && p == PrefixLen(s, t.key) < |t.key|
    requires Denotes(db, cells, Ptr(a), t) && Separate(cells, e, Ptr(a), t)
    ensures Inserted(db, cells, cells', e, Ptr(a), t, n', Insert(t, s, v))
  {
    SplitEdges(t, s);
    cells', n' := SplitShort(db, cells, e, a, p, s, v, t);
    assert Insert(t, s, v) == if p == 0 then SplitTree(t, p, s, v) else Short(s[..p], SplitTree(t, p, s, v));
    if p != 0 {
      GoodShort(db, cells', e, s[..p], n', SplitTree(t, p, s, v), Reach(cells, Ptr(a), t), |cells|);
      cells', n' := cells' + [ShortCell(None, s[..p], n')], Ptr(|cells'|);
    }
  }

  /** The branch an insertion opens at position `p` of the short node `t`. */
  ghost function SplitTree(t: Tree, p: nat, s: Hex, v: Buf): (b: Tree)
    requires t.Short? && p < |t.key| && p < |s| && 0 <= s[p] < 17 && 0 <= t.key[p] < 17 && Fits(Nil, s[p + 1..])
  {
    Full(Branch(t.key, p, t.child).kids[s[p] := Insert(Nil, s[p + 1..], v)])
  }

  method SplitShort(ghost db: Db, cells: Cells, e: nat, a: nat, p: nat, s: Hex, v: Buf, ghost t: Tree)
    returns (cells': Cells, n': Node)
    requires e > 0 && v != EMPTY && Denotes(db, cells, Ptr(a), t) && Separate(cells, e, Ptr(a), t) && t.Short?
    requires p < |t.key| && p < |s| && 0 <= s[p] < 17 && 0 <= t.key[p] < 17 && s[p] != t.key[p]
    requires Fits(Nil, s[p + 1..])
    ensures cells <= cells' && forall x :: |cells| <= x < |cells'| && cells'[x].FullCell? ==> cells'[x].epoch in {0, e}
    ensures Good(db, cells', e, n', SplitTree(t, p, s, v), Reach(cells, Ptr(a), t), |cells|)
  {
    var k, c := cells[a].key, cells[a].child;
    ghost var reach := Reach(cells, Ptr(a), t);
    cells' := cells;
    var rest := c;
    ghost var restTree := t.child;
    if |k| > p + 1 {
      GoodShort(db, cells, e, k[p + 1..], c, t.child, reach, |cells|);
      cells', rest := cells + [ShortCell(None, k[p + 1..], c)], Ptr(|cells|);
      restTree := Short(k[p + 1..], t.child);
    }
    ghost var cells1 := cells';
    var leaf;
    cells', leaf := NewLeaf(db, cells', e, s[p + 1..], v);
    ghost var cells2 := cells';
    var kids := seq(17, _ => NilNode)[k[p] := rest][s[p] := leaf];
    cells', n' := cells' + [FullCell(None, e, kids)], Ptr(|cells'|);
    GoodFrame(db, cells1, cells', e, rest, restTree, reach, |cells|);
    GoodFrame(db, cells2, cells', e, leaf, Insert(Nil, s[p + 1..], v), {}, |cells1|);
    ApartBelow(cells1, cells', rest, restTree, leaf, Insert(Nil, s[p + 1..], v));
    ForkApart(cells', e, kids, SplitTree(t, p, s, v), k[p], s[p]);
    GoodFull(db, cells', |cells2|, e, SplitTree(t, p, s, v), reach, |cells|);
  }

  /** What was there before and what came after reach nothing in common. */
  lemma ApartBelow(cells: Cells, cells': Cells, n: Node, t: Tree, n': Node, t': Tree)
    requires Reach(cells', n, t) == Reach(cells, n, t) && forall x :: x in Reach(cells', n', t') ==> x >= |cells|
    ensures Reach(cells', n, t) !! Reach(cells', n', t')
  {
    forall x | x in Reach(cells', n, t) ensures x < |cells| {
      ReachBound(cells, n, t, x);
    }
  }

  /** Two edges that reach nothing in common are apart. */
  lemma ForkApart(cells: Cells, e: nat, kids: seq<Node>, t: Tree, i: nat, j: nat)
    requires t.Full? && |kids| == |t.kids| == 17 && i < 17 && j < 17
    requires forall m :: 0 <= m < 17 && m != i && m != j ==> kids[m].NilNode?
    requires Reach(cells, kids[i], t.kids[i]) !! Reach(cells, kids[j], t.kids[j])
    ensures Apart(cells, e, kids, t)
  {
  }

  method InsertFull(db: Db, cells: Cells, e: nat, a: nat, s: Hex, v: Buf, ghost t: Tree)
    returns (cells': Cells, n': Node)
    requires e > 0 && v != EMPTY && Fits(t, s) && t.Full?
    requires Denotes(db, cells, Ptr(a), t) && Separate(cells, e, Ptr(a), t)
    ensures Inserted(db, cells, cells', e, Ptr(a), t, n', Insert(t, s, v))
    decreases |s|, t, 0
  {
    FitsBelowFull(t, s);
    var i := s[0];
    ghost var reach := Reach(cells, Ptr(a), t);
    var b;
    cells', b := WriteNode(db, cells, e, a, t);
    var cells1 := cells';
    assert Good(db, cells1, e, cells1[b].kids[i], t.kids[i], reach + {b}, |cells1|);
    var child;
    cells', child := InsertNode(db, cells1, e, cells1[b].kids[i], s[1..], v, t.kids[i]);
    ghost var u := Insert(t.kids[i], s[1..], v);
    SetEdge(db, cells1, cells', e, b, t, i, child, u, reach + {b});
    InsertedFull(db, cells, cells1, cells', e, a, b, t, i, child, u);
    cells' := cells'[b := cells'[b].(kids := cells'[b].kids[i := child])];
    n' := Ptr(b);
  }

  /** A full node of epoch `e` with the content of the one at `a`: that one if it is owned, else a copy. */
  method WriteNode(ghost db: Db, cells: Cells, e: nat, a: nat, ghost t: Tree) returns (cells': Cells, b: nat)
    requires e > 0 && t.Full? && Denotes(db, cells, Ptr(a), t) && Separate(cells, e, Ptr(a), t)
    ensures cells <= cells' && Writable(db, cells, cells', e, a, b, t)
  {
    if cells[a].epoch == e {
      cells', b := cells, a;
      OwnKids(db, cells, e, a, t);
    } else {
      cells', b := cells + [FullCell(None, e, cells[a].kids)], |cells|;
      CopiedKids(db, cells, e, a, t);
    }
  }

  ghost predicate Writable(db: Db, cells: Cells, cells': Cells, e: nat, a: nat, b: nat, t: Tree) {
    && b < |cells'| && cells'[b].FullCell? && cells'[b].epoch == e && cells'[b].hash.None?
    && ((cells' == cells && b == a) || (|cells'| == |cells| + 1 && b == |cells|))
    && GoodKids(db, cells', e, cells'[b].kids, t, Reach(cells, Ptr(a), t) + {b}, |cells'|)
    && forall j :: 0 <= j < 17 ==>
         && b !in Reach(cells', cells'[b].kids[j], t.kids[j])
         && Reach(cells', cells'[b].kids[j], t.kids[j]) <= Reach(cells, Ptr(a), t)
  }

  lemma KidWithin(db: Db, cells: Cells, e: nat, a: nat, t: Tree, j: nat)
    requires t.Full? && Denotes(db, cells, Ptr(a), t) && Separate(cells, e, Ptr(a), t) && j < 17
    ensures Good(db, cells, e, cells[a].kids[j], t.kids[j], Reach(cells, Ptr(a), t), |cells|)
    ensures a !in Reach(cells, cells[a].kids[j], t.kids[j])
    ensures Reach(cells, cells[a].kids[j], t.kids[j]) <= Reach(cells, Ptr(a), t)
  {
    NotBelowItself(db, cells, a, cells[a].kids[j], t.kids[j], t);
  }

  lemma OwnKids(db: Db, cells: Cells, e: nat, a: nat, t: Tree)
    requires e > 0 && t.Full? && Denotes(db, cells, Ptr(a), t) && Separate(cells, e, Ptr(a), t)
    requires cells[a].epoch == e
    ensures Writable(db, cells, cells, e, a, a, t)
  {
    forall j | 0 <= j < 17
      ensures Good(db, cells, e, cells[a].kids[j], t.kids[j], Reach(cells, Ptr(a), t) + {a}, |cells|)
      ensures a !in Reach(cells, cells[a].kids[j], t.kids[j])
      ensures Reach(cells, cells[a].kids[j], t.kids[j]) <= Reach(cells, Ptr(a), t)
    {
      KidWithin(db, cells, e, a, t, j);
    }
  }

  lemma CopiedKids(db: Db, cells: Cells, e: nat, a: nat, t: Tree)
    requires e > 0 && t.Full? && Denotes(db, cells, Ptr(a), t) && Separate(cells, e, Ptr(a), t)
    ensures Writable(db, cells, cells + [FullCell(None, e, cells[a].kids)], e, a, |cells|, t)
  {
    var kids, cells' := cells[a].kids, cells + [FullCell(None, e, cells[a].kids)];
    forall j | 0 <= j < 17
      ensures Good(db, cells', e, kids[j], t.kids[j], Reach(cells, Ptr(a), t) + {|cells|}, |cells'|)
      ensures |cells| !in Reach(cells', kids[j], t.kids[j])
      ensures Reach(cells', kids[j], t.kids[j]) == Reach(cells, kids[j], t.kids[j]) <= Reach(cells, Ptr(a), t)
    {
      KidWithin(db, cells, e, a, t, j);
      GoodFrame(db, cells, cells', e, kids[j], t.kids[j], Reach(cells, Ptr(a), t), |cells|);
      if |cells| in Reach(cells, kids[j], t.kids[j]) {
        ReachBound(cells, kids[j], t.kids[j], |cells|);
      }
      forall x | x in Reach(cells', kids[j], t.kids[j]) ensures x < |cells| {
        ReachBound(cells, kids[j], t.kids[j], x);
      }
    }
    FrameKids(db, cells, cells', e, Ptr(a), t);
  }

  /** The insertion below an edge, followed by setEdge, is an insertion into the full node. */
  lemma InsertedFull(db: Db, cells: Cells, cells1: Cells, cells2: Cells, e: nat, a: nat, b: nat, t: Tree, i: nat, n: Node, u: Tree)
    requires t.Full? && Denotes(db, cells, Ptr(a), t) && cells <= cells1 && e > 0 && |t.kids| == 17
    requires Writable(db, cells, cells1, e, a, b, t) && i < 17
    requires Changed(cells1, cells2, e, Reach(cells1, cells1[b].kids[i], t.kids[i])) && cells2[b] == cells1[b]
    requires Good(db, cells2[b := cells1[b].(kids := cells1[b].kids[i := n])], e, Ptr(b), Full(t.kids[i := u]),
                  Reach(cells, Ptr(a), t) + {b}, |cells1|)
    ensures Inserted(db, cells, cells2[b := cells1[b].(kids := cells1[b].kids[i := n])], e, Ptr(a), t, Ptr(b), Full(t.kids[i := u]))
  {
    assert a in Reach(cells, Ptr(a), t);
  }
}
