/** Txn.delete on nodes in memory (state/immutable-trie/trie.go:448-593). */
module TrieDelete {
  import opened Nibbles
  import opened Rlp
  import opened Options
  import opened PatriciaTree
  import opened PatriciaDelete
  import opened TrieNodes
  import opened TrieFrames
  import opened TrieStorage
  import opened TrieInsert

  /** What a successful deletion returns: the remaining trie, built from old nodes and unowned new ones. */
  ghost predicate Remains(db: Db, cells: Cells, cells': Cells, e: nat, n: Node, t: Tree, n': Node, t': Tree) {
    Good(db, cells', e, n', t', Reach(cells, n, t), |cells|) && !n'.HashNode?
  }

  method DeleteNode(db: Db, cells: Cells, n: Node, s: Hex, ghost e: nat, ghost t: Tree)
    returns (cells': Cells, r: Option<Node>)
    requires e > 0 && MayMeet(t, s) && Denotes(db, cells, n, t) && Separate(cells, e, n, t)
    ensures Keeps(db, |cells|, cells, cells')
    ensures r.Some? <==> Delete(t, s).Some?
    ensures r.Some? ==> Remains(db, cells, cells', e, n, t, r.value, Delete(t, s).value)
    decreases t, if n.HashNode? then 2 else 1
  {
    match n
    case NilNode =>
      cells', r := cells, None;
      AllocKeeps(db, cells, cells);
    case ValueNode(_) =>
      cells', r := cells, if s == [] then Some(NilNode) else None;
      AllocKeeps(db, cells, cells);
    case HashNode(h) =>
      var got;
      cells', got := GetNode(db, cells, h, t);
      ghost var cells1 := cells';
      UnownedSeparate(cells1, e, got.node, t);
      cells', r := DeleteNode(db, cells', got.node, s, e, t);
      AllocKeeps(db, cells, cells1);
      KeepsTransitive(db, |cells|, |cells1|, cells, cells1, cells');
    case Ptr(a) =>
      match cells[a] {
        case ShortCell(_, _, _) =>
          cells', r := DeleteShort(db, cells, a, s, e, t);
        case FullCell(_, _, _) =>
          cells', r := DeleteFull(db, cells, a, s, e, t);
      }
  }

  /** Clearing a cached hash changes no meaning. */
  lemma ClearHash(db: Db, cells: Cells, a: nat, t: Tree)
    requires Denotes(db, cells, Ptr(a), t) && t.Short?
    ensures Keeps(db, |cells|, cells, cells[a := ShortCell(None, cells[a].key, cells[a].child)])
  {
    var cells' := cells[a := ShortCell(None, cells[a].key, cells[a].child)];
    var c := cells[a].child;
    NotBelowItself(db, cells, a, c, t.child, t);
    Frame(db, cells, cells', c, t.child);
    forall e: nat | e > 0 && Separate(cells, e, Ptr(a), t) ensures Separate(cells', e, Ptr(a), t) {
      FrameSeparate(db, cells, cells', e, c, t.child);
    }
    assert KeepsAt(db, |cells|, cells, cells', Ptr(a), t);
    UpdateKeeps(db, |cells|, cells, cells', a, t);
  }

  method DeleteShort(db: Db, cells: Cells, a: nat, s: Hex, ghost e: nat, ghost t: Tree)
    returns (cells': Cells, r: Option<Node>)
    requires e > 0 && MayMeet(t, s) && t.Short? && Denotes(db, cells, Ptr(a), t) && Separate(cells, e, Ptr(a), t)
    ensures Keeps(db, |cells|, cells, cells')
    ensures r.Some? <==> Delete(t, s).Some?
    ensures r.Some? ==> Remains(db, cells, cells', e, Ptr(a), t, r.value, Delete(t, s).value)
    decreases t, 0
  {
    var k, c := cells[a].key, cells[a].child;
    var p := ComputePrefixLen(s, k);
    cells' := cells[a := ShortCell(None, cells[a].key, cells[a].child)];
    ClearHash(db, cells, a, t);
    if p == |s| {
      r := Some(NilNode);
    } else if p == 0 {
      r := None;
    } else {
      TerminatedSuffix(s, p);
      ghost var cells1 := cells';
      assert KeepsAt(db, |cells|, cells, cells1, Ptr(a), t);
      cells', r := DeleteUnder(db, cells', a, s[p..], e, t);
      KeepsTransitive(db, |cells|, |cells1|, cells, cells1, cells');
    }
  }

  /** The recursive call below a short node, and the node over what it left. */
  method DeleteUnder(db: Db, cells: Cells, a: nat, s: Hex, ghost e: nat, ghost t: Tree)
    returns (cells': Cells, r: Option<Node>)
    requires e > 0 && Terminated(s) && t.Short? && Proper(t) && Denotes(db, cells, Ptr(a), t) && Separate(cells, e, Ptr(a), t)
    ensures Keeps(db, |cells|, cells, cells')
    ensures r.Some? <==> Delete(t.child, s).Some?
    ensures r.Some? ==> Remains(db, cells, cells', e, Ptr(a), t, r.value, Rejoin(t.key, Delete(t.child, s).value))
    decreases t, 0, 0
  {
    var k, c := cells[a].key, cells[a].child;
    assert Reach(cells, c, t.child) <= Reach(cells, Ptr(a), t);
    cells', r := DeleteNode(db, cells, c, s, e, t.child);
    if r.Some? && !r.value.NilNode? {
      ghost var cells1 := cells';
      cells', r := RejoinNode(db, cells', k, r.value, e, Delete(t.child, s).value, Reach(cells, Ptr(a), t), |cells|);
      AllocKeeps(db, cells1, cells');
      KeepsTransitive(db, |cells|, |cells1|, cells, cells1, cells');
    }
  }

  /** A short node over what is left of its child; two short nodes are merged. */
  method RejoinNode(ghost db: Db, cells: Cells, k: Hex, c: Node, ghost e: nat, ghost u: Tree, ghost s: set<nat>, ghost b: nat)
    returns (cells': Cells, r: Option<Node>)
    requires Good(db, cells, e, c, u, s, b) && b <= |cells| && !c.NilNode? && !c.HashNode?
    ensures cells <= cells' && UnownedFrom(cells', |cells|) && r.Some? && !r.value.HashNode?
    ensures Good(db, cells', e, r.value, Rejoin(k, u), s, b)
  {
    if c.Ptr? && cells[c.addr].ShortCell? {
      var sc := cells[c.addr];
      assert Reach(cells, sc.child, u.child) <= Reach(cells, c, u);
      GoodShort(db, cells, e, k + sc.key, sc.child, u.child, s, b);
      cells', r := cells + [ShortCell(None, k + sc.key, sc.child)], Some(Ptr(|cells|));
    } else {
      GoodShort(db, cells, e, k, c, u, s, b);
      cells', r := cells + [ShortCell(None, k, c)], Some(Ptr(|cells|));
    }
  }

  method DeleteFull(db: Db, cells: Cells, a: nat, s: Hex, ghost e: nat, ghost t: Tree)
    returns (cells': Cells, r: Option<Node>)
    requires e > 0 && MayMeet(t, s) && t.Full? && Denotes(db, cells, Ptr(a), t) && Separate(cells, e, Ptr(a), t)
    ensures Keeps(db, |cells|, cells, cells')
    ensures r.Some? <==> Delete(t, s).Some?
    ensures r.Some? ==> Remains(db, cells, cells', e, Ptr(a), t, r.value, Delete(t, s).value)
    decreases t, 0
  {
    MeetBelowFull(t, s);
    var i, kids := s[0], cells[a].kids;
    KidWithin(db, cells, e, a, t, i);
    cells', r := DeleteNode(db, cells, kids[i], s[1..], e, t.kids[i]);
    if r.Some? {
      ghost var cells1 := cells';
      ghost var t' := Full(t.kids[i := Delete(t.kids[i], s[1..]).value]);
      kids := kids[i := r.value];
      EdgesLeftGood(db, cells, cells1, e, a, t, i, r.value, t'.kids[i]);
      EdgesLeftProper(t, s);
      cells', r := CollapseNode(db, cells', kids, e, t', Reach(cells, Ptr(a), t), |cells|);
      AllocKeeps(db, cells1, cells');
      KeepsTransitive(db, |cells|, |cells1|, cells, cells1, cells');
    }
  }

  lemma EdgesLeftProper(t: Tree, s: Hex)
    requires MayMeet(t, s) && t.Full? && 0 <= s[0] < 17 && MayMeet(t.kids[s[0]], s[1..])
    requires Delete(t.kids[s[0]], s[1..]).Some?
    ensures LeftEdges(t.kids[s[0] := Delete(t.kids[s[0]], s[1..]).value])
  {
    if s[1..] != [] {
      DeleteKeepsForm(t.kids[s[0]], s[1..]);
    }
    EdgesLeft(t, s);
  }

  /** After a deletion below edge `i`, the edges of the full node are still good and apart. */
  lemma EdgesLeftGood(db: Db, cells: Cells, cells1: Cells, e: nat, a: nat, t: Tree, i: nat, n: Node, u: Tree)
    requires e > 0 && t.Full? && Denotes(db, cells, Ptr(a), t) && Separate(cells, e, Ptr(a), t) && i < 17 && |t.kids| == 17
    requires Keeps(db, |cells|, cells, cells1) && Remains(db, cells, cells1, e, cells[a].kids[i], t.kids[i], n, u)
    ensures GoodKids(db, cells1, e, cells[a].kids[i := n], Full(t.kids[i := u]), Reach(cells, Ptr(a), t), |cells|)
  {
    var kids, kids', t' := cells[a].kids, cells[a].kids[i := n], Full(t.kids[i := u]);
    forall j | 0 <= j < 17
      ensures Good(db, cells1, e, kids'[j], t'.kids[j], Reach(cells, Ptr(a), t), |cells|)
      ensures forall x :: x in Reach(cells1, kids'[j], t'.kids[j]) ==> x in Reach(cells, kids[j], t.kids[j]) || x >= |cells|
    {
      KidWithin(db, cells, e, a, t, j);
      assert KeepsAt(db, |cells|, cells, cells1, kids[j], t.kids[j]);
    }
    KidsApart(|cells|, cells, cells1, e, kids, kids', t, t');
  }

  /** The node for a full node's remaining edges. */
  method CollapseNode(db: Db, cells: Cells, kids: seq<Node>, ghost e: nat, ghost t: Tree, ghost s: set<nat>, ghost b: nat)
    returns (cells': Cells, r: Option<Node>)
    requires e > 0 && b <= |cells| && GoodKids(db, cells, e, kids, t, s, b) && LeftEdges(t.kids)
    ensures cells <= cells' && UnownedFrom(cells', |cells|)
    ensures r.Some? && !r.value.HashNode? && Good(db, cells', e, r.value, Collapse(t.kids), s, b)
  {
    var indx, notEmpty := ScanEdges(db, cells, kids, e, t, s, b);
    if notEmpty {
      KidsFrame(db, cells, cells + [FullCell(None, 0, kids)], e, kids, t, s, b);
      cells', r := cells + [FullCell(None, 0, kids)], Some(Ptr(|cells|));
      GoodFull(db, cells', |cells|, e, t, s, b);
    } else if indx == 16 {
      assert Good(db, cells, e, kids[16], t.kids[16], s, b);
      GoodShort(db, cells, e, [16], kids[16], t.kids[16], s, b);
      cells', r := cells + [ShortCell(None, [16], kids[16])], Some(Ptr(|cells|));
    } else {
      assert Good(db, cells, e, kids[indx], t.kids[indx], s, b);
      cells', r := GraftNode(db, cells, indx, kids[indx], e, t.kids[indx], s, b);
    }
  }

  /** The loop that looks for a first and a second edge; 16 stands for none. */
  method ScanEdges(ghost db: Db, ghost cells: Cells, kids: seq<Node>, ghost e: nat, ghost t: Tree, ghost s: set<nat>, ghost b: nat)
    returns (indx: nat, notEmpty: bool)
    requires GoodKids(db, cells, e, kids, t, s, b)
    ensures indx == FirstEdge(t.kids, 0)
    ensures notEmpty <==> indx < 16 && (FirstEdge(t.kids, indx + 1) < 16 || !t.kids[16].Nil?)
  {
    assert forall j :: 0 <= j < 17 ==> Good(db, cells, e, kids[j], t.kids[j], s, b);
    assert forall j :: 0 <= j < 17 ==> (kids[j].NilNode? <==> t.kids[j].Nil?);
    indx, notEmpty := 16, false;
    var edge := 0;
    while edge < 16 && !notEmpty
      invariant edge <= 16
      invariant indx == 16 ==> !notEmpty && FirstEdge(t.kids, 0) == FirstEdge(t.kids, edge)
      invariant indx < 16 ==> indx == FirstEdge(t.kids, 0) < edge
      invariant indx < 16 && !notEmpty ==> FirstEdge(t.kids, indx + 1) == FirstEdge(t.kids, edge)
      invariant notEmpty ==> indx < 16 && FirstEdge(t.kids, indx + 1) < 16
    {
      if !kids[edge].NilNode? {
        if indx != 16 {
          notEmpty := true;
        } else {
          indx := edge;
        }
      }
      edge := edge + 1;
    }
    if indx != 16 && !kids[16].NilNode? {
      notEmpty := true;
    }
  }

  lemma KidsFrame(db: Db, cells: Cells, cells': Cells, e: nat, kids: seq<Node>, t: Tree, s: set<nat>, b: nat)
    requires GoodKids(db, cells, e, kids, t, s, b) && cells <= cells'
    ensures GoodKids(db, cells', e, kids, t, s, b)
  {
    forall j | 0 <= j < 17
      ensures Good(db, cells', e, kids[j], t.kids[j], s, b)
      ensures Reach(cells', kids[j], t.kids[j]) == Reach(cells, kids[j], t.kids[j])
    {
      assert Good(db, cells, e, kids[j], t.kids[j], s, b);
      GoodFrame(db, cells, cells', e, kids[j], t.kids[j], s, b);
    }
    forall x: nat | Shared(cells', kids, t, x) ensures !Owned(cells', e, x) {
      var i, j :| 0 <= i < j < 17 && x in Reach(cells', kids[i], t.kids[i]) && x in Reach(cells', kids[j], t.kids[j]);
      ReachBound(cells, kids[i], t.kids[i], x);
      assert Shared(cells, kids, t, x);
    }
  }

  /** The only edge left; a hash has to be loaded first, to see whether it is a short node. */
  method GraftNode(db: Db, cells: Cells, i: nat, n: Node, ghost e: nat, ghost u: Tree, ghost s: set<nat>, ghost b: nat)
    returns (cells': Cells, r: Option<Node>)
    requires e > 0 && b <= |cells| && Good(db, cells, e, n, u, s, b) && Proper(u)
    ensures cells <= cells' && UnownedFrom(cells', |cells|)
    ensures r.Some? && !r.value.HashNode? && Good(db, cells', e, r.value, Graft(i, u), s, b)
  {
    var nc := n;
    cells' := cells;
    if n.HashNode? {
      var got;
      cells', got := GetNode(db, cells, n.buf, u);
      nc := got.node;
      UnownedSeparate(cells', e, nc, u);
    }
    cells', r := RejoinNode(db, cells', [i], nc, e, u, s, b);
  }
}
