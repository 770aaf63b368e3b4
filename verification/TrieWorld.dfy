/**
 All tries and transactions that share one heap of nodes (Trie and Txn of trie.go). The invariant
 says who may reach what; the lemmas say that every operation keeps it.
 */
module TrieWorld {
  import opened Nibbles
  import opened Rlp
  import opened Options
  import opened PatriciaTree
  import opened PatriciaDelete
  import opened TrieNodes
  import opened TrieFrames
  import opened TrieStorage
  import opened TrieInsert
  import opened TrieDelete
  import opened TrieHasher

  /** A Trie never changes; a Txn may insert until it has been hashed, and becomes a Trie on Commit. */
  datatype Stage = Frozen | Open | Sealed

  datatype Handle = Handle(root: Node, epoch: nat, stage: Stage)

  ghost predicate HandleOk(db: Db, cells: Cells, h: Handle, t: Tree) {
    && Denotes(db, cells, h.root, t) && Canonical(t)
    && EpochsAtMost(cells, h, t)
    && (h.stage.Open? ==> h.epoch > 0 && Separate(cells, h.epoch, h.root, t))
  }

  ghost predicate EpochsAtMost(cells: Cells, h: Handle, t: Tree) {
    forall x :: x in Reach(cells, h.root, t) && x < |cells| && cells[x].FullCell? ==> cells[x].epoch <= h.epoch
  }

  /** What the open transaction `h` may change in place, `g` does not reach. */
  ghost predicate Untouchable(cells: Cells, h: Handle, t: Tree, g: Handle, u: Tree) {
    h.stage.Open? ==>
      forall x :: x in Reach(cells, h.root, t) && x in Reach(cells, g.root, u) ==> !Owned(cells, h.epoch, x)
  }

  ghost predicate Inv(db: Db, cells: Cells, hs: seq<Handle>, ts: seq<Tree>) {
    && |hs| == |ts|
    && (forall i :: 0 <= i < |hs| ==> HandleOk(db, cells, hs[i], ts[i]))
    && forall i, j :: 0 <= i < |hs| && 0 <= j < |hs| && i != j ==> Untouchable(cells, hs[i], ts[i], hs[j], ts[j])
  }

  /** Looking up and deleting leave every other handle as it was. */
  lemma KeepsInv(db: Db, cells: Cells, cells': Cells, hs: seq<Handle>, ts: seq<Tree>)
    requires Inv(db, cells, hs, ts) && Keeps(db, |cells|, cells, cells')
    ensures Inv(db, cells', hs, ts)
  {
    forall i | 0 <= i < |hs|
      ensures HandleOk(db, cells', hs[i], ts[i])
      ensures KeepsAt(db, |cells|, cells, cells', hs[i].root, ts[i])
    {
      assert HandleOk(db, cells, hs[i], ts[i]);
      assert KeepsAt(db, |cells|, cells, cells', hs[i].root, ts[i]);
    }
    forall i, j | 0 <= i < |hs| && 0 <= j < |hs| && i != j ensures Untouchable(cells', hs[i], ts[i], hs[j], ts[j]) {
      assert Untouchable(cells, hs[i], ts[i], hs[j], ts[j]) && HandleOk(db, cells, hs[i], ts[i]);
    }
  }

  /** A transaction's own root may be replaced by one built from what it reached and new nodes. */
  lemma ReplaceRoot(db: Db, cells: Cells, hs: seq<Handle>, ts: seq<Tree>, i: nat, n: Node, t: Tree)
    requires Inv(db, cells, hs, ts) && i < |hs| && Canonical(t)
    requires Denotes(db, cells, n, t) && (hs[i].stage.Open? ==> Separate(cells, hs[i].epoch, n, t))
    requires forall x :: x in Reach(cells, n, t) ==>
      || x in Reach(cells, hs[i].root, ts[i])
      || (x < |cells| && (cells[x].FullCell? ==> cells[x].epoch == 0))
    ensures Inv(db, cells, hs[i := hs[i].(root := n)], ts[i := t])
  {
    var hs', ts' := hs[i := hs[i].(root := n)], ts[i := t];
    assert HandleOk(db, cells, hs[i], ts[i]);
    assert HandleOk(db, cells, hs'[i], t);
    forall j, k | 0 <= j < |hs| && 0 <= k < |hs| && j != k ensures Untouchable(cells, hs'[j], ts'[j], hs'[k], ts'[k]) {
      assert Untouchable(cells, hs[j], ts[j], hs[k], ts[k]);
    }
  }

  /** An epoch whose nodes the handle reaches by one way only: its own, or one that owns nothing. */
  ghost function SeparateEpoch(h: Handle): (e: nat) {
    if h.stage.Open? then h.epoch else h.epoch + 1
  }

  lemma SeparateAtEpoch(db: Db, cells: Cells, h: Handle, t: Tree)
    requires HandleOk(db, cells, h, t)
    ensures SeparateEpoch(h) > 0 && Separate(cells, SeparateEpoch(h), h.root, t)
  {
    if !h.stage.Open? {
      UnownedSeparate(cells, h.epoch + 1, h.root, t);
    }
  }

  /** Deleting replaces the transaction's root and leaves every other handle as it was; it changes no node in place. */
  lemma DeleteInv(db: Db, cells: Cells, cells': Cells, hs: seq<Handle>, ts: seq<Tree>, i: nat, n: Node, t: Tree)
    requires Inv(db, cells, hs, ts) && i < |hs| && Canonical(t)
    requires Keeps(db, |cells|, cells, cells') && Remains(db, cells, cells', SeparateEpoch(hs[i]), hs[i].root, ts[i], n, t)
    ensures Inv(db, cells', hs[i := hs[i].(root := n)], ts[i := t])
  {
    KeepsInv(db, cells, cells', hs, ts);
    assert HandleOk(db, cells, hs[i], ts[i]);
    assert KeepsAt(db, |cells|, cells, cells', hs[i].root, ts[i]);
    forall x | x in Reach(cells', n, t)
      ensures x in Reach(cells', hs[i].root, ts[i]) || (x < |cells'| && (cells'[x].FullCell? ==> cells'[x].epoch == 0))
    {
      ReachBound(cells', n, t, x);
    }
    ReplaceRoot(db, cells', hs, ts, i, n, t);
  }

  /** An insertion does not touch what the handle `j` reaches. */
  lemma InsertElsewhere(db: Db, cells: Cells, cells': Cells, hs: seq<Handle>, ts: seq<Tree>, i: nat, n: Node, t: Tree, j: nat)
    requires Inv(db, cells, hs, ts) && i < |hs| && hs[i].stage.Open? && j < |hs| && j != i
    requires Inserted(db, cells, cells', hs[i].epoch, hs[i].root, ts[i], n, t)
    ensures SameOn(cells, cells', Reach(cells, hs[j].root, ts[j]))
    ensures Reach(cells', hs[j].root, ts[j]) == Reach(cells, hs[j].root, ts[j])
    ensures forall x :: x in Reach(cells, hs[j].root, ts[j]) ==> x < |cells|
    ensures HandleOk(db, cells', hs[j], ts[j])
  {
    assert Untouchable(cells, hs[i], ts[i], hs[j], ts[j]);
    assert HandleOk(db, cells, hs[j], ts[j]);
    Frame(db, cells, cells', hs[j].root, ts[j]);
    if hs[j].stage.Open? {
      FrameSeparate(db, cells, cells', hs[j].epoch, hs[j].root, ts[j]);
    }
    forall x | x in Reach(cells, hs[j].root, ts[j]) ensures x < |cells| {
      ReachBound(cells, hs[j].root, ts[j], x);
    }
  }

  lemma InsertedHandle(db: Db, cells: Cells, cells': Cells, h: Handle, t: Tree, n: Node, t': Tree)
    requires HandleOk(db, cells, h, t) && h.stage.Open? && Canonical(t')
    requires Inserted(db, cells, cells', h.epoch, h.root, t, n, t')
    ensures HandleOk(db, cells', h.(root := n), t')
  {
    forall x | x in Reach(cells', n, t') && x < |cells'| && cells'[x].FullCell? ensures cells'[x].epoch <= h.epoch {
      if x < |cells| && cells'[x] == cells[x] {
        assert x in Reach(cells, h.root, t);
      }
    }
  }

  /** Inserting replaces the transaction's root and leaves every other handle as it was. */
  lemma InsertInv(db: Db, cells: Cells, cells': Cells, hs: seq<Handle>, ts: seq<Tree>, i: nat, n: Node, t: Tree)
    requires Inv(db, cells, hs, ts) && i < |hs| && hs[i].stage.Open? && Canonical(t)
    requires Inserted(db, cells, cells', hs[i].epoch, hs[i].root, ts[i], n, t)
    ensures Inv(db, cells', hs[i := hs[i].(root := n)], ts[i := t])
  {
    var hs', ts' := hs[i := hs[i].(root := n)], ts[i := t];
    assert HandleOk(db, cells, hs[i], ts[i]);
    InsertedHandle(db, cells, cells', hs[i], ts[i], n, t);
    forall j | 0 <= j < |hs| && j != i ensures HandleOk(db, cells', hs'[j], ts'[j]) {
      InsertElsewhere(db, cells, cells', hs, ts, i, n, t, j);
    }
    forall j, k | 0 <= j < |hs| && 0 <= k < |hs| && j != k ensures Untouchable(cells', hs'[j], ts'[j], hs'[k], ts'[k]) {
      assert Untouchable(cells, hs[j], ts[j], hs[k], ts[k]);
      if j != i {
        InsertElsewhere(db, cells, cells', hs, ts, i, n, t, j);
      }
      if k != i {
        InsertElsewhere(db, cells, cells', hs, ts, i, n, t, k);
      }
    }
  }

  /** Hashes cached elsewhere leave a transaction's own nodes separate. */
  lemma {:induction false} SeparateRehashed(cells: Cells, cells': Cells, s: set<nat>, e: nat, n: Node, t: Tree)
    requires Separate(cells, e, n, t) && Rehashed(cells, cells', s)
    requires forall x :: x in s && x in Reach(cells, n, t) ==> !Owned(cells, e, x)
    ensures Separate(cells', e, n, t) && Reach(cells', n, t) == Reach(cells, n, t)
    decreases t
  {
    if n.Ptr? && n.addr < |cells| {
      assert SameButHash(cells[n.addr], cells'[n.addr]);
      match cells[n.addr]
      case ShortCell(_, _, c) => if t.Short? { SeparateRehashed(cells, cells', s, e, c, t.child); }
      case FullCell(_, _, kids) =>
        if t.Full? && |kids| == |t.kids| == 17 {
          assert n.addr in Reach(cells, n, t);
          forall i | 0 <= i < 17
            ensures Separate(cells', e, kids[i], t.kids[i])
            ensures Reach(cells', kids[i], t.kids[i]) == Reach(cells, kids[i], t.kids[i])
          {
            assert Reach(cells, kids[i], t.kids[i]) <= Reach(cells, n, t);
            SeparateRehashed(cells, cells', s, e, kids[i], t.kids[i]);
          }
          ApartRehashed(cells, cells', s, e, kids, t);
          assert KidsReach(cells', kids, t) == KidsReach(cells, kids, t);
        }
    }
  }

  lemma ApartRehashed(cells: Cells, cells': Cells, s: set<nat>, e: nat, kids: seq<Node>, t: Tree)
    requires t.Full? && |kids| == |t.kids| == 17 && Apart(cells, e, kids, t) && Rehashed(cells, cells', s)
    requires forall i :: 0 <= i < 17 ==> Reach(cells', kids[i], t.kids[i]) == Reach(cells, kids[i], t.kids[i])
    ensures Apart(cells', e, kids, t)
  {
    forall x: nat | Shared(cells', kids, t, x) ensures !Owned(cells', e, x) {
      assert Shared(cells, kids, t, x);
      assert x < |cells| ==> SameButHash(cells[x], cells'[x]);
    }
  }

  /** Hashing seals the transaction `i` and leaves every other handle as it was. */
  lemma HashInv(db: Db, cells: Cells, db': Db, cells': Cells, hs: seq<Handle>, ts: seq<Tree>, i: nat)
    requires Inv(db, cells, hs, ts) && i < |hs| && Hashed(db, cells, db', cells', hs[i].root, ts[i])
    requires !hs[i].stage.Frozen?
    ensures Inv(db', cells', hs[i := hs[i].(stage := Sealed)], ts)
  {
    var hs' := hs[i := hs[i].(stage := Sealed)];
    forall j | 0 <= j < |hs|
      ensures HandleOk(db', cells', hs'[j], ts[j])
      ensures Reach(cells', hs[j].root, ts[j]) == Reach(cells, hs[j].root, ts[j])
    {
      assert HandleOk(db, cells, hs[j], ts[j]);
      assert Denotes(db', cells', hs[j].root, ts[j]);
      assert forall x :: 0 <= x < |cells| ==> SameButHash(cells[x], cells'[x]);
      if j != i && hs[j].stage.Open? {
        assert Untouchable(cells, hs[j], ts[j], hs[i], ts[i]);
        SeparateRehashed(cells, cells', Reach(cells, hs[i].root, ts[i]), hs[j].epoch, hs[j].root, ts[j]);
      }
    }
    forall j, k | 0 <= j < |hs| && 0 <= k < |hs| && j != k ensures Untouchable(cells', hs'[j], ts[j], hs'[k], ts[k]) {
      assert Untouchable(cells, hs[j], ts[j], hs[k], ts[k]);
      assert forall x :: 0 <= x < |cells| ==> SameButHash(cells[x], cells'[x]);
    }
  }

  /** A new transaction owns nothing yet: all it reaches is older than its epoch. */
  lemma BeginInv(db: Db, cells: Cells, hs: seq<Handle>, ts: seq<Tree>, i: nat)
    requires Inv(db, cells, hs, ts) && i < |hs| && hs[i].stage.Frozen?
    ensures Inv(db, cells, hs + [Handle(hs[i].root, hs[i].epoch + 1, Open)], ts + [ts[i]])
  {
    var h := Handle(hs[i].root, hs[i].epoch + 1, Open);
    var hs', ts' := hs + [h], ts + [ts[i]];
    assert HandleOk(db, cells, hs[i], ts[i]);
    UnownedSeparate(cells, h.epoch, h.root, ts[i]);
    forall j, k | 0 <= j < |hs'| && 0 <= k < |hs'| && j != k ensures Untouchable(cells, hs'[j], ts'[j], hs'[k], ts'[k]) {
      var j', k' := if j == |hs| then i else j, if k == |hs| then i else k;
      if j' != k' {
        assert Untouchable(cells, hs[j'], ts[j'], hs[k'], ts[k']);
      }
    }
  }

  /** A trie just loaded from storage shares no node with anyone. */
  lemma LoadInv(db: Db, cells: Cells, cells': Cells, hs: seq<Handle>, ts: seq<Tree>, n: Node, t: Tree)
    requires Inv(db, cells, hs, ts) && cells <= cells' && UnownedFrom(cells', |cells|) && Canonical(t)
    requires Fresh(db, |cells|, cells', n, t)
    ensures Inv(db, cells', hs + [Handle(n, 0, Frozen)], ts + [t])
  {
    AllocKeeps(db, cells, cells');
    KeepsInv(db, cells, cells', hs, ts);
    var hs', ts' := hs + [Handle(n, 0, Frozen)], ts + [t];
    forall j, k | 0 <= j < |hs'| && 0 <= k < |hs'| && j != k ensures Untouchable(cells', hs'[j], ts'[j], hs'[k], ts'[k]) {
      if j < |hs| && k < |hs| {
        assert Untouchable(cells', hs[j], ts[j], hs[k], ts[k]);
      } else if j < |hs| {
        assert HandleOk(db, cells', hs[j], ts[j]);
      }
    }
  }

  /** Txn.Commit: the transaction becomes a trie of its epoch. */
  lemma CommitInv(db: Db, cells: Cells, hs: seq<Handle>, ts: seq<Tree>, i: nat)
    requires Inv(db, cells, hs, ts) && i < |hs|
    ensures Inv(db, cells, hs[i := hs[i].(stage := Frozen)], ts)
  {
    var hs' := hs[i := hs[i].(stage := Frozen)];
    assert forall j :: 0 <= j < |hs| ==> HandleOk(db, cells, hs[j], ts[j]);
    forall j, k | 0 <= j < |hs| && 0 <= k < |hs| && j != k ensures Untouchable(cells, hs'[j], ts[j], hs'[k], ts[k]) {
      assert Untouchable(cells, hs[j], ts[j], hs[k], ts[k]);
    }
  }
}
