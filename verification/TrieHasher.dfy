/**
 Hashing and storing a trie (state/immutable-trie/hasher.go). Batches write through to the storage,
 as those of the in-memory storage do.
 */
module TrieHasher {
  import opened Nibbles
  import opened Rlp
  import opened Options
  import opened PatriciaTree
  import opened TrieNodes
  import opened TrieFrames
  import opened TrieStorage

  /** Storage only ever gains entries. */
  ghost predicate Grown(db: Db, db': Db) {
    db'.inline == db.inline && forall v :: InStore(db, v) ==> InStore(db', v)
  }

  lemma {:induction false} PersistedGrows(db: Db, db': Db, t: Tree)
    requires Persisted(db, t) && Grown(db, db')
    ensures Persisted(db', t)
    decreases t
  {
    match t
    case Nil =>
    case Leaf(_) =>
    case Short(_, c) => PersistedGrows(db, db', c);
    case Full(kids) =>
      forall i | 0 <= i < |kids| ensures Persisted(db', kids[i]) {
        PersistedGrows(db, db', kids[i]);
      }
  }

  /** `h` is the key of the stored node `t`, all of which is stored. */
  ghost predicate EntryFor(db: Db, h: Buf, t: Tree) {
    && Proper(t) && Persisted(db, t) && h == Keccak(Enc(db.inline, t))
    && h in db.nodes && db.nodes[h] == Enc(db.inline, t)
  }

  /** The storage holds only whole tries. */
  ghost predicate Sound(db: Db) {
    forall h :: h in db.nodes ==> exists t :: EntryFor(db, h, t)
  }

  lemma SoundStep(db: Db, db': Db, t: Tree)
    requires Sound(db) && Grown(db, db') && Proper(t) && Persisted(db', t)
    requires db'.nodes == db.nodes[Keccak(Enc(db.inline, t)) := Enc(db.inline, t)]
    ensures Sound(db')
  {
    forall h | h in db'.nodes ensures exists u :: EntryFor(db', h, u) {
      if h == Keccak(Enc(db.inline, t)) {
        assert EntryFor(db', h, t);
      } else {
        var u :| EntryFor(db, h, u);
        PersistedGrows(db, db', u);
        assert EntryFor(db', h, u);
      }
    }
  }

  /** The cells differ at most in cached hashes, and those only at `s`. */
  ghost predicate Rehashed(cells: Cells, cells': Cells, s: set<nat>) {
    && |cells| == |cells'|
    && forall a :: 0 <= a < |cells| ==>
         && (a !in s ==> cells'[a] == cells[a])
         && SameButHash(cells[a], cells'[a])
  }

  ghost predicate SameButHash(c: Cell, c': Cell) {
    match c
    case ShortCell(_, k, n) => c'.ShortCell? && c'.key == k && c'.child == n
    case FullCell(_, e, kids) => c'.FullCell? && c'.epoch == e && c'.kids == kids
  }

  /** Every node means what it did, in the larger storage. */
  ghost predicate MeaningKept(db: Db, cells: Cells, db': Db, cells': Cells) {
    forall n, t :: Denotes(db, cells, n, t) ==> Denotes(db', cells', n, t) && Reach(cells', n, t) == Reach(cells, n, t)
  }

  /** Growing the storage, and caching the right hash at `a`, keep every meaning. */
  lemma {:induction false} CachedMeaning(db: Db, cells: Cells, db': Db, cells': Cells, a: nat, u: Tree, n: Node, t: Tree)
    requires Grown(db, db') && Rehashed(cells, cells', {a}) && a < |cells|
    requires Denotes(db, cells, Ptr(a), u) && cells'[a].hash.Some? && HashOf(db', cells'[a].hash.value, u)
    requires Denotes(db, cells, n, t)
    ensures Denotes(db', cells', n, t) && Reach(cells', n, t) == Reach(cells, n, t)
    decreases t, 1
  {
    if n.HashNode? {
      PersistedGrows(db, db', t);
    } else if n.Ptr? {
      if n.addr == a {
        DenotesUnique(db, cells, n, t, u);
      }
      if cells[n.addr].hash.Some? {
        PersistedGrows(db, db', t);
      }
      match cells[n.addr]
      case ShortCell(_, _, c) => CachedMeaning(db, cells, db', cells', a, u, c, t.child);
      case FullCell(_, _, kids) => CachedKids(db, cells, db', cells', a, u, kids, t);
    }
  }

  lemma {:induction false} CachedKids(db: Db, cells: Cells, db': Db, cells': Cells, a: nat, u: Tree, kids: seq<Node>, t: Tree)
    requires Grown(db, db') && Rehashed(cells, cells', {a}) && a < |cells|
    requires Denotes(db, cells, Ptr(a), u) && cells'[a].hash.Some? && HashOf(db', cells'[a].hash.value, u)
    requires t.Full? && |kids| == |t.kids| == 17 && forall i :: 0 <= i < 17 ==> Denotes(db, cells, kids[i], t.kids[i])
    ensures forall i :: 0 <= i < 17 ==> Denotes(db', cells', kids[i], t.kids[i])
    ensures KidsReach(cells', kids, t) == KidsReach(cells, kids, t)
    decreases t, 0
  {
    forall i | 0 <= i < 17
      ensures Denotes(db', cells', kids[i], t.kids[i])
      ensures Reach(cells', kids[i], t.kids[i]) == Reach(cells, kids[i], t.kids[i])
    {
      CachedMeaning(db, cells, db', cells', a, u, kids[i], t.kids[i]);
    }
  }

  /** All that hashing the node `n` does: `t` is stored, and only hashes are cached below `n`. */
  ghost predicate Hashed(db: Db, cells: Cells, db': Db, cells': Cells, n: Node, t: Tree) {
    && Grown(db, db') && (Sound(db) ==> Sound(db')) && Persisted(db', t)
    && Rehashed(cells, cells', Reach(cells, n, t)) && MeaningKept(db, cells, db', cells')
  }

  /** A node that is a value, a hash, or has its hash cached needs no work. */
  lemma HashedAlready(db: Db, cells: Cells, n: Node, t: Tree)
    requires Persisted(db, t)
    ensures Hashed(db, cells, db, cells, n, t)
  {
  }

  /** Txn.hash: the RLP value that stands for `n` in its parent. */
  method EncodeNode(db: Db, cells: Cells, n: Node, ghost t: Tree) returns (db': Db, cells': Cells, v: Value)
    requires Denotes(db, cells, n, t) && (Proper(t) || (t.Leaf? && t.val != EMPTY))
    ensures v == Ref(db.inline, t)
    ensures Hashed(db, cells, db', cells', n, t)
    decreases t, 2
  {
    match n
    case ValueNode(b) =>
      db', cells', v := db, cells, Bytes(b);
      HashedAlready(db, cells, n, t);
    case HashNode(b) =>
      db', cells', v := db, cells, Bytes(b);
      HashedAlready(db, cells, n, t);
    case Ptr(a) =>
      if cells[a].hash.Some? {
        db', cells', v := db, cells, Bytes(cells[a].hash.value);
        HashedAlready(db, cells, n, t);
      } else {
        db', cells', v := EncodePtr(db, cells, a, t);
      }
  }

  method EncodePtr(db: Db, cells: Cells, a: nat, ghost t: Tree) returns (db': Db, cells': Cells, v: Value)
    requires Denotes(db, cells, Ptr(a), t) && Proper(t)
    ensures v == Ref(db.inline, t)
    ensures Hashed(db, cells, db', cells', Ptr(a), t)
    decreases t, 1
  {
    if cells[a].ShortCell? {
      db', cells', v := EncodeShort(db, cells, a, t);
    } else {
      db', cells', v := EncodeFull(db, cells, a, t);
    }
    if db.inline(v) {
      InlinePersisted(db', t);
    } else {
      ghost var db1, cells1 := db', cells';
      var h := Keccak(v);
      cells' := SetHash(cells', a, h);
      db' := Db(db'.inline, db'.nodes[h := v]);
      v := Bytes(h);
      StoredHere(db, cells, db1, cells1, db', cells', a, t);
    }
  }

  lemma InlinePersisted(db: Db, t: Tree)
    requires Proper(t) && BelowPersisted(db, t) && db.inline(Enc(db.inline, t))
    ensures Persisted(db, t)
  {
  }

  method SetHash(cells: Cells, a: nat, h: Buf) returns (cells': Cells)
    requires a < |cells|
    ensures Rehashed(cells, cells', {a}) && cells'[a].hash == Some(h)
  {
    match cells[a]
    case ShortCell(_, k, c) => cells' := cells[a := ShortCell(Some(h), k, c)];
    case FullCell(_, e, kids) => cells' := cells[a := FullCell(Some(h), e, kids)];
  }

  ghost predicate BelowPersisted(db: Db, t: Tree) {
    && (t.Short? ==> Persisted(db, t.child))
    && (t.Full? ==> forall i :: 0 <= i < |t.kids| ==> Persisted(db, t.kids[i]))
  }

  /** The children of the node at `a` have been hashed. */
  ghost predicate HashedBelow(db: Db, cells: Cells, db': Db, cells': Cells, a: nat, t: Tree) {
    && Grown(db, db') && (Sound(db) ==> Sound(db')) && BelowPersisted(db', t)
    && Rehashed(cells, cells', Reach(cells, Ptr(a), t)) && MeaningKept(db, cells, db', cells')
  }

  /** Storing the node at `a` under its hash, and caching that hash. */
  lemma StoredHere(db: Db, cells: Cells, db1: Db, cells1: Cells, db': Db, cells': Cells, a: nat, t: Tree)
    requires Denotes(db, cells, Ptr(a), t) && Proper(t) && HashedBelow(db, cells, db1, cells1, a, t)
    requires !db.inline(Enc(db.inline, t))
    requires db' == Db(db1.inline, db1.nodes[Keccak(Enc(db.inline, t)) := Enc(db.inline, t)])
    requires Rehashed(cells1, cells', {a}) && cells'[a].hash == Some(Keccak(Enc(db.inline, t)))
    ensures Hashed(db, cells, db', cells', Ptr(a), t)
  {
    assert Denotes(db1, cells1, Ptr(a), t);
    assert Persisted(db', t) by {
      assert InStore(db', Enc(db.inline, t));
      if t.Short? {
        PersistedGrows(db1, db', t.child);
      } else {
        forall i | 0 <= i < |t.kids| ensures Persisted(db', t.kids[i]) {
          PersistedGrows(db1, db', t.kids[i]);
        }
      }
    }
    if Sound(db1) {
      SoundStep(db1, db', t);
    }
    assert HashOf(db', cells'[a].hash.value, t);
    assert a in Reach(cells, Ptr(a), t);
    RehashedTwice(cells, cells1, cells', Reach(cells, Ptr(a), t), {a});
    forall m, u | Denotes(db, cells, m, u)
      ensures Denotes(db', cells', m, u) && Reach(cells', m, u) == Reach(cells, m, u)
    {
      CachedMeaning(db1, cells1, db', cells', a, t, m, u);
    }
  }

  lemma RehashedTwice(cells: Cells, cells1: Cells, cells2: Cells, s: set<nat>, s': set<nat>)
    requires Rehashed(cells, cells1, s) && Rehashed(cells1, cells2, s') && s' <= s
    ensures Rehashed(cells, cells2, s)
  {
    forall a | 0 <= a < |cells|
      ensures (a !in s ==> cells2[a] == cells[a]) && SameButHash(cells[a], cells2[a])
    {
      assert SameButHash(cells[a], cells1[a]) && SameButHash(cells1[a], cells2[a]);
    }
  }

  method EncodeShort(db: Db, cells: Cells, a: nat, ghost t: Tree) returns (db': Db, cells': Cells, v: Value)
    requires Denotes(db, cells, Ptr(a), t) && Proper(t) && t.Short?
    ensures v == Enc(db.inline, t)
    ensures HashedBelow(db, cells, db', cells', a, t)
    decreases t, 0
  {
    var c;
    db', cells', c := EncodeNode(db, cells, cells[a].child, t.child);
    var k := EncodeCompact(cells[a].key);
    v := List([Bytes(Raw(k)), c]);
    RehashedMore(cells, cells', Reach(cells, cells[a].child, t.child), Reach(cells, Ptr(a), t));
  }

  lemma RehashedMore(cells: Cells, cells': Cells, s: set<nat>, s': set<nat>)
    requires Rehashed(cells, cells', s) && s <= s'
    ensures Rehashed(cells, cells', s')
  {
  }

  method EncodeFull(db: Db, cells: Cells, a: nat, ghost t: Tree) returns (db': Db, cells': Cells, v: Value)
    requires Denotes(db, cells, Ptr(a), t) && Proper(t) && t.Full?
    ensures v == Enc(db.inline, t)
    ensures HashedBelow(db, cells, db', cells', a, t)
    decreases t, 0
  {
    var vals;
    db', cells', vals := EncodeEdges(db, cells, a, cells[a].kids, t);
    v := List(vals);
    EncOfEdges(db.inline, t, vals);
  }

  method EncodeEdges(db: Db, cells: Cells, ghost a: nat, kids: seq<Node>, ghost t: Tree)
    returns (db': Db, cells': Cells, vals: seq<Value>)
    requires Denotes(db, cells, Ptr(a), t) && Proper(t) && t.Full? && kids == cells[a].kids
    ensures |vals| == 17 && forall j :: 0 <= j < 17 ==> vals[j] == Ref(db.inline, t.kids[j])
    ensures EdgesHashed(db, cells, db', cells', a, t, 17)
    decreases t, 0, 1
  {
    db', cells', vals := db, cells, [];
    NoEdgeHashed(db, cells, a, t);
    for i := 0 to 17
      invariant |vals| == i
      invariant forall j :: 0 <= j < i ==> vals[j] == Ref(db.inline, t.kids[j])
      invariant EdgesHashed(db, cells, db', cells', a, t, i)
    {
      var x;
      db', cells', x := EncodeNext(db, cells, db', cells', a, kids[i], t, i);
      vals := vals + [x];
    }
  }

  lemma NoEdgeHashed(db: Db, cells: Cells, a: nat, t: Tree)
    requires t.Full?
    ensures EdgesHashed(db, cells, db, cells, a, t, 0)
  {
  }

  method EncodeNext(ghost db: Db, ghost cells: Cells, db1: Db, cells1: Cells, ghost a: nat, n: Node, ghost t: Tree, ghost i: nat)
    returns (db': Db, cells': Cells, v: Value)
    requires Denotes(db, cells, Ptr(a), t) && Proper(t) && t.Full? && i < 17 && EdgesHashed(db, cells, db1, cells1, a, t, i)
    requires n == cells[a].kids[i]
    ensures v == Ref(db.inline, t.kids[i]) && EdgesHashed(db, cells, db', cells', a, t, i + 1)
    decreases t, 0, 0
  {
    EdgeReady(db, cells, db1, cells1, a, t, i);
    db', cells', v := EncodeEdge(db1, cells1, n, t.kids[i]);
    EdgeHashed(db, cells, db1, cells1, db', cells', a, t, i);
  }

  lemma EncOfEdges(inline: Value -> bool, t: Tree, vals: seq<Value>)
    requires t.Full? && |vals| == |t.kids| && forall j :: 0 <= j < |vals| ==> vals[j] == Ref(inline, t.kids[j])
    ensures List(vals) == Enc(inline, t)
  {
  }

  lemma EdgeReady(db: Db, cells: Cells, db': Db, cells': Cells, a: nat, t: Tree, i: nat)
    requires Denotes(db, cells, Ptr(a), t) && Proper(t) && t.Full? && i < 17 && EdgesHashed(db, cells, db', cells', a, t, i)
    ensures Denotes(db', cells', cells[a].kids[i], t.kids[i])
    ensures t.kids[i].Nil? || Proper(t.kids[i]) || (t.kids[i].Leaf? && t.kids[i].val != EMPTY)
  {
  }

  method EncodeEdge(db: Db, cells: Cells, n: Node, ghost t: Tree) returns (db': Db, cells': Cells, v: Value)
    requires Denotes(db, cells, n, t) && (t.Nil? || Proper(t) || (t.Leaf? && t.val != EMPTY))
    ensures v == Ref(db.inline, t)
    ensures Hashed(db, cells, db', cells', n, t)
    decreases t, 3
  {
    if n.NilNode? {
      db', cells', v := db, cells, Bytes(EMPTY);
      HashedAlready(db, cells, n, t);
    } else {
      db', cells', v := EncodeNode(db, cells, n, t);
    }
  }

  /** The first `i` edges of the full node at `a` have been hashed. */
  ghost predicate EdgesHashed(db: Db, cells: Cells, db': Db, cells': Cells, a: nat, t: Tree, i: nat) {
    && Grown(db, db') && (Sound(db) ==> Sound(db')) && t.Full? && i <= |t.kids|
    && (forall j :: 0 <= j < i ==> Persisted(db', t.kids[j]))
    && Rehashed(cells, cells', Reach(cells, Ptr(a), t)) && MeaningKept(db, cells, db', cells')
  }

  lemma EdgeHashed(db: Db, cells: Cells, db1: Db, cells1: Cells, db': Db, cells': Cells, a: nat, t: Tree, i: nat)
    requires Denotes(db, cells, Ptr(a), t) && t.Full? && i < 17
    requires EdgesHashed(db, cells, db1, cells1, a, t, i)
    requires Hashed(db1, cells1, db', cells', cells[a].kids[i], t.kids[i])
    ensures EdgesHashed(db, cells, db', cells', a, t, i + 1)
  {
    var n := cells[a].kids[i];
    assert Denotes(db1, cells1, n, t.kids[i]) && Reach(cells1, n, t.kids[i]) == Reach(cells, n, t.kids[i]);
    assert Reach(cells, n, t.kids[i]) <= Reach(cells, Ptr(a), t);
    RehashedTwice(cells, cells1, cells', Reach(cells, Ptr(a), t), Reach(cells1, n, t.kids[i]));
    forall j | 0 <= j < i ensures Persisted(db', t.kids[j]) {
      PersistedGrows(db1, db', t.kids[j]);
    }
  }

  /** The trie `t` is stored in full under the root hash `h`; the empty trie needs no storage. */
  ghost predicate StoredRoot(db: Db, h: Buf, t: Tree) {
    Canonical(t) && h == RootHash(db.inline, t) && (t.Nil? || (InStore(db, Enc(db.inline, t)) && Persisted(db, t)))
  }

  lemma StoredRootGrows(db: Db, db': Db, h: Buf, t: Tree)
    requires StoredRoot(db, h, t) && Grown(db, db')
    ensures StoredRoot(db', h, t)
  {
    PersistedGrows(db, db', t);
  }

  /** A root hash names one trie. */
  lemma RootHashInjective(inline: Value -> bool, t: Tree, u: Tree)
    requires Canonical(t) && Canonical(u) && RootHash(inline, t) == RootHash(inline, u)
    ensures t == u
  {
    if !t.Nil? && !u.Nil? {
      EncInjective(inline, t, u);
    }
  }

  /** Txn.Hash: the root hash of the trie, with every node of it in storage. */
  method HashRoot(db: Db, cells: Cells, n: Node, ghost t: Tree) returns (db': Db, cells': Cells, h: Buf)
    requires Denotes(db, cells, n, t) && Canonical(t)
    ensures h == RootHash(db.inline, t) && StoredRoot(db', h, t)
    ensures Hashed(db, cells, db', cells', n, t)
  {
    if n.NilNode? {
      db', cells', h := db, cells, Keccak(Bytes(EMPTY));
      HashedAlready(db, cells, n, t);
    } else {
      var v;
      db', cells', v := EncodeNode(db, cells, n, t);
      if v.Bytes? {
        h := v.buf;
      } else {
        h := Keccak(v);
        ghost var db1 := db';
        db' := Db(db'.inline, db'.nodes[h := v]);
        RootStored(db, cells, db1, db', cells', n, t);
      }
    }
  }

  lemma RootStored(db: Db, cells: Cells, db1: Db, db': Db, cells': Cells, n: Node, t: Tree)
    requires Hashed(db, cells, db1, cells', n, t) && Grown(db1, db') && Proper(t)
    requires db'.nodes == db1.nodes[Keccak(Enc(db1.inline, t)) := Enc(db1.inline, t)]
    ensures Hashed(db, cells, db', cells', n, t)
  {
    PersistedGrows(db1, db', t);
    if Sound(db1) {
      SoundStep(db1, db', t);
    }
    forall m, u | Denotes(db, cells, m, u)
      ensures Denotes(db', cells', m, u) && Reach(cells', m, u) == Reach(cells, m, u)
    {
      MeaningGrows(db1, db', cells', m, u);
    }
  }

  lemma {:induction false} MeaningGrows(db: Db, db': Db, cells: Cells, n: Node, t: Tree)
    requires Grown(db, db') && Denotes(db, cells, n, t)
    ensures Denotes(db', cells, n, t)
    decreases t
  {
    if n.HashNode? || (n.Ptr? && cells[n.addr].hash.Some?) {
      PersistedGrows(db, db', t);
    }
    if n.Ptr? {
      match cells[n.addr]
      case ShortCell(_, _, c) => MeaningGrows(db, db', cells, c, t.child);
      case FullCell(_, _, kids) =>
        forall i | 0 <= i < 17 ensures Denotes(db', cells, kids[i], t.kids[i]) {
          MeaningGrows(db, db', cells, kids[i], t.kids[i]);
        }
    }
  }
}
