/**
 Arbitrary runs over tries and transactions: no trie ever changes its answers, and a root hash leads
 to the same trie at any later time, cached or not.
 */
module TrieRuns {
  import opened Nibbles
  import opened Rlp
  import opened Options
  import opened PatriciaTree
  import Canon = PatriciaCanon
  import opened TrieNodes
  import opened TrieHasher
  import opened TrieWorld
  import opened TrieState

  datatype Action =
    | OpenAt(root: Buf)
    | Begin(trie: nat)
    | Get(handle: nat, key: seq<Byte>)
    | Put(txn: nat, key: seq<Byte>, val: Buf)
    | Remove(txn: nat, key: seq<Byte>)
    | HashIt(txn: nat)
    | Finish(txn: nat)
    | FinishStored(txn: nat, account: bool, kept: set<Buf>)

  /** The storage, the two caches, and the stage and resolved tree of every handle: what a run is about. */
  datatype World = World(db: Db, tries: map<Buf, nat>, accounts: map<Buf, nat>, stages: seq<Stage>, trees: seq<Tree>)

  ghost predicate Known(w: World, i: nat) {
    i < |w.stages| == |w.trees| && Canonical(w.trees[i])
  }

  ghost predicate Writable(w: World, j: nat) {
    Known(w, j) && !w.stages[j].Frozen?
  }

  ghost predicate TrieAt(w: World, i: nat, root: Buf) {
    Known(w, i) && w.stages[i].Frozen? && root == RootHash(w.db.inline, w.trees[i])
  }

  ghost function With(w: World, i: nat, stage: Stage, t: Tree): (w': World)
    requires Known(w, i)
  {
    w.(stages := w.stages[i := stage], trees := w.trees[i := t])
  }

  /** A cache after an entry is added; which of its entries stay is the cache's choice. */
  ghost predicate Added(cache: map<Buf, nat>, root: Buf, i: nat, kept: set<Buf>, cache': map<Buf, nat>) {
    cache'.Keys == (cache.Keys + {root}) * kept && (root in kept ==> cache'[root] == i)
  }

  /** What one step does; with a handle that does not exist or is in the wrong stage, nothing. */
  ghost predicate Follows(w: World, act: Action, w': World) {
    match act
    case OpenAt(root) => Opened(w, root, w')
    case Begin(i) =>
      w' == if Known(w, i) && w.stages[i].Frozen? then w.(stages := w.stages + [Open], trees := w.trees + [w.trees[i]]) else w
    case Get(_, _) => w' == w
    case Put(j, key, val) =>
      w' == if Known(w, j) && w.stages[j].Open? && val != EMPTY
            then With(w, j, Open, Canon.Step(w.trees[j], Canon.Put(key, val))) else w
    case Remove(j, key) =>
      w' == if Writable(w, j) then With(w, j, w.stages[j], Canon.Step(w.trees[j], Canon.Del(key))) else w
    case HashIt(j) => if Writable(w, j) then Stores(w, j, Sealed, w') && SameCaches(w, w') else w' == w
    case Finish(j) => w' == if Writable(w, j) then With(w, j, Frozen, w.trees[j]) else w
    case FinishStored(j, account, kept) =>
      if Writable(w, j) then Stores(w, j, Frozen, w') && Cached(w, j, account, kept, w') else w' == w
  }

  /** A trie of that root is there afterwards unless the storage has none; at most one handle is new. */
  ghost predicate Opened(w: World, root: Buf, w': World) {
    && (w' == w || (|w'.trees| == |w.trees| + 1 && TrieAt(w', |w.trees|, root) &&
                    w' == w.(stages := w.stages + [Frozen], trees := w.trees + [w'.trees[|w.trees|]])))
    && ((exists i: nat :: TrieAt(w', i, root)) || (root !in w.db.nodes && root != Keccak(Bytes(EMPTY))))
  }

  /** The trie of `j` is stored under its root hash, beside all that was stored before. */
  ghost predicate Stores(w: World, j: nat, stage: Stage, w': World)
    requires Known(w, j)
  {
    && Grown(w.db, w'.db) && StoredRoot(w'.db, RootHash(w.db.inline, w.trees[j]), w.trees[j])
    && w'.stages == w.stages[j := stage] && w'.trees == w.trees
  }

  ghost predicate SameCaches(w: World, w': World) {
    w'.tries == w.tries && w'.accounts == w.accounts
  }

  ghost predicate Cached(w: World, j: nat, account: bool, kept: set<Buf>, w': World)
    requires Known(w, j)
  {
    var root := RootHash(w.db.inline, w.trees[j]);
    if account then Added(w.accounts, root, j, kept, w'.accounts) && w'.tries == w.tries
    else Added(w.tries, root, j, kept, w'.tries) && w'.accounts == w.accounts
  }

  ghost function Stages(hs: seq<Handle>): (ss: seq<Stage>)
    ensures |ss| == |hs| && forall i {:trigger ss[i]} :: 0 <= i < |hs| ==> ss[i] == hs[i].stage
  {
    seq(|hs|, i requires 0 <= i < |hs| => hs[i].stage)
  }

  ghost function WorldOf(st: State): (w: World)
    reads st
  {
    World(st.db, st.trieCache, st.accountCache, Stages(st.handles), st.trees)
  }

  lemma HandleKnown(st: State, i: nat)
    requires st.Valid()
    ensures Known(WorldOf(st), i) <==> i < |st.handles|
  {
    if i < |st.handles| {
      assert HandleOk(st.db, st.cells, st.handles[i], st.trees[i]);
    }
  }

  /** Every trie is still there and means what it did; nothing stored is lost. */
  twostate predicate Lasting(st: State)
    reads st
  {
    && st.Valid() && Grown(old(st.db), st.db)
    && |old(st.handles)| <= |st.handles| == |st.trees| && |old(st.trees)| == |old(st.handles)|
    && forall i :: 0 <= i < |old(st.handles)| && old(st.handles)[i].stage.Frozen? ==>
         st.handles[i] == old(st.handles)[i] && st.trees[i] == old(st.trees)[i]
  }

  /** One step. */
  method Perform(st: State, act: Action)
    requires st.Valid()
    modifies st
    ensures Lasting(st) && Follows(old(WorldOf(st)), act, WorldOf(st))
  {
    match act
    case OpenAt(root) =>
      var r := st.NewSnapshotAt(root);
      Appended(old(st.handles), st.handles);
      assert r.Some? ==> TrieAt(WorldOf(st), r.value, root);
    case Begin(i) =>
      HandleKnown(st, i);
      if i < |st.handles| && st.handles[i].stage.Frozen? {
        var _ := st.BeginTxn(i);
        Appended(old(st.handles), st.handles);
      }
    case Get(i, key) =>
      if i < |st.handles| {
        var _ := st.Lookup(i, key);
      }
    case _ => PerformOn(st, act, act.txn);
  }

  /** A step of the transaction `j`. */
  method PerformOn(st: State, act: Action, j: nat)
    requires st.Valid() && !act.OpenAt? && !act.Begin? && !act.Get? && j == act.txn
    modifies st
    ensures Lasting(st) && Follows(old(WorldOf(st)), act, WorldOf(st))
  {
    HandleKnown(st, j);
    if j >= |st.handles| || st.handles[j].stage.Frozen? {
      return;
    }
    match act
    case Put(_, key, val) =>
      if st.handles[j].stage.Open? && val != EMPTY {
        st.Insert(j, key, val);
        Replaced(old(st.handles), old(st.trees), st.handles, st.trees, j);
      }
    case Remove(_, key) =>
      st.Delete(j, key);
      Replaced(old(st.handles), old(st.trees), st.handles, st.trees, j);
    case HashIt(_) =>
      var _ := st.Hash(j);
      Replaced(old(st.handles), old(st.trees), st.handles, st.trees, j);
    case Finish(_) =>
      st.Commit(j);
      Replaced(old(st.handles), old(st.trees), st.handles, st.trees, j);
    case FinishStored(_, account, kept) =>
      var root := st.Hash(j);
      st.Commit(j);
      if account {
        st.AddAccountState(root, j, kept);
      } else {
        st.AddTrieState(root, j, kept);
      }
      Replaced(old(st.handles), old(st.trees), st.handles, st.trees, j);
  }

  lemma Appended(hs: seq<Handle>, hs': seq<Handle>)
    requires |hs| <= |hs'| && forall i :: 0 <= i < |hs| ==> hs'[i] == hs[i]
    ensures |hs'| == |hs| + 1 ==> Stages(hs') == Stages(hs) + [hs'[|hs|].stage]
    ensures |hs'| == |hs| ==> Stages(hs') == Stages(hs)
  {
  }

  lemma Replaced(hs: seq<Handle>, ts: seq<Tree>, hs': seq<Handle>, ts': seq<Tree>, j: nat)
    requires j < |hs| == |hs'| && OthersKept(hs, ts, hs', ts', j)
    ensures Stages(hs') == Stages(hs)[j := hs'[j].stage] && ts' == ts[j := ts'[j]]
  {
  }

  /** The worlds a run passes through. */
  ghost predicate Ran(acts: seq<Action>, ws: seq<World>) {
    |ws| == |acts| + 1 && forall k :: 0 <= k < |acts| ==> Follows(ws[k], acts[k], ws[k + 1])
  }

  /** Any run of steps. */
  method PerformAll(st: State, acts: seq<Action>) returns (ghost ws: seq<World>)
    requires st.Valid()
    modifies st
    ensures Lasting(st) && Ran(acts, ws) && ws[0] == old(WorldOf(st)) && ws[|acts|] == WorldOf(st)
  {
    ws := [WorldOf(st)];
    for k := 0 to |acts|
      invariant Lasting(st) && Ran(acts[..k], ws) && ws[0] == old(WorldOf(st)) && ws[k] == WorldOf(st)
    {
      Perform(st, acts[k]);
      ws := ws + [WorldOf(st)];
      assert forall i :: 0 <= i < k ==> acts[..k + 1][i] == acts[..k][i];
    }
    assert acts[..|acts|] == acts;
  }

  /** After any run, every trie answers every key as before. */
  method PersistenceOfTries(st: State, acts: seq<Action>, i: nat, key: seq<Byte>)
    returns (before: Option<Buf>, after: Option<Buf>, ghost ws: seq<World>)
    requires st.Valid() && i < |st.handles| && st.handles[i].stage.Frozen?
    modifies st
    ensures before == after && Ran(acts, ws) && ws[0] == old(WorldOf(st)) && ws[|acts|] == WorldOf(st)
  {
    before := st.Lookup(i, key);
    ws := PerformAll(st, acts);
    after := st.Lookup(i, key);
  }

  /** A transaction hashed and committed now can be reopened by its root hash after any run. */
  method ReloadAfterRun(st: State, j: nat, kept: set<Buf>, acts: seq<Action>, key: seq<Byte>)
    returns (direct: Option<Buf>, reopened: Option<nat>, later: Option<Buf>, ghost ws: seq<World>)
    requires st.Valid() && j < |st.handles| && !st.handles[j].stage.Frozen?
    modifies st
    ensures reopened.Some? && later == direct
    ensures Ran(acts, ws) && Follows(old(WorldOf(st)), FinishStored(j, false, kept), ws[0])
  {
    HandleKnown(st, j);
    direct := st.Lookup(j, key);
    var root := st.Hash(j);
    ghost var t := st.trees[j];
    st.Commit(j);
    st.AddTrieState(root, j, kept);
    Replaced(old(st.handles), old(st.trees), st.handles, st.trees, j);
    label Stored:
    ws := PerformAll(st, acts);
    StoredRootGrows(old@Stored(st.db), st.db, root, t);
    reopened := st.NewSnapshotAt(root);
    RootHashInjective(st.db.inline, t, st.trees[reopened.value]);
    later := st.Lookup(reopened.value, key);
  }
}
