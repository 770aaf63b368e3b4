/** Trie.Commit (state/immutable-trie/trie.go:122-208). */
module TrieCommit {
  import opened Nibbles
  import opened Rlp
  import opened Options
  import opened PatriciaTree
  import opened PatriciaCanon
  import opened TrieNodes
  import opened TrieHasher
  import opened TrieWorld
  import opened TrieState
  import opened Accounts

  /** The keccak that turns addresses and slots into trie keys. */
  type Hasher = seq<Byte> -> seq<Byte>

  function StorageOp(hashit: Hasher, e: StorageObject): (op: Op) {
    if e.val.None? then Del(hashit(e.key)) else Put(hashit(e.key), SlotValue(e.val.value))
  }

  function StorageOps(hashit: Hasher, es: seq<StorageObject>): (ops: seq<Op>)
    ensures |ops| == |es| && forall i :: 0 <= i < |es| ==> ops[i] == StorageOp(hashit, es[i])
  {
    seq(|es|, i requires 0 <= i < |es| => StorageOp(hashit, es[i]))
  }

  /** What committing `obj` does to the account trie, once its storage root is known. */
  function AccountOp(hashit: Hasher, obj: Object, root: Buf): (op: Op) {
    if obj.deleted then Del(hashit(obj.address))
    else Put(hashit(obj.address), MarshalAccount(obj.account.(root := root)))
  }

  function AccountOps(hashit: Hasher, objs: seq<Object>, roots: seq<Buf>): (ops: seq<Op>)
    requires |roots| == |objs|
    ensures |ops| == |objs| && NonEmptyValues(ops)
    ensures forall i :: 0 <= i < |objs| ==> ops[i] == AccountOp(hashit, objs[i], roots[i])
  {
    seq(|objs|, i requires 0 <= i < |objs| => AccountOp(hashit, objs[i], roots[i]))
  }

  /** The code store once the objects' new code is written. */
  function CodesAfter(codes: map<Buf, seq<Byte>>, objs: seq<Object>): (codes': map<Buf, seq<Byte>>)
    decreases |objs|
  {
    if objs == [] then codes
    else
      var rest, x := CodesAfter(codes, objs[..|objs| - 1]), objs[|objs| - 1];
      if !x.deleted && x.code.Some? then rest[x.account.codeHash := x.code.value] else rest
  }

  lemma {:induction false} RunSnoc(t: Tree, ops: seq<Op>, op: Op)
    requires Canonical(t) && NonEmptyValues(ops) && (op.Put? ==> op.val != EMPTY)
    ensures NonEmptyValues(ops + [op]) && Run(t, ops + [op]) == Step(Run(t, ops), op)
    decreases |ops|
  {
    if ops == [] {
      assert [] + [op] == [op] && [op][1..] == [];
      assert Run(Step(t, op), []) == Step(t, op);
    } else {
      RunSnoc(Step(t, ops[0]), ops[1..], op);
      assert (ops + [op])[1..] == ops[1..] + [op];
    }
  }

  lemma RunNext(t: Tree, ops: seq<Op>, k: nat)
    requires Canonical(t) && NonEmptyValues(ops) && k < |ops|
    ensures Run(t, ops[..k + 1]) == Step(Run(t, ops[..k]), ops[k])
  {
    assert ops[..k + 1] == ops[..k] + [ops[k]];
    RunSnoc(t, ops[..k], ops[k]);
  }

  /** Nothing but the transaction `j` has changed. */
  twostate predicate OnlyTxn(st: State, j: nat)
    reads st
  {
    && st.Valid() && j < |st.handles| == |old(st.handles)|
    && OthersKept(old(st.handles), old(st.trees), st.handles, st.trees, j)
    && st.db == old(st.db)
  }

  /** The written slots of one account, applied in turn to its storage transaction. */
  method ApplyStorage(st: State, j: nat, hashit: Hasher, es: seq<StorageObject>)
    requires st.Valid() && j < |st.handles| && st.handles[j].stage.Open?
    modifies st`cells, st`handles, st`trees
    ensures OnlyTxn(st, j) && st.handles[j].stage.Open?
    ensures Canonical(old(st.trees[j])) && st.trees[j] == Run(old(st.trees[j]), StorageOps(hashit, es))
  {
    ghost var ops, t := StorageOps(hashit, es), st.trees[j];
    assert HandleOk(st.db, st.cells, st.handles[j], t);
    for k := 0 to |es|
      invariant OnlyTxn(st, j) && st.handles[j].stage.Open?
      invariant st.trees[j] == Run(t, ops[..k])
    {
      if es[k].val.None? {
        st.Delete(j, hashit(es[k].key));
      } else {
        st.Insert(j, hashit(es[k].key), SlotValue(es[k].val.value));
      }
      RunNext(t, ops, k);
    }
    assert ops[..|es|] == ops;
  }

  /** A transaction on the storage trie of that root. */
  method OpenStorage(st: State, root: Buf, ghost u: Tree) returns (j: nat)
    requires st.Valid() && StoredRoot(st.db, root, u)
    modifies st`cells, st`handles, st`trees
    ensures st.Valid() && OthersKept(old(st.handles), old(st.trees), st.handles, st.trees, -1)
    ensures |old(st.handles)| <= j < |st.handles| && st.handles[j].stage.Open? && st.trees[j] == u
  {
    var i := st.NewSnapshotAt(root);
    RootHashInjective(st.db.inline, u, st.trees[i.value]);
    j := st.BeginTxn(i.value);
  }

  /** The new storage root of `obj`: its old trie with the written slots applied, stored and cached. */
  method CommitStorage(st: State, hashit: Hasher, obj: Object, kept: set<Buf>) returns (root: Buf, ghost t: Tree)
    requires st.Valid() && exists u :: StoredRoot(st.db, obj.account.root, u)
    modifies st`db, st`cells, st`handles, st`trieCache, st`accountCache, st`trees
    ensures st.Valid() && OthersKept(old(st.handles), old(st.trees), st.handles, st.trees, -1)
    ensures Grown(old(st.db), st.db)
    ensures StoredRoot(old(st.db), obj.account.root, t)
    ensures StoredRoot(st.db, root, Run(t, StorageOps(hashit, obj.storage)))
    ensures root in kept ==> root in st.accountCache
  {
    ghost var u :| StoredRoot(st.db, obj.account.root, u);
    t := u;
    var j := OpenStorage(st, obj.account.root, u);
    ApplyStorage(st, j, hashit, obj.storage);
    root := st.Hash(j);
    st.Commit(j);
    st.AddAccountState(root, j, kept);
  }

  /** `root` is the storage root `obj` is committed with; `t` is the storage trie it had before. */
  ghost predicate Rooted(hashit: Hasher, db: Db, db': Db, obj: Object, root: Buf, t: Tree) {
    if obj.deleted || obj.storage == [] then root == obj.account.root
    else
      && StoredRoot(db, obj.account.root, t)
      && StoredRoot(db', root, Run(t, StorageOps(hashit, obj.storage)))
  }

  lemma RootedGrows(hashit: Hasher, db: Db, db': Db, db'': Db, obj: Object, root: Buf, t: Tree)
    requires Rooted(hashit, db, db', obj, root, t) && Grown(db', db'')
    ensures Rooted(hashit, db, db'', obj, root, t)
  {
    if !obj.deleted && obj.storage != [] {
      StoredRootGrows(db', db'', root, Run(t, StorageOps(hashit, obj.storage)));
    }
  }

  /** The storage root of one object; an object without written slots keeps its own. */
  method CommitObject(st: State, hashit: Hasher, obj: Object, kept: set<Buf>, ghost db0: Db)
    returns (root: Buf, ghost t: Tree)
    requires st.Valid() && Grown(db0, st.db)
    requires !obj.deleted && obj.storage != [] ==> exists u :: StoredRoot(db0, obj.account.root, u)
    modifies st`db, st`cells, st`handles, st`trieCache, st`accountCache, st`trees
    ensures st.Valid() && OthersKept(old(st.handles), old(st.trees), st.handles, st.trees, -1)
    ensures Grown(old(st.db), st.db) && Rooted(hashit, db0, st.db, obj, root, t)
  {
    root, t := obj.account.root, Nil;
    if !obj.deleted && obj.storage != [] {
      ghost var u :| StoredRoot(db0, obj.account.root, u);
      StoredRootGrows(db0, st.db, obj.account.root, u);
      root, t := CommitStorage(st, hashit, obj, kept);
      RootHashInjective(db0.inline, t, u);
    }
  }

  /** The first `k` objects are in the account transaction `j`. */
  ghost predicate Progress(st: State, j: nat, hashit: Hasher, db0: Db, t0: Tree, objs: seq<Object>, roots: seq<Buf>, ts: seq<Tree>, k: nat)
    reads st
  {
    && st.Valid() && j < |st.handles| && st.handles[j].stage.Open? && Canonical(t0)
    && Grown(db0, st.db) && k == |roots| == |ts| <= |objs|
    && st.trees[j] == Run(t0, AccountOps(hashit, objs[..k], roots))
    && forall m :: 0 <= m < k ==> Rooted(hashit, db0, st.db, objs[m], roots[m], ts[m])
  }

  /** The account is deleted, or its code is written and it is inserted with its new root. */
  method PutAccount(st: State, j: nat, hashit: Hasher, obj: Object, root: Buf)
    requires st.Valid() && j < |st.handles| && st.handles[j].stage.Open?
    modifies st`cells, st`handles, st`trees, st`codes
    ensures OnlyTxn(st, j) && st.handles[j].stage.Open?
    ensures Canonical(old(st.trees[j])) && st.trees[j] == Step(old(st.trees[j]), AccountOp(hashit, obj, root))
    ensures st.codes == if !obj.deleted && obj.code.Some? then old(st.codes)[obj.account.codeHash := obj.code.value] else old(st.codes)
  {
    assert HandleOk(st.db, st.cells, st.handles[j], st.trees[j]);
    if obj.deleted {
      st.Delete(j, hashit(obj.address));
    } else {
      if obj.code.Some? {
        st.SetCode(obj.account.codeHash, obj.code.value);
      }
      st.Insert(j, hashit(obj.address), MarshalAccount(obj.account.(root := root)));
    }
  }

  /** The account transaction is hashed, committed and cached. */
  method Seal(st: State, j: nat, kept: set<Buf>) returns (root: Buf)
    requires st.Valid() && j < |st.handles| && st.handles[j].stage.Open?
    modifies st`db, st`cells, st`handles, st`trieCache
    ensures st.Valid() && |st.handles| == |old(st.handles)| && OthersKept(old(st.handles), st.trees, st.handles, st.trees, j)
    ensures st.handles[j].stage.Frozen? && Grown(old(st.db), st.db) && StoredRoot(st.db, root, st.trees[j])
    ensures root in kept ==> root in st.trieCache && st.trieCache[root] == j
  {
    root := st.Hash(j);
    st.Commit(j);
    st.AddTrieState(root, j, kept);
  }

  lemma AccountsNext(t0: Tree, hashit: Hasher, objs: seq<Object>, roots: seq<Buf>, root: Buf, k: nat)
    requires Canonical(t0) && k == |roots| < |objs|
    ensures Canonical(Run(t0, AccountOps(hashit, objs[..k], roots)))
    ensures Run(t0, AccountOps(hashit, objs[..k + 1], roots + [root]))
      == Step(Run(t0, AccountOps(hashit, objs[..k], roots)), AccountOp(hashit, objs[k], root))
  {
    var ops := AccountOps(hashit, objs[..k], roots);
    RunSnoc(t0, ops, AccountOp(hashit, objs[k], root));
    assert AccountOps(hashit, objs[..k + 1], roots + [root]) == ops + [AccountOp(hashit, objs[k], root)];
  }

  /** One round of Trie.Commit's loop. */
  method CommitNext(st: State, j: nat, hashit: Hasher, ghost db0: Db, ghost t0: Tree, objs: seq<Object>,
                    ghost roots: seq<Buf>, ghost ts: seq<Tree>, k: nat, kept: set<Buf>)
    returns (ghost roots': seq<Buf>, ghost ts': seq<Tree>)
    requires k < |objs| && Progress(st, j, hashit, db0, t0, objs, roots, ts, k)
    requires !objs[k].deleted && objs[k].storage != [] ==> exists u :: StoredRoot(db0, objs[k].account.root, u)
    modifies st
    ensures Progress(st, j, hashit, db0, t0, objs, roots', ts', k + 1)
    ensures OthersKept(old(st.handles), old(st.trees), st.handles, st.trees, j)
    ensures st.codes == if !objs[k].deleted && objs[k].code.Some? then old(st.codes)[objs[k].account.codeHash := objs[k].code.value] else old(st.codes)
  {
    var obj := objs[k];
    var root;
    ghost var t;
    root, t := CommitObject(st, hashit, obj, kept, db0);
    roots', ts' := roots + [root], ts + [t];
    forall m | 0 <= m < k ensures Rooted(hashit, db0, st.db, objs[m], roots[m], ts[m]) {
      RootedGrows(hashit, db0, old(st.db), st.db, objs[m], roots[m], ts[m]);
    }
    PutAccount(st, j, hashit, obj, root);
    AccountsNext(t0, hashit, objs, roots, root, k);
  }

  /**
   Trie.Commit: the account trie with every object applied in turn, each account carrying the root of
   its updated storage trie; everything stored, nothing older changed.
   */
  method Commit(st: State, i: nat, hashit: Hasher, objs: seq<Object>, kept: set<Buf>)
    returns (n: nat, root: Buf, ghost roots: seq<Buf>, ghost ts: seq<Tree>)
    requires st.Valid() && i < |st.handles| && st.handles[i].stage.Frozen?
    requires forall k :: 0 <= k < |objs| && !objs[k].deleted && objs[k].storage != [] ==>
      exists u :: StoredRoot(st.db, objs[k].account.root, u)
    modifies st
    ensures st.Valid() && OthersKept(old(st.handles), old(st.trees), st.handles, st.trees, -1)
    ensures n < |st.handles| && st.handles[n].stage.Frozen? && Grown(old(st.db), st.db)
    ensures StoredRoot(st.db, root, st.trees[n]) && |roots| == |ts| == |objs| && Canonical(old(st.trees[i]))
    ensures st.trees[n] == Run(old(st.trees[i]), AccountOps(hashit, objs, roots))
    ensures forall k :: 0 <= k < |objs| ==> Rooted(hashit, old(st.db), st.db, objs[k], roots[k], ts[k])
    ensures st.codes == CodesAfter(old(st.codes), objs) && (root in kept ==> root in st.trieCache && st.trieCache[root] == n)
  {
    assert HandleOk(st.db, st.cells, st.handles[i], st.trees[i]);
    ghost var db0, t0 := st.db, st.trees[i];
    n := st.BeginTxn(i);
    roots, ts := [], [];
    for k := 0 to |objs|
      invariant Progress(st, n, hashit, db0, t0, objs, roots, ts, k)
      invariant |old(st.handles)| <= n && OthersKept(old(st.handles), old(st.trees), st.handles, st.trees, -1)
      invariant st.codes == CodesAfter(old(st.codes), objs[..k])
    {
      assert objs[..k + 1][..k] == objs[..k];
      roots, ts := CommitNext(st, n, hashit, db0, t0, objs, roots, ts, k, kept);
    }
    assert objs[..|objs|] == objs;
    label Hashing:
    root := Seal(st, n, kept);
    forall k | 0 <= k < |objs| ensures Rooted(hashit, db0, st.db, objs[k], roots[k], ts[k]) {
      RootedGrows(hashit, db0, old@Hashing(st.db), st.db, objs[k], roots[k], ts[k]);
    }
  }
}
