/** A block executed and committed: what the next block reads, and the sum of all balances. */
module BlockCommit {
  import opened Nibbles
  import opened Rlp
  import opened Options
  import opened TrieNodes
  import opened TrieHasher
  import opened TrieState
  import opened Accounts
  import opened Overlay
  import opened Readings
  import opened Totals
  import opened Execution
  import opened Messages
  import opened Bridge
  import opened Blocks
  import opened ReadBack
  import C = TrieCommit
  import P = PatriciaTree
  import T = StateTxn

  /** Read as absent after the clean-up: what was absent, what self-destructed and, if asked, what was written and read as empty. */
  lemma CleanAbsent(b: Base, v: View, deleteEmpty: bool, a: Address)
    ensures !Exists(b, Clean(v, deleteEmpty), a) <==>
      !Exists(b, v, a) || Suicided(b, v, a) || (deleteEmpty && a in v.objs && ReadsEmpty(b, v, a))
    ensures Exists(b, Clean(v, deleteEmpty), a) ==> ObjAt(b, Clean(v, deleteEmpty), a) == ObjAt(b, v, a)
  {
    CleanReads(b, v, deleteEmpty, a);
  }

  /** The accounts that outlive the clean-up, by what is read before it. */
  ghost predicate Outlives(b: Base, v: View, deleteEmpty: bool, a: Address) {
    Exists(b, v, a) && !Suicided(b, v, a) && !(deleteEmpty && a in v.objs && ReadsEmpty(b, v, a))
  }

  /** The committed state has just these, reading as they did. */
  lemma CommittedSurvivors(b: Base, v: View, deleteEmpty: bool, b': Base, a: Address)
    requires SameAt(b, Clean(v, deleteEmpty), b', UNTOUCHED, a)
    ensures Exists(b', UNTOUCHED, a) <==> Outlives(b, v, deleteEmpty, a)
    ensures Outlives(b, v, deleteEmpty, a) ==> SameAt(b, v, b', UNTOUCHED, a)
  {
    CleanAbsent(b, v, deleteEmpty, a);
  }

  /** The storage roots of the objects can be opened. */
  lemma RootsStored(hashit: C.Hasher, db: Db, b: Base, v: View, objs: seq<Object>, k: nat)
    requires (forall r {:trigger b.storage[r]} :: r in b.storage ==> r != EMPTY_ROOT && RootReads(hashit, db, r, b.storage[r]))
    requires ViewOk(b, v) && T.Lists(v, objs) && k < |objs|
    ensures exists u :: StoredRoot(db, objs[k].account.root, u)
  {
    var o := v.objs[objs[k].address];
    assert T.IsObject(objs[k], o) && ObjOk(b, o);
    if o.account.root == EMPTY_ROOT {
      EmptyStored(db);
    } else {
      assert RootReads(hashit, db, o.account.root, b.storage[o.account.root]);
    }
  }

  lemma AllRootsStored(hashit: C.Hasher, db: Db, t: P.Tree, codes: map<Buf, seq<Byte>>, b: Base, v: View, objs: seq<Object>)
    requires Reads(hashit, db, t, codes, b) && ViewOk(b, v) && T.Lists(v, objs)
    ensures forall k :: 0 <= k < |objs| && !objs[k].deleted && objs[k].storage != [] ==> exists u :: StoredRoot(db, objs[k].account.root, u)
  {
    forall k | 0 <= k < |objs| ensures exists u :: StoredRoot(db, objs[k].account.root, u) {
      RootsStored(hashit, db, b, v, objs, k);
    }
  }

  /**
   Txn.Commit and Trie.Commit: a transaction on the new trie reads every account as it was shown after
   the clean-up; older tries are what they were.
   */
  method CommitState(txn: T.Txn, st: State, i: nat, hashit: C.Hasher, deleteEmpty: bool, kept: set<Buf>)
    returns (n: nat, root: Buf, ghost b': Base)
    requires txn.Valid() && st.Valid() && i < |st.handles| && st.handles[i].stage.Frozen? && GoodHash(hashit)
    requires Reads(hashit, st.db, st.trees[i], st.codes, txn.base) && ViewOk(txn.base, txn.view)
    modifies txn, st
    ensures st.Valid() && OthersKept(old(st.handles), old(st.trees), st.handles, st.trees, -1)
    ensures n < |st.handles| && st.handles[n].stage.Frozen? && StoredRoot(st.db, root, st.trees[n])
    ensures Reads(hashit, st.db, st.trees[n], st.codes, b')
    ensures forall a :: SameAt(txn.base, Clean(old(txn.view), deleteEmpty), b', UNTOUCHED, a)
    ensures forall a :: Exists(b', UNTOUCHED, a) <==> Outlives(txn.base, old(txn.view), deleteEmpty, a)
    ensures forall a :: Outlives(txn.base, old(txn.view), deleteEmpty, a) ==> SameAt(txn.base, old(txn.view), b', UNTOUCHED, a)
    ensures b'.accounts.Keys <= Known(txn.base, Clean(old(txn.view), deleteEmpty))
  {
    ghost var v, db, t, b := txn.view, st.db, st.trees[i], txn.base;
    var objs := txn.Commit(deleteEmpty);
    ghost var v1 := txn.view;
    CleanOk(b, v, deleteEmpty);
    AllRootsStored(hashit, db, t, st.codes, b, v1, objs);
    ghost var roots, ts;
    n, root, roots, ts := C.Commit(st, i, hashit, objs, kept);
    b' := NewBase(b, v1, objs, roots);
    CommitReads(hashit, db, st.db, t, b, v1, objs, roots, ts);
    AllReadBack(hashit, db, st.db, t, b, v1, objs, roots, ts);
    forall a: Address
      ensures Exists(b', UNTOUCHED, a) <==> Outlives(b, v, deleteEmpty, a)
      ensures Outlives(b, v, deleteEmpty, a) ==> SameAt(b, v, b', UNTOUCHED, a)
    {
      CommittedSurvivors(b, v, deleteEmpty, b', a);
    }
  }

  lemma AllReadBack(hashit: C.Hasher, db: Db, db': Db, t: P.Tree, b: Base, v: View, objs: seq<Object>, roots: seq<Buf>, ts: seq<P.Tree>)
    requires Committed(hashit, db, db', t, b, v, objs, roots, ts)
    ensures forall a :: SameAt(b, v, NewBase(b, v, objs, roots), UNTOUCHED, a)
  {
    forall a: Address ensures SameAt(b, v, NewBase(b, v, objs, roots), UNTOUCHED, a) {
      CommitReadsBack(hashit, db, db', t, b, v, objs, roots, ts, a);
    }
  }

  /** The same balances, so the same sum. */
  lemma CommittedTotal(b: Base, v: View, b': Base)
    requires forall a :: SameAt(b, v, b', UNTOUCHED, a)
    requires b'.accounts.Keys <= Known(b, v)
    ensures Total(b', UNTOUCHED) == Total(b, v)
  {
    var s := Known(b, v);
    forall a: Address | a in s ensures Balance(b', UNTOUCHED, a) == Balance(b, v, a) {
      assert SameAt(b, v, b', UNTOUCHED, a);
    }
    SumAcross(b, v, b', UNTOUCHED, s);
    SumMore(b', UNTOUCHED, Known(b', UNTOUCHED), s);
  }

  /**
   A block, with Byzantium active: its transactions are executed on the state read from the trie `i` and
   the result is committed. The new trie again reads as a state that nothing is missing from; gas used
   never exceeds the limit; and, if nothing self-destructs, the sum of all balances in the new state is
   the old sum plus what the bridge brought in minus what it took out.
   */
  method ExecuteBlock(tr: Transition, st: State, i: nat, hashit: C.Hasher, txs: seq<Tx>, gasLimit: nat, stopAt: nat, kept: set<Buf>)
    returns (ok: bool, n: nat, root: Buf, ghost b': Base)
    requires tr.Valid() && tr.Ledger(gasLimit) && tr.receipts == [] && tr.state.view == UNTOUCHED && tr.env.forks.byzantium
    requires st.Valid() && i < |st.handles| && st.handles[i].stage.Frozen? && GoodHash(hashit)
    requires Reads(hashit, st.db, st.trees[i], st.codes, tr.state.base)
    requires forall k :: 0 <= k < |txs| ==> txs[k].msg.gas < TWO64
    modifies tr, tr.state, st
    ensures ok ==> tr.totalGas <= gasLimit && Cumulative(tr.receipts) && |tr.receipts| == |txs|
    ensures ok ==> st.Valid() && OthersKept(old(st.handles), old(st.trees), st.handles, st.trees, -1)
    ensures ok ==> n < |st.handles| && StoredRoot(st.db, root, st.trees[n]) && Reads(hashit, st.db, st.trees[n], st.codes, b')
    ensures ok && AllCalm(txs) ==> Total(b', UNTOUCHED) == Total(old(tr.state.base), UNTOUCHED) + BlockNet(tr.bridge, gasLimit, txs, tr.receipts)
  {
    n, root, b' := 0, EMPTY, tr.state.base;
    ghost var b := tr.state.base;
    NothingDoomed();
    ok := tr.ProcessTransactions(gasLimit, txs, stopAt, gasLimit);
    if ok {
      ghost var v, v' := tr.state.view, Clean(tr.state.view, tr.env.forks.eip155);
      n, root, b' := CommitState(tr.state, st, i, hashit, tr.env.forks.eip155, kept);
      CommittedTotal(b, v', b');
      TotalClean(b, v, tr.env.forks.eip155);
      assert tr.receipts[0..] == tr.receipts;
    }
  }

  lemma NothingDoomed()
    ensures Doomed(UNTOUCHED) == {} && forall b :: ViewOk(b, UNTOUCHED)
  {
  }
}
