/**
 Committing a state transaction and reading it back (state/txn.go:549-634 and
 state/immutable-trie/trie.go:122-208): the accounts, slots and code a transaction on the new trie sees
 are those the committed transaction showed.
 */
module ReadBack {
  import opened Nibbles
  import opened Rlp
  import opened Options
  import opened PatriciaTree
  import opened PatriciaCanon
  import opened HashedTries
  import opened TrieNodes
  import opened TrieHasher
  import opened TrieState
  import opened TrieCommit
  import opened Accounts
  import opened Overlay
  import T = StateTxn

  /** A transaction that has written nothing. */
  const UNTOUCHED := View(map[], [], 0)

  /** The key hash: 32 bytes, no two addresses and no two slots alike. */
  ghost predicate GoodHash(hashit: Hasher) {
    && (forall x: seq<Byte> {:trigger hashit(x)} :: |hashit(x)| == 32)
    && (forall a: Address, b: Address {:trigger hashit(a), hashit(b)} :: hashit(a) == hashit(b) ==> a == b)
    && (forall k: Word, l: Word {:trigger hashit(k), hashit(l)} :: hashit(k) == hashit(l) ==> k == l)
  }

  // What a trie says.

  ghost function AccountIn(hashit: Hasher, t: Tree, a: Address): (r: Option<Account>)
    requires Canonical(t)
  {
    var x := Lookup(t, HexOf(hashit(a)));
    if x.Some? then UnmarshalAccount(x.value) else None
  }

  function ValueOf(m: map<Word, Word>, k: Word): (w: Word) {
    if k in m then m[k] else ZERO
  }

  /** The storage trie `u` holds the slots `m`. */
  ghost predicate StorageIs(hashit: Hasher, u: Tree, m: map<Word, Word>) {
    HashKeys(u) && forall k: Word :: SlotWord(Lookup(u, HexOf(hashit(k)))) == ValueOf(m, k)
  }

  ghost predicate RootReads(hashit: Hasher, db: Db, r: Buf, m: map<Word, Word>) {
    exists u :: StoredRoot(db, r, u) && StorageIs(hashit, u, m)
  }

  /** The code of every account is known. */
  ghost predicate HasCode(b: Base, h: Buf) {
    h == CodeHash([]) || h in b.codes
  }

  /** `b` is what a transaction on the trie `t` reads, and nothing it refers to is missing. */
  ghost predicate Reads(hashit: Hasher, db: Db, t: Tree, codes: map<Buf, seq<Byte>>, b: Base) {
    && HashKeys(t) && b.codes == codes && CodesOk(b)
    && (forall a: Address {:trigger AccountIn(hashit, t, a)} :: AccountIn(hashit, t, a) == if a in b.accounts then Some(b.accounts[a]) else None)
    && (forall a {:trigger b.accounts[a]} :: a in b.accounts ==>
          (b.accounts[a].root == EMPTY_ROOT || b.accounts[a].root in b.storage) && HasCode(b, b.accounts[a].codeHash))
    && (forall r {:trigger b.storage[r]} :: r in b.storage ==> r != EMPTY_ROOT && RootReads(hashit, db, r, b.storage[r]))
  }

  lemma EmptyTrie(hashit: Hasher, db: Db, u: Tree)
    requires StoredRoot(db, EMPTY_ROOT, u)
    ensures u == Nil && StorageIs(hashit, u, map[])
  {
    RootHashInjective(db.inline, u, Nil);
  }

  lemma EmptyStored(db: Db)
    ensures StoredRoot(db, EMPTY_ROOT, Nil)
  {
  }

  lemma RootReadsUnique(hashit: Hasher, db: Db, r: Buf, m: map<Word, Word>, m': map<Word, Word>, k: Word)
    requires RootReads(hashit, db, r, m) && RootReads(hashit, db, r, m')
    ensures ValueOf(m, k) == ValueOf(m', k)
  {
    var u :| StoredRoot(db, r, u) && StorageIs(hashit, u, m);
    var u' :| StoredRoot(db, r, u') && StorageIs(hashit, u', m');
    RootHashInjective(db.inline, u, u');
  }

  lemma RootReadsGrows(hashit: Hasher, db: Db, db': Db, r: Buf, m: map<Word, Word>)
    requires RootReads(hashit, db, r, m) && Grown(db, db')
    ensures RootReads(hashit, db', r, m)
  {
    var u :| StoredRoot(db, r, u) && StorageIs(hashit, u, m);
    StoredRootGrows(db, db', r, u);
  }

  // Objects.

  function SlotOf(b: Base, o: Obj, k: Word): (w: Word) {
    if k in o.slots then (if o.slots[k].Some? then o.slots[k].value else ZERO) else CommittedSlot(b, o, k)
  }

  /** The committed slots of the object. */
  function OldSlots(b: Base, o: Obj): (m: map<Word, Word>) {
    if o.account.root == EMPTY_ROOT || o.account.root !in b.storage then map[] else b.storage[o.account.root]
  }

  /** Its slots with what was written. */
  function NewSlots(b: Base, o: Obj): (m: map<Word, Word>)
    ensures forall k: Word :: ValueOf(m, k) == SlotOf(b, o, k)
  {
    map k: Word | k in OldSlots(b, o).Keys + o.slots.Keys :: SlotOf(b, o, k)
  }

  lemma SlotOpAnswers(hashit: Hasher, e: StorageObject, u: Tree)
    requires e.val.Some? ==> |e.val.value| == 32
    requires Canonical(u) && Lookup(u, HexOf(hashit(e.key))) == After(StorageOp(hashit, e))
    ensures SlotWord(Lookup(u, HexOf(hashit(e.key)))) == if e.val.Some? then e.val.value else ZERO
  {
    if e.val.Some? {
      WordRoundTrip(e.val.value);
    }
  }

  lemma StorageOpsGood(hashit: Hasher, m: map<Word, Option<Word>>, es: seq<StorageObject>)
    requires GoodHash(hashit) && T.ListsSlots(m, es)
    ensures HashOps(StorageOps(hashit, es)) && DistinctKeys(StorageOps(hashit, es))
  {
    var ops := StorageOps(hashit, es);
    forall i, j | 0 <= i < j < |ops| ensures ops[i].key != ops[j].key {
      var k: Word, l: Word := es[i].key, es[j].key;
      assert hashit(k) == ops[i].key && hashit(l) == ops[j].key;
    }
  }

  lemma WrittenSlot(hashit: Hasher, o: Obj, es: seq<StorageObject>, u: Tree, k: Word)
    requires GoodHash(hashit) && T.ListsSlots(o.slots, es) && HashKeys(u) && k in o.slots
    ensures NonEmptyValues(StorageOps(hashit, es))
    ensures SlotWord(Lookup(Run(u, StorageOps(hashit, es)), HexOf(hashit(k)))) == if o.slots[k].Some? then o.slots[k].value else ZERO
  {
    StorageOpsGood(hashit, o.slots, es);
    var ops := StorageOps(hashit, es);
    var i :| 0 <= i < |es| && es[i].key == k;
    RunTouched(u, ops, i);
    SlotOpAnswers(hashit, es[i], Run(u, ops));
  }

  lemma OtherSlot(hashit: Hasher, o: Obj, es: seq<StorageObject>, u: Tree, k: Word)
    requires GoodHash(hashit) && T.ListsSlots(o.slots, es) && HashKeys(u) && k !in o.slots
    ensures NonEmptyValues(StorageOps(hashit, es))
    ensures Lookup(Run(u, StorageOps(hashit, es)), HexOf(hashit(k))) == Lookup(u, HexOf(hashit(k)))
  {
    StorageOpsGood(hashit, o.slots, es);
    var ops := StorageOps(hashit, es);
    forall i | 0 <= i < |ops| ensures HexOf(ops[i].key) != HexOf(hashit(k)) {
      var l: Word := es[i].key;
      assert ops[i].key == hashit(l) && l != k;
      HexKeysDiffer(ops[i].key, hashit(k));
    }
    RunUntouched(u, ops, HexOf(hashit(k)));
  }

  /** Applying the written slots to the old storage trie gives the new slots. */
  lemma StorageWritten(hashit: Hasher, b: Base, o: Obj, es: seq<StorageObject>, u: Tree)
    requires GoodHash(hashit) && T.ListsSlots(o.slots, es) && StorageIs(hashit, u, OldSlots(b, o))
    ensures NonEmptyValues(StorageOps(hashit, es)) && StorageIs(hashit, Run(u, StorageOps(hashit, es)), NewSlots(b, o))
  {
    StorageOpsGood(hashit, o.slots, es);
    RunKeepsKeys(u, StorageOps(hashit, es));
    forall k: Word ensures SlotWord(Lookup(Run(u, StorageOps(hashit, es)), HexOf(hashit(k)))) == ValueOf(NewSlots(b, o), k) {
      if k in o.slots {
        WrittenSlot(hashit, o, es, u, k);
      } else {
        OtherSlot(hashit, o, es, u, k);
      }
    }
  }

  /** The root an object was committed with reads as its new slots. */
  lemma RootedReads(hashit: Hasher, db: Db, db': Db, t: Tree, codes: map<Buf, seq<Byte>>, b: Base, o: Obj, x: Object, root: Buf, u: Tree)
    requires GoodHash(hashit) && Reads(hashit, db, t, codes, b) && ObjOk(b, o) && T.IsObject(x, o) && !o.deleted
    requires Rooted(hashit, db, db', x, root, u) && x.storage != []
    ensures RootReads(hashit, db', root, NewSlots(b, o))
  {
    var r := o.account.root;
    if r == EMPTY_ROOT {
      EmptyTrie(hashit, db, u);
    } else {
      assert RootReads(hashit, db, r, b.storage[r]);
      var u' :| StoredRoot(db, r, u') && StorageIs(hashit, u', b.storage[r]);
      RootHashInjective(db.inline, u, u');
    }
    StorageWritten(hashit, b, o, x.storage, u);
  }

  // The state after a commit.

  /** All that committing `objs` did, as Trie.Commit promises it. */
  ghost predicate Committed(hashit: Hasher, db: Db, db': Db, t: Tree, b: Base, v: View, objs: seq<Object>, roots: seq<Buf>, ts: seq<Tree>) {
    && GoodHash(hashit) && Reads(hashit, db, t, b.codes, b) && ViewOk(b, v) && T.Lists(v, objs) && Grown(db, db')
    && |roots| == |ts| == |objs| && forall i :: 0 <= i < |objs| ==> Rooted(hashit, db, db', objs[i], roots[i], ts[i])
  }

  ghost function IndexOf(v: View, objs: seq<Object>, a: Address): (i: nat)
    requires T.Lists(v, objs) && a in v.objs
    ensures i < |objs| && objs[i].address == a
  {
    var i :| 0 <= i < |objs| && objs[i].address == a;
    i
  }

  /** The object of index `i` was given a new, non-empty storage trie. */
  ghost predicate Restored(objs: seq<Object>, roots: seq<Buf>, i: nat)
    requires |roots| == |objs|
  {
    i < |objs| && !objs[i].deleted && objs[i].storage != [] && roots[i] != EMPTY_ROOT
  }

  ghost function NewAccounts(b: Base, v: View, objs: seq<Object>, roots: seq<Buf>): (m: map<Address, Account>)
    requires T.Lists(v, objs) && |roots| == |objs|
  {
    map a | a in b.accounts.Keys + v.objs.Keys && (a in v.objs ==> !v.objs[a].deleted) ::
      if a in v.objs then v.objs[a].account.(root := roots[IndexOf(v, objs, a)]) else b.accounts[a]
  }

  ghost function NewStorage(b: Base, v: View, objs: seq<Object>, roots: seq<Buf>): (m: map<Buf, map<Word, Word>>)
    requires T.Lists(v, objs) && |roots| == |objs|
  {
    var added := set i | 0 <= i < |objs| && Restored(objs, roots, i) && roots[i] !in b.storage :: roots[i];
    (map r | r in added ::
       var i :| 0 <= i < |objs| && Restored(objs, roots, i) && roots[i] == r;
       NewSlots(b, v.objs[objs[i].address])) + b.storage
  }

  /** What a transaction on the new trie reads. */
  ghost function NewBase(b: Base, v: View, objs: seq<Object>, roots: seq<Buf>): (b': Base)
    requires T.Lists(v, objs) && |roots| == |objs|
  {
    Base(NewAccounts(b, v, objs, roots), NewStorage(b, v, objs, roots), CodesAfter(b.codes, objs))
  }

  // Storage.

  lemma RestoredReads(hashit: Hasher, db: Db, db': Db, t: Tree, b: Base, v: View, objs: seq<Object>, roots: seq<Buf>, ts: seq<Tree>, i: nat)
    requires Committed(hashit, db, db', t, b, v, objs, roots, ts) && i < |objs| && !objs[i].deleted && objs[i].storage != []
    ensures |objs[i].address| == 20 && objs[i].address in v.objs && RootReads(hashit, db', roots[i], NewSlots(b, v.objs[objs[i].address]))
  {
    var o := v.objs[objs[i].address];
    RootedReads(hashit, db, db', t, b.codes, b, o, objs[i], roots[i], ts[i]);
  }

  lemma NewStorageReads(hashit: Hasher, db: Db, db': Db, t: Tree, b: Base, v: View, objs: seq<Object>, roots: seq<Buf>, ts: seq<Tree>, r: Buf)
    requires Committed(hashit, db, db', t, b, v, objs, roots, ts) && r in NewStorage(b, v, objs, roots)
    ensures r != EMPTY_ROOT && RootReads(hashit, db', r, NewStorage(b, v, objs, roots)[r])
  {
    if r in b.storage {
      assert NewStorage(b, v, objs, roots)[r] == b.storage[r];
      RootReadsGrows(hashit, db, db', r, b.storage[r]);
    } else {
      var i :| 0 <= i < |objs| && Restored(objs, roots, i) && roots[i] == r && NewStorage(b, v, objs, roots)[r] == NewSlots(b, v.objs[objs[i].address]);
      RestoredReads(hashit, db, db', t, b, v, objs, roots, ts, i);
    }
  }

  lemma RootKnown(hashit: Hasher, db: Db, db': Db, t: Tree, b: Base, v: View, objs: seq<Object>, roots: seq<Buf>, ts: seq<Tree>, i: nat)
    requires Committed(hashit, db, db', t, b, v, objs, roots, ts) && i < |objs| && !objs[i].deleted
    ensures roots[i] == EMPTY_ROOT || roots[i] in NewStorage(b, v, objs, roots)
  {
    if objs[i].storage == [] {
      assert Rooted(hashit, db, db', objs[i], roots[i], ts[i]);
      assert ObjOk(b, v.objs[objs[i].address]);
    } else if roots[i] != EMPTY_ROOT {
      assert Restored(objs, roots, i);
    }
  }

  /** Every slot of a surviving object reads as it was shown. */
  lemma SlotReadsBack(hashit: Hasher, db: Db, db': Db, t: Tree, b: Base, v: View, objs: seq<Object>, roots: seq<Buf>, ts: seq<Tree>, i: nat, k: Word)
    requires Committed(hashit, db, db', t, b, v, objs, roots, ts) && i < |objs| && !objs[i].deleted
    ensures |objs[i].address| == 20 && objs[i].address in v.objs
    ensures var st := NewStorage(b, v, objs, roots);
      SlotOf(b, v.objs[objs[i].address], k) == if roots[i] != EMPTY_ROOT && roots[i] in st then ValueOf(st[roots[i]], k) else ZERO
  {
    var o, r := v.objs[objs[i].address], roots[i];
    var st := NewStorage(b, v, objs, roots);
    assert Rooted(hashit, db, db', objs[i], r, ts[i]) && ObjOk(b, o);
    RootKnown(hashit, db, db', t, b, v, objs, roots, ts, i);
    if objs[i].storage == [] {
      NothingWritten(b, o, objs[i], k);
    } else {
      RestoredReads(hashit, db, db', t, b, v, objs, roots, ts, i);
      if r == EMPTY_ROOT {
        EmptyReads(hashit, db', NewSlots(b, o), k);
      } else {
        NewStorageReads(hashit, db, db', t, b, v, objs, roots, ts, r);
        RootReadsUnique(hashit, db', r, NewSlots(b, o), st[r], k);
      }
    }
  }

  lemma NothingWritten(b: Base, o: Obj, x: Object, k: Word)
    requires T.IsObject(x, o) && !o.deleted && x.storage == []
    ensures SlotOf(b, o, k) == CommittedSlot(b, o, k)
  {
  }

  lemma EmptyReads(hashit: Hasher, db: Db, m: map<Word, Word>, k: Word)
    requires RootReads(hashit, db, EMPTY_ROOT, m)
    ensures ValueOf(m, k) == ZERO
  {
    var u :| StoredRoot(db, EMPTY_ROOT, u) && StorageIs(hashit, u, m);
    EmptyTrie(hashit, db, u);
    assert ValueOf(m, k) == SlotWord(Lookup(u, HexOf(hashit(k))));
  }

  // Accounts.

  lemma AccountOpsGood(hashit: Hasher, v: View, objs: seq<Object>, roots: seq<Buf>)
    requires GoodHash(hashit) && T.Lists(v, objs) && |roots| == |objs|
    ensures HashOps(AccountOps(hashit, objs, roots)) && DistinctKeys(AccountOps(hashit, objs, roots))
  {
    var ops := AccountOps(hashit, objs, roots);
    forall i, j | 0 <= i < j < |ops| ensures ops[i].key != ops[j].key {
      var a: Address, b: Address := objs[i].address, objs[j].address;
      assert hashit(a) == ops[i].key && hashit(b) == ops[j].key;
    }
  }

  lemma WrittenAccount(hashit: Hasher, t: Tree, v: View, objs: seq<Object>, roots: seq<Buf>, i: nat)
    requires GoodHash(hashit) && HashKeys(t) && T.Lists(v, objs) && |roots| == |objs| && i < |objs|
    ensures |objs[i].address| == 20
    ensures AccountIn(hashit, Run(t, AccountOps(hashit, objs, roots)), objs[i].address) ==
      if objs[i].deleted then None else Some(objs[i].account.(root := roots[i]))
  {
    var ops := AccountOps(hashit, objs, roots);
    AccountOpsGood(hashit, v, objs, roots);
    RunTouched(t, ops, i);
    AccountRoundTrip(objs[i].account.(root := roots[i]));
  }

  lemma OtherAccount(hashit: Hasher, t: Tree, v: View, objs: seq<Object>, roots: seq<Buf>, a: Address)
    requires GoodHash(hashit) && HashKeys(t) && T.Lists(v, objs) && |roots| == |objs| && a !in v.objs
    ensures AccountIn(hashit, Run(t, AccountOps(hashit, objs, roots)), a) == AccountIn(hashit, t, a)
  {
    var ops := AccountOps(hashit, objs, roots);
    AccountOpsGood(hashit, v, objs, roots);
    forall i | 0 <= i < |ops| ensures HexOf(ops[i].key) != HexOf(hashit(a)) {
      assert ops[i] == AccountOp(hashit, objs[i], roots[i]) && |objs[i].address| == 20 && objs[i].address in v.objs;
      OtherKey(hashit, objs[i], roots[i], a);
    }
    RunUntouched(t, ops, HexOf(hashit(a)));
  }

  lemma OtherKey(hashit: Hasher, x: Object, root: Buf, a: Address)
    requires GoodHash(hashit) && |x.address| == 20 && x.address != a
    ensures HexOf(AccountOp(hashit, x, root).key) != HexOf(hashit(a))
  {
    var y: Address := x.address;
    HexKeysDiffer(hashit(y), hashit(a));
  }

  lemma NewAccountReads(hashit: Hasher, db: Db, db': Db, t: Tree, b: Base, v: View, objs: seq<Object>, roots: seq<Buf>, ts: seq<Tree>, a: Address)
    requires Committed(hashit, db, db', t, b, v, objs, roots, ts)
    ensures var m := NewAccounts(b, v, objs, roots);
      AccountIn(hashit, Run(t, AccountOps(hashit, objs, roots)), a) == if a in m then Some(m[a]) else None
  {
    if a in v.objs {
      var i := IndexOf(v, objs, a);
      WrittenAccount(hashit, t, v, objs, roots, i);
      assert T.IsObject(objs[i], v.objs[a]);
    } else {
      OtherAccount(hashit, t, v, objs, roots, a);
      assert AccountIn(hashit, t, a) == if a in b.accounts then Some(b.accounts[a]) else None;
    }
  }

  // Code.

  ghost predicate ByHash(codes: map<Buf, seq<Byte>>) {
    forall h :: h in codes ==> h == CodeHash(codes[h])
  }

  /** Everything stays under its hash, nothing is lost, and all new code is there. */
  lemma {:induction false} CodesKept(codes: map<Buf, seq<Byte>>, objs: seq<Object>)
    requires ByHash(codes) && forall i :: 0 <= i < |objs| && objs[i].code.Some? ==> objs[i].account.codeHash == CodeHash(objs[i].code.value)
    ensures ByHash(CodesAfter(codes, objs)) && codes.Keys <= CodesAfter(codes, objs).Keys
    ensures forall i :: 0 <= i < |objs| && !objs[i].deleted && objs[i].code.Some? ==> objs[i].account.codeHash in CodesAfter(codes, objs)
    decreases |objs|
  {
    if objs != [] {
      CodesKept(codes, objs[..|objs| - 1]);
    }
  }

  lemma CommittedCodes(hashit: Hasher, db: Db, db': Db, t: Tree, b: Base, v: View, objs: seq<Object>, roots: seq<Buf>, ts: seq<Tree>)
    requires Committed(hashit, db, db', t, b, v, objs, roots, ts)
    ensures CodesOk(NewBase(b, v, objs, roots)) && b.codes.Keys <= CodesAfter(b.codes, objs).Keys
    ensures forall i :: 0 <= i < |objs| && !objs[i].deleted ==> HasCode(NewBase(b, v, objs, roots), objs[i].account.codeHash)
  {
    forall i | 0 <= i < |objs| && objs[i].code.Some? ensures objs[i].account.codeHash == CodeHash(objs[i].code.value) {
      assert T.IsObject(objs[i], v.objs[objs[i].address]) && ObjOk(b, v.objs[objs[i].address]);
    }
    CodesKept(b.codes, objs);
    forall i | 0 <= i < |objs| && !objs[i].deleted ensures HasCode(NewBase(b, v, objs, roots), objs[i].account.codeHash) {
      var o := v.objs[objs[i].address];
      assert T.IsObject(objs[i], o) && ObjOk(b, o);
      if !o.dirtyCode && o.account.codeHash != CodeHash([]) {
        var a :| a in b.accounts && b.accounts[a].codeHash == o.account.codeHash;
        assert HasCode(b, b.accounts[a].codeHash);
      }
    }
  }

  // The theorem.

  /** After the commit, the new trie reads as NewBase. */
  lemma CommitReads(hashit: Hasher, db: Db, db': Db, t: Tree, b: Base, v: View, objs: seq<Object>, roots: seq<Buf>, ts: seq<Tree>)
    requires Committed(hashit, db, db', t, b, v, objs, roots, ts)
    ensures Reads(hashit, db', Run(t, AccountOps(hashit, objs, roots)), CodesAfter(b.codes, objs), NewBase(b, v, objs, roots))
  {
    var t', b' := Run(t, AccountOps(hashit, objs, roots)), NewBase(b, v, objs, roots);
    AccountOpsGood(hashit, v, objs, roots);
    RunKeepsKeys(t, AccountOps(hashit, objs, roots));
    CommittedCodes(hashit, db, db', t, b, v, objs, roots, ts);
    forall a: Address ensures AccountIn(hashit, t', a) == if a in b'.accounts then Some(b'.accounts[a]) else None {
      NewAccountReads(hashit, db, db', t, b, v, objs, roots, ts, a);
    }
    forall a | a in b'.accounts
      ensures b'.accounts[a].root == EMPTY_ROOT || b'.accounts[a].root in b'.storage
      ensures HasCode(b', b'.accounts[a].codeHash)
    {
      NewAccountKnown(hashit, db, db', t, b, v, objs, roots, ts, a);
    }
    forall r | r in b'.storage ensures r != EMPTY_ROOT && RootReads(hashit, db', r, b'.storage[r]) {
      NewStorageReads(hashit, db, db', t, b, v, objs, roots, ts, r);
    }
  }

  lemma NewAccountKnown(hashit: Hasher, db: Db, db': Db, t: Tree, b: Base, v: View, objs: seq<Object>, roots: seq<Buf>, ts: seq<Tree>, a: Address)
    requires Committed(hashit, db, db', t, b, v, objs, roots, ts) && a in NewAccounts(b, v, objs, roots)
    ensures var b' := NewBase(b, v, objs, roots);
      (b'.accounts[a].root == EMPTY_ROOT || b'.accounts[a].root in b'.storage) && HasCode(b', b'.accounts[a].codeHash)
  {
    CommittedCodes(hashit, db, db', t, b, v, objs, roots, ts);
    if a in v.objs {
      var i := IndexOf(v, objs, a);
      assert T.IsObject(objs[i], v.objs[a]);
      RootKnown(hashit, db, db', t, b, v, objs, roots, ts, i);
    } else {
      assert HasCode(b, b.accounts[a].codeHash);
    }
  }

  /** Reading `a` gives the same in both. */
  ghost predicate SameAt(b: Base, v: View, b': Base, v': View, a: Address) {
    && ObjAt(b', v', a).Some? == ObjAt(b, v, a).Some? && CodeHashAt(b', v', a) == CodeHashAt(b, v, a)
    && Balance(b', v', a) == Balance(b, v, a) && Nonce(b', v', a) == Nonce(b, v, a) && Code(b', v', a) == Code(b, v, a)
    && forall k :: Slot(b', v', a, k) == Slot(b, v, a, k)
  }

  function CodeAt(b: Base, h: Buf): (c: seq<Byte>) {
    if h in b.codes then b.codes[h] else []
  }

  function SlotAt(b: Base, r: Buf, k: Word): (w: Word) {
    if r != EMPTY_ROOT && r in b.storage then ValueOf(b.storage[r], k) else ZERO
  }

  /** An account as a transaction that wrote nothing reads it. */
  lemma FreshRead(b: Base, a: Address, acc: Account)
    requires a in b.accounts && b.accounts[a] == acc && (acc.root == EMPTY_ROOT || acc.root in b.storage)
    ensures ObjAt(b, UNTOUCHED, a) == Some(Obj(acc, [], false, false, false, map[]))
    ensures Balance(b, UNTOUCHED, a) == acc.balance && Nonce(b, UNTOUCHED, a) == acc.nonce && Code(b, UNTOUCHED, a) == CodeAt(b, acc.codeHash)
    ensures forall k :: Slot(b, UNTOUCHED, a, k) == SlotAt(b, acc.root, k)
  {
  }

  /** A larger code store answers the same for code that was known. */
  lemma CodeSame(b: Base, b': Base, h: Buf)
    requires CodesOk(b) && CodesOk(b') && b.codes.Keys <= b'.codes.Keys && HasCode(b, h)
    ensures CodeAt(b', h) == CodeAt(b, h)
  {
    if h in b.codes {
      assert h in b'.codes;
    }
  }

  lemma NewCode(b: Base, code: seq<Byte>)
    requires CodesOk(b) && HasCode(b, CodeHash(code))
    ensures CodeAt(b, CodeHash(code)) == code
  {
    var h := CodeHash(code);
    assert h in b.codes ==> CodeHash(b.codes[h]) == h;
  }

  /** An object's code, new or committed, is found under its hash. */
  lemma CodeBack(b: Base, b': Base, o: Obj)
    requires CodesOk(b) && CodesOk(b') && b.codes.Keys <= b'.codes.Keys && ObjOk(b, o) && HasCode(b', o.account.codeHash)
    requires forall a {:trigger b.accounts[a]} :: a in b.accounts ==> HasCode(b, b.accounts[a].codeHash)
    ensures CodeAt(b', o.account.codeHash) == if o.dirtyCode then o.code else CodeAt(b, o.account.codeHash)
  {
    var h := o.account.codeHash;
    if o.dirtyCode {
      NewCode(b', o.code);
    } else {
      if h != CodeHash([]) {
        var x :| x in b.accounts && b.accounts[x].codeHash == h;
        assert HasCode(b, b.accounts[x].codeHash);
      }
      CodeSame(b, b', h);
    }
  }

  lemma CodeReadsBack(hashit: Hasher, db: Db, db': Db, t: Tree, b: Base, v: View, objs: seq<Object>, roots: seq<Buf>, ts: seq<Tree>, a: Address)
    requires Committed(hashit, db, db', t, b, v, objs, roots, ts) && a in v.objs && !v.objs[a].deleted
    ensures CodeAt(NewBase(b, v, objs, roots), v.objs[a].account.codeHash) == Code(b, v, a)
  {
    var i := IndexOf(v, objs, a);
    CommittedCodes(hashit, db, db', t, b, v, objs, roots, ts);
    ListedCode(b, NewBase(b, v, objs, roots), v, objs, i);
  }

  lemma ListedCode(b: Base, b': Base, v: View, objs: seq<Object>, i: nat)
    requires CodesOk(b) && CodesOk(b') && b.codes.Keys <= b'.codes.Keys && ViewOk(b, v) && T.Lists(v, objs)
    requires i < |objs| && !objs[i].deleted && HasCode(b', objs[i].account.codeHash)
    requires forall a {:trigger b.accounts[a]} :: a in b.accounts ==> HasCode(b, b.accounts[a].codeHash)
    ensures |objs[i].address| == 20 && objs[i].address in v.objs
    ensures CodeAt(b', v.objs[objs[i].address].account.codeHash) == Code(b, v, objs[i].address)
  {
    var o := v.objs[objs[i].address];
    assert T.IsObject(objs[i], o) && ObjOk(b, o);
    CodeBack(b, b', o);
  }

  lemma SlotsReadBack(hashit: Hasher, db: Db, db': Db, t: Tree, b: Base, v: View, objs: seq<Object>, roots: seq<Buf>, ts: seq<Tree>, i: nat)
    requires Committed(hashit, db, db', t, b, v, objs, roots, ts) && i < |objs| && !objs[i].deleted
    ensures |objs[i].address| == 20 && objs[i].address in v.objs
    ensures forall k :: SlotOf(b, v.objs[objs[i].address], k) == SlotAt(NewBase(b, v, objs, roots), roots[i], k)
  {
    assert T.IsObject(objs[i], v.objs[objs[i].address]);
    forall k ensures SlotOf(b, v.objs[objs[i].address], k) == SlotAt(NewBase(b, v, objs, roots), roots[i], k) {
      SlotReadsBack(hashit, db, db', t, b, v, objs, roots, ts, i, k);
    }
  }

  lemma SameFrom(b: Base, v: View, b': Base, a: Address, acc: Account)
    requires a in v.objs && !v.objs[a].deleted && acc.balance == v.objs[a].account.balance && acc.nonce == v.objs[a].account.nonce
    requires acc.codeHash == v.objs[a].account.codeHash
    requires a in b'.accounts && b'.accounts[a] == acc && (acc.root == EMPTY_ROOT || acc.root in b'.storage)
    requires CodeAt(b', acc.codeHash) == Code(b, v, a) && forall k :: SlotOf(b, v.objs[a], k) == SlotAt(b', acc.root, k)
    ensures SameAt(b, v, b', UNTOUCHED, a)
  {
    FreshRead(b', a, acc);
    forall k ensures Slot(b', UNTOUCHED, a, k) == Slot(b, v, a, k) {
      assert Slot(b, v, a, k) == SlotOf(b, v.objs[a], k);
    }
  }

  lemma ReadsBackWritten(hashit: Hasher, db: Db, db': Db, t: Tree, b: Base, v: View, objs: seq<Object>, roots: seq<Buf>, ts: seq<Tree>, a: Address)
    requires Committed(hashit, db, db', t, b, v, objs, roots, ts) && a in v.objs && !v.objs[a].deleted
    ensures SameAt(b, v, NewBase(b, v, objs, roots), UNTOUCHED, a)
  {
    var b', i := NewBase(b, v, objs, roots), IndexOf(v, objs, a);
    NewAccountKnown(hashit, db, db', t, b, v, objs, roots, ts, a);
    CodeReadsBack(hashit, db, db', t, b, v, objs, roots, ts, a);
    assert T.IsObject(objs[i], v.objs[a]);
    SlotsReadBack(hashit, db, db', t, b, v, objs, roots, ts, i);
    SameFrom(b, v, b', a, v.objs[a].account.(root := roots[i]));
  }

  lemma SameLoaded(b: Base, v: View, b': Base, a: Address, acc: Account)
    requires a !in v.objs && a in b.accounts && b.accounts[a] == acc && a in b'.accounts && b'.accounts[a] == acc
    requires acc.root == EMPTY_ROOT || (acc.root in b.storage && acc.root in b'.storage && b'.storage[acc.root] == b.storage[acc.root])
    requires CodeAt(b', acc.codeHash) == CodeAt(b, acc.codeHash)
    ensures SameAt(b, v, b', UNTOUCHED, a)
  {
    FreshRead(b, a, acc);
    FreshRead(b', a, acc);
    assert ObjAt(b, v, a) == ObjAt(b, UNTOUCHED, a);
  }

  lemma ReadsBackOther(hashit: Hasher, db: Db, db': Db, t: Tree, b: Base, v: View, objs: seq<Object>, roots: seq<Buf>, ts: seq<Tree>, a: Address)
    requires Committed(hashit, db, db', t, b, v, objs, roots, ts) && a !in v.objs && a in b.accounts
    ensures SameAt(b, v, NewBase(b, v, objs, roots), UNTOUCHED, a)
  {
    var b', acc := NewBase(b, v, objs, roots), b.accounts[a];
    CommittedCodes(hashit, db, db', t, b, v, objs, roots, ts);
    assert HasCode(b, acc.codeHash) && b'.accounts[a] == acc;
    CodeSame(b, b', acc.codeHash);
    SameLoaded(b, v, b', a, acc);
  }

  /** A transaction on the new trie that has written nothing reads everything as the committed one showed it. */
  lemma CommitReadsBack(hashit: Hasher, db: Db, db': Db, t: Tree, b: Base, v: View, objs: seq<Object>, roots: seq<Buf>, ts: seq<Tree>, a: Address)
    requires Committed(hashit, db, db', t, b, v, objs, roots, ts)
    ensures SameAt(b, v, NewBase(b, v, objs, roots), UNTOUCHED, a)
  {
    if a in v.objs {
      if !v.objs[a].deleted {
        ReadsBackWritten(hashit, db, db', t, b, v, objs, roots, ts, a);
      }
    } else if a in b.accounts {
      ReadsBackOther(hashit, db, db', t, b, v, objs, roots, ts, a);
    }
  }
}
