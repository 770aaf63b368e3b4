/**
 The trie database (state/immutable-trie/state.go, and Trie/Txn/Commit of trie.go): tries and
 transactions over one heap and one storage, with the two caches of tries by root hash in front.
 */
module TrieState {
  import opened Nibbles
  import opened Rlp
  import opened Options
  import opened PatriciaTree
  import opened PatriciaDelete
  import opened PatriciaCanon
  import opened TrieNodes
  import opened TrieFrames
  import opened TrieStorage
  import opened TrieLookup
  import opened TrieInsert
  import opened TrieDelete
  import opened TrieHasher
  import opened TrieWorld

  /** Tries by root hash; an LRU cache that may have dropped any of its entries. */
  type Cache = map<Buf, nat>

  ghost predicate CacheOk(inline: Value -> bool, cache: Cache, hs: seq<Handle>, ts: seq<Tree>) {
    forall h :: h in cache ==>
      && cache[h] < |hs| == |ts| && hs[cache[h]].stage.Frozen?
      && Canonical(ts[cache[h]]) && h == RootHash(inline, ts[cache[h]])
  }

  /** Every trie, and every handle other than `j`, is what it was. */
  ghost predicate OthersKept(hs: seq<Handle>, ts: seq<Tree>, hs': seq<Handle>, ts': seq<Tree>, j: int) {
    && |hs| == |ts| && |hs'| == |ts'| && |hs| <= |hs'|
    && forall i :: 0 <= i < |hs| && i != j ==> hs'[i] == hs[i] && ts'[i] == ts[i]
  }

  class State {
    var db: Db
    var cells: Cells
    var handles: seq<Handle>
    var trieCache: Cache
    var accountCache: Cache
    /** Code by hash; a code cache in front of it would hold the same entries. */
    var codes: map<Buf, seq<Byte>>
    /** What each handle's trie is, with every hash resolved. */
    ghost var trees: seq<Tree>

    ghost predicate Valid()
      reads this
    {
      && Inv(db, cells, handles, trees) && Sound(db)
      && CacheOk(db.inline, trieCache, handles, trees) && CacheOk(db.inline, accountCache, handles, trees)
    }

    constructor (inline: Value -> bool)
      ensures Valid() && handles == [] && db == Db(inline, map[])
    {
      db, cells, handles, trees := Db(inline, map[]), [], [], [];
      trieCache, accountCache, codes := map[], map[], map[];
    }

    method SetCode(hash: Buf, code: seq<Byte>)
      requires Valid()
      modifies this`codes
      ensures Valid() && codes == old(codes)[hash := code]
    {
      codes := codes[hash := code];
    }

    /** NewSnapshot: an empty trie. */
    method NewSnapshot() returns (i: nat)
      requires Valid()
      modifies this`cells, this`handles, this`trees
      ensures Valid() && OthersKept(old(handles), old(trees), handles, trees, -1)
      ensures i == |old(handles)| && |handles| == i + 1 && handles[i].stage.Frozen? && trees[i] == Nil
    {
      i := |handles|;
      LoadInv(db, cells, cells, handles, trees, NilNode, Nil);
      handles, trees := handles + [Handle(NilNode, 0, Frozen)], trees + [Nil];
    }

    /** NewSnapshotAt: whichever way it is found, the trie of that root hash. */
    method NewSnapshotAt(root: Buf) returns (r: Option<nat>)
      requires Valid()
      modifies this`cells, this`handles, this`trees
      ensures Valid() && OthersKept(old(handles), old(trees), handles, trees, -1)
      ensures (handles == old(handles) && trees == old(trees)) || (|handles| == |old(handles)| + 1 && r == Some(|old(handles)|))
      ensures r.None? ==> root !in db.nodes && root != Keccak(Bytes(EMPTY))
      ensures r.Some? ==> r.value < |handles| && handles[r.value].stage.Frozen?
      ensures r.Some? ==> Canonical(trees[r.value]) && root == RootHash(db.inline, trees[r.value])
    {
      if root == Keccak(Bytes(EMPTY)) {
        var i := NewSnapshot();
        r := Some(i);
      } else if root in trieCache {
        r := Some(trieCache[root]);
      } else if root in accountCache {
        r := Some(accountCache[root]);
      } else if root in db.nodes {
        var i := LoadTrie(root);
        r := Some(i);
      } else {
        r := None;
      }
    }

    method LoadTrie(root: Buf) returns (i: nat)
      requires Valid() && root in db.nodes
      modifies this`cells, this`handles, this`trees
      ensures Valid() && OthersKept(old(handles), old(trees), handles, trees, -1)
      ensures i == |old(handles)| && |handles| == i + 1 && handles[i].stage.Frozen?
      ensures Canonical(trees[i]) && root == RootHash(db.inline, trees[i])
    {
      ghost var t :| EntryFor(db, root, t);
      var cells', got := GetNode(db, cells, root, t);
      LoadInv(db, cells, cells', handles, trees, got.node, t);
      i := |handles|;
      cells := cells';
      handles, trees := handles + [Handle(got.node, 0, Frozen)], trees + [t];
    }

    /** Trie.Txn */
    method BeginTxn(i: nat) returns (j: nat)
      requires Valid() && i < |handles| && handles[i].stage.Frozen?
      modifies this`handles, this`trees
      ensures Valid() && OthersKept(old(handles), old(trees), handles, trees, -1)
      ensures j == |old(handles)| && |handles| == j + 1 && handles[j].stage.Open? && trees[j] == trees[i]
    {
      j := |handles|;
      BeginInv(db, cells, handles, trees, i);
      handles, trees := handles + [Handle(handles[i].root, handles[i].epoch + 1, Open)], trees + [trees[i]];
    }

    /** Txn.Lookup, and Trie.Get on a trie. */
    method Lookup(j: nat, key: seq<Byte>) returns (res: Option<Buf>)
      requires Valid() && j < |handles|
      modifies this`cells
      ensures Valid() && res == PatriciaTree.Lookup(trees[j], HexOf(key))
      ensures handles[j].root.HashNode? || Walked(cells, handles[j].root, HexOf(key), trees[j])
    {
      assert HandleOk(db, cells, handles[j], trees[j]);
      var s := BytesToHexNibbles(key);
      var cells', loaded;
      cells', loaded, res := LookupNode(db, cells, handles[j].root, s, trees[j]);
      KeepsInv(db, cells, cells', handles, trees);
      cells := cells';
    }

    /** Txn.Insert; the transaction must not have been hashed. */
    method Insert(j: nat, key: seq<Byte>, value: Buf)
      requires Valid() && j < |handles| && handles[j].stage.Open? && value != EMPTY
      modifies this`cells, this`handles, this`trees
      ensures Valid() && OthersKept(old(handles), old(trees), handles, trees, j) && |handles| == |old(handles)|
      ensures handles[j].stage.Open? && trees[j] == Step(old(trees[j]), Put(key, value))
    {
      assert HandleOk(db, cells, handles[j], trees[j]);
      var s := BytesToHexNibbles(key);
      var cells', n := InsertNode(db, cells, handles[j].epoch, handles[j].root, s, value, trees[j]);
      ghost var t := Step(trees[j], Put(key, value));
      InsertInv(db, cells, cells', handles, trees, j, n, t);
      cells := cells';
      handles, trees := handles[j := handles[j].(root := n)], trees[j := t];
    }

    /** Txn.Delete, hashed or not: the root is replaced only if something was deleted. */
    method Delete(j: nat, key: seq<Byte>)
      requires Valid() && j < |handles| && !handles[j].stage.Frozen?
      modifies this`cells, this`handles, this`trees
      ensures Valid() && OthersKept(old(handles), old(trees), handles, trees, j) && |handles| == |old(handles)|
      ensures handles[j].stage == old(handles[j].stage) && trees[j] == Step(old(trees[j]), Del(key))
    {
      assert HandleOk(db, cells, handles[j], trees[j]);
      var s := BytesToHexNibbles(key);
      MeetsWhereFits(trees[j], s);
      SeparateAtEpoch(db, cells, handles[j], trees[j]);
      var cells', r := DeleteNode(db, cells, handles[j].root, s, SeparateEpoch(handles[j]), trees[j]);
      ghost var t := Step(trees[j], Del(key));
      if r.Some? {
        DeleteInv(db, cells, cells', handles, trees, j, r.value, t);
        handles, trees := handles[j := handles[j].(root := r.value)], trees[j := t];
      } else {
        KeepsInv(db, cells, cells', handles, trees);
      }
      cells := cells';
    }

    /** Txn.Hash */
    method Hash(j: nat) returns (root: Buf)
      requires Valid() && j < |handles| && !handles[j].stage.Frozen?
      modifies this`db, this`cells, this`handles
      ensures Valid() && OthersKept(old(handles), trees, handles, trees, j) && |handles| == |old(handles)|
      ensures handles[j].stage.Sealed? && Grown(old(db), db)
      ensures StoredRoot(db, root, trees[j])
    {
      assert HandleOk(db, cells, handles[j], trees[j]);
      var db', cells';
      db', cells', root := HashRoot(db, cells, handles[j].root, trees[j]);
      HashInv(db, cells, db', cells', handles, trees, j);
      db, cells, handles := db', cells', handles[j := handles[j].(stage := Sealed)];
    }

    /** Txn.Commit: from here on a trie. */
    method Commit(j: nat)
      requires Valid() && j < |handles|
      modifies this`handles
      ensures Valid() && OthersKept(old(handles), trees, handles, trees, j) && |handles| == |old(handles)|
      ensures handles[j].stage.Frozen?
    {
      CommitInv(db, cells, handles, trees, j);
      handles := handles[j := handles[j].(stage := Frozen)];
    }

    /** AddTrieState; the cache keeps only the entries in `kept`. */
    method AddTrieState(root: Buf, i: nat, kept: set<Buf>)
      requires Valid() && i < |handles| && handles[i].stage.Frozen?
      requires Canonical(trees[i]) && root == RootHash(db.inline, trees[i])
      modifies this`trieCache
      ensures Valid() && trieCache.Keys == (old(trieCache).Keys + {root}) * kept && (root in kept ==> trieCache[root] == i)
    {
      var cache := trieCache[root := i];
      trieCache := map h | h in cache && h in kept :: cache[h];
    }

    method AddAccountState(root: Buf, i: nat, kept: set<Buf>)
      requires Valid() && i < |handles| && handles[i].stage.Frozen?
      requires Canonical(trees[i]) && root == RootHash(db.inline, trees[i])
      modifies this`accountCache
      ensures Valid() && accountCache.Keys == (old(accountCache).Keys + {root}) * kept && (root in kept ==> accountCache[root] == i)
    {
      var cache := accountCache[root := i];
      accountCache := map h | h in cache && h in kept :: cache[h];
    }
  }
}
