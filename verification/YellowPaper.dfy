/**
 The Merkle-Patricia tree of Appendix D of the Ethereum Yellow Paper, defined on a set of key-value pairs
 without any trie, and the proof that the root hash the code computes (state/immutable-trie/hasher.go) is
 the one defined there.
 */
module YellowPaper {
  import opened Nibbles
  import opened Rlp
  import opened Options
  import opened PatriciaTree
  import opened PatriciaCanon
  import opened TrieNodes
  import opened TrieState

  // The definition.

  /** J: values by keys of nibbles, the first nibbles already consumed left out. */
  type Pairs = map<Hex, Buf>

  ghost predicate KeysWithin(pairs: Pairs, n: nat) {
    forall k :: k in pairs ==> AllNibbles(k) && |k| <= n
  }

  predicate StartsWith(k: Hex, p: Hex) {
    |p| <= |k| && k[..|p|] == p
  }

  ghost predicate Common(pairs: Pairs, p: Hex) {
    forall k {:trigger StartsWith(k, p)} :: k in pairs ==> StartsWith(k, p)
  }

  /** The longest prefix all keys share. */
  ghost predicate LongestCommon(pairs: Pairs, p: Hex) {
    Common(pairs, p) && forall q :: Common(pairs, q) ==> |q| <= |p|
  }

  ghost function Longest(pairs: Pairs): (p: Hex)
    requires pairs != map[]
    ensures LongestCommon(pairs, p)
  {
    LongestExists(pairs);
    var p :| LongestCommon(pairs, p);
    p
  }

  ghost predicate Single(pairs: Pairs, k: Hex) {
    pairs.Keys == {k}
  }

  /** The pairs whose keys start with `p`, without it. */
  ghost function Under(pairs: Pairs, p: Hex): (r: Pairs)
    ensures forall q {:trigger q in r} :: q in r <==> p + q in pairs
    ensures forall q {:trigger r[q]} :: q in r ==> r[q] == pairs[p + q]
  {
    var tails := set k | k in pairs && StartsWith(k, p) :: k[|p|..];
    assert forall q :: q in tails <==> p + q in pairs by {
      forall q ensures q in tails <==> p + q in pairs {
        assert StartsWith(p + q, p) && (p + q)[|p|..] == q;
        if q in tails {
          var k :| k in pairs && StartsWith(k, p) && k[|p|..] == q;
          assert k == p + q;
        }
      }
    }
    map q | q in tails :: pairs[p + q]
  }

  /** c: the structure of a non-empty set of pairs. `n` bounds the keys. */
  ghost function Composed(inline: Value -> bool, pairs: Pairs, n: nat): (v: Value)
    requires pairs != map[] && KeysWithin(pairs, n)
    decreases n, 0
  {
    if exists k :: Single(pairs, k) then
      var k :| Single(pairs, k);
      List([Bytes(Raw(Compact(k + [TERMINATOR]))), Bytes(pairs[k])])
    else
      var p := Longest(pairs);
      SomeLongKey(pairs, p, n);
      if p != [] then
        UnderWithin(pairs, p, n);
        List([Bytes(Raw(Compact(p))), Capped(inline, Under(pairs, p), n - |p|)])
      else
        List(seq(16, i requires 0 <= i < 16 => UnderWithin(pairs, [i], n); Capped(inline, Under(pairs, [i]), n - 1)) +
             [Bytes(if [] in pairs then pairs[[]] else EMPTY)])
  }

  /** n: the node itself if it is short, else its hash. */
  ghost function Capped(inline: Value -> bool, pairs: Pairs, n: nat): (v: Value)
    requires KeysWithin(pairs, n)
    decreases n, 1
  {
    if pairs == map[] then Bytes(EMPTY)
    else
      var c := Composed(inline, pairs, n);
      if inline(c) then c else Bytes(Keccak(c))
  }

  /** TRIE: the root hash. */
  ghost function TrieOf(inline: Value -> bool, pairs: Pairs, n: nat): (h: Buf)
    requires KeysWithin(pairs, n)
  {
    if pairs == map[] then Keccak(Bytes(EMPTY)) else Keccak(Composed(inline, pairs, n))
  }

  // It is well defined.

  lemma {:induction false} LongestFrom(pairs: Pairs, k: Hex, m: nat)
    requires k in pairs && m <= |k| && forall l :: m < l <= |k| ==> !Common(pairs, k[..l])
    ensures exists p :: LongestCommon(pairs, p)
  {
    if Common(pairs, k[..m]) {
      forall q | Common(pairs, q) ensures |q| <= m {
        assert StartsWith(k, q);
      }
      assert LongestCommon(pairs, k[..m]);
    } else if m > 0 {
      LongestFrom(pairs, k, m - 1);
    }
  }

  lemma LongestExists(pairs: Pairs)
    requires pairs != map[]
    ensures exists p :: LongestCommon(pairs, p)
  {
    var k :| k in pairs;
    LongestFrom(pairs, k, |k|);
  }

  lemma SomeLongKey(pairs: Pairs, p: Hex, n: nat)
    requires pairs != map[] && KeysWithin(pairs, n) && Common(pairs, p) && !exists k :: Single(pairs, k)
    ensures |p| <= n && n > 0 && AllNibbles(p)
  {
    var k :| k in pairs;
    assert !Single(pairs, k);
    assert exists l :: l in pairs && l != k;
    var l :| l in pairs && l != k;
    assert StartsWith(k, p);
  }

  lemma UnderWithin(pairs: Pairs, p: Hex, n: nat)
    requires KeysWithin(pairs, n) && |p| <= n
    ensures KeysWithin(Under(pairs, p), n - |p|)
  {
    forall q | q in Under(pairs, p) ensures AllNibbles(q) && |q| <= n - |p| {
      assert p + q in pairs;
      forall i | 0 <= i < |q| ensures 0 <= q[i] < 16 {
        assert (p + q)[|p| + i] == q[i];
      }
    }
  }

  // The trie's encoding is that.

  /** The trie answers as the pairs do. */
  ghost predicate Stores(t: Tree, pairs: Pairs) {
    && Canonical(t) && (forall k :: k in pairs ==> AllNibbles(k))
    && forall q {:trigger Answers(t, pairs, q)} :: AllNibbles(q) ==> Answers(t, pairs, q)
  }

  ghost predicate Answers(t: Tree, pairs: Pairs, q: Hex)
    requires Canonical(t)
  {
    Terminated(q + [TERMINATOR]) && Lookup(t, q + [TERMINATOR]) == if q in pairs then Some(pairs[q]) else None
  }

  lemma StoresAt(t: Tree, pairs: Pairs, q: Hex)
    requires Stores(t, pairs) && AllNibbles(q)
    ensures Terminated(q + [TERMINATOR]) && Lookup(t, q + [TERMINATOR]) == if q in pairs then Some(pairs[q]) else None
  {
    assert Answers(t, pairs, q);
  }

  /** A terminated key the trie holds, as a key of the pairs. */
  lemma StoredKey(t: Tree, pairs: Pairs, s: Hex)
    requires Stores(t, pairs) && Terminated(s) && Lookup(t, s).Some?
    ensures AllNibbles(s[..|s| - 1]) && s[..|s| - 1] in pairs && Lookup(t, s) == Some(pairs[s[..|s| - 1]])
  {
    assert s[..|s| - 1] + [TERMINATOR] == s;
    StoresAt(t, pairs, s[..|s| - 1]);
  }

  lemma LongestIs(pairs: Pairs, p: Hex, k: Hex)
    requires pairs != map[] && LongestCommon(pairs, p) && LongestCommon(pairs, k)
    ensures p == k
  {
    var l :| l in pairs;
    assert StartsWith(l, p) && StartsWith(l, k);
  }

  /** A leaf holds the one pair. */
  lemma LeafIsSingle(t: Tree, pairs: Pairs)
    requires Proper(t) && t.Short? && HasTerminator(t.key) && Stores(t, pairs)
    ensures Single(pairs, t.key[..|t.key| - 1]) && pairs[t.key[..|t.key| - 1]] == t.child.val
  {
    var k := t.key;
    assert k[..|k|] == k && k[|k|..] == [];
    StoredKey(t, pairs, k);
    forall q | q in pairs ensures q == k[..|k| - 1] {
      StoresAt(t, pairs, q);
      var s := q + [TERMINATOR];
      LookupNeedsPrefix(t, s);
      PrefixFree(k, s);
      assert q == s[..|s| - 1];
    }
  }

  /** A full node holds two pairs, and they share no nibble. */
  lemma FullIsBranching(t: Tree, pairs: Pairs)
    requires Proper(t) && t.Full? && Stores(t, pairs)
    ensures pairs != map[] && (forall k :: !Single(pairs, k)) && LongestCommon(pairs, [])
  {
    var s := SomeKey(t);
    StoredKey(t, pairs, s);
    forall k ensures !Single(pairs, k) {
      var s' := KeyAvoiding(t, s[0]);
      StoredKey(t, pairs, s');
      DifferentKeys(s, s');
    }
    forall q | Common(pairs, q) ensures |q| <= 0 {
      var s' := KeyAvoiding(t, if q == [] then 0 else q[0]);
      StoredKey(t, pairs, s');
      var k := s'[..|s'| - 1];
      assert StartsWith(k, q);
    }
  }

  lemma DifferentKeys(s: Hex, s': Hex)
    requires Terminated(s) && Terminated(s') && s[0] != s'[0]
    ensures s[..|s| - 1] != s'[..|s'| - 1]
  {
    assert s == s[..|s| - 1] + [TERMINATOR] && s' == s'[..|s'| - 1] + [TERMINATOR];
  }

  /** Below a short node are the pairs without its key. */
  lemma BelowShort(t: Tree, pairs: Pairs)
    requires Proper(t) && t.Short? && t.child.Full? && Stores(t, pairs)
    ensures Stores(t.child, Under(pairs, t.key)) && Common(pairs, t.key)
  {
    var k, r := t.key, Under(pairs, t.key);
    forall q | q in r ensures AllNibbles(q) {
      assert k + q in pairs;
      assert forall i :: 0 <= i < |q| ==> (k + q)[|k| + i] == q[i];
    }
    forall q | AllNibbles(q) ensures Answers(t.child, r, q) {
      LookupThroughShort(t, q + [TERMINATOR]);
      assert k + (q + [TERMINATOR]) == (k + q) + [TERMINATOR];
      StoresAt(t, pairs, k + q);
    }
    forall q | q in pairs ensures StartsWith(q, k) {
      StoresAt(t, pairs, q);
      LookupNeedsPrefix(t, q + [TERMINATOR]);
      KeyBeforeEnd(k, q);
    }
  }

  lemma KeyBeforeEnd(k: Hex, q: Hex)
    requires AllNibbles(k) && |k| <= |q| + 1 && (q + [TERMINATOR])[..|k|] == k
    ensures |k| <= |q| && q[..|k|] == k
  {
    var s := q + [TERMINATOR];
    assert forall i :: 0 <= i < |k| ==> s[..|k|][i] == s[i];
    assert s[|q|] == TERMINATOR;
    assert forall i :: 0 <= i < |k| && i < |q| ==> s[i] == q[i];
  }

  /** With two pairs left below a shared prefix there were two before. */
  lemma NotSingleAbove(pairs: Pairs, k: Hex, l: Hex, a: Hex)
    requires a in Under(pairs, k) && Single(pairs, l)
    ensures Single(Under(pairs, k), a)
  {
    var r := Under(pairs, k);
    assert k + a in pairs;
    forall q | q in r ensures q == a {
      assert k + q in pairs && k + q == k + a;
      assert (k + q)[|k|..] == q && (k + a)[|k|..] == a;
    }
  }

  /** What is shared beyond a shared prefix is shared below it. */
  lemma CommonBelow(pairs: Pairs, k: Hex, q: Hex)
    requires Common(pairs, q) && |k| <= |q|
    ensures Common(Under(pairs, k), q[|k|..])
  {
    forall x | x in Under(pairs, k) ensures StartsWith(x, q[|k|..]) {
      assert StartsWith(k + x, q);
      assert (k + x)[..|q|] == q && (k + x)[|k|..] == x;
      assert (k + x)[..|q|][|k|..] == x[..|q| - |k|];
    }
  }

  /** If the pairs below a shared prefix branch at once, there are two, and the prefix is all they share. */
  lemma BranchingBelow(pairs: Pairs, k: Hex)
    requires Common(pairs, k) && Under(pairs, k) != map[]
    requires (forall l :: !Single(Under(pairs, k), l)) && LongestCommon(Under(pairs, k), [])
    ensures pairs != map[] && (forall l :: !Single(pairs, l)) && LongestCommon(pairs, k)
  {
    var a :| a in Under(pairs, k);
    forall l ensures !Single(pairs, l) {
      if Single(pairs, l) {
        NotSingleAbove(pairs, k, l, a);
      }
    }
    forall q | Common(pairs, q) ensures |q| <= |k| {
      if |k| <= |q| {
        CommonBelow(pairs, k, q);
      }
    }
  }

  /** The key of a short node over a full one is all its pairs share. */
  lemma ShortIsLongest(t: Tree, pairs: Pairs)
    requires Proper(t) && t.Short? && t.child.Full? && Stores(t, pairs)
    ensures pairs != map[] && (forall k :: !Single(pairs, k)) && LongestCommon(pairs, t.key)
  {
    BelowShort(t, pairs);
    FullIsBranching(t.child, Under(pairs, t.key));
    BranchingBelow(pairs, t.key);
  }

  /** Behind each edge of a full node are the pairs starting with its nibble. */
  lemma BehindEdge(t: Tree, pairs: Pairs, i: int)
    requires Proper(t) && t.Full? && Stores(t, pairs) && 0 <= i < 16
    ensures Stores(t.kids[i], Under(pairs, [i]))
  {
    var r := Under(pairs, [i]);
    forall q | q in r ensures AllNibbles(q) {
      assert [i] + q in pairs;
      assert forall j :: 0 <= j < |q| ==> ([i] + q)[1 + j] == q[j];
    }
    forall q | AllNibbles(q) ensures Answers(t.kids[i], r, q) {
      LookupThroughFull(t, i, q + [TERMINATOR]);
      assert [i] + (q + [TERMINATOR]) == ([i] + q) + [TERMINATOR];
      StoresAt(t, pairs, [i] + q);
    }
  }

  lemma ValueEdge(inline: Value -> bool, t: Tree, pairs: Pairs)
    requires Proper(t) && t.Full? && Stores(t, pairs)
    ensures Ref(inline, t.kids[16]) == Bytes(if [] in pairs then pairs[[]] else EMPTY)
  {
    StoresAt(t, pairs, []);
    assert [] + [TERMINATOR] == [16];
    FitsBelowFull(t, [16]);
  }

  lemma ComposedLeaf(inline: Value -> bool, pairs: Pairs, n: nat, k: Hex)
    requires KeysWithin(pairs, n) && Single(pairs, k)
    ensures pairs != map[] && Composed(inline, pairs, n) == List([Bytes(Raw(Compact(k + [TERMINATOR]))), Bytes(pairs[k])])
  {
    forall l ensures Single(pairs, l) <==> l == k {
    }
  }

  lemma ComposedExtension(inline: Value -> bool, pairs: Pairs, n: nat, p: Hex)
    requires pairs != map[] && KeysWithin(pairs, n) && (forall k :: !Single(pairs, k)) && LongestCommon(pairs, p) && p != []
    ensures |p| <= n && KeysWithin(Under(pairs, p), n - |p|) && AllNibbles(p)
    ensures Composed(inline, pairs, n) == List([Bytes(Raw(Compact(p))), Capped(inline, Under(pairs, p), n - |p|)])
  {
    SomeLongKey(pairs, p, n);
    UnderWithin(pairs, p, n);
    LongestIs(pairs, Longest(pairs), p);
  }

  lemma ComposedBranch(inline: Value -> bool, pairs: Pairs, n: nat)
    requires pairs != map[] && KeysWithin(pairs, n) && (forall k :: !Single(pairs, k)) && LongestCommon(pairs, [])
    ensures n > 0 && (forall i :: 0 <= i < 16 ==> KeysWithin(Under(pairs, [i]), n - 1))
    ensures var v := Composed(inline, pairs, n);
      && v.List? && |v.items| == 17 && v.items[16] == Bytes(if [] in pairs then pairs[[]] else EMPTY)
      && forall i :: 0 <= i < 16 ==> v.items[i] == Capped(inline, Under(pairs, [i]), n - 1)
  {
    SomeLongKey(pairs, [], n);
    forall i | 0 <= i < 16 ensures KeysWithin(Under(pairs, [i]), n - 1) {
      UnderWithin(pairs, [i], n);
    }
    LongestIs(pairs, Longest(pairs), []);
  }

  lemma LeafIsComposed(inline: Value -> bool, t: Tree, pairs: Pairs, n: nat)
    requires Proper(t) && t.Short? && HasTerminator(t.key) && Stores(t, pairs) && KeysWithin(pairs, n)
    ensures pairs != map[] && Enc(inline, t) == Composed(inline, pairs, n)
  {
    var k := t.key;
    LeafIsSingle(t, pairs);
    ComposedLeaf(inline, pairs, n, k[..|k| - 1]);
    assert k == k[..|k| - 1] + [TERMINATOR];
  }

  lemma {:induction false} ExtensionIsComposed(inline: Value -> bool, t: Tree, pairs: Pairs, n: nat)
    requires Proper(t) && t.Short? && t.child.Full? && Stores(t, pairs) && KeysWithin(pairs, n)
    ensures pairs != map[] && Enc(inline, t) == Composed(inline, pairs, n)
    decreases t, 0, 0
  {
    ShortIsLongest(t, pairs);
    BelowShort(t, pairs);
    ComposedExtension(inline, pairs, n, t.key);
    RefIsCapped(inline, t.child, Under(pairs, t.key), n - |t.key|);
  }

  lemma EncFull(inline: Value -> bool, t: Tree, v: Value)
    requires t.Full? && |t.kids| == 17 && v.List? && |v.items| == 17
    requires forall i :: 0 <= i < 17 ==> v.items[i] == Ref(inline, t.kids[i])
    ensures Enc(inline, t) == v
  {
    assert Enc(inline, t).items == v.items;
  }

  lemma {:induction false} EdgeIsCapped(inline: Value -> bool, t: Tree, pairs: Pairs, n: nat, i: nat)
    requires Proper(t) && t.Full? && Stores(t, pairs) && i < 16 && KeysWithin(Under(pairs, [i]), n)
    ensures Ref(inline, t.kids[i]) == Capped(inline, Under(pairs, [i]), n)
    decreases t, 0, 0, 0
  {
    BehindEdge(t, pairs, i);
    var kid := t.kids[i];
    RefIsCapped(inline, kid, Under(pairs, [i]), n);
  }

  lemma {:induction false} BranchIsComposed(inline: Value -> bool, t: Tree, pairs: Pairs, n: nat)
    requires Proper(t) && t.Full? && Stores(t, pairs) && KeysWithin(pairs, n)
    ensures pairs != map[] && Enc(inline, t) == Composed(inline, pairs, n)
    decreases t, 0, 0
  {
    FullIsBranching(t, pairs);
    ComposedBranch(inline, pairs, n);
    ValueEdge(inline, t, pairs);
    var v := Composed(inline, pairs, n);
    forall i | 0 <= i < 17 ensures v.items[i] == Ref(inline, t.kids[i]) {
      if i < 16 {
        EdgeIsCapped(inline, t, pairs, n - 1, i);
      }
    }
    EncFull(inline, t, v);
  }

  /** The encoding of a node is the structure the definition composes for its pairs. */
  lemma {:induction false} EncIsComposed(inline: Value -> bool, t: Tree, pairs: Pairs, n: nat)
    requires Proper(t) && Stores(t, pairs) && KeysWithin(pairs, n)
    ensures pairs != map[] && Enc(inline, t) == Composed(inline, pairs, n)
    decreases t, 0
  {
    if t.Full? {
      BranchIsComposed(inline, t, pairs, n);
    } else if HasTerminator(t.key) {
      LeafIsComposed(inline, t, pairs, n);
    } else {
      ExtensionIsComposed(inline, t, pairs, n);
    }
  }

  lemma {:induction false} RefIsCapped(inline: Value -> bool, t: Tree, pairs: Pairs, n: nat)
    requires Stores(t, pairs) && KeysWithin(pairs, n)
    ensures Ref(inline, t) == Capped(inline, pairs, n)
    decreases t, 1
  {
    if t.Nil? {
      forall k | k in pairs ensures false {
        StoresAt(t, pairs, k);
      }
      assert pairs == map[];
    } else {
      EncIsComposed(inline, t, pairs, n);
    }
  }

  /** The root hash of a trie is that of the pairs it stores, as the Yellow Paper defines it. */
  lemma RootHashIsTrieOf(inline: Value -> bool, t: Tree, pairs: Pairs, n: nat)
    requires Stores(t, pairs) && KeysWithin(pairs, n)
    ensures RootHash(inline, t) == TrieOf(inline, pairs, n)
  {
    RefIsCapped(inline, t, pairs, n);
    if !t.Nil? {
      EncIsComposed(inline, t, pairs, n);
    } else {
      forall k | k in pairs ensures false {
        StoresAt(t, pairs, k);
      }
      assert pairs == map[];
    }
  }

  // After any run.

  /** `pairs` is `m` with its keys as nibbles. */
  ghost predicate InNibbles(m: map<seq<Byte>, Buf>, pairs: Pairs) {
    && (forall k :: k in pairs ==> AllNibbles(k))
    && (forall k: seq<Byte> {:trigger k in m} :: k in m ==> NibblesOf(k) in pairs && pairs[NibblesOf(k)] == m[k])
    && forall q {:trigger IsKeyOf(m, q)} :: q in pairs ==> IsKeyOf(m, q)
  }

  ghost predicate IsKeyOf(m: map<seq<Byte>, Buf>, q: Hex) {
    exists k: seq<Byte> :: k in m && NibblesOf(k) == q
  }

  ghost predicate IsHexKey(s: Hex) {
    exists k: seq<Byte> :: HexOf(k) == s
  }

  function NibblesOf(k: seq<Byte>): (h: Hex)
    ensures AllNibbles(h) && HexOf(k) == h + [TERMINATOR]
  {
    HexOf(k)[..2 * |k|]
  }

  lemma HexInPairs(m: map<seq<Byte>, Buf>, h: map<Hex, Buf>, pairs: Pairs, q: Hex)
    requires InHex(m, h) && InNibbles(m, pairs) && q + [TERMINATOR] in h && IsHexKey(q + [TERMINATOR])
    ensures q in pairs && h[q + [TERMINATOR]] == pairs[q]
  {
    var s := q + [TERMINATOR];
    var k: seq<Byte> :| HexOf(k) == s;
    assert NibblesOf(k) == s[..|s| - 1] == q;
    assert k in m;
  }

  lemma PairsInHex(m: map<seq<Byte>, Buf>, h: map<Hex, Buf>, pairs: Pairs, q: Hex)
    requires InHex(m, h) && InNibbles(m, pairs) && q in pairs
    ensures q + [TERMINATOR] in h
  {
    assert IsKeyOf(m, q);
    var k: seq<Byte> :| k in m && NibblesOf(k) == q;
    assert HexOf(k) in h;
  }

  lemma RunStores(ops: seq<Op>, pairs: Pairs)
    requires NonEmptyValues(ops) && Aligned(map[], ops) && InNibbles(RunBytes(map[], ops), pairs)
    ensures Stores(Run(Nil, ops), pairs)
  {
    var t, m := Run(Nil, ops), RunBytes(map[], ops);
    RunModels(Nil, map[], ops);
    RunInHex(map[], map[], ops);
    RunKeysAreHex(map[], ops);
    var h := RunMap(map[], ops);
    forall q | AllNibbles(q) ensures Answers(t, pairs, q) {
      assert Terminated(q + [TERMINATOR]);
      if q + [TERMINATOR] in h {
        assert IsHexKey(q + [TERMINATOR]);
        HexInPairs(m, h, pairs, q);
      } else if q in pairs {
        PairsInHex(m, h, pairs, q);
      }
    }
  }

  /** All keys of a run are hex keys of byte strings. */
  lemma {:induction false} RunKeysAreHex(h: map<Hex, Buf>, ops: seq<Op>)
    requires forall q {:trigger IsHexKey(q)} :: q in h ==> IsHexKey(q)
    ensures forall q {:trigger IsHexKey(q)} :: q in RunMap(h, ops) ==> IsHexKey(q)
    decreases |ops|
  {
    if ops != [] {
      var h' := StepMap(h, ops[0]);
      forall q | q in h' ensures IsHexKey(q) {
        assert q in h || HexOf(ops[0].key) == q;
      }
      RunKeysAreHex(h', ops[1..]);
    }
  }

  /** The root hash after an aligned run of insertions and deletions is the Yellow Paper's for the map it computes. */
  lemma RootAfterRun(inline: Value -> bool, ops: seq<Op>, pairs: Pairs, n: nat)
    requires NonEmptyValues(ops) && Aligned(map[], ops) && InNibbles(RunBytes(map[], ops), pairs) && KeysWithin(pairs, n)
    ensures RootHash(inline, Run(Nil, ops)) == TrieOf(inline, pairs, n)
  {
    RunStores(ops, pairs);
    RootHashIsTrieOf(inline, Run(Nil, ops), pairs, n);
  }

  /** The code: hashing a transaction gives the Yellow Paper's root of the pairs it stores. */
  method HashTransaction(st: State, j: nat, ghost pairs: Pairs, ghost n: nat) returns (root: Buf)
    requires st.Valid() && j < |st.handles| && !st.handles[j].stage.Frozen? && |st.trees| == |st.handles|
    requires Stores(st.trees[j], pairs) && KeysWithin(pairs, n)
    modifies st
    ensures st.Valid() && root == TrieOf(st.db.inline, pairs, n)
  {
    root := st.Hash(j);
    RootHashIsTrieOf(st.db.inline, st.trees[j], pairs, n);
  }
}
