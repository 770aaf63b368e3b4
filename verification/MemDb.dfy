/** The in-memory key/value database and its iterator (ethdb/mdbx/memdb.go). */
module MemDb {
  import opened Nibbles
  import opened Options
  import opened SortedEntries
  import opened SkipList

  /** The representation invariant, on the values of the fields. */
  ghost predicate Rep(nd: seq<int>, kv: seq<Byte>, ns: Nodes, maxHeight: int) {
    && Linked(nd, ns) && AllKept(nd, kv, ns) && Sorted(Entries(nd, kv, ns))
    && 1 <= maxHeight <= T_MAX_HEIGHT
    && forall i :: 1 <= i < |ns| ==> Heights(nd, ns)[i] <= maxHeight
  }

  /** The node of index `j` is at or beyond the rank of `key` exactly if its key is not below it. */
  lemma NodeVersusRank(nd: seq<int>, kv: seq<Byte>, ns: Nodes, maxHeight: int, key: seq<Byte>, j: nat)
    requires Rep(nd, kv, ns, maxHeight) && 0 < j < |ns|
    ensures Block(nd, ns[j]) && Kept(nd, kv, ns[j])
    ensures var p := Rank(Entries(nd, kv, ns), key);
      && (Compare(EntryAt(nd, kv, ns[j]).key, key) < 0 <==> j <= p)
      && (Compare(EntryAt(nd, kv, ns[j]).key, key) == 0 ==> j == p + 1)
  {
    var es := Entries(nd, kv, ns);
    assert Block(nd, ns[j]) && es[j - 1] == EntryAt(nd, kv, ns[j]);
    if es[j - 1].key == key {
      RankOf(es, key, j - 1);
    }
  }

  /** The successor of the node `x` of index `i` on level `h`, compared with `key`. */
  method Probe(nd: seq<int>, kv: seq<Byte>, maxHeight: int, key: seq<Byte>, x: int, h: nat, ghost ns: Nodes, ghost i: nat)
    returns (next: int, cmp: int, ghost j: nat)
    requires Rep(nd, kv, ns, maxHeight) && i < |ns| && x == ns[i] && h < Heights(nd, ns)[i]
    ensures j == NextAt(Heights(nd, ns), i + 1, h) && next == Link(ns, j) && (next == 0 <==> j == |ns|)
    ensures cmp < 0 <==> j <= Rank(Entries(nd, kv, ns), key)
    ensures cmp == 0 ==> j == Rank(Entries(nd, kv, ns), key) + 1
    ensures cmp == 0 <==> j < |ns| && Entries(nd, kv, ns)[j - 1].key == key
  {
    FollowLink(nd, ns, i, h);
    j := NextAt(Heights(nd, ns), i + 1, h);
    next := nd[x + N_NEXT + h];
    cmp := 1;
    if next != 0 {
      cmp := CompareAt(nd, kv, maxHeight, key, next, ns, j);
    }
  }

  /** The key of the node `x` of index `j`, compared with `key`. */
  method CompareAt(nd: seq<int>, kv: seq<Byte>, maxHeight: int, key: seq<Byte>, x: int, ghost ns: Nodes, ghost j: nat)
    returns (cmp: int)
    requires Rep(nd, kv, ns, maxHeight) && 0 < j < |ns| && x == ns[j]
    ensures cmp < 0 <==> j <= Rank(Entries(nd, kv, ns), key)
    ensures cmp == 0 ==> j == Rank(Entries(nd, kv, ns), key) + 1
    ensures cmp == 0 <==> Entries(nd, kv, ns)[j - 1].key == key
  {
    NodeVersusRank(nd, kv, ns, maxHeight, key, j);
    cmp := Compare(kv[nd[x]..nd[x] + nd[x + N_KEY]], key);
  }

  ghost predicate PrevsFrom(nd: seq<int>, ns: Nodes, prev: seq<int>, pi: seq<int>, p: nat, maxHeight: int, h: int) {
    && Blocks(nd, ns) && p < |ns| && |prev| == T_MAX_HEIGHT && |pi| == maxHeight <= T_MAX_HEIGHT && 0 <= h
    && forall g :: h <= g < maxHeight ==> IsPrev(Heights(nd, ns), pi[g], p, g) && prev[g] == ns[pi[g]]
  }

  lemma PrevRecorded(nd: seq<int>, ns: Nodes, prev: seq<int>, pi: seq<int>, p: nat, maxHeight: int, h: nat, i: nat)
    requires PrevsFrom(nd, ns, prev, pi, p, maxHeight, h + 1) && h < maxHeight
    requires i <= p < NextAt(Heights(nd, ns), i + 1, h) && Heights(nd, ns)[i] > h
    ensures PrevsFrom(nd, ns, prev[h := ns[i]], pi[h := i], p, maxHeight, h)
  {
  }

  /**
   The first node whose key is not below `key`, and whether its key is `key`. With `record`, also the
   predecessors of that position on every level in use.
   */
  method Search(nd: seq<int>, kv: seq<Byte>, maxHeight: int, key: seq<Byte>, prev: seq<int>, record: bool, ghost ns: Nodes)
    returns (node: int, exact: bool, prev': seq<int>, ghost pi: seq<int>)
    requires Rep(nd, kv, ns, maxHeight) && |prev| == T_MAX_HEIGHT
    ensures |prev'| == T_MAX_HEIGHT && (!record ==> prev' == prev)
    ensures var es := Entries(nd, kv, ns); var p := Rank(es, key);
      && node == Link(ns, p + 1)
      && (exact <==> p < |es| && es[p].key == key)
      && (record ==> Prevs(nd, ns, prev', pi, p, maxHeight))
  {
    ghost var hs, p := Heights(nd, ns), Rank(Entries(nd, kv, ns), key);
    var x, h := 0, maxHeight - 1;
    ghost var i := 0;
    prev', pi := prev, seq(maxHeight, _ => 0);
    while true
      invariant 0 <= h < maxHeight && 0 <= i <= p && x == ns[i] && hs[i] > h
      invariant !record ==> prev' == prev
      invariant |prev'| == T_MAX_HEIGHT && |pi| == maxHeight
      invariant record ==> PrevsFrom(nd, ns, prev', pi, p, maxHeight, h + 1)
      decreases h, |ns| - i
    {
      var next, cmp;
      ghost var j;
      next, cmp, j := Probe(nd, kv, maxHeight, key, x, h, ns, i);
      if cmp < 0 {
        x, i := next, j;
      } else {
        if record {
          PrevRecorded(nd, ns, prev', pi, p, maxHeight, h, i);
          prev', pi := prev'[h := x], pi[h := i];
        } else if cmp == 0 {
          return next, true, prev', pi;
        }
        if h == 0 {
          LowestLevel(nd, ns, i);
          return next, cmp == 0, prev', pi;
        }
        h := h - 1;
      }
    }
  }

  /** findLT: the last node whose key is below `key`, or the head. */
  method SearchLT(nd: seq<int>, kv: seq<Byte>, maxHeight: int, key: seq<Byte>, ghost ns: Nodes) returns (node: int)
    requires Rep(nd, kv, ns, maxHeight)
    ensures node == ns[Rank(Entries(nd, kv, ns), key)]
  {
    ghost var p := Rank(Entries(nd, kv, ns), key);
    node := 0;
    var h := maxHeight - 1;
    ghost var i := 0;
    while true
      invariant 0 <= h < maxHeight && 0 <= i <= p && node == ns[i] && Heights(nd, ns)[i] > h
      decreases h, |ns| - i
    {
      var next, cmp;
      ghost var j;
      next, cmp, j := Probe(nd, kv, maxHeight, key, node, h, ns, i);
      if next == 0 || cmp >= 0 {
        if h == 0 {
          LowestLevel(nd, ns, i);
          break;
        }
        h := h - 1;
      } else {
        node, i := next, j;
      }
    }
  }

  /** findLast: the last node, or the head. */
  method SearchLast(nd: seq<int>, ghost kv: seq<Byte>, maxHeight: int, ghost ns: Nodes) returns (node: int)
    requires Rep(nd, kv, ns, maxHeight)
    ensures node == ns[|ns| - 1]
  {
    node := 0;
    var h := maxHeight - 1;
    ghost var i := 0;
    while true
      invariant 0 <= h < maxHeight && 0 <= i < |ns| && node == ns[i] && Heights(nd, ns)[i] > h
      decreases h, |ns| - i
    {
      FollowLink(nd, ns, i, h);
      var next := nd[node + N_NEXT + h];
      if next == 0 {
        if h == 0 {
          LowestLevel(nd, ns, i);
          break;
        }
        h := h - 1;
      } else {
        node, i := next, NextAt(Heights(nd, ns), i + 1, h);
      }
    }
  }

  // Changing the arena and the headers.

  lemma EntryKept(nd: seq<int>, nd': seq<int>, kv: seq<Byte>, kv': seq<Byte>, x: int)
    requires Block(nd, x) && Block(nd', x) && Kept(nd, kv, x) && kv <= kv'
    requires nd'[x] == nd[x] && nd'[x + N_KEY] == nd[x + N_KEY] && nd'[x + N_VAL] == nd[x + N_VAL]
    ensures Kept(nd', kv', x) && EntryAt(nd', kv', x) == EntryAt(nd, kv, x)
  {
    var m := nd[x] + nd[x + N_KEY];
    assert kv'[nd[x]..m] == kv[nd[x]..m] && kv'[m..m + nd[x + N_VAL]] == kv[m..m + nd[x + N_VAL]];
  }

  lemma EntryWritten(nd: seq<int>, kv: seq<Byte>, key: seq<Byte>, value: seq<Byte>, x: int)
    requires Block(nd, x) && nd[x] == |kv| && nd[x + N_KEY] == |key| && nd[x + N_VAL] == |value|
    ensures Kept(nd, kv + key + value, x) && EntryAt(nd, kv + key + value, x) == Entry(key, value)
  {
    var kv', m := kv + key + value, |kv| + |key|;
    assert kv'[|kv|..m] == key && kv'[m..m + |value|] == value;
  }

  /** Pointing the node of index `p + 1` at a new copy of its key and a new value. */
  ghost function Repointed(nd: seq<int>, x: int, off: int, len: int): (nd': seq<int>)
    requires Block(nd, x)
  {
    nd[x := off][x + N_VAL := len]
  }

  lemma RepointedField(nd: seq<int>, ns: Nodes, j: nat, off: int, len: int, i: nat, g: int)
    requires Blocks(nd, ns) && j < |ns| && i < |ns| && -N_NEXT <= g < Heights(nd, ns)[i]
    ensures Block(nd, ns[j]) && 0 <= Slot(ns[i], g) < |nd|
    ensures i != j || g == -3 || g >= -1 ==> Repointed(nd, ns[j], off, len)[Slot(ns[i], g)] == nd[Slot(ns[i], g)]
  {
    assert Block(nd, ns[i]) && Block(nd, ns[j]);
    if i < j {
      assert Disjoint(nd, ns[i], ns[j]);
    } else if j < i {
      assert Disjoint(nd, ns[j], ns[i]);
    }
  }

  lemma RepointedBlock(nd: seq<int>, ns: Nodes, j: nat, off: int, len: int, i: nat)
    requires Blocks(nd, ns) && j < |ns| && i < |ns|
    ensures Block(nd, ns[i]) && Block(nd, ns[j])
    ensures var nd' := Repointed(nd, ns[j], off, len);
      Block(nd', ns[i]) && nd'[ns[i] + N_HEIGHT] == nd[ns[i] + N_HEIGHT]
  {
    RepointedField(nd, ns, j, off, len, i, -1);
    assert Block(nd, ns[i]);
  }

  lemma RepointedBlocks(nd: seq<int>, ns: Nodes, j: nat, off: int, len: int)
    requires Blocks(nd, ns) && j < |ns|
    ensures Block(nd, ns[j]) && Blocks(Repointed(nd, ns[j], off, len), ns)
    ensures Heights(Repointed(nd, ns[j], off, len), ns) == Heights(nd, ns)
  {
    assert Block(nd, ns[j]);
    var nd' := Repointed(nd, ns[j], off, len);
    forall i | 0 <= i < |ns| ensures Block(nd', ns[i]) && nd'[ns[i] + N_HEIGHT] == nd[ns[i] + N_HEIGHT] {
      RepointedBlock(nd, ns, j, off, len, i);
    }
    assert nd'[ns[0] + N_HEIGHT] == T_MAX_HEIGHT;
    forall i, k | 0 <= i < k < |ns| ensures Disjoint(nd', ns[i], ns[k]) {
      RepointedBlock(nd, ns, j, off, len, i);
      RepointedBlock(nd, ns, j, off, len, k);
      assert Disjoint(nd, ns[i], ns[k]);
    }
  }

  lemma RepointedLinked(nd: seq<int>, ns: Nodes, j: nat, off: int, len: int)
    requires Linked(nd, ns) && j < |ns|
    ensures Block(nd, ns[j]) && Linked(Repointed(nd, ns[j], off, len), ns)
    ensures Heights(Repointed(nd, ns[j], off, len), ns) == Heights(nd, ns)
  {
    RepointedBlocks(nd, ns, j, off, len);
    var nd', hs := Repointed(nd, ns[j], off, len), Heights(nd, ns);
    forall i, h | 0 <= i < |ns| ensures LinkOk(nd', ns, hs, i, h) {
      assert LinkOk(nd, ns, hs, i, h);
      if 0 <= h < hs[i] {
        RepointedField(nd, ns, j, off, len, i, h);
      }
    }
  }

  /** The other entries are where they were. */
  lemma OtherEntryAt(nd: seq<int>, kv: seq<Byte>, kv': seq<Byte>, ns: Nodes, j: nat, off: int, len: int, i: nat)
    requires AllKept(nd, kv, ns) && kv <= kv' && 1 <= j < |ns| && 1 <= i < |ns| && i != j
    ensures Block(nd, ns[i]) && Block(nd, ns[j]) && Block(Repointed(nd, ns[j], off, len), ns[i])
    ensures Kept(nd, kv, ns[i]) && Kept(Repointed(nd, ns[j], off, len), kv', ns[i])
    ensures EntryAt(Repointed(nd, ns[j], off, len), kv', ns[i]) == EntryAt(nd, kv, ns[i])
  {
    RepointedBlock(nd, ns, j, off, len, i);
    RepointedField(nd, ns, j, off, len, i, -4);
    RepointedField(nd, ns, j, off, len, i, -3);
    RepointedField(nd, ns, j, off, len, i, -2);
    EntryKept(nd, Repointed(nd, ns[j], off, len), kv, kv', ns[i]);
  }

  lemma OverwrittenEntryAt(nd: seq<int>, kv: seq<Byte>, ns: Nodes, key: seq<Byte>, value: seq<Byte>, p: nat, i: nat)
    requires AllKept(nd, kv, ns) && p < |ns| - 1 && Entries(nd, kv, ns)[p].key == key && 1 <= i < |ns|
    requires Block(nd, ns[p + 1]) && Block(Repointed(nd, ns[p + 1], |kv|, |value|), ns[i])
    ensures var nd', kv' := Repointed(nd, ns[p + 1], |kv|, |value|), kv + key + value;
      Kept(nd', kv', ns[i]) && EntryAt(nd', kv', ns[i]) == Entries(nd, kv, ns)[p := Entry(key, value)][i - 1]
  {
    if i == p + 1 {
      assert Block(nd, ns[i]) && Kept(nd, kv, ns[i]);
      assert Entries(nd, kv, ns)[p] == EntryAt(nd, kv, ns[p + 1]);
      EntryWritten(Repointed(nd, ns[p + 1], |kv|, |value|), kv, key, value, ns[i]);
    } else {
      OtherEntryAt(nd, kv, kv + key + value, ns, p + 1, |kv|, |value|, i);
    }
  }

  lemma OverwriteEntries(nd: seq<int>, kv: seq<Byte>, ns: Nodes, maxHeight: int, key: seq<Byte>, value: seq<Byte>, p: nat)
    requires Rep(nd, kv, ns, maxHeight) && p == Rank(Entries(nd, kv, ns), key)
    requires p < |ns| - 1 && Entries(nd, kv, ns)[p].key == key && Block(nd, ns[p + 1])
    ensures var nd', kv' := Repointed(nd, ns[p + 1], |kv|, |value|), kv + key + value;
      Rep(nd', kv', ns, maxHeight) && Entries(nd', kv', ns) == Put(Entries(nd, kv, ns), key, value)
  {
    var nd', kv', es := Repointed(nd, ns[p + 1], |kv|, |value|), kv + key + value, Entries(nd, kv, ns);
    RepointedLinked(nd, ns, p + 1, |kv|, |value|);
    forall i | 1 <= i < |ns|
      ensures Kept(nd', kv', ns[i]) && EntryAt(nd', kv', ns[i]) == es[p := Entry(key, value)][i - 1]
    {
      OverwrittenEntryAt(nd, kv, ns, key, value, p, i);
    }
    EntriesAre(nd', kv', ns, es[p := Entry(key, value)]);
    PutSorted(es, key, value);
  }

  /** A node and its entry. */
  lemma NodeEntry(nd: seq<int>, kv: seq<Byte>, ns: Nodes, maxHeight: int, i: nat)
    requires Rep(nd, kv, ns, maxHeight) && 1 <= i < |ns|
    ensures ns[i] > 0 && Block(nd, ns[i]) && Kept(nd, kv, ns[i])
    ensures EntryAt(nd, kv, ns[i]) == Entries(nd, kv, ns)[i - 1]
    ensures nd[ns[i] + N_HEIGHT] == Heights(nd, ns)[i] <= maxHeight
    ensures nd[ns[i] + N_KEY] == |Entries(nd, kv, ns)[i - 1].key| && nd[ns[i] + N_VAL] == |Entries(nd, kv, ns)[i - 1].val|
  {
    OnlyHeadAtZero(nd, ns, i);
    assert Block(nd, ns[i]);
  }

  lemma PutTotal(es: seq<Entry>, key: seq<Byte>, value: seq<Byte>)
    requires Sorted(es)
    ensures var p := Rank(es, key);
      Total(Put(es, key, value)) == Total(es) +
        (if p < |es| && es[p].key == key then |value| - |es[p].val| else |key| + |value|)
  {
    var p, e := Rank(es, key), Entry(key, value);
    if p < |es| && es[p].key == key {
      TotalReplaced(es, p, e);
    } else {
      TotalInserted(es, p, e);
    }
  }

  lemma TotalInserted(es: seq<Entry>, p: nat, e: Entry)
    requires p <= |es|
    ensures Total(es[..p] + [e] + es[p..]) == Total(es) + |e.key| + |e.val|
  {
    var a, b := es[..p], es[p..];
    assert es == a + b;
    TotalBetween(a, e, b);
  }

  lemma TotalBetween(a: seq<Entry>, e: Entry, b: seq<Entry>)
    ensures Total(a + [e] + b) == Total(a + b) + |e.key| + |e.val|
  {
    TotalAppend(a, b);
    TotalAppend(a + [e], b);
    TotalAppend(a, [e]);
    assert [e][1..] == [];
  }

  lemma TotalReplaced(es: seq<Entry>, p: nat, e: Entry)
    requires p < |es|
    ensures Total(es[p := e]) == Total(es) - |es[p].key| - |es[p].val| + |e.key| + |e.val|
  {
    TotalAppend(es[..p], es[p..]);
    assert es == es[..p] + es[p..];
    TotalAppend(es[..p], [e] + es[p + 1..]);
    assert es[p := e] == es[..p] + ([e] + es[p + 1..]);
    assert ([e] + es[p + 1..])[1..] == es[p + 1..] && es[p..][1..] == es[p + 1..];
  }

  lemma RemoveTotal(es: seq<Entry>, key: seq<Byte>)
    requires Sorted(es)
    ensures var p := Rank(es, key);
      p < |es| && es[p].key == key ==> Total(Remove(es, key)) == Total(es) - |es[p].key| - |es[p].val|
  {
    var p := Rank(es, key);
    if p < |es| {
      TotalAppend(es[..p], es[p..]);
      assert es == es[..p] + es[p..] && es[p..][1..] == es[p + 1..];
      TotalAppend(es[..p], es[p + 1..]);
    }
  }

  // Putting in a new node.

  /** The predecessors above the levels in use are the head. */
  lemma HeadAbove(nd: seq<int>, kv: seq<Byte>, ns: Nodes, prev: seq<int>, pi: seq<int>, p: nat, maxHeight: int, prev': seq<int>, h: nat)
    requires Rep(nd, kv, ns, maxHeight) && Prevs(nd, ns, prev, pi, p, maxHeight) && maxHeight <= h <= T_MAX_HEIGHT == |prev'|
    requires forall g :: 0 <= g < maxHeight ==> prev'[g] == prev[g]
    requires forall g :: maxHeight <= g < h ==> prev'[g] == 0
    ensures Prevs(nd, ns, prev', pi + seq(h - maxHeight, _ => 0), p, h)
  {
    var hs, pi' := Heights(nd, ns), pi + seq(h - maxHeight, _ => 0);
    forall g | 0 <= g < h ensures IsPrev(hs, pi'[g], p, g) && prev'[g] == ns[pi'[g]] {
      if g < maxHeight {
        assert IsPrev(hs, pi[g], p, g);
      }
    }
  }

  lemma PrevsFewer(nd: seq<int>, ns: Nodes, prev: seq<int>, pi: seq<int>, p: nat, top: nat, h: nat)
    requires Prevs(nd, ns, prev, pi, p, top) && h <= top
    ensures Prevs(nd, ns, prev, pi[..h], p, h)
  {
  }

  lemma PrevSlots(nd: seq<int>, ns: Nodes, prev: seq<int>, pi: seq<int>, p: nat, h: nat, g: nat, l: nat)
    requires Prevs(nd, ns, prev, pi, p, h) && g < h && l < h
    ensures 0 <= Slot(prev[g], g) < |nd| && (g != l ==> Slot(prev[g], g) != Slot(prev[l], l))
  {
    assert IsPrev(Heights(nd, ns), pi[g], p, g) && IsPrev(Heights(nd, ns), pi[l], p, l);
    SlotsApart(nd, ns, pi[g], g, pi[l], l);
  }

  /** The first `i` links of the new node are in place. */
  ghost predicate SplicedTo(nd: seq<int>, nd': seq<int>, h: nat, prev: seq<int>, i: nat) {
    && i <= h <= |prev| && |nd'| == |nd| + N_NEXT + i && nd'[|nd| + N_HEIGHT] == h
    && (forall g :: 0 <= g < h ==> 0 <= Slot(prev[g], g) < |nd|)
    && (forall g :: 0 <= g < i ==> nd'[Slot(|nd|, g)] == nd[Slot(prev[g], g)] && nd'[Slot(prev[g], g)] == |nd|)
    && forall a {:trigger IsPrevSlot(prev, i, a)} :: 0 <= a < |nd| && !IsPrevSlot(prev, i, a) ==> nd'[a] == nd[a]
  }

  lemma SpliceStep(nd: seq<int>, nd1: seq<int>, ns: Nodes, prev: seq<int>, pi: seq<int>, p: nat, h: nat, i: nat)
    requires Prevs(nd, ns, prev, pi, p, h) && SplicedTo(nd, nd1, h, prev, i) && i < h
    ensures SplicedTo(nd, (nd1 + [nd1[Slot(prev[i], i)]])[Slot(prev[i], i) := |nd|], h, prev, i + 1)
  {
    var m := Slot(prev[i], i);
    var nd2 := (nd1 + [nd1[m]])[m := |nd|];
    forall g | 0 <= g < h ensures g != i ==> Slot(prev[g], g) != m {
      PrevSlots(nd, ns, prev, pi, p, h, g, i);
    }
    assert !IsPrevSlot(prev, i, m);
    forall a | 0 <= a < |nd| && !IsPrevSlot(prev, i + 1, a) ensures nd2[a] == nd[a] {
      assert a != Slot(prev[i], i);
      assert !IsPrevSlot(prev, i, a);
    }
  }

  method Splice(nd: seq<int>, off: nat, keyLen: nat, valLen: nat, h: nat, prev: seq<int>, ghost ns: Nodes, ghost pi: seq<int>, ghost p: nat)
    returns (nd': seq<int>)
    requires Prevs(nd, ns, prev, pi, p, h)
    ensures Spliced(nd, nd', h, prev)
    ensures nd'[|nd|] == off && nd'[|nd| + N_KEY] == keyLen && nd'[|nd| + N_VAL] == valLen
  {
    var node := |nd|;
    nd' := nd + [off, keyLen, valLen, h];
    forall g | 0 <= g < h ensures 0 <= Slot(prev[g], g) < |nd| {
      PrevSlots(nd, ns, prev, pi, p, h, g, g);
    }
    for i := 0 to h
      invariant SplicedTo(nd, nd', h, prev, i)
      invariant nd'[|nd|] == off && nd'[|nd| + N_KEY] == keyLen && nd'[|nd| + N_VAL] == valLen
    {
      SpliceStep(nd, nd', ns, prev, pi, p, h, i);
      var m := prev[i] + N_NEXT + i;
      nd' := nd' + [nd'[m]];
      nd' := nd'[m := node];
    }
  }

  lemma SplicedEntry(nd: seq<int>, nd': seq<int>, kv: seq<Byte>, kv': seq<Byte>, ns: Nodes, prev: seq<int>, pi: seq<int>, p: nat, h: nat, i: nat)
    requires Prevs(nd, ns, prev, pi, p, h) && Spliced(nd, nd', h, prev) && kv <= kv'
    requires AllKept(nd, kv, ns) && 1 <= i < |ns|
    ensures Block(nd', ns[i]) && Kept(nd', kv', ns[i]) && EntryAt(nd', kv', ns[i]) == Entries(nd, kv, ns)[i - 1]
  {
    SplicedBlock(nd, nd', ns, prev, pi, p, h, i);
    SplicedHeader(nd, nd', ns, prev, pi, p, h, i, -4);
    SplicedHeader(nd, nd', ns, prev, pi, p, h, i, -3);
    SplicedHeader(nd, nd', ns, prev, pi, p, h, i, -2);
    assert Block(nd, ns[i]);
    EntryKept(nd, nd', kv, kv', ns[i]);
  }

  /** The entry of the `i`-th node after the splice. */
  lemma InsertedEntryAt(nd: seq<int>, nd': seq<int>, kv: seq<Byte>, ns: Nodes, key: seq<Byte>, value: seq<Byte>,
                        prev: seq<int>, pi: seq<int>, p: nat, h: nat, i: nat)
    requires Prevs(nd, ns, prev, pi, p, h) && Spliced(nd, nd', h, prev) && AllKept(nd, kv, ns) && 1 <= i <= |ns| && 1 <= h
    requires nd'[|nd|] == |kv| && nd'[|nd| + N_KEY] == |key| && nd'[|nd| + N_VAL] == |value|
    ensures var x, es := With(ns, p, |nd|)[i], Entries(nd, kv, ns);
      && Block(nd', x) && Kept(nd', kv + key + value, x)
      && EntryAt(nd', kv + key + value, x) == (es[..p] + [Entry(key, value)] + es[p..])[i - 1]
  {
    var kv' := kv + key + value;
    if i == p + 1 {
      SplicedNode(nd, nd', ns, prev, pi, p, h, i);
      EntryWritten(nd', kv, key, value, |nd|);
    } else {
      SplicedEntry(nd, nd', kv, kv', ns, prev, pi, p, h, if i <= p then i else i - 1);
    }
  }

  /** The entries, once the nodes are known to be linked and their entries known one by one. */
  lemma EntriesAre(nd: seq<int>, kv: seq<Byte>, ns: Nodes, es: seq<Entry>)
    requires Blocks(nd, ns) && |es| == |ns| - 1
    requires forall i :: 1 <= i < |ns| ==> Kept(nd, kv, ns[i]) && EntryAt(nd, kv, ns[i]) == es[i - 1]
    ensures AllKept(nd, kv, ns) && Entries(nd, kv, ns) == es
  {
  }

  lemma InsertEntries(nd: seq<int>, nd': seq<int>, kv: seq<Byte>, ns: Nodes, maxHeight: int, key: seq<Byte>, value: seq<Byte>,
                      prev: seq<int>, pi: seq<int>, p: nat, h: nat)
    requires Rep(nd, kv, ns, maxHeight) && p == Rank(Entries(nd, kv, ns), key)
    requires !(p < |ns| - 1 && Entries(nd, kv, ns)[p].key == key)
    requires 1 <= h && Prevs(nd, ns, prev, pi, p, h) && Spliced(nd, nd', h, prev)
    requires nd'[|nd|] == |kv| && nd'[|nd| + N_KEY] == |key| && nd'[|nd| + N_VAL] == |value|
    ensures var ns', kv' := With(ns, p, |nd|), kv + key + value;
      && AllKept(nd', kv', ns') && Linked(nd', ns') && Heights(nd', ns') == With(Heights(nd, ns), p, h)
      && Entries(nd', kv', ns') == Put(Entries(nd, kv, ns), key, value)
  {
    var ns', kv', es := With(ns, p, |nd|), kv + key + value, Entries(nd, kv, ns);
    SplicedLinked(nd, nd', ns, prev, pi, p, h);
    forall i | 1 <= i < |ns'| ensures Kept(nd', kv', ns'[i]) && EntryAt(nd', kv', ns'[i]) == Put(es, key, value)[i - 1] {
      InsertedEntryAt(nd, nd', kv, ns, key, value, prev, pi, p, h, i);
    }
    EntriesAre(nd', kv', ns', Put(es, key, value));
  }

  lemma RepAfterInsert(nd: seq<int>, nd': seq<int>, kv: seq<Byte>, kv': seq<Byte>, ns: Nodes, maxHeight: int,
                       key: seq<Byte>, value: seq<Byte>, p: nat, h: nat)
    requires Rep(nd, kv, ns, maxHeight) && p < |ns| && 1 <= h <= T_MAX_HEIGHT
    requires var ns' := With(ns, p, |nd|);
      && AllKept(nd', kv', ns') && Linked(nd', ns') && Heights(nd', ns') == With(Heights(nd, ns), p, h)
      && Entries(nd', kv', ns') == Put(Entries(nd, kv, ns), key, value)
    ensures Rep(nd', kv', With(ns, p, |nd|), if h > maxHeight then h else maxHeight)
  {
    PutSorted(Entries(nd, kv, ns), key, value);
  }

  // Taking out a node.

  /** The first `i` levels bypass the node at `x`. */
  ghost predicate BypassedTo(nd: seq<int>, nd': seq<int>, x: int, prev: seq<int>, i: nat) {
    && Block(nd, x) && |nd'| == |nd| && i <= nd[x + N_HEIGHT] <= |prev|
    && (forall g :: 0 <= g < nd[x + N_HEIGHT] ==> 0 <= Slot(prev[g], g) < |nd|)
    && (forall g :: 0 <= g < i ==> nd'[Slot(prev[g], g)] == nd[Slot(x, g)])
    && forall a {:trigger IsPrevSlot(prev, i, a)} :: 0 <= a < |nd| && !IsPrevSlot(prev, i, a) ==> nd'[a] == nd[a]
  }

  /** On each of its levels, the node behind position `p` is what its predecessor links to. */
  lemma PrevLinksTo(nd: seq<int>, ns: Nodes, prev: seq<int>, pi: seq<int>, p: nat, h: nat, g: nat)
    requires Linked(nd, ns) && p + 1 < |ns| && h == Heights(nd, ns)[p + 1] && Prevs(nd, ns, prev, pi, p, h) && g < h
    ensures 0 <= Slot(prev[g], g) < |nd| && nd[Slot(prev[g], g)] == ns[p + 1]
    ensures 0 <= Slot(ns[p + 1], g) < |nd|
    ensures forall l :: 0 <= l < h ==> Slot(ns[p + 1], g) != Slot(prev[l], l)
  {
    var hs := Heights(nd, ns);
    assert IsPrev(hs, pi[g], p, g) && LinkOk(nd, ns, hs, pi[g], g);
    NextAtUnique(hs, pi[g] + 1, g, p + 1);
    forall l | 0 <= l < h ensures Slot(ns[p + 1], g) != Slot(prev[l], l) {
      assert IsPrev(hs, pi[l], p, l);
      SlotsApart(nd, ns, pi[l], l, p + 1, g);
    }
    SlotsApart(nd, ns, pi[g], g, p + 1, g);
  }

  lemma BypassStep(nd: seq<int>, nd1: seq<int>, ns: Nodes, prev: seq<int>, pi: seq<int>, p: nat, h: nat, i: nat)
    requires Linked(nd, ns) && p + 1 < |ns| && h == Heights(nd, ns)[p + 1] && Prevs(nd, ns, prev, pi, p, h)
    requires BypassedTo(nd, nd1, ns[p + 1], prev, i) && i < h
    ensures 0 <= Slot(prev[i], i) < |nd1| && nd1[Slot(prev[i], i)] == ns[p + 1]
    ensures 0 <= Slot(ns[p + 1], i) < |nd1|
    ensures BypassedTo(nd, nd1[Slot(prev[i], i) := nd1[Slot(ns[p + 1], i)]], ns[p + 1], prev, i + 1)
  {
    var m := Slot(prev[i], i);
    PrevLinksTo(nd, ns, prev, pi, p, h, i);
    forall g | 0 <= g < h ensures g != i ==> Slot(prev[g], g) != m {
      PrevSlots(nd, ns, prev, pi, p, h, g, i);
    }
    assert !IsPrevSlot(prev, i, m) && !IsPrevSlot(prev, i, Slot(ns[p + 1], i));
    var nd2 := nd1[m := nd1[Slot(ns[p + 1], i)]];
    forall a | 0 <= a < |nd| && !IsPrevSlot(prev, i + 1, a) ensures nd2[a] == nd[a] {
      assert a != Slot(prev[i], i);
      assert !IsPrevSlot(prev, i, a);
    }
  }

  method Bypass(nd: seq<int>, h: nat, prev: seq<int>, ghost ns: Nodes, ghost pi: seq<int>, ghost p: nat)
    returns (nd': seq<int>)
    requires Linked(nd, ns) && p + 1 < |ns| && h == Heights(nd, ns)[p + 1] && Prevs(nd, ns, prev, pi, p, h)
    ensures Bypassed(nd, nd', ns[p + 1], prev)
  {
    assert Block(nd, ns[p + 1]);
    forall g | 0 <= g < h ensures 0 <= Slot(prev[g], g) < |nd| {
      PrevSlots(nd, ns, prev, pi, p, h, g, g);
    }
    nd' := nd;
    for i := 0 to h
      invariant BypassedTo(nd, nd', ns[p + 1], prev, i)
    {
      BypassStep(nd, nd', ns, prev, pi, p, h, i);
      var m := prev[i] + N_NEXT + i;
      nd' := nd'[m := nd'[nd'[m] + N_NEXT + i]];
    }
  }

  lemma BypassedEntry(nd: seq<int>, nd': seq<int>, kv: seq<Byte>, ns: Nodes, prev: seq<int>, pi: seq<int>, p: nat, i: nat)
    requires AllKept(nd, kv, ns) && p + 1 < |ns| && Prevs(nd, ns, prev, pi, p, Heights(nd, ns)[p + 1])
    requires Bypassed(nd, nd', ns[p + 1], prev) && 1 <= i < |ns|
    ensures Block(nd', ns[i]) && Kept(nd', kv, ns[i]) && EntryAt(nd', kv, ns[i]) == Entries(nd, kv, ns)[i - 1]
  {
    BypassedBlock(nd, nd', ns, prev, pi, p, i);
    BypassedField(nd, nd', ns, prev, pi, p, i, -4);
    BypassedField(nd, nd', ns, prev, pi, p, i, -3);
    BypassedField(nd, nd', ns, prev, pi, p, i, -2);
    assert Block(nd, ns[i]);
    EntryKept(nd, nd', kv, kv, ns[i]);
  }

  lemma RemovedEntryAt(nd: seq<int>, nd': seq<int>, kv: seq<Byte>, ns: Nodes, prev: seq<int>, pi: seq<int>, p: nat, i: nat)
    requires AllKept(nd, kv, ns) && p + 1 < |ns| && Prevs(nd, ns, prev, pi, p, Heights(nd, ns)[p + 1])
    requires Bypassed(nd, nd', ns[p + 1], prev) && 1 <= i < |ns| - 1
    ensures var x, es := Without(ns, p)[i], Entries(nd, kv, ns);
      Block(nd', x) && Kept(nd', kv, x) && EntryAt(nd', kv, x) == (es[..p] + es[p + 1..])[i - 1]
  {
    BypassedEntry(nd, nd', kv, ns, prev, pi, p, if i <= p then i else i + 1);
  }

  lemma RemoveEntries(nd: seq<int>, nd': seq<int>, kv: seq<Byte>, ns: Nodes, maxHeight: int, key: seq<Byte>, prev: seq<int>, pi: seq<int>, p: nat)
    requires Rep(nd, kv, ns, maxHeight) && p == Rank(Entries(nd, kv, ns), key)
    requires p < |ns| - 1 && Entries(nd, kv, ns)[p].key == key
    requires Prevs(nd, ns, prev, pi, p, Heights(nd, ns)[p + 1]) && Bypassed(nd, nd', ns[p + 1], prev)
    ensures var ns' := Without(ns, p);
      && AllKept(nd', kv, ns') && Linked(nd', ns') && Heights(nd', ns') == Without(Heights(nd, ns), p)
      && Entries(nd', kv, ns') == Remove(Entries(nd, kv, ns), key)
  {
    var ns', es := Without(ns, p), Entries(nd, kv, ns);
    BypassedLinked(nd, nd', ns, prev, pi, p);
    forall i | 1 <= i < |ns'| ensures Kept(nd', kv, ns'[i]) && EntryAt(nd', kv, ns'[i]) == Remove(es, key)[i - 1] {
      RemovedEntryAt(nd, nd', kv, ns, prev, pi, p, i);
    }
    EntriesAre(nd', kv, ns', Remove(es, key));
  }

  lemma RepAfterRemove(nd: seq<int>, nd': seq<int>, kv: seq<Byte>, ns: Nodes, maxHeight: int, key: seq<Byte>, p: nat)
    requires Rep(nd, kv, ns, maxHeight) && p + 1 < |ns|
    requires var ns' := Without(ns, p);
      && AllKept(nd', kv, ns') && Linked(nd', ns') && Heights(nd', ns') == Without(Heights(nd, ns), p)
      && Entries(nd', kv, ns') == Remove(Entries(nd, kv, ns), key)
    ensures Rep(nd', kv, Without(ns, p), maxHeight)
  {
    RemoveSorted(Entries(nd, kv, ns), key);
  }

  // The three ways the lists change, on the values of the fields.

  method OverwriteNode(nd: seq<int>, kv: seq<Byte>, node: int, key: seq<Byte>, value: seq<Byte>,
                       ghost ns: Nodes, ghost maxHeight: int, ghost p: nat)
    returns (nd': seq<int>, kv': seq<Byte>, delta: int)
    requires Rep(nd, kv, ns, maxHeight) && p == Rank(Entries(nd, kv, ns), key)
    requires p < |ns| - 1 && Entries(nd, kv, ns)[p].key == key && node == ns[p + 1]
    ensures Rep(nd', kv', ns, maxHeight) && Entries(nd', kv', ns) == Put(Entries(nd, kv, ns), key, value)
    ensures Total(Entries(nd', kv', ns)) == Total(Entries(nd, kv, ns)) + delta
  {
    NodeEntry(nd, kv, ns, maxHeight, p + 1);
    OverwriteEntries(nd, kv, ns, maxHeight, key, value, p);
    PutTotal(Entries(nd, kv, ns), key, value);
    kv' := kv + key + value;
    nd' := nd[node := |kv|];
    var m := nd'[node + N_VAL];
    nd' := nd'[node + N_VAL := |value|];
    delta := |value| - m;
  }

  method InsertNode(nd: seq<int>, kv: seq<Byte>, prev: seq<int>, maxHeight: int, key: seq<Byte>, value: seq<Byte>, h: nat,
                    ghost ns: Nodes, ghost pi: seq<int>, ghost p: nat)
    returns (nd': seq<int>, kv': seq<Byte>, prev': seq<int>, maxHeight': int, ghost ns': Nodes)
    requires Rep(nd, kv, ns, maxHeight) && p == Rank(Entries(nd, kv, ns), key) && |prev| == T_MAX_HEIGHT
    requires !(p < |ns| - 1 && Entries(nd, kv, ns)[p].key == key) && 1 <= h <= T_MAX_HEIGHT
    requires Prevs(nd, ns, prev, pi, p, maxHeight)
    ensures |prev'| == T_MAX_HEIGHT && Rep(nd', kv', ns', maxHeight')
    ensures Entries(nd', kv', ns') == Put(Entries(nd, kv, ns), key, value) && |ns'| == |ns| + 1
    ensures Total(Entries(nd', kv', ns')) == Total(Entries(nd, kv, ns)) + |key| + |value|
  {
    prev', maxHeight', ns' := prev, maxHeight, With(ns, p, |nd|);
    PutTotal(Entries(nd, kv, ns), key, value);
    ghost var pis;
    if h > maxHeight {
      for i := maxHeight to h
        invariant |prev'| == T_MAX_HEIGHT
        invariant forall g :: 0 <= g < T_MAX_HEIGHT ==> prev'[g] == if maxHeight <= g < i then 0 else prev[g]
      {
        prev' := prev'[i := 0];
      }
      maxHeight' := h;
      HeadAbove(nd, kv, ns, prev, pi, p, maxHeight, prev', h);
      pis := pi + seq(h - maxHeight, _ => 0);
    } else {
      PrevsFewer(nd, ns, prev, pi, p, maxHeight, h);
      pis := pi[..h];
    }
    kv' := kv + key + value;
    nd' := Splice(nd, |kv|, |key|, |value|, h, prev', ns, pis, p);
    InsertEntries(nd, nd', kv, ns, maxHeight, key, value, prev', pis, p, h);
    RepAfterInsert(nd, nd', kv, kv', ns, maxHeight, key, value, p, h);
  }

  /** The lowest link of the node at `x`, which may have been removed, leads to the `q`-th entry. */
  ghost predicate LeadsTo(nd: seq<int>, x: int, ns: Nodes, q: nat) {
    0 <= x + N_NEXT < |nd| && nd[x + N_NEXT] == Link(ns, q + 1)
  }

  /** The lowest link of a node leads to the next one. */
  lemma LinkAhead(nd: seq<int>, ns: Nodes, i: nat)
    requires Linked(nd, ns) && i < |ns|
    ensures LeadsTo(nd, ns[i], ns, i)
  {
    assert Block(nd, ns[i]);
    FollowLink(nd, ns, i, 0);
    LowestLevel(nd, ns, i);
  }

  method RemoveNode(nd: seq<int>, ghost kv: seq<Byte>, prev: seq<int>, node: int, key: seq<Byte>,
                    ghost ns: Nodes, ghost maxHeight: int, ghost pi: seq<int>, ghost p: nat)
    returns (nd': seq<int>, size: int, ghost ns': Nodes)
    requires Rep(nd, kv, ns, maxHeight) && p == Rank(Entries(nd, kv, ns), key) && |prev| == T_MAX_HEIGHT
    requires p < |ns| - 1 && Entries(nd, kv, ns)[p].key == key && node == ns[p + 1]
    requires Prevs(nd, ns, prev, pi, p, maxHeight)
    ensures Rep(nd', kv, ns', maxHeight) && |ns'| == |ns| - 1
    ensures Entries(nd', kv, ns') == Remove(Entries(nd, kv, ns), key)
    ensures Total(Entries(nd', kv, ns')) == Total(Entries(nd, kv, ns)) - size
    ensures LeadsTo(nd', node, ns', p)
  {
    ns' := Without(ns, p);
    NodeEntry(nd, kv, ns, maxHeight, p + 1);
    RemoveTotal(Entries(nd, kv, ns), key);
    var h := nd[node + N_HEIGHT];
    PrevsFewer(nd, ns, prev, pi, p, maxHeight, h);
    nd' := Bypass(nd, h, prev, ns, pi[..h], p);
    RemoveEntries(nd, nd', kv, ns, maxHeight, key, prev, pi[..h], p);
    RepAfterRemove(nd, nd', kv, ns, maxHeight, key, p);
    LinkAhead(nd, ns, p + 1);
    BypassedField(nd, nd', ns, prev, pi[..h], p, p + 1, 0);
    size := nd[node + N_KEY] + nd[node + N_VAL];
  }

  method PutFields(nd: seq<int>, kv: seq<Byte>, prev: seq<int>, maxHeight: int, key: seq<Byte>, value: seq<Byte>, h: nat, ghost ns: Nodes)
    returns (nd': seq<int>, kv': seq<Byte>, prev': seq<int>, maxHeight': int, more: nat, delta: int, ghost ns': Nodes)
    requires Rep(nd, kv, ns, maxHeight) && |prev| == T_MAX_HEIGHT && 1 <= h <= T_MAX_HEIGHT
    ensures |prev'| == T_MAX_HEIGHT && Rep(nd', kv', ns', maxHeight') && |ns'| == |ns| + more
    ensures Entries(nd', kv', ns') == Put(Entries(nd, kv, ns), key, value)
    ensures Total(Entries(nd', kv', ns')) == Total(Entries(nd, kv, ns)) + delta
  {
    ghost var p := Rank(Entries(nd, kv, ns), key);
    var node, exact;
    ghost var pi;
    node, exact, prev', pi := Search(nd, kv, maxHeight, key, prev, true, ns);
    if exact {
      nd', kv', delta := OverwriteNode(nd, kv, node, key, value, ns, maxHeight, p);
      maxHeight', more, ns' := maxHeight, 0, ns;
    } else {
      nd', kv', prev', maxHeight', ns' := InsertNode(nd, kv, prev', maxHeight, key, value, h, ns, pi, p);
      more, delta := 1, |key| + |value|;
    }
  }

  /** What the fields of a database say about its contents. */
  ghost predicate Holds(nd: seq<int>, kv: seq<Byte>, prev: seq<int>, maxHeight: int, n: int, kvSize: int, ns: Nodes, es: seq<Entry>) {
    Rep(nd, kv, ns, maxHeight) && |prev| == T_MAX_HEIGHT && es == Entries(nd, kv, ns) && n == |es| && kvSize == Total(es)
  }

  method DeleteFields(nd: seq<int>, kv: seq<Byte>, prev: seq<int>, maxHeight: int, key: seq<Byte>, ghost ns: Nodes)
    returns (nd': seq<int>, prev': seq<int>, ok: bool, size: int, ghost ns': Nodes)
    requires Rep(nd, kv, ns, maxHeight) && |prev| == T_MAX_HEIGHT
    ensures |prev'| == T_MAX_HEIGHT && Rep(nd', kv, ns', maxHeight) && |ns'| == |ns| - (if ok then 1 else 0)
    ensures Entries(nd', kv, ns') == Remove(Entries(nd, kv, ns), key)
    ensures Total(Entries(nd', kv, ns')) == Total(Entries(nd, kv, ns)) - size
    ensures ok <==> Get(Entries(nd, kv, ns), key).Some?
    ensures var p := Rank(Entries(nd, kv, ns), key); ok ==> p + 1 < |ns| && LeadsTo(nd', ns[p + 1], ns', p)
  {
    var node;
    ghost var pi;
    node, ok, prev', pi := Search(nd, kv, maxHeight, key, prev, true, ns);
    nd', size, ns' := nd, 0, ns;
    if ok {
      nd', size, ns' := RemoveNode(nd, kv, prev', node, key, ns, maxHeight, pi, Rank(Entries(nd, kv, ns), key));
    }
  }

  method PutCounted(nd: seq<int>, kv: seq<Byte>, prev: seq<int>, maxHeight: int, n: int, kvSize: int,
                    key: seq<Byte>, value: seq<Byte>, h: nat, ghost ns: Nodes, ghost es: seq<Entry>)
    returns (nd': seq<int>, kv': seq<Byte>, prev': seq<int>, maxHeight': int, n': int, kvSize': int, ghost ns': Nodes, ghost es': seq<Entry>)
    requires Holds(nd, kv, prev, maxHeight, n, kvSize, ns, es) && 1 <= h <= T_MAX_HEIGHT
    ensures Holds(nd', kv', prev', maxHeight', n', kvSize', ns', es') && es' == Put(es, key, value)
  {
    var more, delta;
    nd', kv', prev', maxHeight', more, delta, ns' := PutFields(nd, kv, prev, maxHeight, key, value, h, ns);
    n', kvSize', es' := n + more, kvSize + delta, Put(es, key, value);
  }

  method DeleteCounted(nd: seq<int>, kv: seq<Byte>, prev: seq<int>, maxHeight: int, n: int, kvSize: int,
                       key: seq<Byte>, ghost ns: Nodes, ghost es: seq<Entry>)
    returns (nd': seq<int>, prev': seq<int>, n': int, kvSize': int, ok: bool, ghost ns': Nodes, ghost es': seq<Entry>)
    requires Holds(nd, kv, prev, maxHeight, n, kvSize, ns, es)
    ensures Holds(nd', kv, prev', maxHeight, n', kvSize', ns', es') && es' == Remove(es, key)
    ensures ok <==> Get(es, key).Some?
    ensures ok ==> Rank(es, key) + 1 < |ns| && LeadsTo(nd', ns[Rank(es, key) + 1], ns', Rank(es, key))
  {
    var size;
    nd', prev', ok, size, ns' := DeleteFields(nd, kv, prev, maxHeight, key, ns);
    n', kvSize', es' := n - (if ok then 1 else 0), kvSize - size, Remove(es, key);
  }

  /** The head alone, all its links empty. */
  function EmptyNodeData(): (nd: seq<int>) {
    [0, 0, 0, T_MAX_HEIGHT] + seq(T_MAX_HEIGHT, _ => 0)
  }

  lemma EmptyRep()
    ensures Rep(EmptyNodeData(), [], [0], 1) && Entries(EmptyNodeData(), [], [0]) == []
  {
  }

  // The levels of the list.

  /** The keys of the nodes `l` rise strictly. */
  ghost predicate KeysRise(nd: seq<int>, kv: seq<Byte>, l: seq<int>) {
    && (forall a :: 0 <= a < |l| ==> Block(nd, l[a]) && Kept(nd, kv, l[a]))
    && forall a, b :: 0 <= a < b < |l| ==> Compare(EntryAt(nd, kv, l[a]).key, EntryAt(nd, kv, l[b]).key) < 0
  }

  /** The elements of a level are nodes from index `i` on. */
  lemma {:induction false} LevelAmong(ns: Nodes, hs: seq<int>, h: int, i: nat, a: nat) returns (j: nat)
    requires |ns| == |hs| && i <= |hs| && a < |Level(ns, hs, h, i)|
    ensures i <= j < |ns| && Level(ns, hs, h, i)[a] == ns[j]
    decreases |hs| - i
  {
    if hs[i] > h && a == 0 {
      j := i;
    } else {
      j := LevelAmong(ns, hs, h, i + 1, if hs[i] > h then a - 1 else a);
    }
  }

  lemma NodesRise(nd: seq<int>, kv: seq<Byte>, ns: Nodes, maxHeight: int, i: nat, j: nat)
    requires Rep(nd, kv, ns, maxHeight) && 1 <= i < j < |ns|
    ensures Block(nd, ns[i]) && Kept(nd, kv, ns[i]) && Block(nd, ns[j]) && Kept(nd, kv, ns[j])
    ensures Compare(EntryAt(nd, kv, ns[i]).key, EntryAt(nd, kv, ns[j]).key) < 0
  {
    var es := Entries(nd, kv, ns);
    assert es[i - 1] == EntryAt(nd, kv, ns[i]) && es[j - 1] == EntryAt(nd, kv, ns[j]);
    assert Compare(es[i - 1].key, es[j - 1].key) < 0;
  }

  lemma {:induction false} LevelRises(nd: seq<int>, kv: seq<Byte>, ns: Nodes, maxHeight: int, h: nat, i: nat)
    requires Rep(nd, kv, ns, maxHeight) && 1 <= i <= |ns|
    ensures KeysRise(nd, kv, Level(ns, Heights(nd, ns), h, i))
    decreases |ns| - i
  {
    var hs := Heights(nd, ns);
    if i < |ns| {
      LevelRises(nd, kv, ns, maxHeight, h, i + 1);
      assert Block(nd, ns[i]) && Kept(nd, kv, ns[i]);
      var rest := Level(ns, hs, h, i + 1);
      forall a | 0 <= a < |rest| ensures Compare(EntryAt(nd, kv, ns[i]).key, EntryAt(nd, kv, rest[a]).key) < 0 {
        var j := LevelAmong(ns, hs, h, i + 1, a);
        NodesRise(nd, kv, ns, maxHeight, i, j);
      }
    }
  }

  /**
   Level `h` as its links run from the head: strictly rising keys, a sublist of the level below, and on
   level 0 every entry.
   */
  ghost predicate LevelOk(nd: seq<int>, kv: seq<Byte>, ns: Nodes, h: nat) {
    && Blocks(nd, ns)
    && var hs := Heights(nd, ns);
      && Chain(nd, 0, h, Level(ns, hs, h, 1)) && KeysRise(nd, kv, Level(ns, hs, h, 1))
      && (if h == 0 then Level(ns, hs, 0, 1) == ns[1..] else Sublist(Level(ns, hs, h, 1), Level(ns, hs, h - 1, 1)))
  }

  lemma LevelsOk(nd: seq<int>, kv: seq<Byte>, ns: Nodes, maxHeight: int, h: nat)
    requires Rep(nd, kv, ns, maxHeight) && h < T_MAX_HEIGHT
    ensures LevelOk(nd, kv, ns, h)
  {
    var hs := Heights(nd, ns);
    assert hs[0] == T_MAX_HEIGHT;
    LevelChain(nd, ns, h, 0);
    LevelRises(nd, kv, ns, maxHeight, h, 1);
    if h == 0 {
      assert forall k :: 1 <= k < |ns| ==> Block(nd, ns[k]) && hs[k] > 0;
      LevelsNest(ns, hs, 0, 1);
    } else {
      LevelsNest(ns, hs, h - 1, 1);
    }
  }

  class MemDB {
    var kvData: seq<Byte>
    var nodeData: seq<int>
    var prevNode: seq<int>
    var maxHeight: int
    var n: int
    var kvSize: int
    /** The live nodes, head first. */
    ghost var nodes: Nodes
    /** What the database holds, in key order. */
    ghost var contents: seq<Entry>

    constructor ()
      ensures Valid() && contents == []
    {
      kvData, nodeData, prevNode := [], EmptyNodeData(), seq(T_MAX_HEIGHT, _ => 0);
      maxHeight, n, kvSize, nodes, contents := 1, 0, 0, [0], [];
      new;
      EmptyRep();
    }

    ghost predicate Valid()
      reads this
    {
      Holds(nodeData, kvData, prevNode, maxHeight, n, kvSize, nodes, contents)
    }

    /** Every level is a strictly sorted sublist of the one below. */
    lemma LevelsSorted(h: nat)
      requires Valid() && h < T_MAX_HEIGHT
      ensures LevelOk(nodeData, kvData, nodes, h)
    {
      LevelsOk(nodeData, kvData, nodes, maxHeight, h);
    }

    /** The key of the node at `x`, as the slice p.kvData[o : o+keyLen]. */
    function KeyOf(x: int): (k: seq<Byte>)
      requires Block(nodeData, x) && Kept(nodeData, kvData, x)
      reads this
      ensures k == EntryAt(nodeData, kvData, x).key
    {
      kvData[nodeData[x]..nodeData[x] + nodeData[x + N_KEY]]
    }

    function ValueOf(x: int): (v: seq<Byte>)
      requires Block(nodeData, x) && Kept(nodeData, kvData, x)
      reads this
      ensures v == EntryAt(nodeData, kvData, x).val
    {
      var m := nodeData[x] + nodeData[x + N_KEY];
      kvData[m..m + nodeData[x + N_VAL]]
    }

    method FindGE(key: seq<Byte>, prev: bool) returns (node: int, exact: bool, ghost pi: seq<int>)
      requires Valid()
      modifies this`prevNode
      ensures Valid() && (!prev ==> prevNode == old(prevNode))
      ensures var p := Rank(contents, key);
        && node == Link(nodes, p + 1)
        && (exact <==> p < |contents| && contents[p].key == key)
        && (prev ==> Prevs(nodeData, nodes, prevNode, pi, p, maxHeight))
    {
      node, exact, prevNode, pi := Search(nodeData, kvData, maxHeight, key, prevNode, prev, nodes);
    }

    /** Put; `h` is the height drawn for a new node. */
    method Put(key: seq<Byte>, value: seq<Byte>, h: nat)
      requires Valid() && 1 <= h <= T_MAX_HEIGHT
      modifies this
      ensures Valid() && contents == SortedEntries.Put(old(contents), key, value)
    {
      nodeData, kvData, prevNode, maxHeight, n, kvSize, nodes, contents :=
        PutCounted(nodeData, kvData, prevNode, maxHeight, n, kvSize, key, value, h, nodes, contents);
    }

    /** Delete; not `ok` is ErrNotFound. The removed node still leads to the entry after it. */
    method Delete(key: seq<Byte>) returns (ok: bool)
      requires Valid()
      modifies this
      ensures Valid() && contents == Remove(old(contents), key)
      ensures ok <==> SortedEntries.Get(old(contents), key).Some?
      ensures var p := old(Rank(contents, key)); ok ==> p + 1 < |old(nodes)| && LeadsTo(nodeData, old(nodes)[p + 1], nodes, p)
    {
      nodeData, prevNode, n, kvSize, ok, nodes, contents :=
        DeleteCounted(nodeData, kvData, prevNode, maxHeight, n, kvSize, key, nodes, contents);
    }

    method Contains(key: seq<Byte>) returns (exact: bool)
      requires Valid()
      modifies this`prevNode
      ensures Valid() && prevNode == old(prevNode)
      ensures exact <==> SortedEntries.Get(contents, key).Some?
    {
      var node;
      ghost var pi;
      node, exact, pi := FindGE(key, false);
    }

    /** Get; None is ErrNotFound. */
    method Get(key: seq<Byte>) returns (r: Option<seq<Byte>>)
      requires Valid()
      modifies this`prevNode
      ensures Valid() && prevNode == old(prevNode) && r == SortedEntries.Get(contents, key)
    {
      var node, exact;
      ghost var pi;
      node, exact, pi := FindGE(key, false);
      r := None;
      if exact {
        NodeEntry(nodeData, kvData, nodes, maxHeight, Rank(contents, key) + 1);
        r := Some(ValueOf(node));
      }
    }

    /** Find: the first entry whose key is not below `key`; None is ErrNotFound. */
    method Find(key: seq<Byte>) returns (r: Option<Entry>)
      requires Valid()
      modifies this`prevNode
      ensures Valid() && prevNode == old(prevNode)
      ensures var p := Rank(contents, key);
        r == if p < |contents| then Some(contents[p]) else None
    {
      var node, exact;
      ghost var pi;
      node, exact, pi := FindGE(key, false);
      ghost var p := Rank(contents, key);
      r := None;
      if p + 1 < |nodes| {
        NodeEntry(nodeData, kvData, nodes, maxHeight, p + 1);
      }
      if node != 0 {
        r := Some(Entry(KeyOf(node), ValueOf(node)));
      }
    }

    method Len() returns (l: int)
      requires Valid()
      ensures l == |contents|
    {
      l := n;
    }

    method Size() returns (l: int)
      requires Valid()
      ensures l == Total(contents)
    {
      l := kvSize;
    }

    method Reset()
      requires Valid()
      modifies this
      ensures Valid() && contents == [] && kvData == [] && nodeData == EmptyNodeData() && prevNode == seq(T_MAX_HEIGHT, _ => 0)
    {
      assert Block(nodeData, nodes[0]);
      var nd, prev := nodeData[..N_NEXT + T_MAX_HEIGHT], prevNode;
      nd := nd[0 := 0][N_KEY := 0][N_VAL := 0][N_HEIGHT := T_MAX_HEIGHT];
      for i := 0 to T_MAX_HEIGHT
        invariant |nd| == N_NEXT + T_MAX_HEIGHT && |prev| == T_MAX_HEIGHT
        invariant nd[0] == nd[N_KEY] == nd[N_VAL] == 0 && nd[N_HEIGHT] == T_MAX_HEIGHT
        invariant forall a :: N_NEXT <= a < N_NEXT + i ==> nd[a] == 0
        invariant forall a :: 0 <= a < i ==> prev[a] == 0
      {
        nd := nd[N_NEXT + i := 0];
        prev := prev[i := 0];
      }
      assert nd == EmptyNodeData();
      EmptyRep();
      maxHeight, n, kvSize, kvData, nodes, contents := 1, 0, 0, [], [0], [];
      nodeData, prevNode := nd, prev;
    }
  }

  class DbIter {
    const db: MemDB
    var node: int
    var forward: bool
    var released: bool
    var key: seq<Byte>
    var value: seq<Byte>

    constructor (db: MemDB)
      ensures this.db == db && node == 0 && !forward && !released && key == [] && value == []
    {
      this.db, node, forward, released, key, value := db, 0, false, false, [], [];
    }

    /** The iterator is on the `p`-th entry, or on none when there is no such entry. */
    ghost predicate At(p: int)
      requires db.Valid()
      reads this, db
    {
      if 0 <= p < |db.contents| then
        node == db.nodes[p + 1] && node > 0 && Entry(key, value) == db.contents[p]
      else node == 0 && key == [] && value == []
    }

    /** fill, with the node already chosen. */
    method Fill(ghost p: int) returns (ok: bool)
      requires db.Valid() && -1 <= p <= |db.contents|
      requires node == if 0 <= p < |db.contents| then db.nodes[p + 1] else 0
      modifies this`key, this`value
      ensures At(p) && (ok <==> 0 <= p < |db.contents|)
    {
      if 0 <= p < |db.contents| {
        NodeEntry(db.nodeData, db.kvData, db.nodes, db.maxHeight, p + 1);
      }
      if node != 0 {
        key, value := db.KeyOf(node), db.ValueOf(node);
        ok := true;
      } else {
        key, value := [], [];
        ok := false;
      }
    }

    method First() returns (ok: bool)
      requires db.Valid()
      modifies this
      ensures released == old(released)
      ensures !released ==> forward && At(0) && (ok <==> db.contents != [])
      ensures released ==> !ok && node == old(node)
    {
      if released {
        return false;
      }
      forward := true;
      FollowLink(db.nodeData, db.nodes, 0, 0);
      LowestLevel(db.nodeData, db.nodes, 0);
      node := db.nodeData[N_NEXT];
      ok := Fill(0);
    }

    method Last() returns (ok: bool)
      requires db.Valid()
      modifies this
      ensures released == old(released)
      ensures !released ==> !forward && At(|db.contents| - 1) && (ok <==> db.contents != [])
      ensures released ==> !ok && node == old(node)
    {
      if released {
        return false;
      }
      forward := false;
      node := SearchLast(db.nodeData, db.kvData, db.maxHeight, db.nodes);
      ok := Fill(|db.contents| - 1);
    }

    /** Seek: to the first entry whose key is not below `k`. */
    method Seek(k: seq<Byte>) returns (ok: bool)
      requires db.Valid()
      modifies this
      ensures released == old(released)
      ensures !released ==> forward && At(Rank(db.contents, k)) && (ok <==> Rank(db.contents, k) < |db.contents|)
      ensures released ==> !ok && node == old(node)
    {
      if released {
        return false;
      }
      forward := true;
      var exact, prev;
      ghost var pi;
      node, exact, prev, pi := Search(db.nodeData, db.kvData, db.maxHeight, k, db.prevNode, false, db.nodes);
      ok := Fill(Rank(db.contents, k));
    }

    /**
     Next, to the entry `q` that the node leads to; from nowhere, to the first entry if the iterator last
     moved backward.
     */
    method Next(ghost q: nat) returns (ok: bool)
      requires db.Valid() && q <= |db.contents| && (node != 0 ==> LeadsTo(db.nodeData, node, db.nodes, q))
      modifies this
      ensures released == old(released)
      ensures !released && old(node) != 0 ==> forward && At(q) && (ok <==> q < |db.contents|)
      ensures !released && old(node) == 0 && !old(forward) ==> forward && At(0) && (ok <==> db.contents != [])
      ensures released || (old(node) == 0 && old(forward)) ==> !ok && node == old(node)
    {
      if released {
        return false;
      }
      if node == 0 {
        if !forward {
          ok := First();
          return;
        }
        return false;
      }
      forward := true;
      node := db.nodeData[node + N_NEXT];
      ok := Fill(q);
    }

    /** Prev: to the last entry below the key; from nowhere, to the last entry if the iterator last moved forward. */
    method Prev() returns (ok: bool)
      requires db.Valid()
      modifies this
      ensures released == old(released)
      ensures !released && old(node) != 0 ==>
        !forward && At(Rank(db.contents, old(key)) - 1) && (ok <==> Rank(db.contents, old(key)) > 0)
      ensures !released && old(node) == 0 && old(forward) ==> !forward && At(|db.contents| - 1) && (ok <==> db.contents != [])
      ensures released || (old(node) == 0 && !old(forward)) ==> !ok && node == old(node)
    {
      if released {
        return false;
      }
      if node == 0 {
        if forward {
          ok := Last();
          return;
        }
        return false;
      }
      forward := false;
      node := SearchLT(db.nodeData, db.kvData, db.maxHeight, key, db.nodes);
      ok := Fill(Rank(db.contents, key) - 1);
    }

    /** An iterator on an entry leads to the next and is ranked where it stands. */
    lemma Standing(p: nat)
      requires db.Valid() && p < |db.contents| && At(p)
      ensures node != 0 && LeadsTo(db.nodeData, node, db.nodes, p + 1) && Rank(db.contents, key) == p
    {
      LinkAhead(db.nodeData, db.nodes, p + 1);
      RankOf(db.contents, key, p);
    }

    /** Next, from an entry. */
    method Ahead(ghost p: nat) returns (ok: bool)
      requires db.Valid() && !released && p < |db.contents| && At(p)
      modifies this
      ensures !released && At(p + 1) && (ok <==> p + 1 < |db.contents|)
    {
      Standing(p);
      ok := Next(p + 1);
    }

    method Release()
      modifies this
      ensures released && (!old(released) ==> node == 0 && key == [] && value == [])
    {
      if !released {
        node, key, value, released := 0, [], [], true;
      }
    }
  }

  /** First and then Next until it fails enumerate the entries in key order. */
  method Enumerate(db: MemDB) returns (es: seq<Entry>)
    requires db.Valid()
    ensures es == db.contents
  {
    var it := new DbIter(db);
    es := [];
    var ok := it.First();
    while ok
      invariant it.db == db && !it.released && |es| <= |db.contents| && es == db.contents[..|es|]
      invariant it.At(|es|) && (ok <==> |es| < |db.contents|)
      decreases |db.contents| - |es|
    {
      es := es + [Entry(it.key, it.value)];
      ok := it.Ahead(|es| - 1);
    }
  }

  /** Prev undoes Next, also when Next ran off the end. */
  method NextThenPrev(it: DbIter, ghost p: nat) returns (back: bool)
    requires it.db.Valid() && !it.released && p < |it.db.contents| && it.At(p)
    modifies it
    ensures it.db.Valid() && back && it.At(p)
  {
    it.Standing(p);
    var on := it.Next(p + 1);
    if on {
      it.Standing(p + 1);
    }
    back := it.Prev();
  }

  /** Next undoes Prev, also when Prev ran off the front. */
  method PrevThenNext(it: DbIter, ghost p: nat) returns (back: bool)
    requires it.db.Valid() && !it.released && p < |it.db.contents| && it.At(p)
    modifies it
    ensures it.db.Valid() && back && it.At(p)
  {
    it.Standing(p);
    var on := it.Prev();
    if on {
      it.Standing(p - 1);
    }
    back := it.Next(p);
  }

  /** When the entry under the iterator is deleted, Next goes to the one after it. */
  method DeleteThenNext(it: DbIter, ghost p: nat) returns (ok: bool)
    requires it.db.Valid() && !it.released && p < |it.db.contents| && it.At(p)
    modifies it, it.db
    ensures it.db.Valid() && it.db.contents == Remove(old(it.db.contents), old(it.key))
    ensures it.At(p) && (ok <==> p < |it.db.contents|)
  {
    it.Standing(p);
    var _ := it.db.Delete(it.key);
    ok := it.Next(p);
  }

  /** When it is deleted, Prev goes to the one before it. */
  method DeleteThenPrev(it: DbIter, ghost p: nat) returns (ok: bool)
    requires it.db.Valid() && !it.released && p < |it.db.contents| && it.At(p)
    modifies it, it.db
    ensures it.db.Valid() && it.db.contents == Remove(old(it.db.contents), old(it.key))
    ensures it.At(p - 1) && (ok <==> p > 0)
  {
    it.Standing(p);
    var _ := it.db.Delete(it.key);
    RankRemoved(old(it.db.contents), it.key, p);
    ok := it.Prev();
  }

  // Any run of Put, Delete and Reset.

  datatype Command = PutCmd(key: seq<Byte>, value: seq<Byte>, height: nat) | DeleteCmd(key: seq<Byte>) | ResetCmd

  ghost function Effect(es: seq<Entry>, c: Command): (r: seq<Entry>)
    requires Sorted(es)
    ensures Sorted(r)
  {
    match c
    case PutCmd(k, v, _) => PutSorted(es, k, v); Put(es, k, v)
    case DeleteCmd(k) => RemoveSorted(es, k); Remove(es, k)
    case ResetCmd => []
  }

  ghost function Effects(es: seq<Entry>, cs: seq<Command>): (r: seq<Entry>)
    requires Sorted(es)
    ensures Sorted(r)
  {
    if cs == [] then es else Effect(Effects(es, cs[..|cs| - 1]), cs[|cs| - 1])
  }

  method RunCommands(db: MemDB, cs: seq<Command>)
    requires db.Valid() && forall i :: 0 <= i < |cs| && cs[i].PutCmd? ==> 1 <= cs[i].height <= T_MAX_HEIGHT
    modifies db
    ensures db.Valid() && Sorted(old(db.contents)) && db.contents == Effects(old(db.contents), cs)
    ensures forall h :: 0 <= h < T_MAX_HEIGHT ==> LevelOk(db.nodeData, db.kvData, db.nodes, h)
  {
    for i := 0 to |cs|
      invariant db.Valid() && db.contents == Effects(old(db.contents), cs[..i])
    {
      assert cs[..i + 1][..i] == cs[..i];
      match cs[i]
      case PutCmd(k, v, h) => db.Put(k, v, h);
      case DeleteCmd(k) => var _ := db.Delete(k);
      case ResetCmd => db.Reset();
    }
    assert cs[..|cs|] == cs;
    forall h | 0 <= h < T_MAX_HEIGHT ensures LevelOk(db.nodeData, db.kvData, db.nodes, h) {
      db.LevelsSorted(h);
    }
  }

  /** The same commands on a plain map. */
  ghost function MapEffects(m: map<seq<Byte>, seq<Byte>>, cs: seq<Command>): (r: map<seq<Byte>, seq<Byte>>) {
    if cs == [] then m
    else
      var r := MapEffects(m, cs[..|cs| - 1]);
      match cs[|cs| - 1]
      case PutCmd(k, v, _) => r[k := v]
      case DeleteCmd(k) => r - {k}
      case ResetCmd => map[]
  }

  /** From empty, any run leaves exactly what a map would hold. */
  lemma {:induction false} EffectsAreMapEffects(cs: seq<Command>, q: seq<Byte>)
    ensures Get(Effects([], cs), q) == (var m := MapEffects(map[], cs); if q in m then Some(m[q]) else None)
  {
    if cs != [] {
      var c, es := cs[|cs| - 1], Effects([], cs[..|cs| - 1]);
      EffectsAreMapEffects(cs[..|cs| - 1], q);
      match c
      case PutCmd(k, v, _) => GetPut(es, k, v, q);
      case DeleteCmd(k) => GetRemove(es, k, q);
      case ResetCmd =>
    }
  }
}
