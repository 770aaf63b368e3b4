/**
 The skip list packed into MemDB's integer slice (ethdb/mdbx/memdb.go): node blocks, level links,
 and what inserting and unlinking a node do to them.
 */
module SkipList {
  import opened Nibbles
  import opened SortedEntries

  const T_MAX_HEIGHT := 12
  const N_KEY := 1
  const N_VAL := 2
  const N_HEIGHT := 3
  const N_NEXT := 4

  /** The offsets of the head (0) and of the live nodes, in key order. */
  type Nodes = seq<int>

  ghost predicate Block(nd: seq<int>, x: int) {
    && 0 <= x && x + N_NEXT <= |nd|
    && 1 <= nd[x + N_HEIGHT] <= T_MAX_HEIGHT && x + N_NEXT + nd[x + N_HEIGHT] <= |nd|
  }

  ghost predicate Disjoint(nd: seq<int>, x: int, y: int)
    requires Block(nd, x) && Block(nd, y)
  {
    x + N_NEXT + nd[x + N_HEIGHT] <= y || y + N_NEXT + nd[y + N_HEIGHT] <= x
  }

  /** Every node has its own block, and the head is as high as any. */
  ghost predicate Blocks(nd: seq<int>, ns: Nodes) {
    && |ns| > 0 && ns[0] == 0
    && (forall i :: 0 <= i < |ns| ==> Block(nd, ns[i]))
    && nd[N_HEIGHT] == T_MAX_HEIGHT
    && forall i, j {:trigger Disjoint(nd, ns[i], ns[j])} :: 0 <= i < j < |ns| ==> Disjoint(nd, ns[i], ns[j])
  }

  /** The heights of the nodes, in the same order. */
  ghost function Heights(nd: seq<int>, ns: Nodes): (hs: seq<int>)
    requires Blocks(nd, ns)
    ensures |hs| == |ns| && forall i {:trigger hs[i]} :: 0 <= i < |ns| ==> hs[i] == nd[ns[i] + N_HEIGHT]
  {
    seq(|ns|, i requires 0 <= i < |ns| => nd[ns[i] + N_HEIGHT])
  }

  /** The index of the first height from `i` on that is above `h`, or |hs|. */
  ghost function NextAt(hs: seq<int>, i: nat, h: int): (j: nat)
    requires i <= |hs|
    ensures i <= j <= |hs|
    ensures forall k :: i <= k < j ==> hs[k] <= h
    ensures j < |hs| ==> hs[j] > h
    decreases |hs| - i
  {
    if i == |hs| || hs[i] > h then i else NextAt(hs, i + 1, h)
  }

  /** NextAt is determined by what it promises. */
  lemma NextAtUnique(hs: seq<int>, i: nat, h: int, j: nat)
    requires i <= j <= |hs| && forall k :: i <= k < j ==> hs[k] <= h
    requires j < |hs| ==> hs[j] > h
    ensures NextAt(hs, i, h) == j
  {
    var m := NextAt(hs, i, h);
    assert !(i <= m < j) && !(i <= j < m);
  }

  /** What a link to the node of index `j` holds; 0 ends a level. */
  ghost function Link(ns: Nodes, j: nat): (x: int) {
    if j < |ns| then ns[j] else 0
  }

  /** The slot of the level-`h` link of the node at offset `x`. */
  function Slot(x: int, h: int): (a: int) {
    x + N_NEXT + h
  }

  ghost predicate LinkOk(nd: seq<int>, ns: Nodes, hs: seq<int>, i: nat, h: int)
    requires Blocks(nd, ns) && hs == Heights(nd, ns) && i < |ns|
  {
    0 <= h < hs[i] ==> nd[Slot(ns[i], h)] == Link(ns, NextAt(hs, i + 1, h))
  }

  /** On every level, each node links to the next node that is high enough. */
  ghost predicate Linked(nd: seq<int>, ns: Nodes) {
    && Blocks(nd, ns)
    && forall i, h :: 0 <= i < |ns| ==> LinkOk(nd, ns, Heights(nd, ns), i, h)
  }

  // Keys and values in the byte arena.

  ghost predicate Kept(nd: seq<int>, kv: seq<Byte>, x: int)
    requires Block(nd, x)
  {
    0 <= nd[x] && 0 <= nd[x + N_KEY] && 0 <= nd[x + N_VAL] && nd[x] + nd[x + N_KEY] + nd[x + N_VAL] <= |kv|
  }

  ghost function EntryAt(nd: seq<int>, kv: seq<Byte>, x: int): (e: Entry)
    requires Block(nd, x) && Kept(nd, kv, x)
  {
    var m := nd[x] + nd[x + N_KEY];
    Entry(kv[nd[x]..m], kv[m..m + nd[x + N_VAL]])
  }

  /** Every node but the head has its key and value in the arena. */
  ghost predicate AllKept(nd: seq<int>, kv: seq<Byte>, ns: Nodes) {
    Blocks(nd, ns) && forall i :: 1 <= i < |ns| ==> Kept(nd, kv, ns[i])
  }

  ghost function Entries(nd: seq<int>, kv: seq<Byte>, ns: Nodes): (es: seq<Entry>)
    requires AllKept(nd, kv, ns)
    ensures |es| == |ns| - 1
    ensures forall i :: 0 <= i < |es| ==> es[i] == EntryAt(nd, kv, ns[i + 1])
  {
    seq(|ns| - 1, i requires 0 <= i < |ns| - 1 => EntryAt(nd, kv, ns[i + 1]))
  }

  // The predecessors of a position, one per level.

  /** `i` is the last node up to `p` that reaches level `h`. */
  ghost predicate IsPrev(hs: seq<int>, i: int, p: nat, h: int)
    requires p < |hs|
  {
    0 <= i <= p && hs[i] > h && forall k :: i < k <= p ==> hs[k] <= h
  }

  /** `prev` holds the predecessors of position `p + 1` on the first `top` levels; `pi` are their indices. */
  ghost predicate Prevs(nd: seq<int>, ns: Nodes, prev: seq<int>, pi: seq<int>, p: nat, top: nat) {
    && Blocks(nd, ns) && p < |ns| && top <= |prev| && top == |pi| <= T_MAX_HEIGHT
    && forall h :: 0 <= h < top ==> IsPrev(Heights(nd, ns), pi[h], p, h) && prev[h] == ns[pi[h]]
  }

  /** A link slot belongs to one node and one level, and is no header field of any node. */
  lemma SlotsApart(nd: seq<int>, ns: Nodes, i: nat, h: int, j: nat, g: int)
    requires Blocks(nd, ns) && i < |ns| && j < |ns|
    requires 0 <= h < Heights(nd, ns)[i] && -N_NEXT <= g < Heights(nd, ns)[j]
    ensures Slot(ns[i], h) == Slot(ns[j], g) ==> i == j && h == g
    ensures 0 <= Slot(ns[i], h) < |nd| && 0 <= Slot(ns[j], g) < |nd|
  {
    assert Block(nd, ns[i]) && Block(nd, ns[j]);
    if i < j {
      assert Disjoint(nd, ns[i], ns[j]);
    } else if j < i {
      assert Disjoint(nd, ns[j], ns[i]);
    }
  }

  // Splicing in a node.

  ghost predicate IsPrevSlot(prev: seq<int>, h: nat, a: int)
    requires h <= |prev|
  {
    exists g :: 0 <= g < h && a == Slot(prev[g], g)
  }

  /** `nd'` is `nd` with a node of height `h` at its end, linked in behind `prev`. */
  ghost predicate Spliced(nd: seq<int>, nd': seq<int>, h: nat, prev: seq<int>) {
    && h <= |prev| && |nd'| == |nd| + N_NEXT + h && nd'[|nd| + N_HEIGHT] == h
    && (forall g :: 0 <= g < h ==> 0 <= Slot(prev[g], g) < |nd|)
    && (forall g :: 0 <= g < h ==> nd'[Slot(|nd|, g)] == nd[Slot(prev[g], g)] && nd'[Slot(prev[g], g)] == |nd|)
    && forall a {:trigger IsPrevSlot(prev, h, a)} :: 0 <= a < |nd| && !IsPrevSlot(prev, h, a) ==> nd'[a] == nd[a]
  }

  /** The sequence with one more element after index `p`. */
  ghost function With(s: seq<int>, p: nat, x: int): (r: seq<int>)
    requires p < |s|
    ensures |r| == |s| + 1
    ensures forall i {:trigger r[i]} :: 0 <= i < |r| ==> r[i] == if i <= p then s[i] else if i == p + 1 then x else s[i - 1]
  {
    seq(|s| + 1, i requires 0 <= i < |s| + 1 => if i <= p then s[i] else if i == p + 1 then x else s[i - 1])
  }

  lemma SplicedHeader(nd: seq<int>, nd': seq<int>, ns: Nodes, prev: seq<int>, pi: seq<int>, p: nat, h: nat, i: nat, g: int)
    requires Prevs(nd, ns, prev, pi, p, h) && Spliced(nd, nd', h, prev) && i < |ns| && -N_NEXT <= g < 0
    ensures 0 <= Slot(ns[i], g) < |nd| && nd'[Slot(ns[i], g)] == nd[Slot(ns[i], g)]
  {
    assert Block(nd, ns[i]);
    forall l | 0 <= l < h ensures Slot(ns[i], g) != Slot(prev[l], l) {
      assert IsPrev(Heights(nd, ns), pi[l], p, l);
      SlotsApart(nd, ns, pi[l], l, i, g);
    }
    assert !IsPrevSlot(prev, h, Slot(ns[i], g));
  }

  lemma SplicedBlock(nd: seq<int>, nd': seq<int>, ns: Nodes, prev: seq<int>, pi: seq<int>, p: nat, h: nat, i: nat)
    requires Prevs(nd, ns, prev, pi, p, h) && Spliced(nd, nd', h, prev) && i < |ns|
    ensures Block(nd', ns[i]) && nd'[ns[i] + N_HEIGHT] == nd[ns[i] + N_HEIGHT]
    ensures ns[i] + N_NEXT + nd[ns[i] + N_HEIGHT] <= |nd|
  {
    SplicedHeader(nd, nd', ns, prev, pi, p, h, i, -1);
    assert Block(nd, ns[i]);
  }

  lemma SplicedNode(nd: seq<int>, nd': seq<int>, ns: Nodes, prev: seq<int>, pi: seq<int>, p: nat, h: nat, i: nat)
    requires Prevs(nd, ns, prev, pi, p, h) && Spliced(nd, nd', h, prev) && 1 <= h && i <= |ns|
    ensures Block(nd', With(ns, p, |nd|)[i])
    ensures nd'[With(ns, p, |nd|)[i] + N_HEIGHT] == With(Heights(nd, ns), p, h)[i]
  {
    if i != p + 1 {
      SplicedBlock(nd, nd', ns, prev, pi, p, h, if i <= p then i else i - 1);
    }
  }

  lemma NewDisjoint(nd: seq<int>, nd': seq<int>, ns: Nodes, prev: seq<int>, pi: seq<int>, p: nat, h: nat, i: nat)
    requires Prevs(nd, ns, prev, pi, p, h) && Spliced(nd, nd', h, prev) && 1 <= h && i < |ns|
    ensures Block(nd', ns[i]) && Block(nd', |nd|) && Disjoint(nd', ns[i], |nd|) && Disjoint(nd', |nd|, ns[i])
  {
    SplicedBlock(nd, nd', ns, prev, pi, p, h, i);
  }

  lemma SplicedPair(nd: seq<int>, nd': seq<int>, ns: Nodes, prev: seq<int>, pi: seq<int>, p: nat, h: nat, i: nat, j: nat)
    requires Prevs(nd, ns, prev, pi, p, h) && Spliced(nd, nd', h, prev) && 1 <= h && i < j <= |ns|
    ensures Block(nd', With(ns, p, |nd|)[i]) && Block(nd', With(ns, p, |nd|)[j])
    ensures Disjoint(nd', With(ns, p, |nd|)[i], With(ns, p, |nd|)[j])
  {
    if i == p + 1 {
      NewDisjoint(nd, nd', ns, prev, pi, p, h, j - 1);
    } else if j == p + 1 {
      NewDisjoint(nd, nd', ns, prev, pi, p, h, i);
    } else {
      SplicedDisjoint(nd, nd', ns, prev, pi, p, h, if i <= p then i else i - 1, if j <= p then j else j - 1);
    }
  }

  lemma SplicedBlocks(nd: seq<int>, nd': seq<int>, ns: Nodes, prev: seq<int>, pi: seq<int>, p: nat, h: nat)
    requires Prevs(nd, ns, prev, pi, p, h) && Spliced(nd, nd', h, prev) && 1 <= h
    ensures Blocks(nd', With(ns, p, |nd|))
    ensures Heights(nd', With(ns, p, |nd|)) == With(Heights(nd, ns), p, h)
  {
    var r, hs := With(ns, p, |nd|), With(Heights(nd, ns), p, h);
    forall i | 0 <= i < |r| ensures Block(nd', r[i]) && nd'[r[i] + N_HEIGHT] == hs[i] {
      SplicedNode(nd, nd', ns, prev, pi, p, h, i);
    }
    assert hs[0] == T_MAX_HEIGHT;
    forall i, j | 0 <= i < j < |r| ensures Disjoint(nd', r[i], r[j]) {
      SplicedPair(nd, nd', ns, prev, pi, p, h, i, j);
    }
  }

  lemma SplicedDisjoint(nd: seq<int>, nd': seq<int>, ns: Nodes, prev: seq<int>, pi: seq<int>, p: nat, h: nat, i: nat, j: nat)
    requires Prevs(nd, ns, prev, pi, p, h) && Spliced(nd, nd', h, prev) && i < j < |ns|
    ensures Block(nd', ns[i]) && Block(nd', ns[j]) && Disjoint(nd', ns[i], ns[j])
  {
    SplicedBlock(nd, nd', ns, prev, pi, p, h, i);
    SplicedBlock(nd, nd', ns, prev, pi, p, h, j);
    assert Disjoint(nd, ns[i], ns[j]);
  }

  /** Where the first high node from `i` on is, after the splice. */
  lemma {:induction false} NextWithAfter(hs: seq<int>, p: nat, h: int, i: nat, l: int)
    requires p < i <= |hs|
    ensures NextAt(With(hs, p, h), i + 1, l) == NextAt(hs, i, l) + 1
    decreases |hs| - i
  {
    if i < |hs| && hs[i] <= l {
      NextWithAfter(hs, p, h, i + 1, l);
    }
  }

  lemma {:induction false} NextWithBefore(hs: seq<int>, p: nat, h: int, i: nat, l: int)
    requires p < |hs| && i <= p + 1
    ensures var j := NextAt(hs, i, l);
      NextAt(With(hs, p, h), i, l) == if j <= p then j else if h > l then p + 1 else j + 1
    decreases |hs| - i
  {
    if i == p + 1 {
      NextWithAfter(hs, p, h, i, l);
    } else if hs[i] <= l {
      NextWithBefore(hs, p, h, i + 1, l);
    }
  }

  /** A node links to beyond position `p` exactly if it is the predecessor on that level. */
  lemma PrevLinksBeyond(hs: seq<int>, i: nat, p: nat, l: int, pi: int)
    requires p < |hs| && IsPrev(hs, pi, p, l) && i <= p && hs[i] > l
    ensures NextAt(hs, i + 1, l) > p <==> i == pi
    ensures NextAt(hs, i + 1, l) > p ==> NextAt(hs, i + 1, l) == NextAt(hs, p + 1, l)
  {
    var j := NextAt(hs, i + 1, l);
    if j > p {
      NextAtUnique(hs, p + 1, l, j);
    }
  }

  lemma LinkKept(nd: seq<int>, nd': seq<int>, ns: Nodes, prev: seq<int>, pi: seq<int>, p: nat, h: nat, i: nat, l: int)
    requires Prevs(nd, ns, prev, pi, p, h) && Spliced(nd, nd', h, prev)
    requires i < |ns| && 0 <= l < Heights(nd, ns)[i] && (l < h ==> i != pi[l])
    ensures 0 <= Slot(ns[i], l) < |nd| && nd'[Slot(ns[i], l)] == nd[Slot(ns[i], l)]
  {
    SlotsApart(nd, ns, i, l, i, l);
    forall g | 0 <= g < h ensures Slot(ns[i], l) != Slot(prev[g], g) {
      assert IsPrev(Heights(nd, ns), pi[g], p, g);
      SlotsApart(nd, ns, pi[g], g, i, l);
    }
    assert !IsPrevSlot(prev, h, Slot(ns[i], l));
  }

  lemma LinkWith(ns: Nodes, p: nat, x: int, j: nat)
    requires p < |ns|
    ensures j <= p ==> Link(With(ns, p, x), j) == Link(ns, j)
    ensures j > p ==> Link(With(ns, p, x), j + 1) == Link(ns, j)
    ensures Link(With(ns, p, x), p + 1) == x
  {
  }

  // Link targets before and after the splice, on the lists of nodes and heights alone.

  lemma TargetOfNew(ns: Nodes, hs: seq<int>, p: nat, x: int, h: int, l: int, pi: int)
    requires |ns| == |hs| && p < |hs| && IsPrev(hs, pi, p, l)
    ensures Link(With(ns, p, x), NextAt(With(hs, p, h), p + 2, l)) == Link(ns, NextAt(hs, pi + 1, l))
  {
    PrevLinksBeyond(hs, pi, p, l, pi);
    NextWithAfter(hs, p, h, p + 1, l);
    LinkWith(ns, p, x, NextAt(hs, p + 1, l));
  }

  lemma TargetBefore(ns: Nodes, hs: seq<int>, p: nat, x: int, h: int, i: nat, l: int)
    requires |ns| == |hs| && p < |hs| && i <= p && hs[i] > l
    ensures var j := NextAt(hs, i + 1, l);
      Link(With(ns, p, x), NextAt(With(hs, p, h), i + 1, l)) == if j > p && h > l then x else Link(ns, j)
  {
    NextWithBefore(hs, p, h, i + 1, l);
    LinkWith(ns, p, x, NextAt(hs, i + 1, l));
  }

  lemma TargetAfter(ns: Nodes, hs: seq<int>, p: nat, x: int, h: int, i: nat, l: int)
    requires |ns| == |hs| && p < i < |hs|
    ensures Link(With(ns, p, x), NextAt(With(hs, p, h), i + 2, l)) == Link(ns, NextAt(hs, i + 1, l))
  {
    NextWithAfter(hs, p, h, i + 1, l);
    LinkWith(ns, p, x, NextAt(hs, i + 1, l));
  }

  lemma SplicedLinkNew(nd: seq<int>, nd': seq<int>, ns: Nodes, prev: seq<int>, pi: seq<int>, p: nat, h: nat, l: nat)
    requires Linked(nd, ns) && Prevs(nd, ns, prev, pi, p, h) && Spliced(nd, nd', h, prev) && l < h
    ensures nd'[Slot(|nd|, l)] == Link(With(ns, p, |nd|), NextAt(With(Heights(nd, ns), p, h), p + 2, l))
  {
    var hs := Heights(nd, ns);
    assert IsPrev(hs, pi[l], p, l) && prev[l] == ns[pi[l]];
    assert LinkOk(nd, ns, hs, pi[l], l);
    TargetOfNew(ns, hs, p, |nd|, h, l, pi[l]);
  }

  lemma SplicedLinkAfter(nd: seq<int>, nd': seq<int>, ns: Nodes, prev: seq<int>, pi: seq<int>, p: nat, h: nat, i: nat, l: nat)
    requires Linked(nd, ns) && Prevs(nd, ns, prev, pi, p, h) && Spliced(nd, nd', h, prev)
    requires p < i < |ns| && l < Heights(nd, ns)[i] && 0 <= Slot(ns[i], l) < |nd'|
    ensures nd'[Slot(ns[i], l)] == Link(With(ns, p, |nd|), NextAt(With(Heights(nd, ns), p, h), i + 2, l))
  {
    var hs := Heights(nd, ns);
    assert l < h ==> IsPrev(hs, pi[l], p, l);
    assert LinkOk(nd, ns, hs, i, l);
    LinkKept(nd, nd', ns, prev, pi, p, h, i, l);
    TargetAfter(ns, hs, p, |nd|, h, i, l);
  }

  lemma SplicedLinkBefore(nd: seq<int>, nd': seq<int>, ns: Nodes, prev: seq<int>, pi: seq<int>, p: nat, h: nat, i: nat, l: nat)
    requires Linked(nd, ns) && Prevs(nd, ns, prev, pi, p, h) && Spliced(nd, nd', h, prev)
    requires i <= p && l < Heights(nd, ns)[i] && 0 <= Slot(ns[i], l) < |nd'|
    ensures nd'[Slot(ns[i], l)] == Link(With(ns, p, |nd|), NextAt(With(Heights(nd, ns), p, h), i + 1, l))
  {
    var hs := Heights(nd, ns);
    assert LinkOk(nd, ns, hs, i, l);
    TargetBefore(ns, hs, p, |nd|, h, i, l);
    if l < h {
      assert IsPrev(hs, pi[l], p, l);
      PrevLinksBeyond(hs, i, p, l, pi[l]);
      if i != pi[l] {
        LinkKept(nd, nd', ns, prev, pi, p, h, i, l);
      }
    } else {
      LinkKept(nd, nd', ns, prev, pi, p, h, i, l);
    }
  }

  lemma SplicedLinkOk(nd: seq<int>, nd': seq<int>, ns: Nodes, prev: seq<int>, pi: seq<int>, p: nat, h: nat, k: nat, l: nat)
    requires Linked(nd, ns) && Prevs(nd, ns, prev, pi, p, h) && Spliced(nd, nd', h, prev)
    requires k <= |ns| && l < With(Heights(nd, ns), p, h)[k] && 0 <= Slot(With(ns, p, |nd|)[k], l) < |nd'|
    ensures nd'[Slot(With(ns, p, |nd|)[k], l)] == Link(With(ns, p, |nd|), NextAt(With(Heights(nd, ns), p, h), k + 1, l))
  {
    var r := With(ns, p, |nd|);
    if k <= p {
      assert r[k] == ns[k];
      SplicedLinkBefore(nd, nd', ns, prev, pi, p, h, k, l);
    } else if k == p + 1 {
      assert r[k] == |nd|;
      SplicedLinkNew(nd, nd', ns, prev, pi, p, h, l);
    } else {
      assert r[k] == ns[k - 1];
      SplicedLinkAfter(nd, nd', ns, prev, pi, p, h, k - 1, l);
    }
  }

  /** Splicing a node in behind its predecessors keeps every level a chain of the high nodes in order. */
  lemma SplicedLinked(nd: seq<int>, nd': seq<int>, ns: Nodes, prev: seq<int>, pi: seq<int>, p: nat, h: nat)
    requires Linked(nd, ns) && Prevs(nd, ns, prev, pi, p, h) && Spliced(nd, nd', h, prev) && 1 <= h
    ensures Linked(nd', With(ns, p, |nd|))
    ensures Heights(nd', With(ns, p, |nd|)) == With(Heights(nd, ns), p, h)
  {
    var r := With(ns, p, |nd|);
    SplicedBlocks(nd, nd', ns, prev, pi, p, h);
    var hs' := Heights(nd', r);
    forall k, l | 0 <= k < |r| ensures LinkOk(nd', r, hs', k, l) {
      if 0 <= l < hs'[k] {
        assert Block(nd', r[k]);
        SplicedLinkOk(nd, nd', ns, prev, pi, p, h, k, l);
      }
    }
  }

  // Unlinking a node.

  /** `nd'` is `nd` with the node at offset `x` bypassed behind `prev`. */
  ghost predicate Bypassed(nd: seq<int>, nd': seq<int>, x: int, prev: seq<int>) {
    && Block(nd, x) && |nd'| == |nd| && nd[x + N_HEIGHT] <= |prev|
    && (forall g :: 0 <= g < nd[x + N_HEIGHT] ==> 0 <= Slot(prev[g], g) < |nd| && nd'[Slot(prev[g], g)] == nd[Slot(x, g)])
    && forall a {:trigger IsPrevSlot(prev, nd[x + N_HEIGHT], a)} ::
         0 <= a < |nd| && !IsPrevSlot(prev, nd[x + N_HEIGHT], a) ==> nd'[a] == nd[a]
  }

  ghost function Without(s: seq<int>, p: nat): (r: seq<int>)
    requires p + 1 < |s|
    ensures |r| == |s| - 1
    ensures forall i {:trigger r[i]} :: 0 <= i < |r| ==> r[i] == if i <= p then s[i] else s[i + 1]
  {
    seq(|s| - 1, i requires 0 <= i < |s| - 1 => if i <= p then s[i] else s[i + 1])
  }

  lemma BypassedField(nd: seq<int>, nd': seq<int>, ns: Nodes, prev: seq<int>, pi: seq<int>, p: nat, i: nat, g: int)
    requires Blocks(nd, ns) && p + 1 < |ns| && Prevs(nd, ns, prev, pi, p, Heights(nd, ns)[p + 1])
    requires Bypassed(nd, nd', ns[p + 1], prev) && i < |ns| && -N_NEXT <= g < Heights(nd, ns)[i]
    requires 0 <= g < Heights(nd, ns)[p + 1] ==> i != pi[g]
    ensures 0 <= Slot(ns[i], g) < |nd| && nd'[Slot(ns[i], g)] == nd[Slot(ns[i], g)]
  {
    assert Block(nd, ns[i]);
    forall l | 0 <= l < Heights(nd, ns)[p + 1] ensures Slot(ns[i], g) != Slot(prev[l], l) {
      assert IsPrev(Heights(nd, ns), pi[l], p, l);
      SlotsApart(nd, ns, pi[l], l, i, g);
    }
    assert !IsPrevSlot(prev, Heights(nd, ns)[p + 1], Slot(ns[i], g));
  }

  lemma BypassedBlock(nd: seq<int>, nd': seq<int>, ns: Nodes, prev: seq<int>, pi: seq<int>, p: nat, i: nat)
    requires Blocks(nd, ns) && p + 1 < |ns| && Prevs(nd, ns, prev, pi, p, Heights(nd, ns)[p + 1])
    requires Bypassed(nd, nd', ns[p + 1], prev) && i < |ns|
    ensures Block(nd', ns[i]) && nd'[ns[i] + N_HEIGHT] == nd[ns[i] + N_HEIGHT]
  {
    BypassedField(nd, nd', ns, prev, pi, p, i, -1);
    assert Block(nd, ns[i]);
  }

  lemma BypassedNode(nd: seq<int>, nd': seq<int>, ns: Nodes, prev: seq<int>, pi: seq<int>, p: nat, i: nat)
    requires Blocks(nd, ns) && p + 1 < |ns| && Prevs(nd, ns, prev, pi, p, Heights(nd, ns)[p + 1])
    requires Bypassed(nd, nd', ns[p + 1], prev) && i < |ns| - 1
    ensures Block(nd', Without(ns, p)[i])
    ensures nd'[Without(ns, p)[i] + N_HEIGHT] == Without(Heights(nd, ns), p)[i]
  {
    BypassedBlock(nd, nd', ns, prev, pi, p, if i <= p then i else i + 1);
  }

  lemma BypassedBlocks(nd: seq<int>, nd': seq<int>, ns: Nodes, prev: seq<int>, pi: seq<int>, p: nat)
    requires Blocks(nd, ns) && p + 1 < |ns| && Prevs(nd, ns, prev, pi, p, Heights(nd, ns)[p + 1])
    requires Bypassed(nd, nd', ns[p + 1], prev)
    ensures Blocks(nd', Without(ns, p)) && Heights(nd', Without(ns, p)) == Without(Heights(nd, ns), p)
  {
    var r, hs := Without(ns, p), Without(Heights(nd, ns), p);
    forall i | 0 <= i < |r| ensures Block(nd', r[i]) && nd'[r[i] + N_HEIGHT] == hs[i] {
      BypassedNode(nd, nd', ns, prev, pi, p, i);
    }
    assert hs[0] == T_MAX_HEIGHT;
    forall i, j | 0 <= i < j < |r| ensures Disjoint(nd', r[i], r[j]) {
      BypassedPair(nd, nd', ns, prev, pi, p, i, j);
    }
  }

  lemma BypassedPair(nd: seq<int>, nd': seq<int>, ns: Nodes, prev: seq<int>, pi: seq<int>, p: nat, i: nat, j: nat)
    requires Blocks(nd, ns) && p + 1 < |ns| && Prevs(nd, ns, prev, pi, p, Heights(nd, ns)[p + 1])
    requires Bypassed(nd, nd', ns[p + 1], prev) && i < j < |ns| - 1
    ensures Block(nd', Without(ns, p)[i]) && Block(nd', Without(ns, p)[j])
    ensures Disjoint(nd', Without(ns, p)[i], Without(ns, p)[j])
  {
    BypassedDisjoint(nd, nd', ns, prev, pi, p, if i <= p then i else i + 1, if j <= p then j else j + 1);
  }

  lemma BypassedDisjoint(nd: seq<int>, nd': seq<int>, ns: Nodes, prev: seq<int>, pi: seq<int>, p: nat, i: nat, j: nat)
    requires Blocks(nd, ns) && p + 1 < |ns| && Prevs(nd, ns, prev, pi, p, Heights(nd, ns)[p + 1])
    requires Bypassed(nd, nd', ns[p + 1], prev) && i < j < |ns|
    ensures Block(nd', ns[i]) && Block(nd', ns[j]) && Disjoint(nd', ns[i], ns[j])
  {
    BypassedBlock(nd, nd', ns, prev, pi, p, i);
    BypassedBlock(nd, nd', ns, prev, pi, p, j);
    assert Disjoint(nd, ns[i], ns[j]);
  }

  lemma NextWithoutAfter(hs: seq<int>, p: nat, i: nat, l: int)
    requires p + 1 < i <= |hs|
    ensures NextAt(Without(hs, p), i - 1, l) == NextAt(hs, i, l) - 1
  {
    var r, j := Without(hs, p), NextAt(hs, i, l);
    assert forall k :: i - 1 <= k < j - 1 ==> r[k] == hs[k + 1];
    NextAtUnique(r, i - 1, l, j - 1);
  }

  lemma NextWithoutBefore(hs: seq<int>, p: nat, i: nat, l: int)
    requires p + 1 < |hs| && i <= p + 1
    ensures var j := NextAt(hs, i, l);
      NextAt(Without(hs, p), i, l) == if j <= p then j else NextAt(hs, p + 2, l) - 1
  {
    var r, j := Without(hs, p), NextAt(hs, i, l);
    var m := if j <= p then j else NextAt(hs, p + 2, l) - 1;
    assert forall k :: i <= k < m ==> r[k] == hs[if k <= p then k else k + 1];
    NextAtUnique(r, i, l, m);
  }

  lemma LinkWithout(ns: Nodes, p: nat, j: nat)
    requires p + 1 < |ns|
    ensures j <= p ==> Link(Without(ns, p), j) == Link(ns, j)
    ensures j > p + 1 ==> Link(Without(ns, p), j - 1) == Link(ns, j)
  {
  }

  lemma TargetBeforeGap(ns: Nodes, hs: seq<int>, p: nat, i: nat, l: int)
    requires |ns| == |hs| && p + 1 < |hs| && i <= p
    ensures var j := NextAt(hs, i + 1, l);
      Link(Without(ns, p), NextAt(Without(hs, p), i + 1, l)) ==
        if j == p + 1 then Link(ns, NextAt(hs, p + 2, l)) else Link(ns, j)
  {
    var j := NextAt(hs, i + 1, l);
    NextWithoutBefore(hs, p, i + 1, l);
    if j <= p {
      LinkWithout(ns, p, j);
    } else {
      LinkWithout(ns, p, NextAt(hs, p + 2, l));
      if j > p + 1 {
        NextAtUnique(hs, p + 2, l, j);
      }
    }
  }

  lemma TargetAfterGap(ns: Nodes, hs: seq<int>, p: nat, i: nat, l: int)
    requires |ns| == |hs| && p + 1 < i < |hs|
    ensures Link(Without(ns, p), NextAt(Without(hs, p), i, l)) == Link(ns, NextAt(hs, i + 1, l))
  {
    NextWithoutAfter(hs, p, i + 1, l);
    LinkWithout(ns, p, NextAt(hs, i + 1, l));
  }

  lemma BypassedLink(nd: seq<int>, nd': seq<int>, ns: Nodes, prev: seq<int>, pi: seq<int>, p: nat, i: nat, l: nat)
    requires Linked(nd, ns) && p + 1 < |ns| && Prevs(nd, ns, prev, pi, p, Heights(nd, ns)[p + 1])
    requires Bypassed(nd, nd', ns[p + 1], prev) && i < |ns| && i != p + 1
    requires l < Heights(nd, ns)[i] && 0 <= Slot(ns[i], l) < |nd'|
    ensures var j := NextAt(Heights(nd, ns), i + 1, l);
      nd'[Slot(ns[i], l)] ==
        if i <= p && j == p + 1 then Link(ns, NextAt(Heights(nd, ns), p + 2, l)) else Link(ns, j)
  {
    var hs := Heights(nd, ns);
    assert LinkOk(nd, ns, hs, i, l) && LinkOk(nd, ns, hs, p + 1, l);
    if l < hs[p + 1] {
      assert IsPrev(hs, pi[l], p, l) && prev[l] == ns[pi[l]];
      if i <= p {
        PrevLinksBeyond(hs, i, p, l, pi[l]);
      }
      if i != pi[l] {
        BypassedField(nd, nd', ns, prev, pi, p, i, l);
      }
    } else {
      BypassedField(nd, nd', ns, prev, pi, p, i, l);
    }
  }

  lemma BypassedLinkBefore(nd: seq<int>, nd': seq<int>, ns: Nodes, prev: seq<int>, pi: seq<int>, p: nat, i: nat, l: nat)
    requires Linked(nd, ns) && p + 1 < |ns| && Prevs(nd, ns, prev, pi, p, Heights(nd, ns)[p + 1])
    requires Bypassed(nd, nd', ns[p + 1], prev) && i <= p
    requires l < Heights(nd, ns)[i] && 0 <= Slot(ns[i], l) < |nd'|
    ensures nd'[Slot(ns[i], l)] == Link(Without(ns, p), NextAt(Without(Heights(nd, ns), p), i + 1, l))
  {
    TargetBeforeGap(ns, Heights(nd, ns), p, i, l);
    BypassedLink(nd, nd', ns, prev, pi, p, i, l);
  }

  lemma BypassedLinkAfter(nd: seq<int>, nd': seq<int>, ns: Nodes, prev: seq<int>, pi: seq<int>, p: nat, i: nat, l: nat)
    requires Linked(nd, ns) && p + 1 < |ns| && Prevs(nd, ns, prev, pi, p, Heights(nd, ns)[p + 1])
    requires Bypassed(nd, nd', ns[p + 1], prev) && p + 1 < i < |ns|
    requires l < Heights(nd, ns)[i] && 0 <= Slot(ns[i], l) < |nd'|
    ensures nd'[Slot(ns[i], l)] == Link(Without(ns, p), NextAt(Without(Heights(nd, ns), p), i, l))
  {
    TargetAfterGap(ns, Heights(nd, ns), p, i, l);
    BypassedLink(nd, nd', ns, prev, pi, p, i, l);
  }

  lemma BypassedLinkOk(nd: seq<int>, nd': seq<int>, ns: Nodes, prev: seq<int>, pi: seq<int>, p: nat, k: nat, l: nat)
    requires Linked(nd, ns) && p + 1 < |ns| && Prevs(nd, ns, prev, pi, p, Heights(nd, ns)[p + 1])
    requires Bypassed(nd, nd', ns[p + 1], prev) && k < |ns| - 1
    requires l < Without(Heights(nd, ns), p)[k] && 0 <= Slot(Without(ns, p)[k], l) < |nd'|
    ensures nd'[Slot(Without(ns, p)[k], l)] == Link(Without(ns, p), NextAt(Without(Heights(nd, ns), p), k + 1, l))
  {
    var r := Without(ns, p);
    if k <= p {
      assert r[k] == ns[k];
      BypassedLinkBefore(nd, nd', ns, prev, pi, p, k, l);
    } else {
      assert r[k] == ns[k + 1];
      BypassedLinkAfter(nd, nd', ns, prev, pi, p, k + 1, l);
    }
  }

  /** Bypassing a node on all its levels keeps every level a chain of the remaining high nodes in order. */
  lemma BypassedLinked(nd: seq<int>, nd': seq<int>, ns: Nodes, prev: seq<int>, pi: seq<int>, p: nat)
    requires Linked(nd, ns) && p + 1 < |ns| && Prevs(nd, ns, prev, pi, p, Heights(nd, ns)[p + 1])
    requires Bypassed(nd, nd', ns[p + 1], prev)
    ensures Linked(nd', Without(ns, p)) && Heights(nd', Without(ns, p)) == Without(Heights(nd, ns), p)
  {
    var r := Without(ns, p);
    BypassedBlocks(nd, nd', ns, prev, pi, p);
    var hs' := Heights(nd', r);
    forall k, l | 0 <= k < |r| ensures LinkOk(nd', r, hs', k, l) {
      if 0 <= l < hs'[k] {
        assert Block(nd', r[k]);
        BypassedLinkOk(nd, nd', ns, prev, pi, p, k, l);
      }
    }
  }

  // Searching.

  /** No node but the head is at offset 0. */
  lemma OnlyHeadAtZero(nd: seq<int>, ns: Nodes, j: nat)
    requires Blocks(nd, ns) && 0 < j < |ns|
    ensures ns[j] > 0
  {
    assert Disjoint(nd, ns[0], ns[j]);
  }

  /** Following a link leads to the next high node, or to 0 when there is none. */
  lemma FollowLink(nd: seq<int>, ns: Nodes, i: nat, h: nat)
    requires Linked(nd, ns) && i < |ns| && h < Heights(nd, ns)[i]
    ensures 0 <= Slot(ns[i], h) < |nd|
    ensures var j := NextAt(Heights(nd, ns), i + 1, h);
      nd[Slot(ns[i], h)] == Link(ns, j) && (nd[Slot(ns[i], h)] == 0 <==> j == |ns|)
  {
    assert Block(nd, ns[i]);
    var j := NextAt(Heights(nd, ns), i + 1, h);
    assert LinkOk(nd, ns, Heights(nd, ns), i, h);
    if j < |ns| {
      OnlyHeadAtZero(nd, ns, j);
    }
  }

  /** On the lowest level every node links to its neighbour. */
  lemma LowestLevel(nd: seq<int>, ns: Nodes, i: nat)
    requires Blocks(nd, ns) && i < |ns|
    ensures NextAt(Heights(nd, ns), i + 1, 0) == i + 1
  {
    if i + 1 < |ns| {
      assert Block(nd, ns[i + 1]);
    }
  }

  // The levels as lists.

  /** The nodes from index `i` on that reach level `h`. */
  ghost function Level(ns: Nodes, hs: seq<int>, h: int, i: nat): (l: seq<int>)
    requires |ns| == |hs| && i <= |hs|
    decreases |hs| - i
  {
    if i == |hs| then []
    else if hs[i] > h then [ns[i]] + Level(ns, hs, h, i + 1)
    else Level(ns, hs, h, i + 1)
  }

  /** Following the links of level `h` from the node at `x` visits exactly `l`. */
  ghost predicate Chain(nd: seq<int>, x: int, h: nat, l: seq<int>)
    decreases |l|
  {
    && 0 <= Slot(x, h) < |nd|
    && if l == [] then nd[Slot(x, h)] == 0 else nd[Slot(x, h)] == l[0] && Chain(nd, l[0], h, l[1..])
  }

  lemma {:induction false} LevelFromNext(ns: Nodes, hs: seq<int>, h: int, i: nat)
    requires |ns| == |hs| && i <= |hs|
    ensures Level(ns, hs, h, i) == Level(ns, hs, h, NextAt(hs, i, h))
    decreases |hs| - i
  {
    if i < |hs| && hs[i] <= h {
      LevelFromNext(ns, hs, h, i + 1);
    }
  }

  /** On every level, the links from any node on it run through the later nodes of that level, in order. */
  lemma {:induction false} LevelChain(nd: seq<int>, ns: Nodes, h: nat, i: nat)
    requires Linked(nd, ns) && i < |ns| && Heights(nd, ns)[i] > h
    ensures Chain(nd, ns[i], h, Level(ns, Heights(nd, ns), h, i + 1))
    decreases |ns| - i
  {
    var hs := Heights(nd, ns);
    var j := NextAt(hs, i + 1, h);
    FollowLink(nd, ns, i, h);
    LevelFromNext(ns, hs, h, i + 1);
    if j < |ns| {
      LevelChain(nd, ns, h, j);
      var l := Level(ns, hs, h, j);
      assert l == [ns[j]] + Level(ns, hs, h, j + 1) && l[1..] == Level(ns, hs, h, j + 1);
    }
  }

  /** `a` is `b` with elements left out. */
  ghost predicate Sublist(a: seq<int>, b: seq<int>) {
    a == [] || (b != [] && ((a[0] == b[0] && Sublist(a[1..], b[1..])) || Sublist(a, b[1..])))
  }

  /** Each level is a sublist of the one below; the lowest holds every node. */
  lemma {:induction false} LevelsNest(ns: Nodes, hs: seq<int>, h: int, i: nat)
    requires |ns| == |hs| && i <= |hs|
    ensures Sublist(Level(ns, hs, h + 1, i), Level(ns, hs, h, i))
    ensures (forall k :: i <= k < |hs| ==> hs[k] > h) ==> Level(ns, hs, h, i) == ns[i..]
    decreases |hs| - i
  {
    if i < |hs| {
      LevelsNest(ns, hs, h, i + 1);
      var a, b := Level(ns, hs, h + 1, i + 1), Level(ns, hs, h, i + 1);
      assert ([ns[i]] + a)[1..] == a && ([ns[i]] + b)[1..] == b;
    }
  }
}
