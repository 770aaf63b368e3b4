/**
 Deletion from the resolved trie (state/immutable-trie/trie.go, delete). A short node whose key
 matches only in part still sends the search into its child, so the search can go on misaligned.
 */
module PatriciaDelete {
  import opened Nibbles
  import opened Rlp
  import opened Options
  import opened PatriciaTree

  /** What may meet in delete: a search left over at a value is possible after a partial match. */
  ghost predicate MayMeet(t: Tree, s: Hex) {
    if s == [] then t.Nil? || (t.Leaf? && t.val != EMPTY)
    else Terminated(s) && (Canonical(t) || (t.Leaf? && t.val != EMPTY))
  }

  /** The first non-nil edge among the children from `i` on, or 16. */
  function FirstEdge(kids: seq<Tree>, i: nat): (e: nat)
    requires |kids| == 17 && i <= 16
    ensures i <= e <= 16 && (e < 16 ==> !kids[e].Nil?)
    ensures forall j :: i <= j < e ==> kids[j].Nil?
    decreases 16 - i
  {
    if i == 16 || !kids[i].Nil? then i else FirstEdge(kids, i + 1)
  }

  /** A full node whose edge `i` is the only one left, as a short node. */
  function Graft(i: int, e: Tree): (t: Tree) {
    if e.Short? then Short([i] + e.key, e.child) else Short([i], e)
  }

  /** What becomes of a full node's edges after one of them was deleted. */
  function Collapse(kids: seq<Tree>): (t: Tree)
    requires |kids| == 17
  {
    var e := FirstEdge(kids, 0);
    if e == 16 then
      if kids[16].Nil? then Nil else Short([16], kids[16])
    else if FirstEdge(kids, e + 1) < 16 || !kids[16].Nil? then Full(kids)
    else Graft(e, kids[e])
  }

  /** A short node over what a deletion left of its child. */
  function Rejoin(k: Hex, c: Tree): (t: Tree) {
    if c.Nil? then Nil else if c.Short? then Short(k + c.key, c.child) else Short(k, c)
  }

  /** None: nothing was found to delete. */
  function Delete(t: Tree, s: Hex): (r: Option<Tree>)
    requires MayMeet(t, s)
  {
    match t
    case Nil => None
    case Leaf(_) => if s == [] then Some(Nil) else None
    case Short(k, c) =>
      var p := PrefixLen(s, k);
      if p == |s| then Some(Nil)
      else if p == 0 then None
      else
        TerminatedSuffix(s, p);
        var d := Delete(c, s[p..]);
        if d.None? then None else Some(Rejoin(k, d.value))
    case Full(kids) =>
      MeetBelowFull(t, s);
      var d := Delete(kids[s[0]], s[1..]);
      if d.None? then None else Some(Collapse(kids[s[0] := d.value]))
  }

  lemma MeetBelowFull(t: Tree, s: Hex)
    requires MayMeet(t, s) && t.Full?
    ensures 0 <= s[0] < 17 && MayMeet(t.kids[s[0]], s[1..])
  {
    TerminatedSuffix(s, 0);
    if |s| > 1 {
      TerminatedSuffix(s, 1);
    }
  }

  // Every successful deletion keeps the canonical form, aligned or not.

  /** Edges as a deletion leaves them: canonical, and at least one. */
  ghost predicate LeftEdges(kids: seq<Tree>) {
    && |kids| == 17
    && (kids[16].Nil? || (kids[16].Leaf? && kids[16].val != EMPTY))
    && (forall i :: 0 <= i < 16 ==> Canonical(kids[i]))
    && exists i :: 0 <= i < 17 && !kids[i].Nil?
  }

  lemma CollapseKeepsForm(kids: seq<Tree>)
    requires LeftEdges(kids)
    ensures Proper(Collapse(kids))
  {
    var e := FirstEdge(kids, 0);
    if e < 16 {
      var f := FirstEdge(kids, e + 1);
      if f < 16 || !kids[16].Nil? {
        assert TwoEdges(kids) by {
          assert !kids[e].Nil?;
          if f < 16 { assert !kids[f].Nil?; }
        }
      } else {
        GraftIsProper(e, kids[e]);
      }
    } else {
      assert IsHex([16]);
    }
  }

  lemma GraftIsProper(i: int, e: Tree)
    requires 0 <= i < 16 && Proper(e)
    ensures Proper(Graft(i, e))
  {
    if e.Short? {
      JoinedKey([i], e.key);
    }
  }

  lemma JoinedKey(a: Hex, b: Hex)
    requires AllNibbles(a) && IsHex(b) && |b| > 0
    ensures IsHex(a + b) && HasTerminator(a + b) == HasTerminator(b)
  {
  }

  lemma {:induction false} DeleteKeepsForm(t: Tree, s: Hex)
    requires MayMeet(t, s) && s != [] && Proper(t) && Delete(t, s).Some?
    ensures Canonical(Delete(t, s).value)
    ensures t.Full? ==> Proper(Delete(t, s).value)
  {
    match t
    case Short(k, c) =>
      var p := PrefixLen(s, k);
      if p < |s| {
        TerminatedSuffix(s, p);
        DeleteKeepsForm(c, s[p..]);
        var d := Delete(c, s[p..]).value;
        if d.Short? {
          JoinedKey(k, d.key);
        }
      }
    case Full(kids) =>
      MeetBelowFull(t, s);
      if s[1..] != [] {
        DeleteKeepsForm(kids[s[0]], s[1..]);
      }
      EdgesLeft(t, s);
      CollapseKeepsForm(kids[s[0] := Delete(kids[s[0]], s[1..]).value]);
  }

  lemma EdgesLeft(t: Tree, s: Hex)
    requires MayMeet(t, s) && t.Full? && 0 <= s[0] < 17 && MayMeet(t.kids[s[0]], s[1..])
    requires Delete(t.kids[s[0]], s[1..]).Some?
    requires s[1..] != [] ==> Canonical(Delete(t.kids[s[0]], s[1..]).value)
    ensures LeftEdges(t.kids[s[0] := Delete(t.kids[s[0]], s[1..]).value])
  {
    var kids := t.kids;
    TerminatedSuffix(s, 0);
    var i, j :| 0 <= i < j < 17 && !kids[i].Nil? && !kids[j].Nil?;
    var kids' := kids[s[0] := Delete(kids[s[0]], s[1..]).value];
    assert kids'[if i == s[0] then j else i] == kids[if i == s[0] then j else i];
  }

  // A misaligned search finds nothing, as long as it is longer than every key below.

  /** No key in `t` is longer than `n`. */
  ghost predicate KeysAtMost(t: Tree, n: int) {
    match t
    case Nil => true
    case Leaf(_) => 0 <= n
    case Short(k, c) => KeysAtMost(c, n - |k|)
    case Full(kids) => forall i :: 0 <= i < |kids| ==> KeysAtMost(kids[i], n - 1)
  }

  lemma {:induction false} MisalignedFails(t: Tree, s: Hex, n: int)
    requires MayMeet(t, s) && KeysAtMost(t, n) && n < |s|
    ensures Delete(t, s).None?
  {
    match t
    case Nil =>
    case Leaf(_) =>
    case Short(k, c) =>
      var p := PrefixLen(s, k);
      SpentKeys(t, n);
      if 0 < p < |s| {
        TerminatedSuffix(s, p);
        MisalignedFails(c, s[p..], n - |k|);
      }
    case Full(kids) =>
      MeetBelowFull(t, s);
      MisalignedFails(kids[s[0]], s[1..], n - 1);
  }

  /** A non-nil tree has some key, so the bound leaves room for every part of its path. */
  lemma {:induction false} SpentKeys(t: Tree, n: int)
    requires Proper(t) && KeysAtMost(t, n)
    ensures 0 < n && (t.Short? ==> |t.key| <= n)
  {
    match t
    case Short(k, c) =>
      if c.Full? { SpentKeys(c, n - |k|); }
    case Full(kids) =>
      var i, j :| 0 <= i < j < 17 && !kids[i].Nil? && !kids[j].Nil?;
      if i < 16 { SpentKeys(kids[i], n - 1); }
  }

  // What a deletion does to the map.

  /** Looking `q` up below the key `k`. */
  ghost function LookupUnder(k: Hex, d: Tree, q: Hex): (r: Option<Buf>)
    requires Terminated(q) && Canonical(d)
  {
    if |k| < |q| && q[..|k|] == k then TerminatedSuffix(q, |k|); Lookup(d, q[|k|..]) else None
  }

  /** Joining two short keys looks up as following one after the other. */
  lemma LookupJoined(k: Hex, d: Tree, q: Hex)
    requires Terminated(q) && AllNibbles(k) && |k| > 0 && d.Short? && Proper(d)
    ensures Proper(Short(k + d.key, d.child)) && Lookup(Short(k + d.key, d.child), q) == LookupUnder(k, d, q)
  {
    JoinedKey(k, d.key);
    var j := k + d.key;
    assert j[..|k|] == k && j[|k|..] == d.key;
    if |k| <= |q| {
      PrefixAgrees(j, q, |k|);
      if q[..|k|] == k {
        CutPrefix(j, q, |k|);
        if |j| <= |q| {
          assert q[|k|..][|d.key|..] == q[|j|..];
        }
      }
    }
  }

  lemma LookupRejoined(k: Hex, d: Tree, q: Hex)
    requires Terminated(q) && AllNibbles(k) && |k| > 0 && Proper(d)
    ensures Proper(Rejoin(k, d)) && Lookup(Rejoin(k, d), q) == LookupUnder(k, d, q)
  {
    if d.Short? {
      LookupJoined(k, d, q);
    } else {
      assert |k| == |q| ==> q != k by { assert Terminated(q); }
      assert |k| == |q| ==> q[..|k|] == q;
    }
  }

  lemma LookupGrafted(i: int, e: Tree, q: Hex)
    requires Terminated(q) && 0 <= i < 16 && Proper(e)
    ensures Proper(Graft(i, e)) && Lookup(Graft(i, e), q) == LookupUnder([i], e, q)
  {
    LookupRejoined([i], e, q);
  }

  /** Collapsing a full node's edges does not change what they answer. */
  lemma LookupCollapsed(kids: seq<Tree>, q: Hex)
    requires LeftEdges(kids) && Terminated(q)
    ensures 0 <= q[0] < 17 && Fits(kids[q[0]], q[1..])
    ensures Fits(Collapse(kids), q) && Lookup(Collapse(kids), q) == Lookup(kids[q[0]], q[1..])
  {
    CollapseKeepsForm(kids);
    TerminatedSuffix(q, 0);
    if |q| > 1 {
      TerminatedSuffix(q, 1);
    }
    var e := FirstEdge(kids, 0);
    if e == 16 {
      assert q[..1] == [16] <==> q[0] == 16;
    } else if FirstEdge(kids, e + 1) == 16 && kids[16].Nil? {
      LookupGrafted(e, kids[e], q);
      assert q[..1] == [e] <==> q[0] == e;
    }
  }

  /** No key in `t` is longer than the search; or the search is the empty key, which never goes astray. */
  ghost predicate InReach(t: Tree, s: Hex) {
    |s| == 1 || KeysAtMost(t, |s|)
  }

  /** The answer at `q` after deleting `s` from `t`. */
  ghost predicate DeletedAt(t: Tree, s: Hex, q: Hex)
    requires Fits(t, s) && Fits(t, q) && s != [] && q != []
  {
    MeetsWhereFits(t, s);
    var d := Delete(t, s);
    && (d.None? <==> Lookup(t, s).None?)
    && (d.Some? ==> Fits(d.value, q) && Lookup(d.value, q) == if q == s then None else Lookup(t, q))
  }

  lemma MeetsWhereFits(t: Tree, s: Hex)
    requires Fits(t, s)
    ensures MayMeet(t, s)
  {
  }

  lemma {:induction false} DeleteExactBelow(t: Tree, s: Hex, q: Hex)
    requires Proper(t) && Terminated(s) && Terminated(q) && InReach(t, s)
    ensures DeletedAt(t, s, q)
    decreases t, 3
  {
    match t
    case Short(k, c) => DeleteExactShort(t, s, q);
    case Full(kids) => DeleteExactFull(t, s, q);
  }

  lemma {:induction false} DeleteExactShort(t: Tree, s: Hex, q: Hex)
    requires Proper(t) && t.Short? && Terminated(s) && Terminated(q) && InReach(t, s)
    ensures DeletedAt(t, s, q)
    decreases t, 2
  {
    var k, c, p := t.key, t.child, PrefixLen(s, t.key);
    if p == |s| {
      PrefixFree(s, k);
      assert s[..|s|] == s && s[|s|..] == [];
      PrefixAgrees(k, q, if |q| < |k| then |q| else |k|);
      if |k| <= |q| && q[..|k|] == k {
        PrefixFree(k, q);
      }
    } else {
      TerminatedSuffix(s, p);
      if p < |k| && p > 0 {
        MisalignedFails(c, s[p..], |s| - |k|);
        PrefixAgrees(k, s, p);
      } else if p < |k| {
        PrefixAgrees(k, s, p);
      } else if c.Full? {
        DeleteExactAligned(t, s, q);
      }
    }
  }

  lemma {:induction false} DeleteExactAligned(t: Tree, s: Hex, q: Hex)
    requires Proper(t) && t.Short? && Terminated(s) && Terminated(q) && KeysAtMost(t, |s|)
    requires PrefixLen(s, t.key) == |t.key| < |s| && t.child.Full?
    ensures DeletedAt(t, s, q)
    decreases t, 1
  {
    var k, c, p := t.key, t.child, |t.key|;
    TerminatedSuffix(s, p);
    assert s == k + s[p..];
    DeleteExactBelow(c, s[p..], s[p..]);
    if Delete(c, s[p..]).Some? {
      DeleteKeepsForm(c, s[p..]);
      LookupRejoined(k, Delete(c, s[p..]).value, q);
      if p < |q| && q[..p] == k {
        assert q == k + q[p..];
        TerminatedSuffix(q, p);
        DeleteExactBelow(c, s[p..], q[p..]);
      } else {
        assert p == |q| ==> q[..p] == q;
        assert Terminated(q) && AllNibbles(k);
      }
    }
  }

  lemma {:induction false} DeleteExactFull(t: Tree, s: Hex, q: Hex)
    requires Proper(t) && t.Full? && Terminated(s) && Terminated(q) && InReach(t, s)
    ensures DeletedAt(t, s, q)
    decreases t, 2
  {
    var kids := t.kids;
    FitsBelowFull(t, s);
    FitsBelowFull(t, q);
    var e := kids[s[0]];
    MeetsWhereFits(e, s[1..]);
    assert s == [s[0]] + s[1..] && q == [q[0]] + q[1..];
    if s[1..] != [] && !e.Nil? {
      DeleteExactBelow(e, s[1..], if s[0] == q[0] then q[1..] else s[1..]);
    }
    if Delete(e, s[1..]).Some? {
      if s[1..] != [] {
        DeleteKeepsForm(e, s[1..]);
      }
      EdgesLeft(t, s);
      LookupCollapsed(kids[s[0] := Delete(e, s[1..]).value], q);
    }
  }

  /**
   Deletion is exact whenever no stored key is longer than the deleted one: it fails exactly when
   the key is absent, and otherwise removes that key and nothing else.
   */
  lemma DeleteExact(t: Tree, s: Hex)
    requires Canonical(t) && Terminated(s) && InReach(t, s)
    ensures MayMeet(t, s)
    ensures Delete(t, s).None? <==> Lookup(t, s).None?
    ensures Delete(t, s).Some? ==> Canonical(Delete(t, s).value)
    ensures Delete(t, s).Some? ==> forall q :: Terminated(q) ==>
      Lookup(Delete(t, s).value, q) == if q == s then None else Lookup(t, q)
  {
    if !t.Nil? {
      DeleteExactBelow(t, s, s);
      if Delete(t, s).Some? {
        DeleteKeepsForm(t, s);
        forall q | Terminated(q)
          ensures Lookup(Delete(t, s).value, q) == if q == s then None else Lookup(t, q)
        {
          DeleteExactBelow(t, s, q);
        }
      }
    }
  }
}
