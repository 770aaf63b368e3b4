/**
 The trie with every hash reference resolved (state/immutable-trie/trie.go): lookup and
 insert as functions on values, and what they do to the map the trie stands for.
 */
module PatriciaTree {
  import opened Nibbles
  import opened Rlp
  import opened Options

  /** `Full` keeps its 16 children and, at index 16, its value. */
  datatype Tree = Nil | Leaf(val: Buf) | Short(key: Hex, child: Tree) | Full(kids: seq<Tree>)

  function NoKids(): (kids: seq<Tree>)
    ensures |kids| == 17 && forall i :: 0 <= i < 17 ==> kids[i].Nil?
  {
    seq(17, _ => Nil)
  }

  ghost predicate TwoEdges(kids: seq<Tree>) {
    exists i, j :: 0 <= i < j < |kids| && !kids[i].Nil? && !kids[j].Nil?
  }

  /**
   A proper inner position of the canonical form: no short node under a short node, at least two
   edges per full node, values exactly behind terminators.
   */
  ghost predicate Proper(t: Tree) {
    match t
    case Nil => false
    case Leaf(_) => false
    case Short(k, c) =>
      && |k| > 0 && IsHex(k)
      && (if HasTerminator(k) then c.Leaf? && c.val != EMPTY else c.Full? && Proper(c))
    case Full(kids) =>
      && |kids| == 17 && TwoEdges(kids)
      && (kids[16].Nil? || (kids[16].Leaf? && kids[16].val != EMPTY))
      && forall i :: 0 <= i < 16 ==> kids[i].Nil? || Proper(kids[i])
  }

  /** A whole trie, or an edge of a full node other than its value. */
  ghost predicate Canonical(t: Tree) {
    t.Nil? || Proper(t)
  }

  /** `s` is what is left of a search when it reaches `t`: nothing is left exactly at a value edge. */
  ghost predicate Fits(t: Tree, s: Hex) {
    if s == [] then t.Nil? || (t.Leaf? && t.val != EMPTY) else Terminated(s) && Canonical(t)
  }

  function Lookup(t: Tree, s: Hex): (r: Option<Buf>)
    requires Fits(t, s)
  {
    match t
    case Nil => None
    case Leaf(v) => Some(v)
    case Short(k, c) =>
      if |k| <= |s| && s[..|k|] == k then
        FitsBelowShort(t, s);
        Lookup(c, s[|k|..])
      else None
    case Full(kids) =>
      FitsBelowFull(t, s);
      Lookup(kids[s[0]], s[1..])
  }

  lemma TerminatedSuffix(s: Hex, n: nat)
    requires Terminated(s) && n < |s|
    ensures Terminated(s[n..])
    ensures s[n] == 16 ==> n == |s| - 1
  {
  }

  lemma FitsBelowShort(t: Tree, s: Hex)
    requires Fits(t, s) && t.Short? && |t.key| <= |s| && s[..|t.key|] == t.key
    ensures Fits(t.child, s[|t.key|..])
  {
    var n := |t.key|;
    assert s[n - 1] == t.key[n - 1];
  }

  lemma FitsBelowFull(t: Tree, s: Hex)
    requires Fits(t, s) && t.Full?
    ensures 0 <= s[0] < 17 && Fits(t.kids[s[0]], s[1..])
  {
  }

  /** The branch introduced where a search leaves a short node's key. */
  function Branch(k: Hex, p: nat, c: Tree): (b: Tree)
    requires p < |k| && 0 <= k[p] < 17
  {
    Full(NoKids()[k[p] := if |k| > p + 1 then Short(k[p + 1..], c) else c])
  }

  function Insert(t: Tree, s: Hex, v: Buf): (r: Tree)
    requires Fits(t, s)
    decreases |s|, t
  {
    match t
    case Nil => if s == [] then Leaf(v) else Short(s, Leaf(v))
    case Leaf(_) => Leaf(v)
    case Short(k, c) =>
      var p := PrefixLen(s, k);
      if p == |k| then
        FitsBelowShort(t, s);
        Short(k, Insert(c, s[p..], v))
      else
        SplitEdges(t, s);
        var kids := Branch(k, p, c).kids;
        var b := Full(kids[s[p] := Insert(kids[s[p]], s[p + 1..], v)]);
        if p == 0 then b else Short(s[..p], b)
    case Full(kids) =>
      FitsBelowFull(t, s);
      Full(kids[s[0] := Insert(kids[s[0]], s[1..], v)])
  }

  /** A terminated search that stops matching inside a hex key leaves it before its own end. */
  lemma LeavesKey(s: Hex, k: Hex, p: nat)
    requires Terminated(s) && IsHex(k) && p < |k| && p <= |s| && s[..p] == k[..p]
    requires p < |s| ==> s[p] != k[p]
    ensures p < |s| && 0 <= s[p] < 17 && 0 <= k[p] < 17
    ensures AllNibbles(s[..p])
  {
    if p == |s| {
      assert s == s[..p];
      PrefixFree(s, k);
    }
  }

  /** Where a search leaves a short node's key, both sides still have an edge, and the edges differ. */
  lemma SplitEdges(t: Tree, s: Hex)
    requires Fits(t, s) && t.Short? && PrefixLen(s, t.key) < |t.key|
    ensures var p := PrefixLen(s, t.key);
      && p < |s| && 0 <= s[p] < 17 && 0 <= t.key[p] < 17 && s[p] != t.key[p]
      && Fits(Nil, s[p + 1..])
      && AllNibbles(s[..p])
  {
    var p := PrefixLen(s, t.key);
    LeavesKey(s, t.key, p);
    if p + 1 < |s| {
      TerminatedSuffix(s, p + 1);
    }
  }

  // Insert keeps the canonical form.

  lemma {:induction false} InsertKeepsForm(t: Tree, s: Hex, v: Buf)
    requires Fits(t, s) && v != EMPTY
    ensures Fits(Insert(t, s, v), s) && !Insert(t, s, v).Nil?
    ensures t.Full? ==> Insert(t, s, v).Full?
    decreases |s|, t
  {
    match t
    case Nil =>
    case Leaf(_) =>
    case Short(k, c) =>
      var p := PrefixLen(s, k);
      if p == |k| {
        FitsBelowShort(t, s);
        InsertKeepsForm(c, s[p..], v);
      } else {
        InsertKeepsFormSplit(t, s, v);
      }
    case Full(kids) =>
      FitsBelowFull(t, s);
      InsertKeepsForm(kids[s[0]], s[1..], v);
      var i, j :| 0 <= i < j < 17 && !kids[i].Nil? && !kids[j].Nil?;
      var kids' := kids[s[0] := Insert(kids[s[0]], s[1..], v)];
      assert !kids'[i].Nil? && !kids'[j].Nil?;
  }

  lemma BranchEdge(t: Tree, p: nat)
    requires Proper(t) && t.Short? && p < |t.key| && 0 <= t.key[p] < 17
    ensures var e := Branch(t.key, p, t.child).kids[t.key[p]];
      if t.key[p] == 16 then e.Leaf? && e.val != EMPTY else Proper(e)
  {
    var k := t.key;
  }

  lemma BranchIsProper(kids: seq<Tree>, i: int, j: int)
    requires |kids| == 17 && 0 <= i < 17 && 0 <= j < 17 && i != j
    requires forall e :: 0 <= e < 17 && e != i && e != j ==> kids[e].Nil?
    requires forall e :: e in {i, j} ==>
      if e == 16 then kids[e].Leaf? && kids[e].val != EMPTY else Proper(kids[e])
    ensures Proper(Full(kids))
  {
    assert i in {i, j} && j in {i, j};
    assert !kids[i].Nil? && !kids[j].Nil?;
    assert TwoEdges(kids) by {
      if j < i { assert !kids[i].Nil?; }
    }
  }

  /** The edge that an insertion adds to a new branch. */
  lemma NewEdge(s: Hex, p: nat, v: Buf)
    requires Terminated(s) && p < |s| && v != EMPTY
    ensures Fits(Nil, s[p + 1..])
    ensures var e := Insert(Nil, s[p + 1..], v);
      if s[p] == 16 then e.Leaf? && e.val != EMPTY else Proper(e)
  {
    TerminatedSuffix(s, p);
    if p + 1 < |s| {
      TerminatedSuffix(s, p + 1);
    }
  }

  lemma InsertKeepsFormSplit(t: Tree, s: Hex, v: Buf)
    requires Fits(t, s) && v != EMPTY && t.Short? && PrefixLen(s, t.key) < |t.key|
    ensures Proper(Insert(t, s, v))
  {
    var k, p := t.key, PrefixLen(s, t.key);
    SplitEdges(t, s);
    BranchEdge(t, p);
    NewEdge(s, p, v);
    var kids := Branch(k, p, t.child).kids;
    assert kids[s[p]] == Nil;
    var b := Full(kids[s[p] := Insert(Nil, s[p + 1..], v)]);
    BranchIsProper(b.kids, k[p], s[p]);
    assert Insert(t, s, v) == if p == 0 then b else Short(s[..p], b);
    assert p > 0 ==> !HasTerminator(s[..p]);
  }

  // Insert is a map update.

  lemma {:induction false} LookupInserted(t: Tree, s: Hex, v: Buf)
    requires Fits(t, s) && v != EMPTY
    ensures Fits(Insert(t, s, v), s) && Lookup(Insert(t, s, v), s) == Some(v)
    decreases |s|, t, 1
  {
    InsertKeepsForm(t, s, v);
    match t
    case Nil =>
      assert s[..|s|] == s && s[|s|..] == [];
    case Leaf(_) =>
    case Short(k, c) =>
      var p := PrefixLen(s, k);
      if p == |k| {
        FitsBelowShort(t, s);
        LookupInserted(c, s[p..], v);
      } else {
        LookupInsertedSplit(t, s, v);
      }
    case Full(kids) =>
      FitsBelowFull(t, s);
      LookupInserted(kids[s[0]], s[1..], v);
  }

  lemma LookupInsertedSplit(t: Tree, s: Hex, v: Buf)
    requires Fits(t, s) && v != EMPTY && t.Short? && PrefixLen(s, t.key) < |t.key|
    ensures Fits(Insert(t, s, v), s) && Lookup(Insert(t, s, v), s) == Some(v)
    decreases |s|, t, 0
  {
    var p := PrefixLen(s, t.key);
    InsertKeepsFormSplit(t, s, v);
    SplitEdges(t, s);
    LookupInserted(Nil, s[p + 1..], v);
    var r := Insert(t, s, v);
    assert s[p..][0] == s[p] && s[p..][1..] == s[p + 1..] && s[0..] == s;
    TerminatedSuffix(s, p);
    var b := if p == 0 then r else r.child;
    assert Lookup(b, s[p..]) == Some(v);
  }

  lemma {:induction false} LookupOther(t: Tree, s: Hex, v: Buf, q: Hex)
    requires Terminated(s) && Terminated(q) && q != s && v != EMPTY && Canonical(t)
    ensures Fits(Insert(t, s, v), q) && Lookup(Insert(t, s, v), q) == Lookup(t, q)
    decreases |s|, t, 1
  {
    if t.Nil? {
      LookupOtherNil(s, v, q);
    } else if t.Full? {
      LookupOtherFull(t, s, v, q);
    } else if PrefixLen(s, t.key) < |t.key| {
      LookupOtherSplit(t, s, v, q);
    } else {
      LookupOtherShort(t, s, v, q);
    }
  }

  lemma {:induction false} LookupOtherShort(t: Tree, s: Hex, v: Buf, q: Hex)
    requires Terminated(s) && Terminated(q) && q != s && v != EMPTY && Proper(t)
    requires t.Short? && PrefixLen(s, t.key) == |t.key|
    ensures Fits(Insert(t, s, v), q) && Lookup(Insert(t, s, v), q) == Lookup(t, q)
    decreases |s|, t, 0
  {
    var k := t.key;
    InsertKeepsForm(t, s, v);
    FitsBelowShort(t, s);
    if |k| <= |q| && q[..|k|] == k {
      FitsBelowShort(t, q);
      assert s == k + s[|k|..] && q == k + q[|k|..];
      if s[|k|..] != [] {
        LookupOther(t.child, s[|k|..], v, q[|k|..]);
      }
    }
  }

  lemma {:induction false} LookupOtherFull(t: Tree, s: Hex, v: Buf, q: Hex)
    requires Terminated(s) && Terminated(q) && q != s && v != EMPTY && Proper(t) && t.Full?
    ensures Fits(Insert(t, s, v), q) && Lookup(Insert(t, s, v), q) == Lookup(t, q)
    decreases |s|, t, 0
  {
    InsertKeepsForm(t, s, v);
    FitsBelowFull(t, s);
    FitsBelowFull(t, q);
    FitsBelowFull(Insert(t, s, v), q);
    if s[0] == q[0] {
      assert s == [s[0]] + s[1..] && q == [q[0]] + q[1..];
      if s[1..] != [] {
        LookupOther(t.kids[s[0]], s[1..], v, q[1..]);
      }
    }
  }

  lemma LookupOtherNil(s: Hex, v: Buf, q: Hex)
    requires Terminated(s) && Terminated(q) && q != s && v != EMPTY
    ensures Fits(Insert(Nil, s, v), q) && Lookup(Insert(Nil, s, v), q) == None
  {
    if |s| <= |q| && q[..|s|] == s {
      PrefixFree(s, q);
    }
  }

  /** Looking up through a branch cut out of a short node is looking up through the short node. */
  lemma LookupCutEdge(t: Tree, p: nat, q: Hex)
    requires Fits(t, q) && t.Short? && q != [] && p < |t.key| && p < |q| && q[..p] == t.key[..p]
    requires 0 <= t.key[p] < 17 && q[p] == t.key[p]
    ensures var e := Branch(t.key, p, t.child).kids[t.key[p]];
      Fits(e, q[p + 1..]) && Lookup(e, q[p + 1..]) == Lookup(t, q)
  {
    var k := t.key;
    BranchEdge(t, p);
    var e := Branch(k, p, t.child).kids[k[p]];
    assert Fits(e, q[p + 1..]);
    assert q[..p + 1] == k[..p + 1];
    if |k| > p + 1 {
      CutPrefix(k, q, p + 1);
      if |k| <= |q| {
        assert q[p + 1..][|k| - p - 1..] == q[|k|..];
      }
    }
  }

  lemma CutPrefix(k: Hex, q: Hex, n: nat)
    requires n <= |k| && n <= |q| && q[..n] == k[..n]
    ensures (|k| <= |q| && q[..|k|] == k) <==> (|k| - n <= |q| - n && q[n..][..|k| - n] == k[n..])
  {
    if |k| <= |q| {
      assert q[..|k|] == q[..n] + q[n..][..|k| - n];
      assert k == k[..n] + k[n..];
    }
  }

  lemma PrefixAgrees(k: Hex, q: Hex, p: nat)
    requires p <= |k| && p <= |q|
    ensures |k| <= |q| && q[..|k|] == k ==> q[..p] == k[..p] && (p < |k| ==> p < |q| && q[p] == k[p])
  {
    if |k| <= |q| && q[..|k|] == k {
      assert q[..p] == q[..|k|][..p];
      assert p < |k| ==> q[..|k|][p] == q[p];
    }
  }

  /** Looking up `q` in the branch that `s` opened at position `p` of the short node `t`. */
  lemma LookupOtherBranch(t: Tree, p: nat, s: Hex, v: Buf, q: Hex, b: Tree)
    requires Proper(t) && t.Short? && p < |t.key| && 0 <= t.key[p] < 17
    requires p < |s| && 0 <= s[p] < 17 && s[p] != t.key[p] && Fits(Nil, s[p + 1..]) && v != EMPTY
    requires Terminated(q) && q != s && p < |q| && q[..p] == t.key[..p] == s[..p]
    requires b == Full(Branch(t.key, p, t.child).kids[s[p] := Insert(Nil, s[p + 1..], v)]) && Fits(b, q[p..])
    ensures Lookup(b, q[p..]) == Lookup(t, q)
  {
    FitsBelowFull(b, q[p..]);
    assert q[p..][0] == q[p] && q[p..][1..] == q[p + 1..];
    if q[p] == t.key[p] {
      LookupCutEdge(t, p, q);
    } else {
      PrefixAgrees(t.key, q, p);
      assert Lookup(t, q) == None;
      if q[p] == s[p] {
        assert s == s[..p] + [s[p]] + s[p + 1..] && q == q[..p] + [q[p]] + q[p + 1..];
        if s[p + 1..] != [] {
          LookupOtherNil(s[p + 1..], v, q[p + 1..]);
        }
      }
    }
  }

  lemma LookupOtherSplit(t: Tree, s: Hex, v: Buf, q: Hex)
    requires Fits(t, s) && v != EMPTY && Fits(t, q) && q != s && s != [] && q != []
    requires t.Short? && PrefixLen(s, t.key) < |t.key|
    ensures Fits(Insert(t, s, v), q) && Lookup(Insert(t, s, v), q) == Lookup(t, q)
  {
    var k, p := t.key, PrefixLen(s, t.key);
    InsertKeepsForm(t, s, v);
    SplitEdges(t, s);
    var r := Insert(t, s, v);
    var b := if p == 0 then r else r.child;
    if p < |q| && q[..p] == k[..p] {
      assert q[0..] == q;
      TerminatedSuffix(q, p);
      LookupOtherBranch(t, p, s, v, q, b);
    } else if p <= |q| {
      PrefixAgrees(k, q, p);
      assert p == |q| ==> q != s[..p] by {
        assert Terminated(q) && AllNibbles(s[..p]);
      }
    }
  }
}
