/**
 The canonical form is unique per map, so the trie does not remember the order in which it was
 built; and the exact reach of delete's correctness.
 */
module PatriciaCanon {
  import opened Nibbles
  import opened Rlp
  import opened Options
  import opened PatriciaTree
  import opened PatriciaDelete

  /** A search below a prefix of nibbles. */
  lemma TerminatedJoin(k: Hex, q: Hex)
    requires AllNibbles(k) && Terminated(q)
    ensures Terminated(k + q)
  {
  }

  lemma LookupThroughShort(t: Tree, q: Hex)
    requires Proper(t) && t.Short? && t.child.Full? && Terminated(q)
    ensures Terminated(t.key + q) && Lookup(t, t.key + q) == Lookup(t.child, q)
  {
    TerminatedJoin(t.key, q);
    assert (t.key + q)[..|t.key|] == t.key && (t.key + q)[|t.key|..] == q;
  }

  lemma LookupThroughFull(t: Tree, i: int, q: Hex)
    requires Proper(t) && t.Full? && 0 <= i < 16 && Terminated(q)
    ensures Terminated([i] + q) && Lookup(t, [i] + q) == Lookup(t.kids[i], q)
  {
    TerminatedJoin([i], q);
    FitsBelowFull(t, [i] + q);
    assert ([i] + q)[1..] == q;
  }

  /** Every proper tree holds a key. */
  lemma {:induction false} SomeKey(t: Tree) returns (q: Hex)
    requires Proper(t)
    ensures Terminated(q) && Lookup(t, q).Some?
    decreases t, 1
  {
    match t
    case Short(k, c) =>
      if HasTerminator(k) {
        q := k;
        assert k[..|k|] == k && k[|k|..] == [];
      } else {
        var q' := SomeKey(c);
        LookupThroughShort(t, q');
        q := k + q';
      }
    case Full(kids) =>
      var i, j :| 0 <= i < j < 17 && !kids[i].Nil? && !kids[j].Nil?;
      q := SomeKeyAt(t, i);
  }

  /** Every non-nil edge of a full node holds a key. */
  lemma {:induction false} SomeKeyAt(t: Tree, i: int) returns (q: Hex)
    requires Proper(t) && t.Full? && 0 <= i < 17 && !t.kids[i].Nil?
    ensures Terminated(q) && q[0] == i && Lookup(t, q).Some?
    decreases t, 0
  {
    if i == 16 {
      q := [16];
      FitsBelowFull(t, q);
    } else {
      var q' := SomeKey(t.kids[i]);
      LookupThroughFull(t, i, q');
      q := [i] + q';
    }
  }

  /** A key of a full node that does not start with `e`. */
  lemma KeyAvoiding(t: Tree, e: int) returns (q: Hex)
    requires Proper(t) && t.Full?
    ensures Terminated(q) && q[0] != e && Lookup(t, q).Some?
  {
    var i, j :| 0 <= i < j < 17 && !t.kids[i].Nil? && !t.kids[j].Nil?;
    q := SomeKeyAt(t, if i == e then j else i);
  }

  lemma LookupNeedsPrefix(t: Tree, q: Hex)
    requires Proper(t) && t.Short? && Terminated(q) && Lookup(t, q).Some?
    ensures |t.key| <= |q| && q[..|t.key|] == t.key
  {
  }

  lemma ShortFullDiffer(a: Tree, b: Tree) returns (q: Hex)
    requires Proper(a) && a.Short? && Proper(b) && b.Full?
    ensures Terminated(q) && Lookup(a, q).None? && Lookup(b, q).Some?
  {
    q := KeyAvoiding(b, a.key[0]);
    PrefixAgrees(a.key, q, 0);
  }

  /** The key of `a` leaves the key of `b`, or is a proper prefix of it. */
  lemma ShortKeysDiffer(a: Tree, b: Tree) returns (q: Hex)
    requires Proper(a) && a.Short? && Proper(b) && b.Short? && PrefixLen(a.key, b.key) < |b.key|
    ensures Terminated(q) && Lookup(a, q).Some? && Lookup(b, q).None?
  {
    var p := PrefixLen(a.key, b.key);
    if p == |a.key| {
      if HasTerminator(a.key) {
        PrefixFree(a.key, b.key);
      }
      var q' := KeyAvoiding(a.child, b.key[p]);
      LookupThroughShort(a, q');
      q := a.key + q';
      assert q[p] == q'[0];
    } else {
      q := SomeKey(a);
      LookupNeedsPrefix(a, q);
      PrefixAgrees(a.key, q, p);
    }
    PrefixAgrees(b.key, q, p);
  }

  /** Different canonical tries answer differently somewhere. */
  lemma {:induction false} Distinguish(a: Tree, b: Tree) returns (q: Hex)
    requires Canonical(a) && Canonical(b) && a != b
    ensures Terminated(q) && Lookup(a, q) != Lookup(b, q)
    decreases a, 1
  {
    if a.Nil? {
      q := SomeKey(b);
    } else if b.Nil? {
      q := SomeKey(a);
    } else if a.Short? && b.Full? {
      q := ShortFullDiffer(a, b);
    } else if a.Full? && b.Short? {
      q := ShortFullDiffer(b, a);
    } else if a.Short? && PrefixLen(a.key, b.key) < |b.key| {
      q := ShortKeysDiffer(a, b);
    } else if a.Short? && |b.key| < |a.key| {
      PrefixLenUnique(b.key, a.key, |b.key|);
      q := ShortKeysDiffer(b, a);
    } else if a.Short? {
      assert a.key[..|b.key|] == a.key && b.key[..|b.key|] == b.key;
      q := DistinguishChildren(a, b);
    } else {
      q := DistinguishKids(a, b);
    }
  }

  lemma {:induction false} DistinguishChildren(a: Tree, b: Tree) returns (q: Hex)
    requires Proper(a) && a.Short? && Proper(b) && b.Short? && a.key == b.key && a != b
    ensures Terminated(q) && Lookup(a, q) != Lookup(b, q)
    decreases a, 0
  {
    if HasTerminator(a.key) {
      q := a.key;
      assert q[..|q|] == q && q[|q|..] == [];
    } else {
      var q' := Distinguish(a.child, b.child);
      LookupThroughShort(a, q');
      LookupThroughShort(b, q');
      q := a.key + q';
    }
  }

  lemma {:induction false} DistinguishKids(a: Tree, b: Tree) returns (q: Hex)
    requires Proper(a) && a.Full? && Proper(b) && b.Full? && a != b
    ensures Terminated(q) && Lookup(a, q) != Lookup(b, q)
    decreases a, 0
  {
    var i :| 0 <= i < 17 && a.kids[i] != b.kids[i];
    if i == 16 {
      q := [16];
      FitsBelowFull(a, q);
      FitsBelowFull(b, q);
    } else {
      var q' := Distinguish(a.kids[i], b.kids[i]);
      LookupThroughFull(a, i, q');
      LookupThroughFull(b, i, q');
      q := [i] + q';
    }
  }

  /** A trie whose bound on key lengths fails holds a key that breaks it. */
  lemma {:induction false} LongKey(t: Tree, n: int) returns (q: Hex)
    requires Proper(t) && !KeysAtMost(t, n)
    ensures Terminated(q) && Lookup(t, q).Some? && |q| > n
  {
    match t
    case Short(k, c) =>
      if HasTerminator(k) {
        q := k;
        assert k[..|k|] == k && k[|k|..] == [];
      } else {
        var q' := LongKey(c, n - |k|);
        LookupThroughShort(t, q');
        q := k + q';
      }
    case Full(kids) =>
      var i :| 0 <= i < 17 && !KeysAtMost(kids[i], n - 1);
      if i == 16 {
        q := [16];
        FitsBelowFull(t, q);
      } else {
        var q' := LongKey(kids[i], n - 1);
        LookupThroughFull(t, i, q');
        q := [i] + q';
      }
  }

  lemma {:induction false} StoredKeyBound(t: Tree, n: int, q: Hex)
    requires Fits(t, q) && KeysAtMost(t, n) && Lookup(t, q).Some?
    ensures |q| <= n
  {
    match t
    case Leaf(_) =>
    case Short(k, c) =>
      FitsBelowShort(t, q);
      StoredKeyBound(c, n - |k|, q[|k|..]);
    case Full(kids) =>
      FitsBelowFull(t, q);
      StoredKeyBound(kids[q[0]], n - 1, q[1..]);
  }

  /** The structural bound says exactly that no stored key is longer than `n`. */
  lemma KeysAtMostMeaning(t: Tree, n: nat)
    requires Canonical(t)
    ensures KeysAtMost(t, n) <==> forall q :: Terminated(q) && Lookup(t, q).Some? ==> |q| <= n
  {
    if !KeysAtMost(t, n) {
      var q := LongKey(t, n);
    } else {
      forall q | Terminated(q) && Lookup(t, q).Some? ensures |q| <= n {
        StoredKeyBound(t, n, q);
      }
    }
  }

  // Runs of insertions and deletions.

  datatype Op = Put(key: seq<Byte>, val: Buf) | Del(key: seq<Byte>)

  /** `t` is a canonical trie for `m`. */
  ghost predicate Models(t: Tree, m: map<Hex, Buf>) {
    && Canonical(t)
    && (forall q :: q in m ==> Terminated(q))
    && forall q :: Terminated(q) ==> Lookup(t, q) == if q in m then Some(m[q]) else None
  }

  ghost function StepMap(m: map<Hex, Buf>, op: Op): (m': map<Hex, Buf>) {
    match op
    case Put(k, v) => m[HexOf(k) := v]
    case Del(k) => m - {HexOf(k)}
  }

  ghost function RunMap(m: map<Hex, Buf>, ops: seq<Op>): (m': map<Hex, Buf>)
    decreases |ops|
  {
    if ops == [] then m else RunMap(StepMap(m, ops[0]), ops[1..])
  }

  /** The two entry points Txn.Insert and Txn.Delete; a failed deletion leaves the root alone. */
  ghost function Step(t: Tree, op: Op): (t': Tree)
    requires Canonical(t) && (op.Put? ==> op.val != EMPTY)
    ensures Canonical(t')
  {
    match op
    case Put(k, v) =>
      InsertKeepsForm(t, HexOf(k), v);
      Insert(t, HexOf(k), v)
    case Del(k) =>
      MeetsWhereFits(t, HexOf(k));
      var d := Delete(t, HexOf(k));
      if d.None? then t else DeleteKeepsForm(t, HexOf(k)); d.value
  }

  ghost predicate NonEmptyValues(ops: seq<Op>) {
    forall i :: 0 <= i < |ops| && ops[i].Put? ==> ops[i].val != EMPTY
  }

  ghost function Run(t: Tree, ops: seq<Op>): (t': Tree)
    requires Canonical(t) && NonEmptyValues(ops)
    ensures Canonical(t')
    decreases |ops|
  {
    if ops == [] then t else Run(Step(t, ops[0]), ops[1..])
  }

  /** No deletion is of a key shorter than one stored at that moment, unless of the empty key. */
  ghost predicate Aligned(m: map<Hex, Buf>, ops: seq<Op>)
    decreases |ops|
  {
    ops == [] ||
    (&& (ops[0].Del? && ops[0].key != [] ==> forall q :: q in m ==> |q| <= |HexOf(ops[0].key)|)
     && Aligned(StepMap(m, ops[0]), ops[1..]))
  }

  /** Keys of one length, such as hashes, are always aligned. */
  lemma {:induction false} EqualLengthsAligned(m: map<Hex, Buf>, ops: seq<Op>, n: nat)
    requires forall q :: q in m ==> |q| == 2 * n + 1
    requires forall i :: 0 <= i < |ops| ==> |ops[i].key| == n
    ensures Aligned(m, ops)
    decreases |ops|
  {
    if ops != [] {
      EqualLengthsAligned(StepMap(m, ops[0]), ops[1..], n);
    }
  }

  lemma StepModels(t: Tree, m: map<Hex, Buf>, op: Op)
    requires Models(t, m) && (op.Put? ==> op.val != EMPTY)
    requires op.Del? && op.key != [] ==> forall q :: q in m ==> |q| <= |HexOf(op.key)|
    ensures Models(Step(t, op), StepMap(m, op))
  {
    var s := HexOf(op.key);
    var t', m' := Step(t, op), StepMap(m, op);
    match op
    case Put(_, v) =>
      LookupInserted(t, s, v);
      forall q | Terminated(q) && q != s ensures Lookup(t', q) == Lookup(t, q) {
        LookupOther(t, s, v, q);
      }
    case Del(_) =>
      if op.key != [] {
        KeysAtMostMeaning(t, |s|);
      }
      DeleteExact(t, s);
  }

  /** Any aligned run of insertions and deletions computes its map. */
  lemma {:induction false} RunModels(t: Tree, m: map<Hex, Buf>, ops: seq<Op>)
    requires Models(t, m) && NonEmptyValues(ops) && Aligned(m, ops)
    ensures Models(Run(t, ops), RunMap(m, ops))
    decreases |ops|
  {
    if ops != [] {
      StepModels(t, m, ops[0]);
      RunModels(Step(t, ops[0]), StepMap(m, ops[0]), ops[1..]);
    }
  }

  // The same on byte-string keys.

  function StepBytes(m: map<seq<Byte>, Buf>, op: Op): (m': map<seq<Byte>, Buf>) {
    match op
    case Put(k, v) => m[k := v]
    case Del(k) => m - {k}
  }

  function RunBytes(m: map<seq<Byte>, Buf>, ops: seq<Op>): (m': map<seq<Byte>, Buf>)
    decreases |ops|
  {
    if ops == [] then m else RunBytes(StepBytes(m, ops[0]), ops[1..])
  }

  /** `h` is `m` with its keys in hex. */
  ghost predicate InHex(m: map<seq<Byte>, Buf>, h: map<Hex, Buf>) {
    && (forall k :: k in m ==> HexOf(k) in h && h[HexOf(k)] == m[k])
    && forall k :: HexOf(k) in h ==> k in m
  }

  lemma {:induction false} RunInHex(m: map<seq<Byte>, Buf>, h: map<Hex, Buf>, ops: seq<Op>)
    requires InHex(m, h)
    ensures InHex(RunBytes(m, ops), RunMap(h, ops))
    decreases |ops|
  {
    if ops != [] {
      var m', h' := StepBytes(m, ops[0]), StepMap(h, ops[0]);
      forall k ensures HexOf(k) == HexOf(ops[0].key) ==> k == ops[0].key {
        if HexOf(k) == HexOf(ops[0].key) {
          HexOfInjective(k, ops[0].key);
        }
      }
      RunInHex(m', h', ops[1..]);
    }
  }

  /** An aligned run on an empty trie answers every byte string as a map of byte strings does. */
  lemma RunAnswers(ops: seq<Op>, k: seq<Byte>)
    requires NonEmptyValues(ops) && Aligned(map[], ops)
    ensures Lookup(Run(Nil, ops), HexOf(k)) == var m := RunBytes(map[], ops); if k in m then Some(m[k]) else None
  {
    RunModels(Nil, map[], ops);
    RunInHex(map[], map[], ops);
  }

  lemma {:induction false} PutsAligned(m: map<Hex, Buf>, ops: seq<Op>)
    requires forall i :: 0 <= i < |ops| ==> ops[i].Put?
    ensures Aligned(m, ops)
    decreases |ops|
  {
    if ops != [] {
      PutsAligned(StepMap(m, ops[0]), ops[1..]);
    }
  }

  /** So does any run of insertions, of keys of any lengths. */
  lemma InsertionsAnswer(ops: seq<Op>, k: seq<Byte>)
    requires NonEmptyValues(ops) && forall i :: 0 <= i < |ops| ==> ops[i].Put?
    ensures Lookup(Run(Nil, ops), HexOf(k)) == var m := RunBytes(map[], ops); if k in m then Some(m[k]) else None
  {
    PutsAligned(map[], ops);
    RunAnswers(ops, k);
  }

  // Uniqueness.

  /** Two canonical tries that answer every terminated key alike are the same trie. */
  lemma SameAnswersSameTree(a: Tree, b: Tree)
    requires Canonical(a) && Canonical(b) && forall q :: Terminated(q) ==> Lookup(a, q) == Lookup(b, q)
    ensures a == b
  {
    if a != b {
      var q := Distinguish(a, b);
    }
  }

  /** Two canonical tries of the same map are the same trie. */
  lemma CanonicalUnique(a: Tree, b: Tree, m: map<Hex, Buf>)
    requires Models(a, m) && Models(b, m)
    ensures a == b
  {
    SameAnswersSameTree(a, b);
  }

  /** Any two aligned runs that end in the same map end in the same trie. */
  lemma HistoryIndependence(ops1: seq<Op>, ops2: seq<Op>)
    requires NonEmptyValues(ops1) && Aligned(map[], ops1)
    requires NonEmptyValues(ops2) && Aligned(map[], ops2)
    requires RunMap(map[], ops1) == RunMap(map[], ops2)
    ensures Run(Nil, ops1) == Run(Nil, ops2)
  {
    RunModels(Nil, map[], ops1);
    RunModels(Nil, map[], ops2);
    CanonicalUnique(Run(Nil, ops1), Run(Nil, ops2), RunMap(map[], ops1));
  }

  // How far delete is exact.

  ghost predicate ExactAt(t: Tree, s: Hex)
    requires Canonical(t) && Terminated(s)
  {
    MeetsWhereFits(t, s);
    var d := Delete(t, s);
    && (d.None? <==> Lookup(t, s).None?)
    && (d.Some? ==> Canonical(d.value) && forall q :: Terminated(q) ==>
         Lookup(d.value, q) == if q == s then None else Lookup(t, q))
  }

  /** A full node with the edges `i` and `j`, each holding the one key `rest` of length `|rest|`. */
  function Fork(i: int, j: int, rest: Hex): (t: Tree)
    requires 0 <= i < 16 && 0 <= j < 16
  {
    Full(NoKids()[i := Short(rest, Leaf(Raw([1])))][j := Short(rest, Leaf(Raw([1])))])
  }

  lemma ForkProper(i: int, j: int, rest: Hex)
    requires 0 <= i < 16 && 0 <= j < 16 && i != j && Terminated(rest)
    ensures Proper(Fork(i, j, rest)) && KeysAtMost(Fork(i, j, rest), |rest| + 1)
  {
    var t := Fork(i, j, rest);
    var e := Short(rest, Leaf(Raw([1])));
    assert Proper(e) && KeysAtMost(e, |rest|);
    assert t.kids[i] == e && t.kids[j] == e;
    assert TwoEdges(t.kids) by {
      if j < i { assert !t.kids[i].Nil?; }
    }
  }

  /** Two keys one byte longer than `s`, such that deleting the absent `s` removes one of them. */
  function Victims(s: Hex): (t: Tree)
    requires Terminated(s) && |s| >= 3
  {
    TerminatedSuffix(s, 1);
    var c := if s[1] == 0 then 1 else 0;
    Short([s[0], c, 0], Fork(s[1], c, s[2..]))
  }

  lemma ShortOverFull(k: Hex, c: Tree, n: nat)
    requires AllNibbles(k) && |k| > 0 && c.Full? && Proper(c) && KeysAtMost(c, n)
    ensures Proper(Short(k, c)) && KeysAtMost(Short(k, c), |k| + n)
  {
  }

  lemma VictimsProper(s: Hex)
    requires Terminated(s) && |s| >= 3
    ensures Proper(Victims(s)) && KeysAtMost(Victims(s), |s| + 2)
  {
    TerminatedSuffix(s, 0);
    TerminatedSuffix(s, 1);
    TerminatedSuffix(s, 2);
    var t := Victims(s);
    ForkProper(s[1], t.key[1], s[2..]);
    ShortOverFull(t.key, t.child, |s| - 1);
  }

  lemma LookupAside(t: Tree, s: Hex, p: nat)
    requires Proper(t) && t.Short? && Terminated(s) && p < |t.key| && p < |s| && s[p] != t.key[p]
    ensures Lookup(t, s).None?
  {
    PrefixAgrees(t.key, s, p);
  }

  lemma ForkDeleted(i: int, j: int, rest: Hex)
    requires 0 <= i < 16 && 0 <= j < 16 && i != j && Terminated(rest)
    ensures MayMeet(Fork(i, j, rest), [i] + rest) && Delete(Fork(i, j, rest), [i] + rest).Some?
  {
    var t := Fork(i, j, rest);
    var s := [i] + rest;
    ForkProper(i, j, rest);
    TerminatedJoin([i], rest);
    MeetBelowFull(t, s);
    assert s[1..] == rest;
    assert t.kids[i] == Short(rest, Leaf(Raw([1])));
    PrefixLenUnique(rest, rest, |rest|);
    assert Delete(t.kids[i], rest) == Some(Nil);
  }

  lemma VictimsDeleted(s: Hex)
    requires Terminated(s) && |s| >= 3
    ensures Proper(Victims(s)) && Delete(Victims(s), s).Some? && Lookup(Victims(s), s).None?
  {
    VictimsProper(s);
    var t := Victims(s);
    LookupAside(t, s, 1);
    PrefixLenUnique(s, t.key, 1);
    TerminatedSuffix(s, 1);
    TerminatedSuffix(s, 2);
    assert s[1..] == [s[1]] + s[2..];
    ForkDeleted(s[1], t.key[1], s[2..]);
    DeletedBelow(t, s, 1);
  }

  /** What a partial match finds below a short node is deleted. */
  lemma DeletedBelow(t: Tree, s: Hex, p: nat)
    requires Proper(t) && t.Short? && Terminated(s) && PrefixLen(s, t.key) == p && 0 < p < |s|
    requires MayMeet(t.child, s[p..]) && Delete(t.child, s[p..]).Some?
    ensures Delete(t, s).Some?
  {
  }

  /**
   Deleting the key `b` is exact on every trie with keys of at most `m` bytes
   if and only if none of those is longer than `b`, or `b` is empty.
   */
  lemma DeleteExactIff(b: seq<Byte>, m: nat)
    ensures (forall t :: Canonical(t) && KeysAtMost(t, 2 * m + 1) ==> ExactAt(t, HexOf(b))) <==> m <= |b| || b == []
  {
    if m <= |b| || b == [] {
      forall t | Canonical(t) && KeysAtMost(t, 2 * m + 1) ensures ExactAt(t, HexOf(b)) {
        ExactWithin(b, m, t);
      }
    } else {
      VictimsInexact(HexOf(b), 2 * m + 1);
    }
  }

  lemma ExactWithin(b: seq<Byte>, m: nat, t: Tree)
    requires (m <= |b| || b == []) && Canonical(t) && KeysAtMost(t, 2 * m + 1)
    ensures ExactAt(t, HexOf(b))
  {
    var s := HexOf(b);
    if m <= |b| {
      KeysAtMostGrows(t, 2 * m + 1, |s|);
    }
    DeleteExact(t, s);
  }

  lemma VictimsInexact(s: Hex, n: nat)
    requires Terminated(s) && 3 <= |s| && |s| + 2 <= n
    ensures Canonical(Victims(s)) && KeysAtMost(Victims(s), n) && !ExactAt(Victims(s), s)
  {
    VictimsProper(s);
    VictimsDeleted(s);
    KeysAtMostGrows(Victims(s), |s| + 2, n);
  }

  lemma {:induction false} KeysAtMostGrows(t: Tree, n: int, n': int)
    requires KeysAtMost(t, n) && n <= n'
    ensures KeysAtMost(t, n')
  {
    match t
    case Nil =>
    case Leaf(_) =>
    case Short(k, c) => KeysAtMostGrows(c, n - |k|, n' - |k|);
    case Full(kids) =>
      forall i | 0 <= i < |kids| ensures KeysAtMost(kids[i], n' - 1) {
        KeysAtMostGrows(kids[i], n - 1, n' - 1);
      }
  }
}
