/**
 The map a MemDB stands for: its entries in strictly ascending key order (the order of
 bytes.Compare), and what putting and deleting an entry does to them.
 */
module SortedEntries {
  import opened Nibbles
  import opened Options

  datatype Entry = Entry(key: seq<Byte>, val: seq<Byte>)

  /** bytes.Compare */
  function Compare(a: seq<Byte>, b: seq<Byte>): (c: int)
    ensures c in {-1, 0, 1} && (c == 0 <==> a == b)
    decreases |a|
  {
    if a == [] then (if b == [] then 0 else -1)
    else if b == [] then 1
    else if a[0] < b[0] then -1
    else if a[0] > b[0] then 1
    else
      assert a == [a[0]] + a[1..] && b == [b[0]] + b[1..];
      Compare(a[1..], b[1..])
  }

  /** `a` comes first: it is a proper prefix of `b`, or has the smaller byte where they first differ. */
  ghost predicate Precedes(a: seq<Byte>, b: seq<Byte>, i: nat) {
    && i <= |a| && i < |b| && (forall j :: 0 <= j < i ==> a[j] == b[j])
    && (i == |a| || a[i] < b[i])
  }

  lemma {:induction false} CompareMeaning(a: seq<Byte>, b: seq<Byte>)
    ensures Compare(a, b) < 0 <==> exists i: nat :: Precedes(a, b, i)
    decreases |a|
  {
    if a == [] || b == [] || a[0] != b[0] {
      if Compare(a, b) < 0 {
        assert Precedes(a, b, 0);
      }
    } else {
      CompareMeaning(a[1..], b[1..]);
      if Compare(a, b) < 0 {
        var i: nat :| Precedes(a[1..], b[1..], i);
        forall j | 0 <= j < i + 1 ensures a[j] == b[j] {
          assert j > 0 ==> a[j] == a[1..][j - 1] && b[j] == b[1..][j - 1];
        }
        assert a[1..][i..] == a[i + 1..] && b[1..][i] == b[i + 1];
        assert Precedes(a, b, i + 1);
      }
      forall i: nat | Precedes(a, b, i) ensures i > 0 && Precedes(a[1..], b[1..], i - 1) {
        assert forall j :: 0 <= j < i - 1 ==> a[1..][j] == a[j + 1] == b[j + 1] == b[1..][j];
      }
    }
  }

  lemma {:induction false} CompareSwaps(a: seq<Byte>, b: seq<Byte>)
    ensures Compare(a, b) == -Compare(b, a)
    decreases |a|
  {
    if a != [] && b != [] && a[0] == b[0] {
      CompareSwaps(a[1..], b[1..]);
    }
  }

  lemma {:induction false} CompareTransitive(a: seq<Byte>, b: seq<Byte>, c: seq<Byte>)
    requires Compare(a, b) <= 0 && Compare(b, c) <= 0
    ensures Compare(a, c) <= 0 && (Compare(a, b) < 0 || Compare(b, c) < 0 ==> Compare(a, c) < 0)
    decreases |a|
  {
    if a != [] && b != [] && c != [] && a[0] == b[0] == c[0] {
      CompareTransitive(a[1..], b[1..], c[1..]);
    }
  }

  ghost predicate Sorted(es: seq<Entry>) {
    forall i, j {:trigger Compare(es[i].key, es[j].key)} :: 0 <= i < j < |es| ==> Compare(es[i].key, es[j].key) < 0
  }

  /** `p` entries are below `k`, the others are not. */
  ghost predicate IsRank(es: seq<Entry>, k: seq<Byte>, p: int) {
    && 0 <= p <= |es|
    && (forall i :: 0 <= i < p ==> Compare(es[i].key, k) < 0)
    && forall i :: p <= i < |es| ==> Compare(es[i].key, k) >= 0
  }

  /** How many entries are below `k`. */
  ghost function Rank(es: seq<Entry>, k: seq<Byte>): (p: nat)
    requires Sorted(es)
    ensures IsRank(es, k, p)
    decreases |es|
  {
    if es == [] || Compare(es[0].key, k) >= 0 then
      RankZero(es, k);
      0
    else
      var p := Rank(es[1..], k);
      assert forall i :: 1 <= i < |es| ==> es[i] == es[1..][i - 1];
      p + 1
  }

  lemma RankZero(es: seq<Entry>, k: seq<Byte>)
    requires Sorted(es) && (es != [] ==> Compare(es[0].key, k) >= 0)
    ensures IsRank(es, k, 0)
  {
    forall i | 0 < i < |es| ensures Compare(es[i].key, k) >= 0 {
      CompareSwaps(es[i].key, k);
      CompareSwaps(es[0].key, k);
      if Compare(k, es[i].key) > 0 {
        CompareTransitive(es[0].key, es[i].key, k);
      }
    }
  }

  lemma RankUnique(es: seq<Entry>, k: seq<Byte>, p: int)
    requires Sorted(es) && IsRank(es, k, p)
    ensures p == Rank(es, k)
  {
    var q := Rank(es, k);
    if p < |es| {
      assert Compare(es[p].key, k) >= 0;
    }
    if q < |es| {
      assert Compare(es[q].key, k) >= 0;
    }
  }

  ghost function Get(es: seq<Entry>, k: seq<Byte>): (r: Option<seq<Byte>>)
    requires Sorted(es)
  {
    var p := Rank(es, k);
    if p < |es| && es[p].key == k then Some(es[p].val) else None
  }

  ghost function Put(es: seq<Entry>, k: seq<Byte>, v: seq<Byte>): (r: seq<Entry>)
    requires Sorted(es)
  {
    var p := Rank(es, k);
    if p < |es| && es[p].key == k then es[p := Entry(k, v)] else es[..p] + [Entry(k, v)] + es[p..]
  }

  ghost function Remove(es: seq<Entry>, k: seq<Byte>): (r: seq<Entry>)
    requires Sorted(es)
  {
    var p := Rank(es, k);
    if p < |es| && es[p].key == k then es[..p] + es[p + 1..] else es
  }

  /** Sum of key and value lengths. */
  ghost function Total(es: seq<Entry>): (n: nat) {
    if es == [] then 0 else |es[0].key| + |es[0].val| + Total(es[1..])
  }

  /** All keys and values, one after the other. */
  ghost function Written(es: seq<Entry>): (bytes: seq<Byte>) {
    if es == [] then [] else Written(es[..|es| - 1]) + es[|es| - 1].key + es[|es| - 1].val
  }

  lemma {:induction false} TotalIsLength(es: seq<Entry>)
    ensures Total(es) == |Written(es)|
  {
    if es != [] {
      var last := |es| - 1;
      TotalIsLength(es[..last]);
      TotalAppend(es[..last], [es[last]]);
      assert es == es[..last] + [es[last]] && [es[last]][1..] == [];
    }
  }

  lemma {:induction false} TotalAppend(a: seq<Entry>, b: seq<Entry>)
    ensures Total(a + b) == Total(a) + Total(b)
  {
    if a == [] {
      assert a + b == b;
    } else {
      TotalAppend(a[1..], b);
      assert (a + b)[1..] == a[1..] + b;
    }
  }

  /** A value is found exactly if some entry has the key. */
  lemma GetMeaning(es: seq<Entry>, k: seq<Byte>, i: nat)
    requires Sorted(es) && i < |es| && es[i].key == k
    ensures Get(es, k) == Some(es[i].val)
  {
    RankOf(es, k, i);
  }

  /** A key has the same rank once it is removed. */
  lemma RankRemoved(es: seq<Entry>, k: seq<Byte>, p: nat)
    requires Sorted(es) && p < |es| && es[p].key == k
    ensures Sorted(Remove(es, k)) && Rank(Remove(es, k), k) == p
  {
    RankOf(es, k, p);
    RemoveSorted(es, k);
    var r := Remove(es, k);
    forall i | 0 <= i < |r| ensures r[i] == es[if i < p then i else i + 1] {
    }
    RankUnique(r, k, p);
  }

  lemma RankOf(es: seq<Entry>, k: seq<Byte>, i: nat)
    requires Sorted(es) && i < |es| && es[i].key == k
    ensures Rank(es, k) == i
  {
    forall j | i <= j < |es| ensures Compare(es[j].key, k) >= 0 {
      CompareSwaps(es[j].key, k);
    }
    RankUnique(es, k, i);
  }

  lemma GetNone(es: seq<Entry>, k: seq<Byte>)
    requires Sorted(es) && forall i :: 0 <= i < |es| ==> es[i].key != k
    ensures Get(es, k) == None
  {
  }

  lemma AboveRank(es: seq<Entry>, k: seq<Byte>, p: nat, j: nat)
    requires Sorted(es) && IsRank(es, k, p) && (p < |es| ==> es[p].key != k) && p <= j < |es|
    ensures Compare(k, es[j].key) < 0
  {
    CompareSwaps(es[p].key, k);
    if p < j {
      CompareTransitive(k, es[p].key, es[j].key);
    }
  }

  lemma InsertSorted(es: seq<Entry>, p: nat, e: Entry)
    requires Sorted(es) && IsRank(es, e.key, p) && (p < |es| ==> es[p].key != e.key)
    ensures Sorted(es[..p] + [e] + es[p..])
  {
    var r := es[..p] + [e] + es[p..];
    forall i, j | 0 <= i < j < |r| ensures Compare(r[i].key, r[j].key) < 0 {
      if i == p {
        assert r[j] == es[j - 1];
        AboveRank(es, e.key, p, j - 1);
      } else if j == p {
        assert r[i] == es[i];
      } else {
        assert r[i] == es[if i < p then i else i - 1] && r[j] == es[if j < p then j else j - 1];
      }
    }
  }

  lemma PutSorted(es: seq<Entry>, k: seq<Byte>, v: seq<Byte>)
    requires Sorted(es)
    ensures Sorted(Put(es, k, v))
  {
    var p := Rank(es, k);
    if !(p < |es| && es[p].key == k) {
      InsertSorted(es, p, Entry(k, v));
    }
  }

  lemma RemoveSorted(es: seq<Entry>, k: seq<Byte>)
    requires Sorted(es)
    ensures Sorted(Remove(es, k))
  {
    var p := Rank(es, k);
    var r := Remove(es, k);
    forall i, j | 0 <= i < j < |r| ensures Compare(r[i].key, r[j].key) < 0 {
      if |r| < |es| {
        var i', j' := if i < p then i else i + 1, if j < p then j else j + 1;
        assert Compare(es[i'].key, es[j'].key) < 0;
      }
    }
  }

  /** Putting an entry is a map update. */
  lemma GetPut(es: seq<Entry>, k: seq<Byte>, v: seq<Byte>, q: seq<Byte>)
    requires Sorted(es)
    ensures Sorted(Put(es, k, v))
    ensures Get(Put(es, k, v), q) == if q == k then Some(v) else Get(es, q)
  {
    PutSorted(es, k, v);
    if q == k {
      GetMeaning(Put(es, k, v), k, Rank(es, k));
    } else if i :| 0 <= i < |es| && es[i].key == q {
      GetPutPresent(es, k, v, i);
    } else {
      GetNone(es, q);
      PutKeys(es, k, v);
      GetNone(Put(es, k, v), q);
    }
  }

  lemma PutKeys(es: seq<Entry>, k: seq<Byte>, v: seq<Byte>)
    requires Sorted(es)
    ensures forall j :: 0 <= j < |Put(es, k, v)| ==>
      Put(es, k, v)[j].key == k || exists i :: 0 <= i < |es| && es[i].key == Put(es, k, v)[j].key
  {
    var p, r := Rank(es, k), Put(es, k, v);
    forall j | 0 <= j < |r| && r[j].key != k ensures exists i :: 0 <= i < |es| && es[i].key == r[j].key {
      assert r[j] == es[if |r| == |es| || j < p then j else j - 1];
    }
  }

  /** An entry with another key is still found. */
  lemma GetPutPresent(es: seq<Entry>, k: seq<Byte>, v: seq<Byte>, i: nat)
    requires Sorted(es) && Sorted(Put(es, k, v)) && i < |es| && es[i].key != k
    ensures Get(Put(es, k, v), es[i].key) == Get(es, es[i].key)
  {
    var p := Rank(es, k);
    GetMeaning(es, es[i].key, i);
    var j := if (p < |es| && es[p].key == k) || i < p then i else i + 1;
    assert Put(es, k, v)[j] == es[i];
    GetMeaning(Put(es, k, v), es[i].key, j);
  }

  lemma RemovedKey(es: seq<Entry>, k: seq<Byte>)
    requires Sorted(es)
    ensures forall i :: 0 <= i < |Remove(es, k)| ==> Remove(es, k)[i].key != k
  {
    var p, r := Rank(es, k), Remove(es, k);
    forall i | 0 <= i < |r| ensures r[i].key != k {
      var i': nat := if |r| == |es| || i < p then i else i + 1;
      assert r[i] == es[i'];
      if es[i'].key == k {
        RankOf(es, k, i');
      }
    }
  }

  /** Removing a key removes that key only. */
  lemma GetRemove(es: seq<Entry>, k: seq<Byte>, q: seq<Byte>)
    requires Sorted(es)
    ensures Sorted(Remove(es, k))
    ensures Get(Remove(es, k), q) == if q == k then None else Get(es, q)
  {
    RemoveSorted(es, k);
    RemovedKey(es, k);
    var p, r := Rank(es, k), Remove(es, k);
    if q == k {
      GetNone(r, k);
    } else if i :| 0 <= i < |es| && es[i].key == q {
      GetMeaning(es, q, i);
      GetMeaning(r, q, if |r| == |es| || i < p then i else i - 1);
    } else {
      GetNone(es, q);
      GetNone(r, q);
    }
  }
}
