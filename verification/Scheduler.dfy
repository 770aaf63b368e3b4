/**
 Transactions by price and nonce (types/transaction.go:219-277): per account in nonce order, between
 accounts the best head first.
 */
module Scheduler {
  import opened Options
  import opened TxHeap
  import HeapIndex

  /** What is still to come from each account, in order. */
  type Pending = map<nat, seq<Tx>>

  ghost predicate NonceSorted(s: seq<Tx>) {
    forall i, j :: 0 <= i < j < |s| ==> s[i].nonce <= s[j].nonce
  }

  /** Non-empty lists in nonce order, each of one account. */
  ghost predicate WellKeyed(p: Pending) {
    forall a {:trigger p[a]} :: a in p ==> p[a] != [] && NonceSorted(p[a]) && forall i :: 0 <= i < |p[a]| ==> p[a][i].from == a
  }

  /** `hs` are the first transactions of the accounts. */
  ghost predicate Heads(hs: multiset<Tx>, p: Pending) {
    && (forall x {:trigger hs[x]} :: hs[x] == if x.from in p && p[x.from] != [] && p[x.from][0] == x then 1 else 0)
    && forall a {:trigger p[a]} :: a in p ==> p[a] != [] && p[a][0].from == a
  }

  function Rest(txs: map<nat, seq<Tx>>, a: nat): (s: seq<Tx>) {
    if a in txs then txs[a] else []
  }

  /** The accounts' lists are their heads and what the map still holds. */
  ghost predicate Rests(txs: map<nat, seq<Tx>>, p: Pending) {
    forall a {:trigger p[a]} :: a in p ==> p[a] != [] && Rest(txs, a) == p[a][1..]
  }

  /** The account of the best head has had its turn. */
  function Shifted(p: Pending, a: nat): (p': Pending)
    requires a in p && p[a] != []
  {
    if |p[a]| > 1 then p[a := p[a][1..]] else p - {a}
  }

  /** `x` offers a higher price than `y`, or the same and was seen no later. */
  predicate AtLeast(x: Tx, y: Tx) {
    x.price > y.price || (x.price == y.price && x.time <= y.time)
  }

  /** `x` heads its account's list, and offers at least what every account's head does. */
  ghost predicate IsBest(p: Pending, x: Tx) {
    && x.from in p && p[x.from] != [] && p[x.from][0] == x
    && forall a {:trigger p[a]} :: a in p && p[a] != [] ==> AtLeast(x, p[a][0])
  }

  lemma HeadsDropped(hs: multiset<Tx>, hs': multiset<Tx>, p: Pending, x: Tx)
    requires Heads(hs, p) && x in hs && hs == hs' + multiset{x}
    ensures Heads(hs', p - {x.from})
  {
    forall y ensures hs'[y] == if y.from in p - {x.from} && p[y.from] != [] && p[y.from][0] == y then 1 else 0 {
      assert hs[y] == hs'[y] + if y == x then 1 else 0;
    }
  }

  lemma HeadsReplaced(hs: multiset<Tx>, hs': multiset<Tx>, p: Pending, x: Tx)
    requires Heads(hs, p) && x in hs && |p[x.from]| > 1 && p[x.from][1].from == x.from
    requires hs' + multiset{x} == hs + multiset{p[x.from][1]}
    ensures Heads(hs', p[x.from := p[x.from][1..]])
  {
    var p', z := p[x.from := p[x.from][1..]], p[x.from][1];
    forall y ensures hs'[y] == if y.from in p' && p'[y.from] != [] && p'[y.from][0] == y then 1 else 0 {
      assert (hs' + multiset{x})[y] == (hs + multiset{z})[y];
      assert hs[y] == if y.from in p && p[y.from] != [] && p[y.from][0] == y then 1 else 0;
    }
  }

  lemma RootIsBest(heads: seq<Tx>, p: Pending)
    requires HeapFrom(heads, 0) && heads != [] && Heads(multiset(heads), p)
    ensures IsBest(p, heads[0])
  {
    assert multiset(heads)[heads[0]] > 0;
    forall a | a in p && p[a] != [] ensures AtLeast(heads[0], p[a][0]) {
      assert multiset(heads)[p[a][0]] == 1;
      var k :| 0 <= k < |heads| && heads[k] == p[a][0];
      RootBest(heads, k);
    }
  }

  lemma NoHeads(heads: seq<Tx>, p: Pending)
    requires Heads(multiset(heads), p)
    ensures heads == [] <==> p == map[]
  {
    assert forall a {:trigger p[a]} :: a in p ==> multiset(heads)[p[a][0]] == 1;
    if heads != [] {
      assert multiset(heads)[heads[0]] > 0;
    } else {
      assert p.Keys == {};
    }
  }

  /** The loop of the constructor: each list gives its first transaction to the heads. */
  method SplitHeads(lists: map<nat, seq<Tx>>) returns (hs: seq<Tx>, rest: map<nat, seq<Tx>>)
    requires WellKeyed(lists)
    ensures Heads(multiset(hs), lists) && Rests(rest, lists)
  {
    var left := lists.Keys;
    hs, rest := [], lists;
    while left != {}
      invariant left <= lists.Keys && rest.Keys == lists.Keys
      invariant Heads(multiset(hs), lists - left)
      invariant forall a {:trigger rest[a]} :: a in lists ==> rest[a] == if a in left then lists[a] else lists[a][1..]
      decreases left
    {
      var a :| a in left;
      HeadsAdded(multiset(hs), lists - left, a, lists[a]);
      assert lists - (left - {a}) == (lists - left)[a := lists[a]];
      hs := hs + [lists[a][0]];
      rest := rest[a := lists[a][1..]];
      left := left - {a};
    }
    assert lists - {} == lists;
  }

  lemma HeadsAdded(hs: multiset<Tx>, p: Pending, a: nat, l: seq<Tx>)
    requires Heads(hs, p) && a !in p && l != [] && l[0].from == a
    ensures Heads(hs + multiset{l[0]}, p[a := l])
  {
    var p', hs' := p[a := l], hs + multiset{l[0]};
    forall y ensures hs'[y] == if y.from in p' && p'[y.from] != [] && p'[y.from][0] == y then 1 else 0 {
      assert hs[y] == if y.from in p && p[y.from] != [] && p[y.from][0] == y then 1 else 0;
    }
  }

  /** The best head gives way to the next transaction of its account. */
  method Replace(heads: seq<Tx>, next: Tx, ghost p: Pending) returns (s: seq<Tx>)
    requires HeapFrom(heads, 0) && heads != [] && Heads(multiset(heads), p)
    requires heads[0].from in p && |p[heads[0].from]| > 1 && p[heads[0].from][1] == next && next.from == heads[0].from
    ensures HeapFrom(s, 0) && Heads(multiset(s), p[heads[0].from := p[heads[0].from][1..]])
  {
    s := heads[0 := next];
    assert multiset(s) + multiset{heads[0]} == multiset(heads) + multiset{next};
    forall k | 0 < k < |s| && HeapIndex.Parent(k) >= 1 ensures TxAt(s, k) {
      assert TxAt(heads, k);
    }
    s := Fix(s);
    assert multiset(heads)[heads[0]] > 0;
    HeadsReplaced(multiset(heads), multiset(s), p, heads[0]);
  }

  class TransactionsByPriceAndNonce {
    var txs: map<nat, seq<Tx>>
    var heads: seq<Tx>
    ghost var pending: Pending

    ghost predicate Valid()
      reads this
    {
      HeapFrom(heads, 0) && WellKeyed(pending) && Heads(multiset(heads), pending) && Rests(txs, pending)
    }

    /** NewTransactionsByPriceAndNonce */
    constructor (lists: map<nat, seq<Tx>>)
      requires WellKeyed(lists)
      ensures Valid() && pending == lists
    {
      var hs, rest := SplitHeads(lists);
      hs := Init(hs);
      txs, heads, pending := rest, hs, lists;
    }

    method Peek() returns (r: Option<Tx>)
      requires Valid()
      ensures r.None? <==> pending == map[]
      ensures r.Some? ==> IsBest(pending, r.value) && heads != [] && heads[0] == r.value
    {
      NoHeads(heads, pending);
      r := None;
      if |heads| > 0 {
        RootIsBest(heads, pending);
        r := Some(heads[0]);
      }
    }

    /** Shift; the source, like this, needs a head. */
    method Shift()
      requires Valid() && pending != map[]
      modifies this
      ensures old(heads) != [] && IsBest(old(pending), old(heads)[0])
      ensures Valid() && pending == Shifted(old(pending), old(heads)[0].from)
    {
      NoHeads(heads, pending);
      RootIsBest(heads, pending);
      ghost var x := heads[0];
      var account := heads[0].from;
      ghost var p := Shifted(pending, account);
      assert Rest(txs, account) == pending[account][1..];
      if account in txs && |txs[account]| > 0 {
        var h := Replace(heads, txs[account][0], pending);
        heads, txs := h, txs[account := txs[account][1..]];
      } else {
        Pop();
      }
      pending := p;
    }

    /** Pop: the account of the best head is dropped with all that was to come from it. */
    method Pop()
      requires Valid() && pending != map[]
      modifies this`heads, this`pending
      ensures old(heads) != [] && IsBest(old(pending), old(heads)[0])
      ensures Valid() && pending == old(pending) - {old(heads)[0].from}
    {
      NoHeads(heads, pending);
      RootIsBest(heads, pending);
      ghost var hs, x := multiset(heads), heads[0];
      heads := PopBest(heads);
      HeadsDropped(hs, multiset(heads), pending, x);
      pending := pending - {x.from};
    }
  }

  // Draining.

  /** The transactions of one account, in the order they came. */
  ghost function Of(out: seq<Tx>, a: nat): (s: seq<Tx>)
    decreases |out|
  {
    if out == [] then []
    else if out[|out| - 1].from == a then Of(out[..|out| - 1], a) + [out[|out| - 1]]
    else Of(out[..|out| - 1], a)
  }

  /** The account was dropped after one of the first `n` transactions. */
  ghost predicate Dropped(out: seq<Tx>, keep: nat -> bool, a: nat, n: nat) {
    exists k :: 0 <= k < n && k < |out| && !keep(k) && out[k].from == a
  }

  /** The k-th transaction was the best of those next in line. */
  ghost predicate BestAt(p0: Pending, out: seq<Tx>, keep: nat -> bool, k: nat)
    requires k < |out|
  {
    forall b :: b in p0 && !Dropped(out, keep, b, k) && |Of(out[..k], b)| < |p0[b]| ==> AtLeast(out[k], p0[b][|Of(out[..k], b)|])
  }

  /** What came of one account, and what is still to come. */
  ghost predicate Account(p0: Pending, p: Pending, out: seq<Tx>, keep: nat -> bool, a: nat) {
    var l := if a in p0 then p0[a] else [];
    if a in p then l == Of(out, a) + p[a] && !Dropped(out, keep, a, |out|)
    else Of(out, a) <= l && (Of(out, a) == l || Dropped(out, keep, a, |out|))
  }

  ghost predicate Drained(p0: Pending, p: Pending, out: seq<Tx>, keep: nat -> bool) {
    && (forall a :: Account(p0, p, out, keep, a))
    && (forall k :: 0 <= k < |out| ==> BestAt(p0, out, keep, k))
    && forall j, k :: 0 <= k < j < |out| && !keep(k) ==> out[j].from != out[k].from
  }

  lemma DroppedNext(out: seq<Tx>, x: Tx, keep: nat -> bool, a: nat)
    ensures Dropped(out + [x], keep, a, |out| + 1) <==> Dropped(out, keep, a, |out|) || (!keep(|out|) && x.from == a)
  {
    var out' := out + [x];
    if Dropped(out, keep, a, |out|) {
      var k :| 0 <= k < |out| && !keep(k) && out[k].from == a;
      assert out'[k].from == a;
    } else if !keep(|out|) && x.from == a {
      assert out'[|out|].from == a;
    }
  }

  lemma AccountNext(p0: Pending, p: Pending, p': Pending, out: seq<Tx>, keep: nat -> bool, x: Tx, a: nat)
    requires WellKeyed(p) && Account(p0, p, out, keep, a) && IsBest(p, x)
    requires p' == if keep(|out|) then Shifted(p, x.from) else p - {x.from}
    ensures Account(p0, p', out + [x], keep, a)
  {
    var out' := out + [x];
    assert out'[..|out|] == out;
    DroppedNext(out, x, keep, a);
    if a == x.from {
      assert p[a] == [x] + p[a][1..];
      assert Of(out, a) + p[a] == Of(out', a) + p[a][1..];
    }
  }

  lemma BestNext(p0: Pending, p: Pending, out: seq<Tx>, keep: nat -> bool, x: Tx)
    requires WellKeyed(p) && Drained(p0, p, out, keep) && IsBest(p, x)
    ensures BestAt(p0, out + [x], keep, |out|)
  {
    var out' := out + [x];
    assert out'[..|out|] == out;
    forall b | b in p0 && !Dropped(out', keep, b, |out|) && |Of(out, b)| < |p0[b]| ensures AtLeast(x, p0[b][|Of(out, b)|]) {
      DroppedEarlier(out, x, keep, b, |out|);
      assert Account(p0, p, out, keep, b);
      assert p0[b] == Of(out, b) + p[b];
    }
  }

  lemma DroppedEarlier(out: seq<Tx>, x: Tx, keep: nat -> bool, a: nat, n: nat)
    requires n <= |out|
    ensures Dropped(out + [x], keep, a, n) <==> Dropped(out, keep, a, n)
  {
    assert forall k :: 0 <= k < |out| ==> (out + [x])[k] == out[k];
    if Dropped(out, keep, a, n) {
      var k :| 0 <= k < n && !keep(k) && out[k].from == a;
      assert (out + [x])[k].from == a;
    }
  }

  lemma BestKept(p0: Pending, out: seq<Tx>, keep: nat -> bool, x: Tx, k: nat)
    requires k < |out| && BestAt(p0, out, keep, k)
    ensures BestAt(p0, out + [x], keep, k)
  {
    assert (out + [x])[..k] == out[..k];
    forall b ensures Dropped(out + [x], keep, b, k) <==> Dropped(out, keep, b, k) {
      DroppedEarlier(out, x, keep, b, k);
    }
  }

  lemma DrainedNext(p0: Pending, p: Pending, p': Pending, out: seq<Tx>, keep: nat -> bool, x: Tx)
    requires WellKeyed(p) && Drained(p0, p, out, keep) && IsBest(p, x)
    requires p' == if keep(|out|) then Shifted(p, x.from) else p - {x.from}
    ensures Drained(p0, p', out + [x], keep)
  {
    var out' := out + [x];
    forall a ensures Account(p0, p', out', keep, a) {
      AccountNext(p0, p, p', out, keep, x, a);
    }
    forall k | 0 <= k < |out'| ensures BestAt(p0, out', keep, k) {
      if k < |out| {
        BestKept(p0, out, keep, x, k);
      } else {
        BestNext(p0, p, out, keep, x);
      }
    }
    forall j, k | 0 <= k < j < |out'| && !keep(k) ensures out'[j].from != out'[k].from {
      if j == |out| {
        assert Account(p0, p, out, keep, x.from);
        assert out[k].from != x.from;
      }
    }
  }

  // The drain ends.

  ghost function SizeOver(p: Pending, s: set<nat>): (n: nat)
    requires s <= p.Keys
  {
    if s == {} then 0 else
      var a :| a in s;
      |p[a]| + SizeOver(p, s - {a})
  }

  lemma {:induction false} SizeSplit(p: Pending, s: set<nat>, a: nat)
    requires s <= p.Keys && a in s
    ensures SizeOver(p, s) == |p[a]| + SizeOver(p, s - {a})
    decreases |s|
  {
    var x :| x in s && SizeOver(p, s) == |p[x]| + SizeOver(p, s - {x});
    if x != a {
      SizeSplit(p, s - {x}, a);
      SizeSplit(p, s - {a}, x);
      assert s - {x} - {a} == s - {a} - {x};
    }
  }

  lemma {:induction false} SizeSame(p: Pending, p': Pending, s: set<nat>)
    requires s <= p.Keys && s <= p'.Keys && forall a :: a in s ==> p[a] == p'[a]
    ensures SizeOver(p, s) == SizeOver(p', s)
    decreases |s|
  {
    if s != {} {
      var a :| a in s;
      SizeSplit(p, s, a);
      SizeSplit(p', s, a);
      SizeSame(p, p', s - {a});
    }
  }

  lemma SizeShrinks(p: Pending, a: nat)
    requires a in p && p[a] != []
    ensures SizeOver(Shifted(p, a), Shifted(p, a).Keys) < SizeOver(p, p.Keys)
    ensures SizeOver(p - {a}, (p - {a}).Keys) < SizeOver(p, p.Keys)
  {
    var rest := p.Keys - {a};
    SizeSplit(p, p.Keys, a);
    SizeSame(p, p - {a}, rest);
    assert (p - {a}).Keys == rest;
    if |p[a]| > 1 {
      var p' := Shifted(p, a);
      assert p'.Keys == p.Keys;
      SizeSplit(p', p'.Keys, a);
      SizeSame(p, p', rest);
    }
  }

  /**
   Peeking until nothing is left, shifting after the k-th transaction if `keep(k)` and dropping its
   account otherwise: every account's transactions come once each, in its order, all of them unless the
   account was dropped, and none after that; and each was the best of those next in line.
   */
  method Drain(t: TransactionsByPriceAndNonce, keep: nat -> bool) returns (out: seq<Tx>)
    requires t.Valid()
    modifies t
    ensures Drained(old(t.pending), map[], out, keep)
  {
    out := [];
    ghost var p0 := t.pending;
    var x := t.Peek();
    while x.Some?
      invariant t.Valid() && Drained(p0, t.pending, out, keep)
      invariant x.None? <==> t.pending == map[]
      invariant x.Some? ==> IsBest(t.pending, x.value) && t.heads != [] && t.heads[0] == x.value
      decreases SizeOver(t.pending, t.pending.Keys)
    {
      ghost var p := t.pending;
      SizeShrinks(p, x.value.from);
      if keep(|out|) {
        t.Shift();
      } else {
        t.Pop();
      }
      DrainedNext(p0, p, t.pending, out, keep, x.value);
      out := out + [x.value];
      x := t.Peek();
    }
  }
}
