/**
 The block priority queue (protocol/pq.go:136-306). Every exported method holds the lock, and a Put that
 finds waiting callers hands each its blocks before it returns; so Put, Get and Dispose are atomic steps,
 a Get that has to wait being answered inside a later Put or Dispose.
 */
module BlockQueue {
  import opened BlockHeap

  ghost predicate Ascending(s: seq<Block>) {
    forall i, j :: 0 <= i < j < |s| ==> s[i].number <= s[j].number
  }

  /** `got` are the up to `n` smallest blocks of `all`, in order, and `rest` the others. */
  ghost predicate Takes(all: multiset<Block>, n: nat, got: seq<Block>, rest: multiset<Block>) {
    && all == multiset(got) + rest && Ascending(got)
    && |got| <= n && (|got| == n || rest == multiset{})
    && forall x, y :: x in got && y in rest ==> x.number <= y.number
  }

  /** priorityItems.get */
  method Take(items: seq<Block>, n: nat) returns (got: seq<Block>, s: seq<Block>)
    requires IsHeap(items)
    ensures IsHeap(s) && Takes(multiset(items), n, got, multiset(s))
  {
    got, s := [], items;
    for i := 0 to n
      invariant IsHeap(s) && |got| == i && multiset(items) == multiset(got) + multiset(s) && Ascending(got)
      invariant forall x, y :: x in got && y in multiset(s) ==> x.number <= y.number
    {
      if |s| == 0 {
        break;
      }
      var item;
      ghost var before := multiset(s);
      item, s := Pop(s);
      assert item in before;
      got := got + [item];
    }
  }

  // The set of queued numbers.

  ghost predicate Queued(all: multiset<Block>, x: Block) {
    x in all
  }

  ghost predicate Named(m: set<nat>, k: nat) {
    k in m
  }

  /** `m` holds the numbers of the blocks of `all`, each block being there once and alone with its number. */
  ghost predicate Tracks(m: set<nat>, all: multiset<Block>) {
    && (forall x {:trigger Queued(all, x)} :: Queued(all, x) ==> Named(m, x.number) && all[x] == 1)
    && (forall k {:trigger Named(m, k)} :: Named(m, k) ==> exists x :: Queued(all, x) && x.number == k)
    && forall x, y {:trigger Queued(all, x), Queued(all, y)} :: Queued(all, x) && Queued(all, y) && x.number == y.number ==> x == y
  }

  lemma TracksMore(m: set<nat>, all: multiset<Block>, x: Block)
    requires Tracks(m, all) && x.number !in m
    ensures Tracks(m + {x.number}, all + multiset{x})
  {
    var m', all' := m + {x.number}, all + multiset{x};
    assert !Queued(all, x) by {
      assert Queued(all, x) ==> Named(m, x.number);
    }
    forall y | Queued(all', y) ensures Named(m', y.number) && all'[y] == 1 && (y.number == x.number ==> y == x) {
      assert y == x || Queued(all, y);
    }
    forall k | Named(m', k) ensures exists y :: Queued(all', y) && y.number == k {
      if k == x.number {
        assert Queued(all', x);
      } else {
        assert Named(m, k);
        var y :| Queued(all, y) && y.number == k;
        assert Queued(all', y);
      }
    }
    forall y, z | Queued(all', y) && Queued(all', z) && y.number == z.number ensures y == z {
      assert (y == x || Queued(all, y)) && (z == x || Queued(all, z));
    }
  }

  function Numbers(s: seq<Block>): (m: set<nat>) {
    set i | 0 <= i < |s| :: s[i].number
  }

  lemma TracksLess(m: set<nat>, all: multiset<Block>, got: seq<Block>, rest: multiset<Block>)
    requires Tracks(m, all) && all == multiset(got) + rest
    ensures Tracks(m - Numbers(got), rest)
  {
    var m' := m - Numbers(got);
    forall x | Queued(rest, x) ensures Named(m', x.number) && rest[x] == 1 {
      assert Queued(all, x) && all[x] == multiset(got)[x] + rest[x];
      forall i | 0 <= i < |got| ensures got[i].number != x.number {
        assert got[i] in multiset(got) && Queued(all, got[i]);
      }
    }
    forall k | Named(m', k) ensures exists x :: Queued(rest, x) && x.number == k {
      assert Named(m, k);
      var x :| Queued(all, x) && x.number == k;
      assert x !in got;
      assert Queued(rest, x);
    }
    forall x, y | Queued(rest, x) && Queued(rest, y) && x.number == y.number ensures x == y {
      assert Queued(all, x) && Queued(all, y);
    }
  }

  datatype Waiter = Waiter(id: nat, number: int)
  datatype Delivery = Delivery(waiter: Waiter, blocks: seq<Block>)

  /** The waiters are answered in turn, each with the smallest blocks there are by then; `rest` is left. */
  ghost predicate Serves(all: multiset<Block>, ws: seq<Waiter>, ds: seq<Delivery>, rest: multiset<Block>)
    decreases |ds|
  {
    if ds == [] then rest == all
    else
      var d := ds[|ds| - 1];
      var before := rest + multiset(d.blocks);
      && |ds| <= |ws| && d.waiter == ws[|ds| - 1] && d.waiter.number >= 1 && before != multiset{}
      && Takes(before, d.waiter.number, d.blocks, rest) && Serves(all, ws, ds[..|ds| - 1], before)
  }

  lemma ServesNext(all: multiset<Block>, ws: seq<Waiter>, ds: seq<Delivery>, rest: multiset<Block>, got: seq<Block>, rest': multiset<Block>)
    requires Serves(all, ws, ds, rest) && |ds| < |ws| && ws[|ds|].number >= 1 && rest != multiset{} && Takes(rest, ws[|ds|].number, got, rest')
    ensures Serves(all, ws, ds + [Delivery(ws[|ds|], got)], rest')
  {
    var ds' := ds + [Delivery(ws[|ds|], got)];
    assert ds'[..|ds|] == ds;
    assert rest' + multiset(got) == rest;
  }

  /** The new blocks Put lets in: those whose number is not queued yet, unless duplicates are allowed. */
  function Admitted(m: set<nat>, dup: bool, bs: seq<Block>): (s: seq<Block>)
    decreases |bs|
  {
    if bs == [] then []
    else if !dup && bs[0].number in m then Admitted(m, dup, bs[1..])
    else [bs[0]] + Admitted(m + {bs[0].number}, dup, bs[1..])
  }

  /** The number is not queued and no earlier block of the batch has it. */
  ghost predicate IsNew(m: set<nat>, bs: seq<Block>, i: nat) {
    i < |bs| && bs[i].number !in m && forall j :: 0 <= j < i ==> bs[j].number != bs[i].number
  }

  lemma IsNewLater(m: set<nat>, bs: seq<Block>, i: nat)
    requires bs != []
    ensures IsNew(m + {bs[0].number}, bs[1..], i) <==> IsNew(m, bs, i + 1)
  {
    if IsNew(m + {bs[0].number}, bs[1..], i) {
      forall j | 0 <= j < i + 1 ensures bs[j].number != bs[i + 1].number {
        assert j > 0 ==> bs[1..][j - 1] == bs[j];
      }
    } else if IsNew(m, bs, i + 1) {
      assert bs[1..][i] == bs[i + 1] && bs[i + 1].number != bs[0].number;
      assert forall j :: 0 <= j < i ==> bs[1..][j] == bs[j + 1];
    }
  }

  /** With duplicates allowed all blocks are let in, else exactly those new to the queue and the batch, once each. */
  lemma {:induction false} AdmittedMeaning(m: set<nat>, bs: seq<Block>, x: Block)
    ensures Admitted(m, true, bs) == bs
    ensures x in Admitted(m, false, bs) <==> exists i: nat :: IsNew(m, bs, i) && bs[i] == x
    ensures forall i, j :: 0 <= i < j < |Admitted(m, false, bs)| ==> Admitted(m, false, bs)[i].number != Admitted(m, false, bs)[j].number
    ensures forall i :: 0 <= i < |Admitted(m, false, bs)| ==> Admitted(m, false, bs)[i].number !in m
    decreases |bs|
  {
    if bs != [] {
      var m', rest := m + {bs[0].number}, bs[1..];
      assert bs == [bs[0]] + rest;
      AdmittedMeaning(m', rest, x);
      assert bs[0].number in m ==> m' == m;
      forall i: nat ensures IsNew(m', rest, i) <==> IsNew(m, bs, i + 1) {
        IsNewLater(m, bs, i);
      }
      if x in Admitted(m', false, rest) {
        var i: nat :| IsNew(m', rest, i) && rest[i] == x;
        assert IsNew(m, bs, i + 1) && bs[i + 1] == x;
      } else if bs[0].number !in m && bs[0] == x {
        assert IsNew(m, bs, 0);
      }
      forall i: nat | IsNew(m, bs, i) && bs[i] == x ensures x in Admitted(m, false, bs) {
        if i > 0 {
          assert IsNew(m', rest, i - 1) && rest[i - 1] == x;
        }
      }
    }
  }

  datatype Answer = Nothing | Refused | Waiting | Got(blocks: seq<Block>)

  /** The blocks of a Put are pushed; one whose number is queued is dropped unless duplicates are allowed. */
  method PushAll(items: seq<Block>, m: set<nat>, dup: bool, bs: seq<Block>) returns (s: seq<Block>, m': set<nat>, ghost added: seq<Block>)
    requires IsHeap(items) && (!dup ==> Tracks(m, multiset(items)))
    ensures IsHeap(s) && (!dup ==> Tracks(m', multiset(s))) && multiset(s) == multiset(items) + multiset(added)
    ensures added == Admitted(m, dup, bs)
  {
    s, m', added := items, m, [];
    ghost var seen := m;
    for i := 0 to |bs|
      invariant IsHeap(s) && (!dup ==> Tracks(m', multiset(s)) && seen == m')
      invariant multiset(s) == multiset(items) + multiset(added)
      invariant Admitted(m, dup, bs) == added + Admitted(seen, dup, bs[i..])
    {
      AdmittedStep(seen, dup, bs, i);
      var pushed;
      s, m', pushed := PushOne(s, m', dup, bs[i]);
      if pushed {
        Joined(added, bs[i], Admitted(seen + {bs[i].number}, dup, bs[i + 1..]));
        added, seen := added + [bs[i]], seen + {bs[i].number};
      }
    }
  }

  lemma AdmittedStep(m: set<nat>, dup: bool, bs: seq<Block>, i: nat)
    requires i < |bs|
    ensures Admitted(m, dup, bs[i..]) ==
      if !dup && bs[i].number in m then Admitted(m, dup, bs[i + 1..]) else [bs[i]] + Admitted(m + {bs[i].number}, dup, bs[i + 1..])
  {
    assert bs[i..][1..] == bs[i + 1..];
  }

  lemma Joined(s: seq<Block>, x: Block, t: seq<Block>)
    ensures s + ([x] + t) == s + [x] + t
  {
  }

  method PushOne(items: seq<Block>, m: set<nat>, dup: bool, x: Block) returns (s: seq<Block>, m': set<nat>, pushed: bool)
    requires IsHeap(items) && (!dup ==> Tracks(m, multiset(items)))
    ensures pushed <==> dup || x.number !in m
    ensures IsHeap(s) && (!dup ==> Tracks(m', multiset(s))) && multiset(s) == if pushed then multiset(items) + multiset{x} else multiset(items)
    ensures m' == if pushed && !dup then m + {x.number} else m
  {
    s, m', pushed := items, m, dup || x.number !in m;
    if pushed {
      s := Push(items, x);
      if !dup {
        TracksMore(m, multiset(items), x);
        m' := m + {x.number};
      }
    }
  }

  /** The waiters are served in turn until none is left or nothing is. */
  method ServeAll(items: seq<Block>, m: set<nat>, dup: bool, ws: seq<Waiter>) returns (s: seq<Block>, m': set<nat>, ds: seq<Delivery>)
    requires IsHeap(items) && (!dup ==> Tracks(m, multiset(items))) && (forall i :: 0 <= i < |ws| ==> ws[i].number >= 1)
    requires ws != [] ==> items != []
    ensures IsHeap(s) && (!dup ==> Tracks(m', multiset(s)))
    ensures Serves(multiset(items), ws, ds, multiset(s)) && |ds| <= |ws| && (|ds| == |ws| || s == [])
  {
    s, m', ds := items, m, [];
    while |ds| < |ws| && |s| > 0
      invariant IsHeap(s) && (!dup ==> Tracks(m', multiset(s)))
      invariant |ds| <= |ws| && Serves(multiset(items), ws, ds, multiset(s))
      decreases |ws| - |ds|
    {
      ghost var all := multiset(s);
      assert s[0] in all;
      var got;
      got, s := Take(s, ws[|ds|].number);
      if !dup {
        TracksLess(m', all, got, multiset(s));
        m' := m' - Numbers(got);
      }
      ServesNext(multiset(items), ws, ds, all, got, multiset(s));
      ds := ds + [Delivery(ws[|ds|], got)];
    }
  }

  /** Everything that was handed out. */
  ghost function Handed(ds: seq<Delivery>): (h: multiset<Block>)
    decreases |ds|
  {
    if ds == [] then multiset{} else Handed(ds[..|ds| - 1]) + multiset(ds[|ds| - 1].blocks)
  }

  lemma {:induction false} Conserved(all: multiset<Block>, ws: seq<Waiter>, ds: seq<Delivery>, rest: multiset<Block>)
    requires Serves(all, ws, ds, rest)
    ensures all == Handed(ds) + rest
    decreases |ds|
  {
    if ds != [] {
      Conserved(all, ws, ds[..|ds| - 1], rest + multiset(ds[|ds| - 1].blocks));
    }
  }

  /** From a queue with something in it, at least one block is taken. */
  lemma SomeTaken(all: multiset<Block>, n: nat, got: seq<Block>, rest: multiset<Block>)
    requires Takes(all, n, got, rest) && all != multiset{} && n >= 1
    ensures 1 <= |got| <= n
  {
  }

  /**
   What every step keeps: there are never both blocks and waiters; the map holds exactly the queued
   numbers; no block is lost or handed out twice. A disposed queue is empty, and its map is no longer used.
   */
  ghost predicate Sound(dup: bool, items: seq<Block>, m: set<nat>, ws: seq<Waiter>, disposed: bool, acc: multiset<Block>, del: multiset<Block>) {
    && IsHeap(items) && (ws != [] ==> items == []) && (forall i :: 0 <= i < |ws| ==> ws[i].number >= 1)
    && (disposed ==> items == [] && ws == [])
    && (!disposed && !dup ==> Tracks(m, multiset(items)))
    && (!disposed ==> acc == del + multiset(items))
  }

  /** Put: new blocks are let in, and then the first waiters are handed the smallest blocks in turn. */
  ghost predicate LetIn(dup: bool, items: seq<Block>, m: set<nat>, ws: seq<Waiter>, acc: multiset<Block>, bs: seq<Block>,
                        items': seq<Block>, ws': seq<Waiter>, acc': multiset<Block>, ds: seq<Delivery>) {
    var added := multiset(Admitted(m, dup, bs));
    && acc' == acc + added && Serves(multiset(items) + added, ws, ds, multiset(items'))
    && |ds| <= |ws| && ws' == ws[|ds|..]
  }

  /** Put on a queue that is not disposed. */
  method PutFields(dup: bool, items: seq<Block>, m: set<nat>, ws: seq<Waiter>, ghost acc: multiset<Block>, ghost del: multiset<Block>, bs: seq<Block>)
    returns (s: seq<Block>, m': set<nat>, ds: seq<Delivery>, ghost acc': multiset<Block>, ghost del': multiset<Block>)
    requires Sound(dup, items, m, ws, false, acc, del) && bs != []
    ensures |ds| <= |ws| && LetIn(dup, items, m, ws, acc, bs, s, ws[|ds|..], acc', ds)
    ensures Sound(dup, s, m', ws[|ds|..], false, acc', del')
  {
    ghost var added;
    s, m', added := PushAll(items, m, dup, bs);
    if ws != [] {
      EmptyTracks(m, dup, items);
      assert added[0] in multiset(s);
    }
    ghost var all := multiset(s);
    s, m', ds := ServeAll(s, m', dup, ws);
    Conserved(all, ws, ds, multiset(s));
    NothingLost(acc, del, multiset(items), multiset(added), Handed(ds), multiset(s));
    acc', del' := acc + multiset(added), del + Handed(ds);
  }

  lemma EmptyTracks(m: set<nat>, dup: bool, items: seq<Block>)
    requires !dup ==> Tracks(m, multiset(items))
    ensures !dup && items == [] ==> m == {}
  {
    if !dup && items == [] {
      assert forall k :: k in m ==> Named(m, k);
    }
  }

  lemma NothingLost(accepted: multiset<Block>, delivered: multiset<Block>, was: multiset<Block>, added: multiset<Block>, handed: multiset<Block>, now: multiset<Block>)
    requires accepted == delivered + was && was + added == handed + now
    ensures accepted + added == delivered + handed + now
  {
    assert accepted + added == delivered + (was + added);
  }

  /** Get on a queue with something in it. */
  method GetFields(dup: bool, items: seq<Block>, m: set<nat>, ws: seq<Waiter>, ghost acc: multiset<Block>, ghost del: multiset<Block>, n: nat)
    returns (got: seq<Block>, s: seq<Block>, ghost del': multiset<Block>)
    requires Sound(dup, items, m, ws, false, acc, del) && items != [] && n >= 1
    ensures Takes(multiset(items), n, got, multiset(s)) && 1 <= |got| <= n && ws == []
    ensures Sound(dup, s, m - Numbers(got), ws, false, acc, del')
  {
    ghost var all := multiset(items);
    assert items[0] in all;
    got, s := Take(items, n);
    if !dup {
      TracksLess(m, all, got, multiset(s));
    }
    SomeTaken(all, n, got, multiset(s));
    assert del + (multiset(got) + multiset(s)) == del + multiset(got) + multiset(s);
    del' := del + multiset(got);
  }

  /** Whoever is handed anything asked for it first, and gets one to `number` blocks, in order. */
  lemma {:induction false} ServedWell(all: multiset<Block>, ws: seq<Waiter>, ds: seq<Delivery>, rest: multiset<Block>, i: nat)
    requires Serves(all, ws, ds, rest) && i < |ds|
    ensures |ds| <= |ws| && ds[i].waiter == ws[i] && 1 <= |ds[i].blocks| <= ws[i].number && Ascending(ds[i].blocks)
    decreases |ds|
  {
    var last := |ds| - 1;
    var d := ds[last];
    if i == last {
      SomeTaken(rest + multiset(d.blocks), d.waiter.number, d.blocks, rest);
    } else {
      ServedWell(all, ws, ds[..last], rest + multiset(d.blocks), i);
    }
  }

  /** No block is handed out before a smaller one that is left. */
  lemma {:induction false} ServedSmallest(all: multiset<Block>, ws: seq<Waiter>, ds: seq<Delivery>, rest: multiset<Block>, i: nat, x: Block, y: Block)
    requires Serves(all, ws, ds, rest) && i < |ds| && x in ds[i].blocks && y in rest
    ensures x.number <= y.number
    decreases |ds|
  {
    var last := |ds| - 1;
    if i < last {
      ServedSmallest(all, ws, ds[..last], rest + multiset(ds[last].blocks), i, x, y);
    }
  }

  class PriorityQueue {
    const allowDuplicates: bool
    var items: seq<Block>
    var itemMap: set<nat>
    var waiters: seq<Waiter>
    var disposed: bool
    /** All blocks ever let in, and all ever handed out. */
    ghost var accepted: multiset<Block>
    ghost var delivered: multiset<Block>

    ghost predicate Valid()
      reads this
    {
      Sound(allowDuplicates, items, itemMap, waiters, disposed, accepted, delivered)
    }

    constructor (allowDuplicates: bool)
      ensures Valid() && !disposed && items == [] && waiters == [] && this.allowDuplicates == allowDuplicates
      ensures accepted == delivered == multiset{}
    {
      this.allowDuplicates := allowDuplicates;
      items, itemMap, waiters, disposed := [], {}, [], false;
      accepted, delivered := multiset{}, multiset{};
    }

    /** Put; not `ok` is ErrDisposed. `ds` is what the waiting callers are handed. */
    method Put(bs: seq<Block>) returns (ok: bool, ds: seq<Delivery>)
      requires Valid()
      modifies this
      ensures Valid() && disposed == old(disposed) && (ok <==> bs == [] || !disposed)
      ensures bs == [] || disposed ==> ds == [] && items == old(items) && itemMap == old(itemMap) && waiters == old(waiters) && accepted == old(accepted)
      ensures bs != [] && !disposed ==>
        LetIn(allowDuplicates, old(items), old(itemMap), old(waiters), old(accepted), bs, items, waiters, accepted, ds)
    {
      ok, ds := true, [];
      if |bs| == 0 {
        return;
      }
      if disposed {
        return false, [];
      }
      var s, m;
      ghost var acc, del;
      s, m, ds, acc, del := PutFields(allowDuplicates, items, itemMap, waiters, accepted, delivered, bs);
      items, itemMap, waiters, accepted, delivered := s, m, waiters[|ds|..], acc, del;
    }

    /** Get; a caller that has to wait is answered by a later Put or Dispose. */
    method Get(id: nat, number: int) returns (r: Answer)
      requires Valid()
      modifies this
      ensures Valid() && disposed == old(disposed) && accepted == old(accepted)
      ensures r.Nothing? <==> number < 1
      ensures r.Refused? <==> number >= 1 && disposed
      ensures r.Waiting? <==> number >= 1 && !disposed && old(items) == []
      ensures r.Got? ==> old(items) != [] && 1 <= |r.blocks| <= number && waiters == old(waiters) == []
      ensures r.Got? ==> Takes(multiset(old(items)), number, r.blocks, multiset(items)) && itemMap == old(itemMap) - Numbers(r.blocks)
      ensures !r.Got? ==> items == old(items) && itemMap == old(itemMap)
      ensures waiters == if r.Waiting? then old(waiters) + [Waiter(id, number)] else old(waiters)
    {
      if number < 1 {
        return Nothing;
      }
      if disposed {
        return Refused;
      }
      if |items| == 0 {
        waiters := waiters + [Waiter(id, number)];
        return Waiting;
      }
      var got, s;
      ghost var del;
      got, s, del := GetFields(allowDuplicates, items, itemMap, waiters, accepted, delivered, number);
      items, itemMap, delivered := s, itemMap - Numbers(got), del;
      r := Got(got);
    }

    /** Dispose: all waiting callers are sent away; what was queued is dropped, its numbers stay in the map. */
    method Dispose() returns (released: seq<Waiter>)
      requires Valid()
      modifies this`items, this`waiters, this`disposed
      ensures Valid() && disposed && items == [] && waiters == [] && released == old(waiters)
    {
      released := waiters;
      disposed, items, waiters := true, [], [];
    }
  }

  datatype Call = PutCall(bs: seq<Block>) | GetCall(id: nat, number: int) | DisposeCall

  /** Any interleaving of calls keeps the queue sound; what was let in is what was handed out and what is queued. */
  method RunCalls(q: PriorityQueue, calls: seq<Call>)
    requires q.Valid()
    modifies q
    ensures q.Valid() && (!q.disposed ==> q.accepted == q.delivered + multiset(q.items))
  {
    for i := 0 to |calls|
      invariant q.Valid()
    {
      match calls[i]
      case PutCall(bs) =>
        var _, _ := q.Put(bs);
      case GetCall(id, number) =>
        var _ := q.Get(id, number);
      case DisposeCall =>
        var _ := q.Dispose();
    }
  }
}
