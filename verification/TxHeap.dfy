/**
 The heap of best transactions (types/transaction.go:173-208), kept by Go's container/heap: Init, Fix at
 the root and Pop, as that package defines them.
 */
module TxHeap {
  import opened HeapIndex

  datatype Tx = Tx(from: nat, nonce: nat, price: nat, time: int, id: nat)

  /** Less: the higher price first, and of equal prices the one seen earlier. */
  predicate Better(a: Tx, b: Tx) {
    a.price > b.price || (a.price == b.price && a.time < b.time)
  }

  ghost predicate TxAt(s: seq<Tx>, k: nat)
    requires k < |s|
  {
    !Better(s[k], s[Parent(k)])
  }

  /** No transaction below `i` is better than its parent. */
  ghost predicate HeapFrom(s: seq<Tx>, i: nat) {
    forall k :: 0 < k < |s| && Parent(k) >= i ==> TxAt(s, k)
  }

  lemma {:induction false} RootBest(s: seq<Tx>, k: nat)
    requires HeapFrom(s, 0) && k < |s|
    ensures !Better(s[k], s[0])
  {
    if k > 0 {
      RootBest(s, Parent(k));
      assert TxAt(s, k);
    }
  }

  /** A heap from `top` on, but for the children of `i`, which are no better than its parent. */
  ghost predicate HeapBut(s: seq<Tx>, top: nat, i: nat) {
    && (i == top || (top < i && Parent(i) >= top))
    && (forall k :: 0 < k < |s| && Parent(k) >= top && Parent(k) != i ==> TxAt(s, k))
    && (top < i < |s| ==> forall k {:trigger Parent(k)} :: 0 < k < |s| && Parent(k) == i ==> !Better(s[k], s[Parent(i)]))
  }

  ghost predicate IsBetterChild(s: seq<Tx>, i: nat, c: nat) {
    0 < c < |s| && Parent(c) == i && forall k :: 0 < k < |s| && Parent(k) == i ==> !Better(s[k], s[c])
  }

  lemma ButExchanged(s: seq<Tx>, top: nat, i: nat, c: nat)
    requires HeapBut(s, top, i) && IsBetterChild(s, i, c) && Better(s[c], s[i])
    ensures HeapBut(Swap(s, i, c), top, c)
  {
    var r := Swap(s, i, c);
    forall k | 0 < k < |r| && Parent(k) >= top && Parent(k) != c ensures TxAt(r, k) {
      assert Parent(k) != i ==> TxAt(s, k);
    }
    forall k | 0 < k < |r| && Parent(k) == c ensures !Better(r[k], r[Parent(c)]) {
      assert TxAt(s, k);
    }
  }

  lemma ButDone(s: seq<Tx>, top: nat, i: nat)
    requires HeapBut(s, top, i) && forall k :: 0 < k < |s| && Parent(k) == i ==> !Better(s[k], s[i])
    ensures HeapFrom(s, top)
  {
    forall k | 0 < k < |s| && Parent(k) >= top ensures TxAt(s, k) {
    }
  }

  method BetterChild(s: seq<Tx>, i: nat) returns (child: nat, found: bool)
    ensures found ==> IsBetterChild(s, i, child)
    ensures !found ==> forall k :: 0 < k < |s| ==> Parent(k) != i
  {
    var left, right := 2 * i + 1, 2 * i + 2;
    child, found := left, left < |s|;
    if right < |s| && Better(s[right], s[left]) {
      child := right;
    }
    forall k | 0 < k < |s| ensures Parent(k) == i <==> k == left || k == right {
      ChildrenOf(i, k);
    }
  }

  /** heap.down */
  method Down(heads: seq<Tx>, top: nat) returns (s: seq<Tx>)
    requires HeapFrom(heads, top + 1)
    ensures HeapFrom(s, top) && |s| == |heads| && multiset(s) == multiset(heads)
  {
    s := heads;
    var i := top;
    var child, found := BetterChild(s, i);
    while found && Better(s[child], s[i])
      invariant HeapBut(s, top, i) && |s| == |heads| && multiset(s) == multiset(heads)
      invariant found ==> IsBetterChild(s, i, child)
      invariant !found ==> forall k :: 0 < k < |s| ==> Parent(k) != i
      decreases |s| - i
    {
      ButExchanged(s, top, i, child);
      s := Swap(s, i, child);
      i := child;
      child, found := BetterChild(s, i);
    }
    ButDone(s, top, i);
  }

  /** heap.Init */
  method Init(heads: seq<Tx>) returns (s: seq<Tx>)
    ensures HeapFrom(s, 0) && multiset(s) == multiset(heads)
  {
    s := heads;
    var i := |s| / 2;
    while i > 0
      invariant 0 <= i && HeapFrom(s, i) && |s| == |heads| && multiset(s) == multiset(heads)
    {
      i := i - 1;
      s := Down(s, i);
    }
  }

  /** heap.Fix at the root, whose value may have changed; going up from the root does nothing. */
  method Fix(heads: seq<Tx>) returns (s: seq<Tx>)
    requires HeapFrom(heads, 1)
    ensures HeapFrom(s, 0) && multiset(s) == multiset(heads)
  {
    s := Down(heads, 0);
  }

  /** heap.Pop */
  method PopBest(heads: seq<Tx>) returns (s: seq<Tx>)
    requires HeapFrom(heads, 0) && heads != []
    ensures HeapFrom(s, 0) && multiset(heads) == multiset(s) + multiset{heads[0]}
  {
    var last := |heads| - 1;
    var h := Swap(heads, 0, last);
    assert h == h[..last] + [h[last]];
    LastCut(heads, h);
    s := Down(h[..last], 0);
  }

  lemma LastCut(heads: seq<Tx>, h: seq<Tx>)
    requires HeapFrom(heads, 0) && heads != [] && h == Swap(heads, 0, |heads| - 1)
    ensures HeapFrom(h[..|h| - 1], 1)
  {
    var s := h[..|h| - 1];
    forall k | 0 < k < |s| && Parent(k) >= 1 ensures TxAt(s, k) {
      assert TxAt(heads, k);
    }
  }
}
