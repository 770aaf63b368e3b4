/** The binary heap of blocks (protocol/pq.go:69-131): a slice ordered by block number. */
module BlockHeap {
  import opened HeapIndex

  /** A block by its number; `id` tells blocks of one number apart. */
  datatype Block = Block(number: nat, id: nat)

  ghost predicate HeapAt(s: seq<Block>, i: nat)
    requires i < |s|
  {
    s[Parent(i)].number <= s[i].number
  }

  /** No block is before its parent. */
  ghost predicate IsHeap(s: seq<Block>) {
    forall i :: 0 <= i < |s| ==> HeapAt(s, i)
  }

  /** The root is the smallest. */
  lemma {:induction false} RootSmallest(s: seq<Block>, i: nat)
    requires IsHeap(s) && i < |s|
    ensures s[0].number <= s[i].number
  {
    if i > 0 {
      RootSmallest(s, Parent(i));
      assert HeapAt(s, i);
    }
  }

  // Bubbling up.

  /** A heap but for `i`, which may be before its parent; its children are not before that parent. */
  ghost predicate HeapAbove(s: seq<Block>, i: nat) {
    && i < |s|
    && (forall k :: 0 <= k < |s| && k != i ==> HeapAt(s, k))
    && forall k {:trigger Parent(k)} :: 0 < k < |s| && Parent(k) == i ==> s[Parent(i)].number <= s[k].number
  }

  lemma AboveSwapped(s: seq<Block>, i: nat)
    requires HeapAbove(s, i) && s[Parent(i)].number > s[i].number
    ensures i > 0 && HeapAbove(Swap(s, i, Parent(i)), Parent(i))
  {
    var p, r := Parent(i), Swap(s, i, Parent(i));
    forall k | 0 <= k < |r| && k != p ensures HeapAt(r, k) {
      assert k != i ==> HeapAt(s, k);
      if k != i && Parent(k) == i {
        assert s[p].number <= s[k].number;
      }
    }
    forall k | 0 < k < |r| && Parent(k) == p ensures r[Parent(p)].number <= r[k].number {
      assert HeapAt(s, p);
      assert k != i ==> HeapAt(s, k);
    }
  }

  lemma AboveDone(s: seq<Block>, i: nat)
    requires HeapAbove(s, i) && s[Parent(i)].number <= s[i].number
    ensures IsHeap(s)
  {
    forall k | 0 <= k < |s| ensures HeapAt(s, k) {
      if k == i {
        assert HeapAt(s, i);
      }
    }
  }

  /** push */
  method Push(items: seq<Block>, item: Block) returns (s: seq<Block>)
    requires IsHeap(items)
    ensures IsHeap(s) && multiset(s) == multiset(items) + multiset{item}
  {
    s := items + [item];
    var index: nat := |items|;
    var parent := Parent(index);
    Appended(items, item);
    while s[parent].number > item.number
      invariant HeapAbove(s, index) && s[index] == item && parent == Parent(index)
      invariant multiset(s) == multiset(items) + multiset{item}
      decreases index
    {
      AboveSwapped(s, index);
      s := Swap(s, index, parent);
      index := parent;
      parent := Parent(index);
    }
    AboveDone(s, index);
  }

  lemma Appended(items: seq<Block>, item: Block)
    requires IsHeap(items)
    ensures HeapAbove(items + [item], |items|)
  {
    var s := items + [item];
    forall k | 0 <= k < |s| && k != |items| ensures HeapAt(s, k) {
      assert HeapAt(items, k);
    }
  }

  // Bubbling down.

  /** A heap but for the children of `i`, which are not before its parent. */
  ghost predicate HeapBelow(s: seq<Block>, i: nat) {
    && (forall k :: 0 <= k < |s| && Parent(k) != i ==> HeapAt(s, k))
    && (i < |s| ==> HeapAt(s, i))
    && forall k {:trigger Parent(k)} :: 0 < k < |s| && Parent(k) == i && 0 < i < |s| ==> s[Parent(i)].number <= s[k].number
  }

  /** The smaller child, if it is before its parent, changes places with it. */
  lemma BelowSwapped(s: seq<Block>, i: nat, c: nat)
    requires HeapBelow(s, i) && IsSmallerChild(s, i, c) && s[c].number < s[i].number
    ensures HeapBelow(Swap(s, i, c), c)
  {
    var r := Swap(s, i, c);
    forall k | 0 <= k < |r| && Parent(k) != c ensures HeapAt(r, k) {
      assert Parent(k) != i ==> HeapAt(s, k);
    }
    forall k | 0 < k < |r| && Parent(k) == c ensures r[Parent(c)].number <= r[k].number {
      assert HeapAt(s, k);
    }
  }

  lemma BelowDone(s: seq<Block>, i: nat)
    requires HeapBelow(s, i) && forall k :: 0 < k < |s| && Parent(k) == i ==> s[i].number <= s[k].number
    ensures IsHeap(s)
  {
    forall k | 0 <= k < |s| ensures HeapAt(s, k) {
      if k == 0 {
        assert Parent(k) == 0;
      }
    }
  }

  /** pop: the smallest block, and a heap of the others. */
  method Pop(items: seq<Block>) returns (item: Block, s: seq<Block>)
    requires IsHeap(items) && items != []
    ensures IsHeap(s) && |s| == |items| - 1 && multiset(items) == multiset(s) + multiset{item}
    ensures forall x :: x in s ==> item.number <= x.number
  {
    var size := |items|;
    var swapped := Swap(items, size - 1, 0);
    item := swapped[size - 1];
    s := swapped[..size - 1];
    assert swapped == s + [item];
    ghost var m := multiset(s);
    SmallestLeft(items, s);
    RootReplaced(items, s);
    s := BubbleDown(s);
    forall x | x in s ensures item.number <= x.number {
      assert x in m;
    }
  }

  method BubbleDown(items: seq<Block>) returns (s: seq<Block>)
    requires HeapBelow(items, 0)
    ensures IsHeap(s) && |s| == |items| && multiset(s) == multiset(items)
  {
    s := items;
    var index: nat := 0;
    var child, found := SmallerChild(s, index);
    while found && s[child].number < s[index].number
      invariant HeapBelow(s, index) && |s| == |items| && multiset(s) == multiset(items)
      invariant found ==> IsSmallerChild(s, index, child)
      invariant !found ==> forall k :: 0 < k < |s| ==> Parent(k) != index
      decreases |s| - index
    {
      BelowSwapped(s, index, child);
      s := Swap(s, index, child);
      index := child;
      child, found := SmallerChild(s, index);
    }
    BelowDone(s, index);
  }

  ghost predicate IsSmallerChild(s: seq<Block>, i: nat, c: nat) {
    0 < c < |s| && Parent(c) == i && forall k :: 0 < k < |s| && Parent(k) == i ==> s[c].number <= s[k].number
  }

  /** The left child, or the right one if that is before it. */
  method SmallerChild(s: seq<Block>, index: nat) returns (child: nat, found: bool)
    ensures found ==> IsSmallerChild(s, index, child)
    ensures !found ==> forall k :: 0 < k < |s| ==> Parent(k) != index
  {
    var childL, childR := 2 * index + 1, 2 * index + 2;
    child, found := childL, childL < |s|;
    if childR < |s| && s[childR].number < s[childL].number {
      child := childR;
    }
    forall k | 0 < k < |s| ensures Parent(k) == index <==> k == childL || k == childR {
      ChildrenOf(index, k);
    }
  }

  lemma SmallestLeft(items: seq<Block>, s: seq<Block>)
    requires IsHeap(items) && items != [] && multiset(s) <= multiset(items)
    ensures forall x :: x in multiset(s) ==> items[0].number <= x.number
  {
    forall x | x in multiset(s) ensures items[0].number <= x.number {
      assert x in items;
      var i :| 0 <= i < |items| && items[i] == x;
      RootSmallest(items, i);
    }
  }

  lemma RootReplaced(items: seq<Block>, s: seq<Block>)
    requires IsHeap(items) && items != [] && s == Swap(items, |items| - 1, 0)[..|items| - 1]
    ensures HeapBelow(s, 0)
  {
    forall k | 0 <= k < |s| && Parent(k) != 0 ensures HeapAt(s, k) {
      assert HeapAt(items, k);
    }
  }
}
