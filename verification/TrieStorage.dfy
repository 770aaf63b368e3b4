/** Reading nodes back from storage (state/immutable-trie/storage.go). */
module TrieStorage {
  import opened Nibbles
  import opened Rlp
  import opened Options
  import opened PatriciaTree
  import opened TrieNodes
  import opened TrieFrames

  /** The RLP values decodeNode accepts. */
  ghost predicate Decodes(v: Value)
    decreases v
  {
    match v
    case Bytes(_) => true
    case List(items) =>
      if |items| == 2 then
        && items[0].Bytes? && items[0].buf.Raw? && items[0].buf.bytes != []
        && (if HasTerminator(Expanded(items[0].buf.bytes)) then items[1].Bytes? else Decodes(items[1]))
      else
        && |items| == 17 && items[16].Bytes?
        && forall i :: 0 <= i < 16 ==> items[i] == Bytes(EMPTY) || Decodes(items[i])
  }

  /** `v` is how the hasher wrote the stored trie `t`, as a node of its own or inside its parent. */
  ghost predicate Written(db: Db, v: Value, t: Tree) {
    Proper(t) && Persisted(db, t) && (v == Enc(db.inline, t) || v == Ref(db.inline, t))
  }

  /** `n` stands for `t` and reaches only cells from `b` on. */
  ghost predicate Fresh(db: Db, b: nat, cells: Cells, n: Node, t: Tree) {
    Denotes(db, cells, n, t) && forall x :: x in Reach(cells, n, t) ==> x >= b
  }

  lemma FreshFrame(db: Db, b: nat, cells: Cells, cells': Cells, n: Node, t: Tree)
    requires Fresh(db, b, cells, n, t) && cells <= cells'
    ensures Fresh(db, b, cells', n, t)
  {
    Frame(db, cells, cells', n, t);
  }

  ghost function ChildOf(t: Tree): (c: Tree) {
    if t.Short? then t.child else Nil
  }

  ghost function KidOf(t: Tree, i: nat): (c: Tree) {
    if t.Full? && i < |t.kids| then t.kids[i] else Nil
  }

  lemma RefEmpty(inline: Value -> bool, t: Tree)
    requires Canonical(t)
    ensures Ref(inline, t) == Bytes(EMPTY) <==> t.Nil?
  {
  }

  ghost predicate ShortWritten(db: Db, items: seq<Value>, t: Tree) {
    && |items| == 2 && t.Short?
    && items[0].Bytes? && items[0].buf.Raw? && items[0].buf.bytes != [] && Expanded(items[0].buf.bytes) == t.key
    && (if HasTerminator(t.key) then items[1].Bytes? && t.child == Leaf(items[1].buf)
        else Written(db, items[1], t.child))
  }

  lemma WrittenShort(db: Db, v: Value, t: Tree)
    requires Written(db, v, t) && v.List? && |v.items| == 2
    ensures ShortWritten(db, v.items, t)
  {
    assert v == Enc(db.inline, t);
    assert v.items[1] == Ref(db.inline, t.child);
    DecodeEncode(t.key);
  }

  ghost predicate EdgeWritten(db: Db, v: Value, t: Tree) {
    if v == Bytes(EMPTY) then t.Nil? else Written(db, v, t)
  }

  ghost predicate EdgesWritten(db: Db, items: seq<Value>, t: Tree) {
    && |items| == 17 && t.Full? && |t.kids| == 17
    && (forall i :: 0 <= i < 16 ==> EdgeWritten(db, items[i], t.kids[i]))
    && items[16].Bytes?
    && (if items[16].buf == EMPTY then t.kids[16].Nil? else t.kids[16] == Leaf(items[16].buf))
  }

  lemma WrittenFull(db: Db, v: Value, t: Tree)
    requires Written(db, v, t) && v.List? && |v.items| == 17
    ensures EdgesWritten(db, v.items, t)
  {
    assert v == Enc(db.inline, t);
    forall i | 0 <= i < 16 ensures EdgeWritten(db, v.items[i], t.kids[i]) {
      assert v.items[i] == Ref(db.inline, t.kids[i]);
      RefEmpty(db.inline, t.kids[i]);
    }
    assert v.items[16] == Ref(db.inline, t.kids[16]);
  }

  /** The first `i` edges are decoded. */
  ghost predicate KidsDone(db: Db, b: nat, cells: Cells, kids: seq<Node>, t: Tree, i: nat) {
    && t.Full? && |kids| == |t.kids| == 17 && i <= 17
    && forall j :: 0 <= j < i ==> Fresh(db, b, cells, kids[j], t.kids[j])
  }

  lemma KidsDoneFrame(db: Db, b: nat, cells: Cells, cells': Cells, kids: seq<Node>, t: Tree, i: nat)
    requires KidsDone(db, b, cells, kids, t, i) && cells <= cells'
    ensures KidsDone(db, b, cells', kids, t, i)
  {
    forall j | 0 <= j < i ensures Fresh(db, b, cells', kids[j], t.kids[j]) {
      FreshFrame(db, b, cells, cells', kids[j], t.kids[j]);
    }
  }

  lemma FullDone(db: Db, b: nat, cells: Cells, kids: seq<Node>, t: Tree)
    requires KidsDone(db, b, cells, kids, t, 17) && b <= |cells|
    ensures Fresh(db, b, cells + [FullCell(None, 0, kids)], Ptr(|cells|), t)
  {
    var cells' := cells + [FullCell(None, 0, kids)];
    KidsDoneFrame(db, b, cells, cells', kids, t, 17);
    forall x | x in KidsReach(cells', kids, t) ensures x >= b {
      var i :| 0 <= i < 17 && x in Reach(cells', kids[i], t.kids[i]);
      assert Fresh(db, b, cells', kids[i], t.kids[i]);
    }
    assert Reach(cells', Ptr(|cells|), t) == {|cells|} + KidsReach(cells', kids, t);
  }

  /** decodeNode: None is its error return. */
  method DecodeNode(ghost db: Db, cells: Cells, v: Value, ghost t: Tree) returns (cells': Cells, r: Option<Node>)
    ensures cells <= cells' && UnownedFrom(cells', |cells|)
    ensures r.Some? <==> Decodes(v)
    ensures r.Some? && v.List? ==> r.value.Ptr?
    ensures Written(db, v, t) ==> r.Some? && Fresh(db, |cells|, cells', r.value, t)
    decreases v, 1
  {
    match v
    case Bytes(buf) =>
      cells', r := cells, Some(HashNode(buf));
    case List(items) =>
      if |items| == 2 {
        if Written(db, v, t) {
          WrittenShort(db, v, t);
        }
        cells', r := DecodeShort(db, cells, items, t);
      } else if |items| == 17 {
        if Written(db, v, t) {
          WrittenFull(db, v, t);
        }
        cells', r := DecodeFull(db, cells, items, t);
      } else {
        cells', r := cells, None;
      }
  }

  method DecodeShort(ghost db: Db, cells: Cells, items: seq<Value>, ghost t: Tree)
    returns (cells': Cells, r: Option<Node>)
    requires |items| == 2
    ensures cells <= cells' && UnownedFrom(cells', |cells|)
    ensures r.Some? <==> Decodes(List(items))
    ensures r.Some? ==> r.value.Ptr?
    ensures ShortWritten(db, items, t) ==> r.Some? && Fresh(db, |cells|, cells', r.value, t)
    decreases items
  {
    cells', r := cells, None;
    var k := items[0];
    if k.Bytes? && k.buf.Raw? && k.buf.bytes != [] {
      var key := Expanded(k.buf.bytes);
      if HasTerminator(key) {
        if items[1].Bytes? {
          if ShortWritten(db, items, t) {
            ShortDone(db, |cells|, cells, key, ValueNode(items[1].buf), t);
          }
          cells' := cells + [ShortCell(None, key, ValueNode(items[1].buf))];
          r := Some(Ptr(|cells|));
        }
      } else {
        var c;
        cells', c := DecodeNode(db, cells, items[1], ChildOf(t));
        if c.Some? {
          if ShortWritten(db, items, t) {
            ShortDone(db, |cells|, cells', key, c.value, t);
          }
          r := Some(Ptr(|cells'|));
          cells' := cells' + [ShortCell(None, key, c.value)];
        }
      }
    }
  }

  lemma ShortDone(db: Db, b: nat, cells: Cells, key: Hex, c: Node, t: Tree)
    requires b <= |cells| && t.Short? && t.key == key && Fresh(db, b, cells, c, t.child)
    ensures Fresh(db, b, cells + [ShortCell(None, key, c)], Ptr(|cells|), t)
  {
    FreshFrame(db, b, cells, cells + [ShortCell(None, key, c)], c, t.child);
  }

  method DecodeEdge(ghost db: Db, cells: Cells, v: Value, ghost t: Tree) returns (cells': Cells, r: Option<Node>)
    ensures cells <= cells' && UnownedFrom(cells', |cells|)
    ensures r.Some? <==> v == Bytes(EMPTY) || Decodes(v)
    ensures EdgeWritten(db, v, t) ==> r.Some? && Fresh(db, |cells|, cells', r.value, t)
    decreases v, 2
  {
    if v == Bytes(EMPTY) {
      cells', r := cells, Some(NilNode);
    } else {
      cells', r := DecodeNode(db, cells, v, t);
    }
  }

  lemma KidsDoneStep(db: Db, b: nat, cells: Cells, cells': Cells, kids: seq<Node>, t: Tree, i: nat, n: Node)
    requires KidsDone(db, b, cells, kids, t, i) && i < 17 && b <= |cells| && cells <= cells'
    requires Fresh(db, |cells|, cells', n, t.kids[i])
    ensures KidsDone(db, b, cells', kids[i := n], t, i + 1)
  {
    KidsDoneFrame(db, b, cells, cells', kids, t, i);
    assert Fresh(db, b, cells', n, t.kids[i]);
  }

  /** The loop over the 16 children; not `ok` at the first that does not decode. */
  method DecodeKids(ghost db: Db, cells: Cells, items: seq<Value>, ghost t: Tree)
    returns (cells': Cells, kids: seq<Node>, ok: bool)
    requires |items| == 17
    ensures cells <= cells' && UnownedFrom(cells', |cells|)
    ensures ok <==> forall i :: 0 <= i < 16 ==> items[i] == Bytes(EMPTY) || Decodes(items[i])
    ensures |kids| == 17 && kids[16] == NilNode
    ensures EdgesWritten(db, items, t) ==> ok && KidsDone(db, |cells|, cells', kids, t, 16)
    decreases items, 0
  {
    cells', kids, ok := cells, seq(17, _ => NilNode), true;
    ghost var written := EdgesWritten(db, items, t);
    var i := 0;
    while i < 16 && ok
      invariant i <= 16 && |kids| == 17 && kids[16] == NilNode
      invariant cells <= cells' && UnownedFrom(cells', |cells|)
      invariant ok <==> forall j :: 0 <= j < i ==> items[j] == Bytes(EMPTY) || Decodes(items[j])
      invariant written ==> ok && KidsDone(db, |cells|, cells', kids, t, i)
    {
      ghost var cells1 := cells';
      var c;
      cells', c := DecodeEdge(db, cells', items[i], KidOf(t, i));
      ok := c.Some?;
      if ok {
        if written {
          KidsDoneStep(db, |cells|, cells1, cells', kids, t, i, c.value);
        }
        kids := kids[i := c.value];
      }
      i := i + 1;
    }
  }

  method DecodeFull(ghost db: Db, cells: Cells, items: seq<Value>, ghost t: Tree)
    returns (cells': Cells, r: Option<Node>)
    requires |items| == 17
    ensures cells <= cells' && UnownedFrom(cells', |cells|)
    ensures r.Some? <==> Decodes(List(items))
    ensures r.Some? ==> r.value.Ptr?
    ensures EdgesWritten(db, items, t) ==> r.Some? && Fresh(db, |cells|, cells', r.value, t)
    decreases items, 1
  {
    var kids, ok;
    cells', kids, ok := DecodeKids(db, cells, items, t);
    r := None;
    if ok && items[16].Bytes? {
      if items[16].buf != EMPTY {
        kids := kids[16 := ValueNode(items[16].buf)];
      }
      if EdgesWritten(db, items, t) {
        FullDone(db, |cells|, cells', kids, t);
      }
      r := Some(Ptr(|cells'|));
      cells' := cells' + [FullCell(None, 0, kids)];
    }
  }

  datatype Fetched = Missing | Malformed | Loaded(node: Node)

  /** GetNode: missing data, an undecodable item (on which every caller panics), or a node. */
  method GetNode(db: Db, cells: Cells, h: Buf, ghost t: Tree) returns (cells': Cells, r: Fetched)
    ensures cells <= cells' && UnownedFrom(cells', |cells|)
    ensures r.Missing? <==> h !in db.nodes
    ensures r.Loaded? <==> h in db.nodes && db.nodes[h].List? && Decodes(db.nodes[h])
    ensures Proper(t) && Persisted(db, t) && h == Keccak(Enc(db.inline, t)) && InStore(db, Enc(db.inline, t)) ==>
      r.Loaded? && r.node.Ptr? && Fresh(db, |cells|, cells', r.node, t)
  {
    cells' := cells;
    if h !in db.nodes {
      r := Missing;
    } else if !db.nodes[h].List? {
      r := Malformed;
    } else {
      var n;
      cells', n := DecodeNode(db, cells, db.nodes[h], t);
      r := if n.Some? then Loaded(n.value) else Malformed;
    }
  }
}
