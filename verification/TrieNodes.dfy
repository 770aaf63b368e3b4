/**
 Trie nodes in memory (state/immutable-trie/trie.go, storage.go, hasher.go). The Go heap is an
 explicit sequence of node cells, so that sharing between tries and in-place updates are visible:
 a pointer is an index, allocation appends, `cells[a := c]` is an assignment through a pointer.
 */
module TrieNodes {
  import opened Nibbles
  import opened Rlp
  import opened Options
  import opened PatriciaTree

  /** A Go Node interface value. `HashNode` is a ValueNode whose `hash` flag is set. */
  datatype Node = NilNode | ValueNode(buf: Buf) | HashNode(buf: Buf) | Ptr(addr: nat)

  /** The two node structs; `kids` holds the 16 children and, at index 16, the value. */
  datatype Cell =
    | ShortCell(hash: Option<Buf>, key: Hex, child: Node)
    | FullCell(hash: Option<Buf>, epoch: nat, kids: seq<Node>)

  type Cells = seq<Cell>

  /** The key-value storage, and the test that makes the hasher embed a node instead of storing it. */
  datatype Db = Db(inline: Value -> bool, nodes: map<Buf, Value>)

  // How the hasher encodes a trie.

  ghost function KeyValue(k: Hex): (v: Value) {
    Bytes(Raw(if IsHex(k) then Compact(k) else []))
  }

  /** The RLP array of a short or full node. */
  ghost function Enc(inline: Value -> bool, t: Tree): (v: Value)
    requires t.Short? || t.Full?
    ensures v.List?
    decreases t, 0
  {
    if t.Short? then List([KeyValue(t.key), Ref(inline, t.child)])
    else List(seq(|t.kids|, i requires 0 <= i < |t.kids| => Ref(inline, t.kids[i])))
  }

  /** How a node occurs inside its parent: embedded, or by its hash. */
  ghost function Ref(inline: Value -> bool, t: Tree): (v: Value)
    decreases t, 1
  {
    match t
    case Nil => Bytes(EMPTY)
    case Leaf(b) => Bytes(b)
    case _ => if inline(Enc(inline, t)) then Enc(inline, t) else Bytes(Keccak(Enc(inline, t)))
  }

  ghost function RootHash(inline: Value -> bool, t: Tree): (h: Buf)
    requires Canonical(t)
  {
    if t.Nil? then Keccak(Bytes(EMPTY)) else Keccak(Enc(inline, t))
  }

  ghost predicate InStore(db: Db, v: Value) {
    Keccak(v) in db.nodes && db.nodes[Keccak(v)] == v
  }

  /** Every node below `t` that is referred to by hash is in the storage. */
  ghost predicate Persisted(db: Db, t: Tree) {
    match t
    case Nil => true
    case Leaf(_) => true
    case Short(_, c) => (db.inline(Enc(db.inline, t)) || InStore(db, Enc(db.inline, t))) && Persisted(db, c)
    case Full(kids) =>
      && (db.inline(Enc(db.inline, t)) || InStore(db, Enc(db.inline, t)))
      && forall i :: 0 <= i < |kids| ==> Persisted(db, kids[i])
  }

  /** A hash cached in a node, or standing for one, is that node's hash, and leads to it in storage. */
  ghost predicate HashOf(db: Db, h: Buf, t: Tree) {
    Proper(t) && Bytes(h) == Ref(db.inline, t) && Persisted(db, t)
  }

  // What a node in memory stands for.

  ghost predicate Denotes(db: Db, cells: Cells, n: Node, t: Tree)
    decreases t
  {
    match n
    case NilNode => t.Nil?
    case ValueNode(b) => t == Leaf(b)
    case HashNode(b) => HashOf(db, b, t)
    case Ptr(a) =>
      && a < |cells|
      && (cells[a].hash.Some? ==> HashOf(db, cells[a].hash.value, t))
      && match cells[a]
         case ShortCell(_, k, c) => t.Short? && t.key == k && Denotes(db, cells, c, t.child)
         case FullCell(_, _, kids) =>
           && t.Full? && |kids| == |t.kids| == 17
           && forall i :: 0 <= i < 17 ==> Denotes(db, cells, kids[i], t.kids[i])
  }

  /** The cells met on the way from `n` to its leaves. */
  ghost function Reach(cells: Cells, n: Node, t: Tree): (s: set<nat>)
    decreases t
  {
    if n.Ptr? && n.addr < |cells| then
      match cells[n.addr]
      case ShortCell(_, _, c) =>
        if t.Short? then {n.addr} + Reach(cells, c, t.child) else {}
      case FullCell(_, _, kids) =>
        if t.Full? && |kids| == |t.kids| == 17 then {n.addr} + KidsReach(cells, kids, t) else {}
    else {}
  }

  ghost function KidsReach(cells: Cells, kids: seq<Node>, t: Tree): (s: set<nat>)
    requires t.Full? && |kids| == |t.kids| == 17
    decreases t, 0
  {
    set i, x | 0 <= i < 17 && x in Reach(cells, kids[i], t.kids[i]) :: x
  }

  /** A full node that a transaction of epoch `e` may change in place. */
  ghost predicate Owned(cells: Cells, e: nat, a: nat) {
    a < |cells| && cells[a].FullCell? && cells[a].epoch == e
  }

  /** Reached through two different edges. */
  ghost predicate Shared(cells: Cells, kids: seq<Node>, t: Tree, x: nat)
    requires t.Full? && |kids| == |t.kids| == 17
  {
    exists i, j :: 0 <= i < j < 17 && x in Reach(cells, kids[i], t.kids[i]) && x in Reach(cells, kids[j], t.kids[j])
  }

  ghost predicate Apart(cells: Cells, e: nat, kids: seq<Node>, t: Tree)
    requires t.Full? && |kids| == |t.kids| == 17
  {
    forall x: nat :: Shared(cells, kids, t, x) ==> !Owned(cells, e, x)
  }

  /** Owned nodes have no cached hash and are reached in one way only. */
  ghost predicate Separate(cells: Cells, e: nat, n: Node, t: Tree)
    decreases t
  {
    n.Ptr? && n.addr < |cells| ==>
      match cells[n.addr]
      case ShortCell(_, _, c) => t.Short? ==> Separate(cells, e, c, t.child)
      case FullCell(h, ep, kids) =>
        t.Full? && |kids| == |t.kids| == 17 ==>
          && (ep == e ==> h.None?)
          && (forall i :: 0 <= i < 17 ==> Separate(cells, e, kids[i], t.kids[i]))
          && Apart(cells, e, kids, t)
  }

  // A reference or a node stands for one tree only.

  lemma {:induction false} RefInjective(inline: Value -> bool, t: Tree, u: Tree)
    requires Proper(t) && Proper(u) && Ref(inline, t) == Ref(inline, u)
    ensures t == u
    decreases t, 1
  {
    assert Enc(inline, t) == Enc(inline, u);
    EncInjective(inline, t, u);
  }

  lemma {:induction false} EncInjective(inline: Value -> bool, t: Tree, u: Tree)
    requires Proper(t) && Proper(u) && Enc(inline, t) == Enc(inline, u)
    ensures t == u
    decreases t, 0
  {
    var a, b := Enc(inline, t).items, Enc(inline, u).items;
    assert |a| == if t.Short? then 2 else 17;
    assert |b| == if u.Short? then 2 else 17;
    if t.Short? {
      assert a[0] == b[0] && a[1] == b[1];
      DecodeEncode(t.key);
      DecodeEncode(u.key);
      if !HasTerminator(t.key) {
        RefInjective(inline, t.child, u.child);
      }
    } else {
      forall i | 0 <= i < 17 ensures t.kids[i] == u.kids[i] {
        assert a[i] == Ref(inline, t.kids[i]) && b[i] == Ref(inline, u.kids[i]);
        if i < 16 && !t.kids[i].Nil? && !u.kids[i].Nil? {
          RefInjective(inline, t.kids[i], u.kids[i]);
        }
      }
    }
  }

  lemma {:induction false} DenotesUnique(db: Db, cells: Cells, n: Node, t: Tree, u: Tree)
    requires Denotes(db, cells, n, t) && Denotes(db, cells, n, u)
    ensures t == u
    decreases t
  {
    if n.HashNode? {
      RefInjective(db.inline, t, u);
    } else if n.Ptr? {
      match cells[n.addr]
      case ShortCell(_, _, c) => DenotesUnique(db, cells, c, t.child, u.child);
      case FullCell(_, _, kids) =>
        forall i | 0 <= i < 17 ensures t.kids[i] == u.kids[i] {
          DenotesUnique(db, cells, kids[i], t.kids[i], u.kids[i]);
        }
    }
  }

  /** Every reached cell stands for a subtree, so none lies below itself. */
  lemma {:induction false} ReachDenotes(db: Db, cells: Cells, n: Node, t: Tree, a: nat) returns (u: Tree)
    requires Denotes(db, cells, n, t) && a in Reach(cells, n, t)
    ensures Denotes(db, cells, Ptr(a), u) && ((n == Ptr(a) && u == t) || u < t)
    decreases t
  {
    if n == Ptr(a) {
      u := t;
    } else {
      match cells[n.addr]
      case ShortCell(_, _, c) => u := ReachDenotes(db, cells, c, t.child, a);
      case FullCell(_, _, kids) =>
        var i :| 0 <= i < 17 && a in Reach(cells, kids[i], t.kids[i]);
        u := ReachDenotes(db, cells, kids[i], t.kids[i], a);
    }
  }
}
