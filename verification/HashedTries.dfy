/** Tries whose keys are all hashes: what a run of insertions and deletions makes each lookup answer. */
module HashedTries {
  import opened Nibbles
  import opened Rlp
  import opened Options
  import opened PatriciaTree
  import opened PatriciaDelete
  import opened PatriciaCanon

  /** Every stored key comes from 32 bytes. */
  ghost predicate HashKeys(t: Tree) {
    Canonical(t) && forall q :: Terminated(q) && Lookup(t, q).Some? ==> |q| == 65
  }

  ghost predicate HashOps(ops: seq<Op>) {
    NonEmptyValues(ops) && forall i :: 0 <= i < |ops| ==> |ops[i].key| == 32
  }

  ghost predicate DistinctKeys(ops: seq<Op>) {
    forall i, j :: 0 <= i < j < |ops| ==> ops[i].key != ops[j].key
  }

  /** What the key of `op` is bound to after it. */
  function After(op: Op): (r: Option<Buf>) {
    if op.Put? then Some(op.val) else None
  }

  lemma StepLookup(t: Tree, op: Op)
    requires HashKeys(t) && |op.key| == 32 && (op.Put? ==> op.val != EMPTY)
    ensures HashKeys(Step(t, op)) && Lookup(Step(t, op), HexOf(op.key)) == After(op)
    ensures forall q :: Terminated(q) && q != HexOf(op.key) ==> Lookup(Step(t, op), q) == Lookup(t, q)
  {
    var s := HexOf(op.key);
    match op
    case Put(_, v) =>
      LookupInserted(t, s, v);
      forall q | Terminated(q) && q != s ensures Lookup(Step(t, op), q) == Lookup(t, q) {
        LookupOther(t, s, v, q);
      }
    case Del(_) =>
      KeysAtMostMeaning(t, |s|);
      DeleteExact(t, s);
  }

  lemma {:induction false} RunKeepsKeys(t: Tree, ops: seq<Op>)
    requires HashKeys(t) && HashOps(ops)
    ensures HashKeys(Run(t, ops))
    decreases |ops|
  {
    if ops != [] {
      StepLookup(t, ops[0]);
      RunKeepsKeys(Step(t, ops[0]), ops[1..]);
    }
  }

  /** Keys no operation names answer as before. */
  lemma {:induction false} RunUntouched(t: Tree, ops: seq<Op>, q: Hex)
    requires HashKeys(t) && HashOps(ops) && Terminated(q) && forall i :: 0 <= i < |ops| ==> HexOf(ops[i].key) != q
    ensures Lookup(Run(t, ops), q) == Lookup(t, q)
    decreases |ops|
  {
    if ops != [] {
      StepLookup(t, ops[0]);
      RunUntouched(Step(t, ops[0]), ops[1..], q);
    }
  }

  lemma HexKeysDiffer(a: seq<Byte>, b: seq<Byte>)
    requires a != b
    ensures HexOf(a) != HexOf(b)
  {
    if HexOf(a) == HexOf(b) {
      HexOfInjective(a, b);
    }
  }

  lemma RestDistinct(ops: seq<Op>)
    requires HashOps(ops) && DistinctKeys(ops) && ops != []
    ensures HashOps(ops[1..]) && DistinctKeys(ops[1..])
    ensures forall j :: 0 <= j < |ops| - 1 ==> HexOf(ops[1..][j].key) != HexOf(ops[0].key)
  {
    var rest := ops[1..];
    forall j | 0 <= j < |rest| ensures HexOf(rest[j].key) != HexOf(ops[0].key) {
      HexKeysDiffer(rest[j].key, ops[0].key);
    }
  }

  /** A key named once answers as that operation says. */
  lemma {:induction false} RunTouched(t: Tree, ops: seq<Op>, i: nat)
    requires HashKeys(t) && HashOps(ops) && DistinctKeys(ops) && i < |ops|
    ensures Lookup(Run(t, ops), HexOf(ops[i].key)) == After(ops[i])
    decreases |ops|
  {
    StepLookup(t, ops[0]);
    RestDistinct(ops);
    if i == 0 {
      RunUntouched(Step(t, ops[0]), ops[1..], HexOf(ops[0].key));
    } else {
      assert ops[1..][i - 1] == ops[i];
      RunTouched(Step(t, ops[0]), ops[1..], i - 1);
    }
  }
}
