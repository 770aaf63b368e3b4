/**
 Net gas metering (state/txn.go:246-316, the rules of the Specification section of EIP-2200): within one
 transaction the refund counter covers every slot that was cleared, so taking a refund back never wraps.
 Between two transactions of a block the counter is reset while the slots stay compared with the state
 before the block: every write of the next transaction, whatever it does, is exact if and only if the
 transactions before it left no slot cleared.
 */
module Refunds {
  import opened Nibbles
  import opened Options
  import opened Accounts
  import opened Overlay
  import opened StateTxn

  // What a storage write does.

  /** The slot takes the value; no other slot and no committed value changes. */
  lemma StoreMeaning(b: Base, v: View, a: Address, k: Word, w: Word, f: Forks)
    ensures var v' := SetStorage(b, v, a, k, w, f).0;
      && (forall x, y :: Slot(b, v', x, y) == if (x, y) == (a, k) then w else Slot(b, v, x, y))
      && forall x, y :: Original(b, v', x, y) == Original(b, v, x, y)
  {
    StoreObjects(b, v, a, k, w, f);
  }

  /** Nothing else of any account changes, nor do the logs. */
  lemma StoreKeeps(b: Base, v: View, a: Address, k: Word, w: Word, f: Forks)
    ensures var v' := SetStorage(b, v, a, k, w, f).0;
      && v'.logs == v.logs
      && (forall x :: Balance(b, v', x) == Balance(b, v, x) && Nonce(b, v', x) == Nonce(b, v, x))
      && (CodesOk(b) ==> forall x :: Code(b, v', x) == Code(b, v, x))
  {
    StoreObjects(b, v, a, k, w, f);
  }

  /** The reported status, each by its own condition. */
  lemma StoreStatus(b: Base, v: View, a: Address, k: Word, w: Word, f: Forks)
    ensures var status := SetStorage(b, v, a, k, w, f).1;
      var current, first := Slot(b, v, a, k), LegacyMetering(f) || Original(b, v, a, k) == Slot(b, v, a, k);
      && (status == StorageUnchanged <==> w == current)
      && (status == StorageModifiedAgain <==> w != current && !first)
      && (status == StorageAdded <==> w != ZERO && current == ZERO && first)
      && (status == StorageDeleted <==> w == ZERO && current != ZERO && first)
      && (status == StorageModified <==> w != ZERO && current != ZERO && w != current && first)
  {
  }

  // Cleared slots.

  /** The slots that held something when the transaction started and hold nothing now. */
  ghost function Cleared(b: Base, v: View): (s: set<(Address, Word)>) {
    set a, k | a in v.objs && k in v.objs[a].slots && Slot(b, v, a, k) == ZERO && Original(b, v, a, k) != ZERO :: (a, k)
  }

  lemma ClearedMeaning(b: Base, v: View, a: Address, k: Word)
    ensures (a, k) in Cleared(b, v) <==> Slot(b, v, a, k) == ZERO && Original(b, v, a, k) != ZERO
  {
  }

  /** The counter covers the cleared slots, and has grown by at most 24000 per step. */
  ghost predicate Covered(b: Base, v: View, steps: nat) {
    15000 * |Cleared(b, v)| <= v.refund <= 24000 * steps
  }

  /** What may happen in a transaction: refunds are those of a self-destruct, slots are written through SetStorage. */
  predicate Metered(c: Change) {
    match c
    case SlotTo(_, _, _) => false
    case Store(_, _, _, f) => !LegacyMetering(f)
    case Refund(gas) => gas <= 24000
    case TakeBack(_) => false
    case CleanUp(_) => false
    case _ => true
  }

  /** Writing an object that leaves the slots alone, or drops them all, clears no slot. */
  lemma WriteClears(b: Base, v: View, a: Address, o: Obj)
    requires !o.deleted
    requires (o.slots == ObjOrFresh(b, v, a).slots && o.account.root == ObjOrFresh(b, v, a).account.root) || o.slots == map[]
    ensures |Cleared(b, Write(v, a, o))| <= |Cleared(b, v)|
  {
    var v' := Write(v, a, o);
    forall x, k | (x, k) in Cleared(b, v') ensures (x, k) in Cleared(b, v) {
      ClearedMeaning(b, v', x, k);
      ClearedMeaning(b, v, x, k);
    }
    SubsetSize(Cleared(b, v'), Cleared(b, v));
  }

  lemma {:induction false} SubsetSize<T>(s: set<T>, t: set<T>)
    requires s <= t
    ensures |s| <= |t|
  {
    if s != {} {
      var x :| x in s;
      SubsetSize(s - {x}, t - {x});
    }
  }

  /** Writing one slot changes membership for that slot only. */
  lemma StoreClears(b: Base, v: View, a: Address, k: Word, w: Word)
    ensures var v' := SetState(b, v, a, k, w);
      && Original(b, v', a, k) == Original(b, v, a, k)
      && Cleared(b, v') == if w == ZERO && Original(b, v, a, k) != ZERO then Cleared(b, v) + {(a, k)} else Cleared(b, v) - {(a, k)}
  {
    var v' := SetState(b, v, a, k, w);
    assert v'.objs[a].slots == ObjOrFresh(b, v, a).slots[k := if w == ZERO then None else Some(w)];
    forall x, y: Word
      ensures (x, y) in Cleared(b, v') <==>
        if (x, y) == (a, k) then w == ZERO && Original(b, v, a, k) != ZERO else (x, y) in Cleared(b, v)
    {
      ClearedMeaning(b, v, x, y);
      ClearedMeaning(b, v', x, y);
    }
  }

  /** What SetStorage adds to the counter, as a signed number. */
  function RefundChange(original: Word, current: Word, w: Word, f: Forks): (d: int) {
    if current == w then 0
    else if original == current then (if original != ZERO && w == ZERO then 15000 else 0)
    else
      (if original == ZERO then 0 else if current == ZERO then -15000 else if w == ZERO then 15000 else 0) +
      (if original != w then 0
       else if original == ZERO then (if f.istanbul then 19200 else 19800)
       else (if f.istanbul then 4200 else 4800))
  }

  // What a write costs, refund included.

  /** What opSStore (state/runtime/evm/instructions.go:501-535) charges for a status. */
  function StoreCost(status: StorageStatus, f: Forks): (gas: nat) {
    match status
    case StorageAdded => 20000
    case StorageModified => 5000
    case StorageDeleted => 5000
    case _ => if f.istanbul then 800 else if LegacyMetering(f) then 5000 else 200
  }

  /** What a slot with committed value `original` has cost, beyond the price of the writes, when it stands at `x`. */
  function Due(original: Word, x: Word, f: Forks): (gas: int) {
    if x == original then 0
    else if original == ZERO then (if f.istanbul then 19200 else 19800)
    else (if f.istanbul then 4200 else 4800) - if x == ZERO then 15000 else 0
  }

  /** A write costs a flat price and the difference of what is due after and before it, whatever came before. */
  lemma NetCost(b: Base, v: View, a: Address, k: Word, w: Word, f: Forks)
    requires f.istanbul || (f.constantinople && !f.petersburg)
    ensures var original, current := Original(b, v, a, k), Slot(b, v, a, k);
      StoreCost(SetStorage(b, v, a, k, w, f).1, f) - RefundChange(original, current, w, f) ==
        (if f.istanbul then 800 else 200) + Due(original, w, f) - Due(original, current, f)
  {
    StoreStatus(b, v, a, k, w, f);
  }

  /** The cost of writing `ws` to a slot in turn, minus what is refunded. */
  function CostOf(b: Base, v: View, a: Address, k: Word, ws: seq<Word>, f: Forks): (gas: int)
    decreases |ws|
  {
    if ws == [] then 0
    else
      var r := SetStorage(b, v, a, k, ws[0], f);
      StoreCost(r.1, f) - RefundChange(Original(b, v, a, k), Slot(b, v, a, k), ws[0], f) + CostOf(b, r.0, a, k, ws[1..], f)
  }

  /** So the net cost of a slot's writes depends only on their number and on the values before and after. */
  lemma {:induction false} NetCostOfRun(b: Base, v: View, a: Address, k: Word, ws: seq<Word>, f: Forks)
    requires f.istanbul || (f.constantinople && !f.petersburg)
    ensures var last := if ws == [] then Slot(b, v, a, k) else ws[|ws| - 1];
      CostOf(b, v, a, k, ws, f) == (if f.istanbul then 800 else 200) * |ws| +
        Due(Original(b, v, a, k), last, f) - Due(Original(b, v, a, k), Slot(b, v, a, k), f)
    decreases |ws|
  {
    if ws != [] {
      var v' := SetStorage(b, v, a, k, ws[0], f).0;
      NetCost(b, v, a, k, ws[0], f);
      StoreMeaning(b, v, a, k, ws[0], f);
      assert Slot(b, v', a, k) == ws[0] && Original(b, v', a, k) == Original(b, v, a, k);
      NetCostOfRun(b, v', a, k, ws[1..], f);
    }
  }

  /** Without net metering: 15000 back for clearing a slot, 20000 for filling one and 5000 for any other write. */
  lemma LegacyCost(b: Base, v: View, a: Address, k: Word, w: Word, f: Forks)
    requires !f.istanbul && (f.petersburg || !f.constantinople) && v.refund + 15000 < TWO64
    ensures var r, current := SetStorage(b, v, a, k, w, f), Slot(b, v, a, k);
      && r.0.refund == v.refund + (if current != ZERO && w == ZERO then 15000 else 0)
      && StoreCost(r.1, f) == if current == ZERO && w != ZERO then 20000 else 5000
  {
  }

  /** Only the objects matter. */
  lemma ClearedSame(b: Base, v: View, v': View)
    requires v'.objs == v.objs
    ensures Cleared(b, v') == Cleared(b, v)
  {
    forall a, k: Word ensures (a, k) in Cleared(b, v') <==> (a, k) in Cleared(b, v) {
      ClearedMeaning(b, v, a, k);
      ClearedMeaning(b, v', a, k);
    }
  }

  /** How many more slots are cleared after the write. */
  function CountChange(original: Word, current: Word, w: Word): (d: int) {
    (if original != ZERO && w == ZERO then 1 else 0) - (if original != ZERO && current == ZERO then 1 else 0)
  }

  lemma StoreCount(b: Base, v: View, a: Address, k: Word, w: Word, f: Forks)
    ensures |Cleared(b, SetStorage(b, v, a, k, w, f).0)| == |Cleared(b, v)| + CountChange(Original(b, v, a, k), Slot(b, v, a, k), w)
  {
    var v' := SetStorage(b, v, a, k, w, f).0;
    StoreObjects(b, v, a, k, w, f);
    if Slot(b, v, a, k) == w {
      ClearedSame(b, v, v');
    } else {
      StoreClears(b, v, a, k, w);
      ClearedMeaning(b, v, a, k);
      ClearedSame(b, SetState(b, v, a, k, w), v');
      AddOrRemove(Cleared(b, v), (a, k));
    }
  }

  lemma AddOrRemove<T>(s: set<T>, x: T)
    ensures |s + {x}| == |s| + (if x in s then 0 else 1) && |s - {x}| == |s| - (if x in s then 1 else 0)
  {
    if x in s {
      assert s + {x} == s;
    } else {
      assert s - {x} == s;
    }
  }

  /** The counter changes by the signed amount exactly if that leaves it at zero or more. */
  lemma StoreExactIff(b: Base, v: View, a: Address, k: Word, w: Word, f: Forks)
    requires !LegacyMetering(f) && v.refund + 24000 < TWO64
    ensures var d := RefundChange(Original(b, v, a, k), Slot(b, v, a, k), w, f);
      && (SetStorage(b, v, a, k, w, f).0.refund == v.refund + d <==> v.refund + d >= 0)
      && (v.refund + d < 0 ==> SetStorage(b, v, a, k, w, f).0.refund == v.refund + d + TWO64)
  {
    var v1 := SetState(b, v, a, k, w);
    assert v1.refund == v.refund;
    NetExact(v1, Original(b, v, a, k), Slot(b, v, a, k), w, f);
  }

  lemma NetExact(v: View, original: Word, current: Word, w: Word, f: Forks)
    requires v.refund + 24000 < TWO64
    ensures original != current && current != w ==>
      var r := v.refund + RefundChange(original, current, w, f);
      NetRefund(v, original, current, w, f).refund == if r < 0 then r + TWO64 else r
    ensures AddRefund(v, 15000).refund == v.refund + 15000
  {
  }

  /** The write changes the counter by the signed amount of EIP-2200, and finds there what it may take back. */
  predicate Exact(b: Base, v: View, a: Address, k: Word, w: Word, f: Forks) {
    && SetStorage(b, v, a, k, w, f).0.refund == v.refund + RefundChange(Original(b, v, a, k), Slot(b, v, a, k), w, f)
    && (Original(b, v, a, k) != ZERO && Slot(b, v, a, k) == ZERO ==> v.refund >= 15000)
  }

  /** SetStorage never wraps the counter, in either direction, and keeps it covered. */
  lemma StoreCovered(b: Base, v: View, a: Address, k: Word, w: Word, f: Forks, steps: nat)
    requires Covered(b, v, steps) && !LegacyMetering(f) && 24000 * (steps + 1) < TWO64
    ensures var v' := SetStorage(b, v, a, k, w, f).0;
      Exact(b, v, a, k, w, f) && Covered(b, v', steps + 1)
  {
    ClearedMeaning(b, v, a, k);
    if (a, k) in Cleared(b, v) {
      SubsetSize({(a, k)}, Cleared(b, v));
    }
    StoreExactIff(b, v, a, k, w, f);
    StoreCount(b, v, a, k, w, f);
    CountVersusRefund(Original(b, v, a, k), Slot(b, v, a, k), w, f);
  }

  lemma CountVersusRefund(original: Word, current: Word, w: Word, f: Forks)
    ensures 15000 * CountChange(original, current, w) <= RefundChange(original, current, w, f) <= 24000
  {
  }

  /** A change other than a storage write: one object is written, its slots kept or dropped. */
  lemma OtherCovered(b: Base, v: View, c: Change, steps: nat)
    requires Covered(b, v, steps) && Metered(c) && !c.Store? && !c.Emit? && !c.Refund? && !c.TakeLogs?
    ensures Covered(b, Effect(b, v, c), steps + 1)
  {
    var v' := Effect(b, v, c);
    if v' != v {
      WriteClears(b, v, c.a, v'.objs[c.a]);
    }
  }

  lemma ChangeCovered(b: Base, v: View, c: Change, steps: nat)
    requires Covered(b, v, steps) && Metered(c) && 24000 * (steps + 1) < TWO64
    ensures Covered(b, Effect(b, v, c), steps + 1)
  {
    if c.Store? {
      StoreCovered(b, v, c.a, c.k, c.w, c.forks, steps);
    } else if c.Emit? || c.Refund? || c.TakeLogs? {
      ClearedSame(b, v, Effect(b, v, c));
    } else {
      OtherCovered(b, v, c, steps);
    }
  }

  /** What is shown, and what every snapshot from the `n`-th on holds, is covered. */
  ghost predicate JournalCovered(b: Base, j: Journal, n: nat, steps: nat) {
    n <= |j.stack| && Covered(b, j.view, steps) && forall i :: n <= i < |j.stack| ==> Covered(b, j.stack[i], steps)
  }

  lemma StepCovered(b: Base, j: Journal, n: nat, c: Command, steps: nat)
    requires JournalCovered(b, j, n, steps) && (c.Do? ==> Metered(c.change)) && (c.Revert? ==> n <= c.k)
    requires 24000 * (steps + 1) < TWO64
    ensures JournalCovered(b, Obey(b, j, c), n, steps + 1)
  {
    if c.Do? {
      ChangeCovered(b, j.view, c.change, steps);
    }
  }

  /** A run within one transaction, short enough not to overflow 64 bits; it does not revert behind its start. */
  ghost predicate MeteredRun(cs: seq<Command>, n: nat) {
    Within(cs, n) && 24000 * |cs| < TWO64 && forall i :: 0 <= i < |cs| && cs[i].Do? ==> Metered(cs[i].change)
  }

  /**
   From where nothing is cleared, over any metered changes, snapshots and reverts, the counter covers the
   cleared slots; so does what every snapshot taken on the way holds.
   */
  lemma {:induction false} RunCovered(b: Base, j: Journal, cs: seq<Command>)
    requires j.view.refund == 0 && Cleared(b, j.view) == {} && MeteredRun(cs, |j.stack|)
    ensures JournalCovered(b, ObeyAll(b, j, cs), |j.stack|, |cs|)
  {
    if cs != [] {
      var last := |cs| - 1;
      RunCovered(b, j, cs[..last]);
      StepCovered(b, ObeyAll(b, j, cs[..last]), |j.stack|, cs[last], last);
    }
  }

  predicate ExactStep(b: Base, v: View, c: Command) {
    c.Do? && c.change.Store? ==> Exact(b, v, c.change.a, c.change.k, c.change.w, c.change.forks)
  }

  /** Every storage write of the run is exact. */
  ghost predicate ExactRun(b: Base, j: Journal, cs: seq<Command>) {
    forall i :: 0 <= i < |cs| ==> ExactStep(b, ObeyAll(b, j, cs[..i]).view, cs[i])
  }

  lemma RunExact(b: Base, j: Journal, cs: seq<Command>)
    requires j.view.refund == 0 && Cleared(b, j.view) == {} && MeteredRun(cs, |j.stack|)
    ensures ExactRun(b, j, cs)
  {
    forall i | 0 <= i < |cs| ensures ExactStep(b, ObeyAll(b, j, cs[..i]).view, cs[i]) {
      RunCovered(b, j, cs[..i]);
      if cs[i].Do? && cs[i].change.Store? {
        var c := cs[i].change;
        StoreCovered(b, ObeyAll(b, j, cs[..i]).view, c.a, c.k, c.w, c.forks, i);
      }
    }
  }

  /** Forks with net metering. */
  const ISTANBUL := Forks(true, true, true, true, true, true, true)

  /** Restoring a cleared slot from a counter of zero wraps it. */
  lemma RefillWraps(b: Base, j: Journal, a: Address, k: Word)
    requires j.view.refund == 0 && (a, k) in Cleared(b, j.view)
    ensures var cs := [Do(Store(a, k, Original(b, j.view, a, k), ISTANBUL))];
      MeteredRun(cs, |j.stack|) && !ExactRun(b, j, cs)
  {
    var w := Original(b, j.view, a, k);
    var cs := [Do(Store(a, k, w, ISTANBUL))];
    ClearedMeaning(b, j.view, a, k);
    StoreExactIff(b, j.view, a, k, w, ISTANBUL);
    assert cs[..0] == [] && ObeyAll(b, j, cs[..0]).view == j.view;
    assert !ExactStep(b, ObeyAll(b, j, cs[..0]).view, cs[0]);
  }

  /** From a counter of zero, every write of every run is exact if and only if no slot is cleared. */
  lemma RunExactIff(b: Base, j: Journal)
    requires j.view.refund == 0
    ensures (forall cs :: MeteredRun(cs, |j.stack|) ==> ExactRun(b, j, cs)) <==> Cleared(b, j.view) == {}
  {
    if Cleared(b, j.view) == {} {
      forall cs | MeteredRun(cs, |j.stack|) ensures ExactRun(b, j, cs) {
        RunExact(b, j, cs);
      }
    } else {
      var x :| x in Cleared(b, j.view);
      RefillWraps(b, j, x.0, x.1);
    }
  }

  // The first transaction.

  const NEW := Journal(View(map[], [], 0), [])

  /** On a fresh state the counter covers the cleared slots throughout, now and in every snapshot. */
  lemma RefundSafety(b: Base, cs: seq<Command>)
    requires MeteredRun(cs, 0)
    ensures JournalCovered(b, ObeyAll(b, NEW, cs), 0, |cs|)
  {
    assert Cleared(b, NEW.view) == {};
    RunCovered(b, NEW, cs);
  }

  /** So no write wraps it. */
  lemma NoWrap(b: Base, cs: seq<Command>)
    requires MeteredRun(cs, 0)
    ensures ExactRun(b, NEW, cs)
  {
    assert Cleared(b, NEW.view) == {};
    RunExactIff(b, NEW);
  }

  // The next transaction of the block, and the same of the code.

  /**
   After CleanDeleteObjects, whatever snapshots stand: every write of every run of the next transaction is
   exact if and only if no slot is left cleared.
   */
  lemma NextTransactionIff(b: Base, v: View, deleteEmpty: bool, stack: seq<View>)
    ensures var j := Journal(Clean(v, deleteEmpty), stack);
      (forall cs :: MeteredRun(cs, |stack|) ==> ExactRun(b, j, cs)) <==> Cleared(b, Clean(v, deleteEmpty)) == {}
  {
    RunExactIff(b, Journal(Clean(v, deleteEmpty), stack));
  }

  /** The code, at the start of any transaction that finds no slot cleared. */
  method RunTransaction(t: Txn, cs: seq<Command>, ids: seq<nat>) returns (ids': seq<nat>)
    requires t.Valid() && ids == t.live && t.view.refund == 0 && Cleared(t.base, t.view) == {} && MeteredRun(cs, |ids|)
    modifies t
    ensures t.Valid() && ids' == t.live
    ensures JournalCovered(t.base, t.Shown(), |ids|, |cs|) && ExactRun(t.base, old(t.Shown()), cs)
  {
    RunCovered(t.base, t.Shown(), cs);
    RunExact(t.base, t.Shown(), cs);
    ids' := t.Perform(cs, ids);
  }

  /** The first transaction clears a slot, the second fills it with something else: the counter is almost 2^64. */
  lemma RefilledSlot(b: Base, a: Address, k: Word, w: Word, f: Forks)
    requires !LegacyMetering(f) && a in b.accounts && !IsEmpty(ObjOrFresh(b, View(map[], [], 0), a))
    requires Original(b, View(map[], [], 0), a, k) !in {ZERO, w} && w != ZERO
    ensures ObeyAll(b, Journal(View(map[], [], 0), []),
      [Do(Store(a, k, ZERO, f)), Do(CleanUp(true)), Do(Store(a, k, w, f))]).view.refund == TWO64 - 15000
  {
    var v0 := View(map[], [], 0);
    var cs := [Do(Store(a, k, ZERO, f)), Do(CleanUp(true)), Do(Store(a, k, w, f))];
    var v1 := SetStorage(b, v0, a, k, ZERO, f).0;
    var v2 := Clean(v1, true);
    var j := Journal(v0, []);
    assert ObeyAll(b, j, cs[..2]) == Journal(v2, []) by {
      assert cs[..2][..1] == cs[..1] && cs[..2][1] == cs[1] && cs[..1][..0] == [] && cs[..1][0] == cs[0];
      assert ObeyAll(b, j, cs[..1]) == Obey(b, ObeyAll(b, j, []), cs[0]) == Journal(v1, []);
    }
    StoreMeaning(b, v0, a, k, ZERO, f);
    assert v1.objs[a].account == ObjOrFresh(b, v0, a).account && v2.objs[a] == v1.objs[a];
    StoreExactIff(b, v2, a, k, w, f);
  }
}
