/**
 What a state transaction shows (state/txn.go, state/state.go): the committed accounts with the
 objects written since on top of them, the logs and the refund counter, as values.
 */
module Overlay {
  import opened Nibbles
  import opened Rlp
  import opened Options
  import opened Accounts

  type Address = a: seq<Byte> | |a| == 20 witness seq(20, _ => 0)

  /** A 32-byte storage key or value. */
  type Word = w: seq<Byte> | |w| == 32 witness Pad32([])

  const ZERO: Word := Pad32([])
  const EMPTY_ROOT := Keccak(Bytes(EMPTY))

  function CodeHash(code: seq<Byte>): (h: Buf) {
    Keccak(Bytes(Raw(code)))
  }

  /** StateObject; `slots` is its storage transaction, where None is a deleted slot. */
  datatype Obj = Obj(account: Account, code: seq<Byte>, suicide: bool, deleted: bool, dirtyCode: bool, slots: map<Word, Option<Word>>)

  datatype Log = Log(address: Address, topics: seq<Word>, data: seq<Byte>)

  /** The committed state below a transaction: accounts, storage by root, code by hash. */
  datatype Base = Base(accounts: map<Address, Account>, storage: map<Buf, map<Word, Word>>, codes: map<Buf, seq<Byte>>)

  /** Code is kept under its hash. */
  ghost predicate CodesOk(b: Base) {
    forall h :: h in b.codes ==> h == CodeHash(b.codes[h])
  }

  datatype View = View(objs: map<Address, Obj>, logs: seq<Log>, refund: nat)

  const FRESH := Obj(Account(0, 0, EMPTY_ROOT, CodeHash([])), [], false, false, false, map[])

  /** getStateObject */
  function ObjAt(b: Base, v: View, a: Address): (r: Option<Obj>) {
    if a in v.objs then if v.objs[a].deleted then None else Some(v.objs[a])
    else if a in b.accounts && (b.accounts[a].root == EMPTY_ROOT || b.accounts[a].root in b.storage)
      then Some(Obj(b.accounts[a], [], false, false, false, map[]))
    else None
  }

  /** The object an upsert with `create` starts from. */
  function ObjOrFresh(b: Base, v: View, a: Address): (o: Obj) {
    var o := ObjAt(b, v, a);
    if o.Some? then o.value else FRESH
  }

  function Write(v: View, a: Address, o: Obj): (v': View) {
    v.(objs := v.objs[a := o])
  }

  function Balance(b: Base, v: View, a: Address): (n: nat) {
    var o := ObjAt(b, v, a);
    if o.Some? then o.value.account.balance else 0
  }

  function Nonce(b: Base, v: View, a: Address): (n: Uint64) {
    var o := ObjAt(b, v, a);
    if o.Some? then o.value.account.nonce else 0
  }

  function CodeHashAt(b: Base, v: View, a: Address): (h: Option<Buf>) {
    var o := ObjAt(b, v, a);
    if o.Some? then Some(o.value.account.codeHash) else None
  }

  function Code(b: Base, v: View, a: Address): (c: seq<Byte>) {
    var o := ObjAt(b, v, a);
    if o.None? then []
    else if o.value.dirtyCode then o.value.code
    else if o.value.account.codeHash in b.codes then b.codes[o.value.account.codeHash] else []
  }

  /** The slot's value in the committed storage of the object; the empty root is not looked up. */
  function CommittedSlot(b: Base, o: Obj, k: Word): (w: Word) {
    var r := o.account.root;
    if r != EMPTY_ROOT && r in b.storage && k in b.storage[r] then b.storage[r][k] else ZERO
  }

  function Slot(b: Base, v: View, a: Address, k: Word): (w: Word) {
    var o := ObjAt(b, v, a);
    if o.None? then ZERO
    else if k in o.value.slots then (if o.value.slots[k].None? then ZERO else o.value.slots[k].value)
    else CommittedSlot(b, o.value, k)
  }

  /** GetCommittedState */
  function Original(b: Base, v: View, a: Address, k: Word): (w: Word) {
    var o := ObjAt(b, v, a);
    if o.None? then ZERO else CommittedSlot(b, o.value, k)
  }

  function Suicided(b: Base, v: View, a: Address): (s: bool) {
    var o := ObjAt(b, v, a);
    o.Some? && o.value.suicide
  }

  // The mutators.

  function WithBalance(o: Obj, n: nat): (o': Obj) {
    o.(account := o.account.(balance := n))
  }

  function Credited(o: Obj, x: nat): (o': Obj) {
    WithBalance(o, o.account.balance + x)
  }

  /** A balance is never left negative. */
  function Debited(o: Obj, x: nat): (o': Obj) {
    WithBalance(o, if x <= o.account.balance then o.account.balance - x else 0)
  }

  function AddBalance(b: Base, v: View, a: Address, x: nat): (v': View) {
    Write(v, a, Credited(ObjOrFresh(b, v, a), x))
  }

  /** None is ErrNotEnoughFunds. */
  function SubBalance(b: Base, v: View, a: Address, x: nat): (r: Option<View>) {
    if x == 0 then Some(v)
    else if Balance(b, v, a) < x then None
    else Some(Write(v, a, Debited(ObjOrFresh(b, v, a), x)))
  }

  function SetNonce(b: Base, v: View, a: Address, n: Uint64): (v': View) {
    var o := ObjOrFresh(b, v, a);
    Write(v, a, o.(account := o.account.(nonce := n)))
  }

  /** A 64-bit counter. */
  function Bumped(o: Obj): (o': Obj) {
    o.(account := o.account.(nonce := (o.account.nonce + 1) % TWO64))
  }

  function IncrNonce(b: Base, v: View, a: Address): (v': View) {
    Write(v, a, Bumped(ObjOrFresh(b, v, a)))
  }

  function Coded(o: Obj, code: seq<Byte>): (o': Obj) {
    o.(account := o.account.(codeHash := CodeHash(code)), dirtyCode := true, code := code)
  }

  function SetCode(b: Base, v: View, a: Address, code: seq<Byte>): (v': View) {
    Write(v, a, Coded(ObjOrFresh(b, v, a), code))
  }

  function Slotted(o: Obj, k: Word, w: Word): (o': Obj) {
    o.(slots := o.slots[k := if w == ZERO then None else Some(w)])
  }

  function SetState(b: Base, v: View, a: Address, k: Word, w: Word): (v': View) {
    Write(v, a, Slotted(ObjOrFresh(b, v, a), k, w))
  }

  function Suicide(b: Base, v: View, a: Address): (v': View) {
    var o := ObjAt(b, v, a);
    if o.None? then v else Write(v, a, WithBalance(o.value, 0).(suicide := true))
  }

  function Touch(b: Base, v: View, a: Address): (v': View) {
    Write(v, a, ObjOrFresh(b, v, a))
  }

  /** CreateAccount: a fresh account that keeps the balance. */
  function CreateAccount(b: Base, v: View, a: Address): (v': View) {
    Write(v, a, WithBalance(FRESH, Balance(b, v, a)))
  }

  function AddRefund(v: View, gas: nat): (v': View) {
    v.(refund := (v.refund + gas) % TWO64)
  }

  /** Unsigned subtraction: it wraps below zero. */
  function SubRefund(v: View, gas: nat): (v': View) {
    v.(refund := (v.refund - gas) % TWO64)
  }

  predicate IsEmpty(o: Obj) {
    o.account.nonce == 0 && o.account.balance == 0 && o.account.codeHash == CodeHash([])
  }

  predicate IsDead(o: Obj, deleteEmpty: bool) {
    o.suicide || (IsEmpty(o) && deleteEmpty)
  }

  /** The objects CleanDeleteObjects marks. */
  function Dead(v: View, deleteEmpty: bool): (s: set<Address>) {
    set a | a in v.objs && IsDead(v.objs[a], deleteEmpty)
  }

  function Marked(v: View, s: set<Address>): (v': View) {
    v.(objs := map a | a in v.objs :: if a in s then v.objs[a].(deleted := true) else v.objs[a])
  }

  lemma MarkedNone(v: View)
    ensures Marked(v, {}) == v
  {
    assert Marked(v, {}).objs == v.objs;
  }

  lemma MarkedRest(v: View, s: set<Address>, a: Address)
    requires a in v.objs && a in s
    ensures Marked(Write(v, a, v.objs[a].(deleted := true)), s - {a}) == Marked(v, s)
  {
    assert Marked(Write(v, a, v.objs[a].(deleted := true)), s - {a}).objs == Marked(v, s).objs;
  }

  /** CleanDeleteObjects */
  function Clean(v: View, deleteEmpty: bool): (v': View) {
    Marked(v, Dead(v, deleteEmpty)).(refund := 0)
  }

  // Storage writes and their gas refunds.

  /** The fork flags that matter here. */
  datatype Forks = Forks(homestead: bool, byzantium: bool, constantinople: bool, petersburg: bool, istanbul: bool, eip155: bool, eip158: bool)

  datatype StorageStatus = StorageUnchanged | StorageModified | StorageModifiedAgain | StorageAdded | StorageDeleted

  predicate LegacyMetering(f: Forks) {
    !f.istanbul && (f.petersburg || !f.constantinople)
  }

  /** The refund after a write of `w` over `current` to a slot whose committed value is `original`. */
  function NetRefund(v: View, original: Word, current: Word, w: Word, f: Forks): (v': View) {
    var v1 :=
      if original == ZERO then v
      else if current == ZERO then SubRefund(v, 15000)
      else if w == ZERO then AddRefund(v, 15000)
      else v;
    if original != w then v1
    else if original == ZERO then AddRefund(v1, if f.istanbul then 19200 else 19800)
    else AddRefund(v1, if f.istanbul then 4200 else 4800)
  }

  /** SetStorage */
  function SetStorage(b: Base, v: View, a: Address, k: Word, w: Word, f: Forks): (r: (View, StorageStatus)) {
    var current, original := Slot(b, v, a, k), Original(b, v, a, k);
    if current == w then (v, StorageUnchanged)
    else
      var v1 := SetState(b, v, a, k, w);
      if LegacyMetering(f) then
        if current == ZERO then (v1, StorageAdded)
        else if w == ZERO then (AddRefund(v1, 15000), StorageDeleted)
        else (v1, StorageModified)
      else if original == current then
        if original == ZERO then (v1, StorageAdded)
        else if w == ZERO then (AddRefund(v1, 15000), StorageDeleted)
        else (v1, StorageModified)
      else (NetRefund(v1, original, current, w, f), StorageModifiedAgain)
  }

  /** Apart from the counter, SetStorage writes the slot. */
  lemma StoreObjects(b: Base, v: View, a: Address, k: Word, w: Word, f: Forks)
    ensures SetStorage(b, v, a, k, w, f).0.objs == if Slot(b, v, a, k) == w then v.objs else SetState(b, v, a, k, w).objs
  {
  }

  /** The object's root is known, and its code hash is that of its new code or of a committed account. */
  ghost predicate ObjOk(b: Base, o: Obj) {
    && (o.account.root == EMPTY_ROOT || o.account.root in b.storage)
    && (if o.dirtyCode then o.account.codeHash == CodeHash(o.code)
        else o.account.codeHash == CodeHash([]) || exists a :: a in b.accounts && b.accounts[a].codeHash == o.account.codeHash)
  }

  ghost predicate ViewOk(b: Base, v: View) {
    forall a {:trigger v.objs[a]} :: a in v.objs ==> ObjOk(b, v.objs[a])
  }

  // Runs of mutators, snapshots and reverts.

  datatype Change =
    | Credit(a: Address, x: nat)
    | Debit(a: Address, x: nat)
    | NonceTo(a: Address, n: Uint64)
    | NonceUp(a: Address)
    | CodeTo(a: Address, code: seq<Byte>)
    | SlotTo(a: Address, k: Word, w: Word)
    | Store(a: Address, k: Word, w: Word, forks: Forks)
    | Destroy(a: Address)
    | TouchIt(a: Address)
    | Create(a: Address)
    | Emit(log: Log, room: nat)
    | Refund(gas: nat)
    | TakeBack(gas: nat)
    | TakeLogs
    | CleanUp(deleteEmpty: bool)

  function Effect(b: Base, v: View, c: Change): (v': View) {
    match c
    case Credit(a, x) => AddBalance(b, v, a, x)
    case Debit(a, x) => var r := SubBalance(b, v, a, x); if r.Some? then r.value else v
    case NonceTo(a, n) => SetNonce(b, v, a, n)
    case NonceUp(a) => IncrNonce(b, v, a)
    case CodeTo(a, code) => SetCode(b, v, a, code)
    case SlotTo(a, k, w) => SetState(b, v, a, k, w)
    case Store(a, k, w, f) => SetStorage(b, v, a, k, w, f).0
    case Destroy(a) => Suicide(b, v, a)
    case TouchIt(a) => Touch(b, v, a)
    case Create(a) => CreateAccount(b, v, a)
    case Emit(log, _) => v.(logs := v.logs + [log])
    case Refund(gas) => AddRefund(v, gas)
    case TakeBack(gas) => SubRefund(v, gas)
    case TakeLogs => v.(logs := [])
    case CleanUp(deleteEmpty) => Clean(v, deleteEmpty)
  }

  /** `Revert(k)` reverts to the k-th of the snapshots still standing. */
  datatype Command = Do(change: Change) | Snap | Revert(k: nat)

  /** What is shown, and what was shown at each standing snapshot. */
  datatype Journal = Journal(view: View, stack: seq<View>)

  function Obey(b: Base, j: Journal, c: Command): (j': Journal) {
    match c
    case Do(change) => j.(view := Effect(b, j.view, change))
    case Snap => j.(stack := j.stack + [j.view])
    case Revert(k) => if k < |j.stack| then Journal(j.stack[k], j.stack[..k + 1]) else j
  }

  function ObeyAll(b: Base, j: Journal, cs: seq<Command>): (j': Journal) {
    if cs == [] then j else Obey(b, ObeyAll(b, j, cs[..|cs| - 1]), cs[|cs| - 1])
  }

  /** No revert goes below the first `n` snapshots. */
  ghost predicate Within(cs: seq<Command>, n: nat) {
    forall i :: 0 <= i < |cs| && cs[i].Revert? ==> n <= cs[i].k
  }

  lemma {:induction false} StackKept(b: Base, j: Journal, cs: seq<Command>, n: nat)
    requires n <= |j.stack| && Within(cs, n)
    ensures n <= |ObeyAll(b, j, cs).stack| && ObeyAll(b, j, cs).stack[..n] == j.stack[..n]
  {
    if cs != [] {
      var last := |cs| - 1;
      StackKept(b, j, cs[..last], n);
      var m := ObeyAll(b, j, cs[..last]);
      assert Obey(b, m, cs[last]).stack[..n] == m.stack[..n];
    }
  }

  lemma {:induction false} ObeyJoined(b: Base, j: Journal, cs: seq<Command>, ds: seq<Command>)
    ensures ObeyAll(b, j, cs + ds) == ObeyAll(b, ObeyAll(b, j, cs), ds)
  {
    if ds == [] {
      assert cs + ds == cs;
    } else {
      assert (cs + ds)[..|cs + ds| - 1] == cs + ds[..|ds| - 1];
      ObeyJoined(b, j, cs, ds[..|ds| - 1]);
    }
  }

  /** Whatever properly nested work is done after a snapshot, reverting to it restores all that was shown. */
  lemma NestedRevert(b: Base, j: Journal, work: seq<Command>)
    requires Within(work, |j.stack| + 1)
    ensures ObeyAll(b, j, [Snap] + work + [Revert(|j.stack|)]) == Journal(j.view, j.stack + [j.view])
  {
    var n := |j.stack|;
    var j1 := Obey(b, j, Snap);
    assert ObeyAll(b, j, [Snap]) == j1 by {
      assert [Snap][..0] == [];
    }
    ObeyJoined(b, j, [Snap], work);
    StackKept(b, j1, work, n + 1);
    var j2 := ObeyAll(b, j1, work);
    assert ([Snap] + work + [Revert(n)])[..|work| + 1] == [Snap] + work;
    assert j2.stack[n] == j2.stack[..n + 1][n] == j.view;
  }
}
