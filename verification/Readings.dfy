/**
 What the mutators of a state transaction do (state/txn.go:164-583), said in terms of what can be read
 afterwards: the account meant reads as the operation promises, and no other account is touched.
 */
module Readings {
  import opened Nibbles
  import opened Rlp
  import opened Options
  import opened Accounts
  import opened Overlay

  predicate Exists(b: Base, v: View, a: Address) {
    ObjAt(b, v, a).Some?
  }

  /** The code hash, that of no code if there is no account. */
  function HashOrNone(b: Base, v: View, a: Address): (h: Buf) {
    var h := CodeHashAt(b, v, a);
    if h.Some? then h.value else CodeHash([])
  }

  /** The account is there and reads like this. */
  ghost predicate ReadsAs(b: Base, v: View, a: Address, balance: nat, nonce: nat, code: seq<Byte>, hash: Buf, dead: bool) {
    && Exists(b, v, a) && Balance(b, v, a) == balance && Nonce(b, v, a) == nonce
    && Code(b, v, a) == code && CodeHashAt(b, v, a) == Some(hash) && Suicided(b, v, a) == dead
  }

  /** Only the account `a` may have changed. */
  ghost predicate OnlyAt(b: Base, v: View, v': View, a: Address) {
    v'.logs == v.logs && v'.refund == v.refund && forall x :: x != a ==> ObjAt(b, v', x) == ObjAt(b, v, x)
  }

  ghost predicate SlotsKept(b: Base, v: View, v': View, a: Address) {
    forall k :: Slot(b, v', a, k) == Slot(b, v, a, k) && Original(b, v', a, k) == Original(b, v, a, k)
  }

  /** An account that was not written reads as it was committed; one that was not committed is absent. */
  lemma CommittedReads(b: Base, v: View, a: Address)
    requires a !in v.objs
    ensures a !in b.accounts ==> !Exists(b, v, a)
    ensures a in b.accounts && (b.accounts[a].root == EMPTY_ROOT || b.accounts[a].root in b.storage) ==> var acc := b.accounts[a];
      && ReadsAs(b, v, a, acc.balance, acc.nonce, if acc.codeHash in b.codes then b.codes[acc.codeHash] else [], acc.codeHash, false)
      && forall k :: Slot(b, v, a, k) == Original(b, v, a, k) ==
           if acc.root != EMPTY_ROOT && k in b.storage[acc.root] then b.storage[acc.root][k] else ZERO
  {
  }

  lemma AddBalanceReads(b: Base, v: View, a: Address, x: nat)
    requires CodesOk(b)
    ensures var v' := AddBalance(b, v, a, x);
      && OnlyAt(b, v, v', a) && SlotsKept(b, v, v', a)
      && ReadsAs(b, v', a, Balance(b, v, a) + x, Nonce(b, v, a), Code(b, v, a), HashOrNone(b, v, a), Suicided(b, v, a))
  {
  }

  /** It fails exactly if the balance is too small. */
  lemma SubBalanceReads(b: Base, v: View, a: Address, x: nat)
    requires CodesOk(b)
    ensures SubBalance(b, v, a, x).Some? <==> x <= Balance(b, v, a)
    ensures SubBalance(b, v, a, 0) == Some(v)
    ensures 0 < x <= Balance(b, v, a) ==> var v' := SubBalance(b, v, a, x).value;
      && OnlyAt(b, v, v', a) && SlotsKept(b, v, v', a)
      && ReadsAs(b, v', a, Balance(b, v, a) - x, Nonce(b, v, a), Code(b, v, a), HashOrNone(b, v, a), Suicided(b, v, a))
  {
  }

  lemma SetNonceReads(b: Base, v: View, a: Address, n: Uint64)
    requires CodesOk(b)
    ensures var v' := SetNonce(b, v, a, n);
      && OnlyAt(b, v, v', a) && SlotsKept(b, v, v', a)
      && ReadsAs(b, v', a, Balance(b, v, a), n, Code(b, v, a), HashOrNone(b, v, a), Suicided(b, v, a))
  {
  }

  /** After 2^64 - 1 comes 0. */
  lemma IncrNonceReads(b: Base, v: View, a: Address)
    requires CodesOk(b)
    ensures var v', n := IncrNonce(b, v, a), Nonce(b, v, a);
      && OnlyAt(b, v, v', a) && SlotsKept(b, v, v', a)
      && ReadsAs(b, v', a, Balance(b, v, a), if n == 0xFFFF_FFFF_FFFF_FFFF then 0 else n + 1, Code(b, v, a), HashOrNone(b, v, a), Suicided(b, v, a))
  {
  }

  lemma SetCodeReads(b: Base, v: View, a: Address, code: seq<Byte>)
    ensures var v' := SetCode(b, v, a, code);
      && OnlyAt(b, v, v', a) && SlotsKept(b, v, v', a)
      && ReadsAs(b, v', a, Balance(b, v, a), Nonce(b, v, a), code, Keccak(Bytes(Raw(code))), Suicided(b, v, a))
  {
  }

  /** One slot takes the value; what was committed stays. */
  lemma SetStateReads(b: Base, v: View, a: Address, k: Word, w: Word)
    requires CodesOk(b)
    ensures var v' := SetState(b, v, a, k, w);
      && OnlyAt(b, v, v', a)
      && (forall l :: Slot(b, v', a, l) == (if l == k then w else Slot(b, v, a, l)) && Original(b, v', a, l) == Original(b, v, a, l))
      && ReadsAs(b, v', a, Balance(b, v, a), Nonce(b, v, a), Code(b, v, a), HashOrNone(b, v, a), Suicided(b, v, a))
  {
  }

  /** An account that exists is marked and loses its balance; nothing happens to one that does not. */
  lemma SuicideReads(b: Base, v: View, a: Address)
    ensures !Exists(b, v, a) ==> Suicide(b, v, a) == v
    ensures Exists(b, v, a) ==> var v' := Suicide(b, v, a);
      && OnlyAt(b, v, v', a) && SlotsKept(b, v, v', a)
      && ReadsAs(b, v', a, 0, Nonce(b, v, a), Code(b, v, a), HashOrNone(b, v, a), true)
  {
  }

  lemma TouchReadsAs(b: Base, v: View, a: Address)
    requires CodesOk(b)
    ensures var v' := Touch(b, v, a);
      && OnlyAt(b, v, v', a) && SlotsKept(b, v, v', a)
      && ReadsAs(b, v', a, Balance(b, v, a), Nonce(b, v, a), Code(b, v, a), HashOrNone(b, v, a), Suicided(b, v, a))
  {
  }

  /** All but the balance is gone. */
  lemma CreateAccountReads(b: Base, v: View, a: Address)
    requires CodesOk(b)
    ensures var v' := CreateAccount(b, v, a);
      && OnlyAt(b, v, v', a) && ReadsAs(b, v', a, Balance(b, v, a), 0, [], Keccak(Bytes(Raw([]))), false)
      && forall k :: Slot(b, v', a, k) == ZERO && Original(b, v', a, k) == ZERO
  {
  }

  /** The counter is one of 64 bits. */
  lemma RefundReads(v: View, gas: nat)
    requires v.refund < TWO64 && gas < TWO64
    ensures AddRefund(v, gas) == v.(refund := if v.refund + gas < TWO64 then v.refund + gas else v.refund + gas - TWO64)
    ensures SubRefund(v, gas) == v.(refund := if gas <= v.refund then v.refund - gas else v.refund - gas + TWO64)
  {
  }

  /** Nothing is left of an account but zero nonce, zero balance and no code. */
  ghost predicate ReadsEmpty(b: Base, v: View, a: Address) {
    Nonce(b, v, a) == 0 && Balance(b, v, a) == 0 && CodeHashAt(b, v, a) == Some(Keccak(Bytes(Raw([]))))
  }

  /**
   CleanDeleteObjects: absent afterwards are exactly the accounts that were absent, that self-destructed,
   or, with the flag, that were written and read as empty; all others are the same, and the refund is gone.
   */
  lemma CleanReads(b: Base, v: View, deleteEmpty: bool, a: Address)
    ensures var v' := Clean(v, deleteEmpty);
      && (!Exists(b, v', a) <==> !Exists(b, v, a) || Suicided(b, v, a) || (deleteEmpty && a in v.objs && ReadsEmpty(b, v, a)))
      && (Exists(b, v', a) ==> ObjAt(b, v', a) == ObjAt(b, v, a)) && v'.refund == 0 && v'.logs == v.logs
  {
  }

  /** What each step of a run shows. */
  lemma EffectShows(b: Base, v: View, c: Change)
    requires CodesOk(b) && v.refund < TWO64
    ensures var v' := Effect(b, v, c);
      match c
      case Credit(a, x) => Balance(b, v', a) == Balance(b, v, a) + x
      case Debit(a, x) => Balance(b, v', a) == Balance(b, v, a) - if x <= Balance(b, v, a) then x else 0
      case NonceTo(a, n) => Nonce(b, v', a) == n
      case NonceUp(a) => Nonce(b, v', a) == (Nonce(b, v, a) + 1) % TWO64
      case CodeTo(a, code) => Code(b, v', a) == code
      case SlotTo(a, k, w) => Slot(b, v', a, k) == w
      case Store(a, k, w, f) => Slot(b, v', a, k) == w
      case Destroy(a) => Exists(b, v, a) ==> Suicided(b, v', a) && Balance(b, v', a) == 0
      case TouchIt(a) => Exists(b, v', a) && Balance(b, v', a) == Balance(b, v, a)
      case Create(a) => Nonce(b, v', a) == 0 && Code(b, v', a) == [] && Balance(b, v', a) == Balance(b, v, a)
      case Emit(log, _) => v' == v.(logs := v.logs + [log])
      case Refund(gas) => v' == v.(refund := (v.refund + gas) % TWO64)
      case TakeBack(gas) => v' == v.(refund := (v.refund - gas) % TWO64)
      case TakeLogs => v' == v.(logs := [])
      case CleanUp(deleteEmpty) => v'.refund == 0 && forall a :: Exists(b, v', a) ==> !Suicided(b, v', a)
  {
    if c.Store? {
      StoreObjects(b, v, c.a, c.k, c.w, c.forks);
    }
  }

  // All but the balance.

  ghost predicate RestKept(b: Base, v: View, v': View, y: Address) {
    Nonce(b, v', y) == Nonce(b, v, y) && Code(b, v', y) == Code(b, v, y) && SlotsKept(b, v, v', y)
  }

  lemma RestKeptTwice(b: Base, v: View, v1: View, v2: View, y: Address)
    requires RestKept(b, v, v1, y) && RestKept(b, v1, v2, y)
    ensures RestKept(b, v, v2, y)
  {
  }

  /** Writing an object with another balance or mark. */
  lemma WriteKeepsRest(b: Base, v: View, a: Address, o: Obj, y: Address)
    requires CodesOk(b) && !o.deleted
    requires o == ObjOrFresh(b, v, a).(account := ObjOrFresh(b, v, a).account.(balance := o.account.balance), suicide := o.suicide)
    ensures RestKept(b, v, Write(v, a, o), y)
    ensures y != a || o.suicide == ObjOrFresh(b, v, a).suicide ==> Suicided(b, Write(v, a, o), y) == Suicided(b, v, y)
  {
    if y != a {
      assert ObjAt(b, Write(v, a, o), y) == ObjAt(b, v, y);
    }
  }

  lemma AddKeepsRest(b: Base, v: View, a: Address, x: nat, y: Address)
    requires CodesOk(b)
    ensures RestKept(b, v, AddBalance(b, v, a, x), y) && Suicided(b, AddBalance(b, v, a, x), y) == Suicided(b, v, y)
  {
    WriteKeepsRest(b, v, a, Credited(ObjOrFresh(b, v, a), x), y);
  }

  lemma SubKeepsRest(b: Base, v: View, a: Address, x: nat, y: Address)
    requires CodesOk(b) && SubBalance(b, v, a, x).Some?
    ensures RestKept(b, v, SubBalance(b, v, a, x).value, y) && Suicided(b, SubBalance(b, v, a, x).value, y) == Suicided(b, v, y)
  {
    if x > 0 {
      WriteKeepsRest(b, v, a, Debited(ObjOrFresh(b, v, a), x), y);
    }
  }

  lemma TouchKeepsRest(b: Base, v: View, a: Address, y: Address)
    requires CodesOk(b)
    ensures RestKept(b, v, Touch(b, v, a), y) && Suicided(b, Touch(b, v, a), y) == Suicided(b, v, y)
  {
    WriteKeepsRest(b, v, a, ObjOrFresh(b, v, a), y);
  }

  lemma SuicideKeepsRest(b: Base, v: View, a: Address, y: Address)
    requires CodesOk(b)
    ensures RestKept(b, v, Suicide(b, v, a), y)
  {
    if Exists(b, v, a) {
      WriteKeepsRest(b, v, a, WithBalance(ObjAt(b, v, a).value, 0).(suicide := true), y);
    }
  }
}
