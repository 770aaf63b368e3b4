/** Executing the transactions of a block (state/executor.go:97-122, 287-466). */
module Blocks {
  import opened Nibbles
  import opened Options
  import opened Accounts
  import opened Overlay
  import opened Readings
  import opened StateTxn
  import opened Totals
  import opened Execution
  import opened Messages
  import opened Transitions
  import opened Bridge

  datatype Receipt = Receipt(cumulative: nat, gasUsed: nat, failed: bool, logs: seq<Log>)

  /** A message, and whether its sender is given or can be recovered from the signature. */
  datatype Tx = Tx(msg: Message, signed: bool)

  function SumGas(rs: seq<Receipt>): (n: nat)
    decreases |rs|
  {
    if rs == [] then 0 else SumGas(rs[..|rs| - 1]) + rs[|rs| - 1].gasUsed
  }

  /** Every receipt's cumulative gas is the sum up to and including it. */
  ghost predicate Cumulative(rs: seq<Receipt>) {
    forall i :: 0 <= i < |rs| ==> rs[i].cumulative == SumGas(rs[..i + 1])
  }

  /** What has been used and what may be used make up the limit. */
  ghost predicate Accounted(limit: nat, total: nat, pool: int, rs: seq<Receipt>) {
    total + pool == limit && total == SumGas(rs) && Cumulative(rs)
  }

  lemma LedgerNext(limit: nat, total: nat, pool: nat, rs: seq<Receipt>, r: Receipt)
    requires Accounted(limit, total, pool, rs) && r.cumulative == total + r.gasUsed
    ensures Accounted(limit, total + r.gasUsed, pool - r.gasUsed, rs + [r])
  {
    CumulativeSnoc(rs, r);
  }

  lemma CumulativeSnoc(rs: seq<Receipt>, r: Receipt)
    requires Cumulative(rs) && r.cumulative == SumGas(rs) + r.gasUsed
    ensures Cumulative(rs + [r]) && SumGas(rs + [r]) == r.cumulative
  {
    var rs' := rs + [r];
    assert rs'[..|rs|] == rs && rs'[..|rs'|] == rs';
    forall i | 0 <= i < |rs| ensures rs'[i].cumulative == SumGas(rs'[..i + 1]) {
      assert rs'[..i + 1] == rs[..i + 1];
    }
  }

  /** The checks made after the gas was taken from the pool; the pool is not given it back when they fail. */
  predicate Late(e: Error) {
    e.IntrinsicGasOverflow? || e.NotEnoughIntrinsicGas? || e.NotEnoughFunds?
  }

  /** The message passes the checks made before, and has too little gas for itself or too little left for its value. */
  predicate RefusedLate(b: Base, v: View, env: Env, pool: nat, msg: Message) {
    && TX_GAS <= pool && msg.nonce == Nonce(b, v, msg.from) && Fee(msg.gas, msg.price) <= Balance(b, v, msg.from) && msg.gas <= pool
    && (msg.gas < IntrinsicGas(msg, env.forks) || Balance(b, v, msg.from) - Fee(msg.gas, msg.price) < msg.value)
  }

  lemma RefusedLateIff(b: Base, v: View, env: Env, pool: nat, msg: Message)
    requires msg.gas < TWO64
    ensures RefusedLate(b, v, env, pool, msg) <==> Check(b, v, env, pool, msg).Some? && Late(Check(b, v, env, pool, msg).value)
  {
  }

  lemma UnderpaidCreation(b: Base, v: View, env: Env, pool: nat, msg: Message)
    requires env.forks.homestead && TX_GAS <= msg.gas <= pool && msg.gas < TX_GAS_CREATE && msg.input == []
    requires msg.to.None? && msg.price == 0 && msg.nonce == Nonce(b, v, msg.from)
    ensures RefusedLate(b, v, env, pool, msg) && Check(b, v, env, pool, msg) == Some(NotEnoughIntrinsicGas)
  {
    FeeIsProduct(msg.gas, msg.price);
  }

  /** nonceCheck and subGasLimitPrice. */
  method BuyGas(t: Txn, msg: Message) returns (err: Option<Error>)
    requires t.Valid()
    modifies t`mem, t`tree, t`view
    ensures t.Valid()
    ensures err ==
      if msg.nonce < Nonce(t.base, old(t.view), msg.from) then Some(NonceTooLow)
      else if msg.nonce > Nonce(t.base, old(t.view), msg.from) then Some(NonceTooHigh)
      else if Balance(t.base, old(t.view), msg.from) < Fee(msg.gas, msg.price) then Some(NotEnoughFundsForGas)
      else None
    ensures err.None? ==> t.view == Bought(t.base, old(t.view), msg)
  {
    var nonce := t.GetNonce(msg.from);
    if msg.nonce < nonce {
      return Some(NonceTooLow);
    } else if msg.nonce > nonce {
      return Some(NonceTooHigh);
    }
    var ok := t.SubBalance(msg.from, Fee(msg.gas, msg.price));
    err := if ok then None else Some(NotEnoughFundsForGas);
  }

  /** Steps 4 and 5: the subtraction wraps, and the test for that is exact. */
  method GasAfterIntrinsic(msg: Message, f: Forks) returns (err: Option<Error>, gas: nat)
    requires msg.gas < TWO64
    ensures err ==
      if IntrinsicGas(msg, f) >= TWO64 then Some(IntrinsicGasOverflow)
      else if IntrinsicGas(msg, f) > msg.gas then Some(NotEnoughIntrinsicGas)
      else None
    ensures err.None? ==> gas == ExecutionGas(msg, f)
  {
    var cost := TransactionGasCost(msg, f);
    if cost.None? {
      return Some(IntrinsicGasOverflow), 0;
    }
    gas := (msg.gas - cost.value) % TWO64;
    err := if gas > msg.gas then Some(NotEnoughIntrinsicGas) else None;
  }

  /** Create2, or the nonce and Call2. */
  method RunMessage(t: Txn, env: Env, msg: Message, gas: nat) returns (res: Result, ghost burnt: nat)
    requires t.Valid()
    modifies t
    ensures Onward(t) && Outcome(t.view, res, burnt) == Execute(t.base, old(t.view), env, msg, gas)
  {
    if msg.to.None? {
      var nonce := t.GetNonce(msg.from);
      var c := Contract(Call, msg.from, env.createAddress(msg.from, nonce), 1, Some(msg.value), gas);
      res, burnt := Transitions.ApplyCreate(t, env.forks, c, msg.run);
    } else {
      t.IncrNonce(msg.from);
      var c := Contract(Call, msg.from, msg.to.value, 1, Some(msg.value), gas);
      res, burnt := Transitions.ApplyCall(t, env.forks, c, Call, msg.run);
    }
  }

  /** The refund, the sender's change and the coinbase's fee. */
  method SettleMessage(t: Txn, env: Env, msg: Message, res: Result, ghost burnt: nat) returns (left: nat, used: nat)
    requires t.Valid() && res.gasLeft <= msg.gas
    modifies t`mem, t`tree, t`view
    ensures t.Valid() && Applied(t.view, used, left, res.failed, burnt) == Settle(t.base, env, msg, Outcome(old(t.view), res, burnt))
  {
    ghost var v := t.view;
    var refund := t.GetRefund();
    left, used := UpdateGasUsed(res.gasLeft, msg.gas, refund);
    var back, fee := Fee(left, msg.price), Fee(used, msg.price);
    assert Settle(t.base, env, msg, Outcome(v, res, burnt)) ==
      Applied(Paid(t.base, v, msg.from, back, env.coinbase, fee), used, left, res.failed, burnt);
    Pay(t, msg.from, back, env.coinbase, fee);
  }

  method Pay(t: Txn, from: Address, back: nat, coinbase: Address, fee: nat)
    requires t.Valid()
    modifies t`mem, t`tree, t`view
    ensures t.Valid() && t.view == Paid(t.base, old(t.view), from, back, coinbase, fee)
  {
    t.AddBalance(from, back);
    t.AddBalance(coinbase, fee);
  }

  method RunAndSettle(t: Txn, env: Env, msg: Message, gas: nat) returns (left: nat, used: nat, failed: bool, ghost burnt: nat)
    requires t.Valid() && gas <= msg.gas
    modifies t
    ensures Onward(t) && Applied(t.view, used, left, failed, burnt) == Settle(t.base, env, msg, Execute(t.base, old(t.view), env, msg, gas))
  {
    var res;
    res, burnt := RunMessage(t, env, msg, gas);
    left, used := SettleMessage(t, env, msg, res, burnt);
    failed := res.failed;
  }

  /** What Apply returns: the gas used and whether the execution failed, or the error. */
  datatype Verdict = Refused(err: Error) | Done(used: nat, failed: bool)

  ghost predicate Agrees(r: Verdict, a: Applied) {
    match a
    case Rejected(e) => r == Refused(e)
    case Applied(_, used, _, failed, _) => r == Done(used, failed)
  }

  method ActOn(t: Txn, vault: Address, e: Event) returns (ok: bool)
    requires t.Valid()
    modifies t`mem, t`tree, t`view
    ensures t.Valid() && Handled(t.view, ok) == HandleEvent(t.base, vault, old(t.view), e)
  {
    ok := !e.Malformed?;
    if e.Withdrawn? {
      ok := Withdraw(t, e.contract, Whole(e), vault, e.fee);
    } else if e.Burned? {
      ok := Burn(t, vault, e);
    } else if e.Deposited? {
      t.AddBalance(e.receiver, e.amount);
    }
  }

  method Withdraw(t: Txn, contract: Address, whole: nat, vault: Address, fee: nat) returns (ok: bool)
    requires t.Valid()
    modifies t`mem, t`tree, t`view
    ensures t.Valid() && Handled(t.view, ok) == Withdrawal(t.base, old(t.view), contract, whole, vault, fee)
  {
    ok := t.SubBalance(contract, whole);
    if ok {
      t.AddBalance(vault, fee);
    }
  }

  method Burn(t: Txn, vault: Address, e: Event) returns (ok: bool)
    requires t.Valid() && e.Burned?
    modifies t`mem, t`tree, t`view
    ensures t.Valid() && Handled(t.view, ok) == HandleEvent(t.base, vault, old(t.view), e)
  {
    ok := t.SubBalance(e.sender, e.amount);
  }

  /** After a log that fails, nothing more is handled. */
  lemma {:induction false} Stopped(b: Base, br: BridgeEnv, v: View, logs: seq<Log>, n: nat)
    requires n <= |logs| && !HandleAll(b, br, v, logs[..n]).ok
    ensures HandleAll(b, br, v, logs) == HandleAll(b, br, v, logs[..n])
    decreases |logs|
  {
    if n == |logs| {
      assert logs[..n] == logs;
    } else {
      var rest := logs[..|logs| - 1];
      assert rest[..n] == logs[..n];
      Stopped(b, br, v, rest, n);
    }
  }

  /** The state after a message is written, with Byzantium active. */
  function Written(b: Base, br: BridgeEnv, v: View, to: Option<Address>): (h: Handled) {
    Handle(b, br, Clean(v.(logs := []), true), to, v.logs)
  }

  /** The accounts that outlive the message: not those that self-destructed, nor those written and left empty. */
  ghost predicate Survives(b: Base, v: View, a: Address) {
    Exists(b, v, a) && !Suicided(b, v, a) && !(a in v.objs && ReadsEmpty(b, v, a))
  }

  /** What can be read once a message is written: the survivors as they were, plus what the bridge logs of a message to it pay. */
  lemma WrittenReads(b: Base, br: BridgeEnv, v: View, to: Option<Address>, a: Address)
    requires CodesOk(b) && Written(b, br, v, to).ok
    ensures var v' := Written(b, br, v, to).view;
      && v'.logs == [] && v'.refund == 0
      && Balance(b, v', a) == (if Survives(b, v, a) then Balance(b, v, a) else 0) + (if to == Some(br.address) then Gains(br, v.logs, a) else 0)
      && Nonce(b, v', a) == (if Survives(b, v, a) then Nonce(b, v, a) else 0)
      && Code(b, v', a) == (if Survives(b, v, a) then Code(b, v, a) else [])
      && (forall k :: Slot(b, v', a, k) == if Survives(b, v, a) then Slot(b, v, a, k) else ZERO)
      && (to != Some(br.address) ==> (Exists(b, v', a) <==> Survives(b, v, a)))
  {
    var v1 := v.(logs := []);
    assert ObjAt(b, v1, a) == ObjAt(b, v, a);
    CleanReads(b, v1, true, a);
    HandleAllBalances(b, br, Clean(v1, true), v.logs, a);
  }

  /** What the bridge adds for a message. */
  function NetFor(br: BridgeEnv, to: Option<Address>, logs: seq<Log>): (n: int) {
    if to == Some(br.address) then Net(br, logs) else 0
  }

  /** What one transaction of a block adds to the sum of all balances, given its receipt. */
  function TxNet(br: BridgeEnv, gasLimit: nat, tx: Tx, r: Receipt): (n: int) {
    if tx.msg.gas > gasLimit then 0 else NetFor(br, tx.msg.to, r.logs)
  }

  function BlockNet(br: BridgeEnv, gasLimit: nat, txs: seq<Tx>, rs: seq<Receipt>): (n: int)
    requires |rs| == |txs|
    decreases |txs|
  {
    if txs == [] then 0
    else BlockNet(br, gasLimit, txs[..|txs| - 1], rs[..|rs| - 1]) + TxNet(br, gasLimit, txs[|txs| - 1], rs[|rs| - 1])
  }

  lemma BlockNetNext(br: BridgeEnv, gasLimit: nat, txs: seq<Tx>, rs: seq<Receipt>, r: Receipt, n: nat, i: nat)
    requires i < |txs| && |rs| == n + i
    ensures BlockNet(br, gasLimit, txs[..i + 1], (rs + [r])[n..]) ==
      BlockNet(br, gasLimit, txs[..i], rs[n..]) + TxNet(br, gasLimit, txs[i], r)
  {
    assert txs[..i + 1][..i] == txs[..i] && (rs + [r])[n..][..i] == rs[n..];
  }

  /** No transaction of the block self-destructs anything. */
  ghost predicate AllCalm(txs: seq<Tx>) {
    forall i :: 0 <= i < |txs| ==> NoDestruct(txs[i].msg.run)
  }

  /**
   With Byzantium active, a message that is written changes the sum of all balances by deposits minus
   withdrawn amounts minus burns, and loses what accounts burnt by self-destructing to themselves and
   what self-destructed accounts hold in the end.
   */
  lemma WriteTotal(b: Base, env: Env, br: BridgeEnv, v: View, pool: nat, msg: Message)
    requires Messages.Apply(b, v, env, pool, msg).Applied?
    requires Written(b, br, Messages.Apply(b, v, env, pool, msg).view, msg.to).ok
    ensures var a := Messages.Apply(b, v, env, pool, msg);
      Total(b, Written(b, br, a.view, msg.to).view) ==
        Total(b, v) + NetFor(br, msg.to, a.view.logs) - a.burnt - SumOver(b, a.view, Doomed(a.view))
  {
    var a := Messages.Apply(b, v, env, pool, msg);
    var v1 := a.view.(logs := []);
    ApplyKeeps(b, v, env, pool, msg);
    TotalObjects(b, a.view, v1);
    assert Doomed(v1) == Doomed(a.view);
    SumSame(b, a.view, v1, Doomed(v1));
    TotalClean(b, v1, true);
    if msg.to == Some(br.address) {
      HandleAllTotal(b, br, Clean(v1, true), a.view.logs);
    }
  }

  /** Without self-destruction the sum changes by deposits minus withdrawn amounts minus burns alone. */
  lemma WriteTotalExact(b: Base, env: Env, br: BridgeEnv, v: View, pool: nat, msg: Message)
    requires Messages.Apply(b, v, env, pool, msg).Applied?
    requires Written(b, br, Messages.Apply(b, v, env, pool, msg).view, msg.to).ok
    requires NoDestruct(msg.run) && Doomed(v) == {}
    ensures var a := Messages.Apply(b, v, env, pool, msg);
      && Total(b, Written(b, br, a.view, msg.to).view) == Total(b, v) + NetFor(br, msg.to, a.view.logs)
      && Doomed(Written(b, br, a.view, msg.to).view) == {}
  {
    ApplyCalm(b, v, env, pool, msg);
    WriteTotal(b, env, br, v, pool, msg);
    var a := Messages.Apply(b, v, env, pool, msg);
    CleanCalm(a.view.(logs := []));
    CalmClosed(b);
    CalmMeaning(Clean(a.view.(logs := []), true));
    HandleEvery(b, br, Clean(a.view.(logs := []), true), a.view.logs, Calm(), false);
    CalmMeaning(Written(b, br, a.view, msg.to).view);
  }

  /** Cleaning up leaves no doomed account. */
  lemma CleanCalm(v: View)
    ensures Doomed(Clean(v, true)) == {}
  {
  }

  lemma {:induction false} HandleEvery(b: Base, br: BridgeEnv, v: View, logs: seq<Log>, P: Obj -> bool, d: bool)
    requires Closed(b, P, d) && Every(v, P)
    ensures Every(HandleAll(b, br, v, logs).view, P)
    decreases |logs|
  {
    if logs != [] {
      var rest := logs[..|logs| - 1];
      HandleEvery(b, br, v, rest, P, d);
      EventEvery(b, br.vault, HandleAll(b, br, v, rest).view, EventOf(br, logs[|logs| - 1]), P, d);
    }
  }

  lemma EventEvery(b: Base, vault: Address, v: View, e: Event, P: Obj -> bool, d: bool)
    requires Closed(b, P, d) && Every(v, P)
    ensures Every(HandleEvent(b, vault, v, e).view, P)
  {
    match e
    case Unrelated =>
    case Malformed =>
    case Deposited(receiver, _) => UpsertEvery(b, v, receiver, P, d);
    case Withdrawn(contract, amount, fee) =>
      UpsertEvery(b, v, contract, P, d);
      var r := SubBalance(b, v, contract, Whole(e));
      if r.Some? {
        UpsertEvery(b, r.value, vault, P, d);
      }
    case Burned(sender, _) => UpsertEvery(b, v, sender, P, d);
  }

  /** Roots stay known and code hashes right, self-destruction or not. */
  lemma WrittenOk(b: Base, env: Env, br: BridgeEnv, v: View, pool: nat, msg: Message)
    requires Messages.Apply(b, v, env, pool, msg).Applied? && ViewOk(b, v)
    ensures ViewOk(b, Written(b, br, Messages.Apply(b, v, env, pool, msg).view, msg.to).view)
  {
    var P := KnownObj(b);
    KnownClosed(b);
    ApplyEvery(b, v, env, pool, msg, P, true);
    var v1 := Messages.Apply(b, v, env, pool, msg).view;
    CleanOk(b, v1.(logs := []), true);
    HandleEvery(b, br, Clean(v1.(logs := []), true), v1.logs, P, true);
  }

  lemma CleanOk(b: Base, v: View, deleteEmpty: bool)
    requires ViewOk(b, v)
    ensures ViewOk(b, Clean(v, deleteEmpty))
  {
  }

  /** What one transaction of a block, with its receipt, does to the sum of balances and to the objects. */
  ghost predicate Balanced(b: Base, br: BridgeEnv, gasLimit: nat, tx: Tx, r: Receipt, v: View, v': View) {
    && (NoDestruct(tx.msg.run) && Doomed(v) == {} ==>
          Doomed(v') == {} && Total(b, v') == Total(b, v) + TxNet(br, gasLimit, tx, r))
    && (ViewOk(b, v) ==> ViewOk(b, v'))
  }

  /** A transaction above the gas limit is not executed; only pending logs are taken. */
  lemma SkippedBalanced(b: Base, br: BridgeEnv, gasLimit: nat, tx: Tx, r: Receipt, v: View)
    requires tx.msg.gas > gasLimit
    ensures Balanced(b, br, gasLimit, tx, r, v, v.(logs := []))
  {
    TotalObjects(b, v, v.(logs := []));
    assert Doomed(v) == Doomed(v.(logs := []));
  }

  lemma WrittenBalanced(b: Base, env: Env, br: BridgeEnv, gasLimit: nat, v: View, pool: nat, tx: Tx, r: Receipt)
    requires Messages.Apply(b, v, env, pool, tx.msg).Applied? && tx.msg.gas <= gasLimit
    requires Written(b, br, Messages.Apply(b, v, env, pool, tx.msg).view, tx.msg.to).ok
    requires r.logs == Messages.Apply(b, v, env, pool, tx.msg).view.logs
    ensures Balanced(b, br, gasLimit, tx, r, v, Written(b, br, Messages.Apply(b, v, env, pool, tx.msg).view, tx.msg.to).view)
  {
    if ViewOk(b, v) {
      WrittenOk(b, env, br, v, pool, tx.msg);
    }
    if NoDestruct(tx.msg.run) && Doomed(v) == {} {
      WriteTotalExact(b, env, br, v, pool, tx.msg);
    }
  }

  class Transition {
    const env: Env
    const bridge: BridgeEnv
    /** What committing a state gives, before Byzantium. */
    const commit: (Base, seq<Object>) -> Base
    var state: Txn
    var gasPool: nat
    var totalGas: nat
    var receipts: seq<Receipt>

    ghost predicate Valid()
      reads this, state
    {
      state.Valid()
    }

    /** What has been used and what may be used make up the block's gas limit. */
    ghost predicate Ledger(limit: nat)
      reads this
    {
      Accounted(limit, totalGas, gasPool, receipts)
    }

    /** BeginTxn */
    constructor (base: Base, env: Env, bridge: BridgeEnv, commit: (Base, seq<Object>) -> Base, gasLimit: nat)
      ensures Valid() && Ledger(gasLimit) && receipts == [] && fresh(state)
      ensures state.base == base && state.view == View(map[], [], 0)
      ensures this.env == env && this.bridge == bridge && this.commit == commit
    {
      this.env, this.bridge, this.commit := env, bridge, commit;
      state := new Txn(base);
      gasPool, totalGas, receipts := gasLimit, 0, [];
    }

    /** Steps 0 to 6 of apply, which buy the gas on the way. */
    method Admit(msg: Message) returns (err: Option<Error>, gas: nat)
      requires Valid() && msg.gas < TWO64
      modifies this`gasPool, state`mem, state`tree, state`view
      ensures Valid() && err == Check(state.base, old(state.view), env, old(gasPool), msg)
      ensures err.None? ==> state.view == Bought(state.base, old(state.view), msg) && gas == ExecutionGas(msg, env.forks)
      ensures gasPool == old(gasPool) - (if err.None? || RefusedLate(state.base, old(state.view), env, old(gasPool), msg) then msg.gas else 0)
    {
      RefusedLateIff(state.base, state.view, env, gasPool, msg);
      if gasPool < TX_GAS {
        return Some(AllGasUsed), 0;
      }
      err := BuyGas(state, msg);
      if err.Some? {
        return err, 0;
      }
      if gasPool < msg.gas {
        return Some(BlockLimitReached), 0;
      }
      gasPool := gasPool - msg.gas;
      err, gas := GasAfterIntrinsic(msg, env.forks);
      if err.Some? {
        return err, 0;
      }
      BoughtBalance(state.base, old(state.view), msg);
      var balance := state.GetBalance(msg.from);
      if balance < msg.value {
        return Some(NotEnoughFunds), 0;
      }
    }

    /** apply */
    method ApplyMessage(msg: Message) returns (r: Verdict)
      requires Valid() && msg.gas < TWO64
      modifies this`gasPool, state
      ensures Valid() && Onward(state)
      ensures var a := Messages.Apply(state.base, old(state.view), env, old(gasPool), msg);
        && Agrees(r, a)
        && (a.Applied? ==> state.view == a.view && gasPool == old(gasPool) - a.gasUsed)
        && (a.Rejected? ==> gasPool == old(gasPool) - if RefusedLate(state.base, old(state.view), env, old(gasPool), msg) then msg.gas else 0)
    {
      var err, gas := Admit(msg);
      if err.Some? {
        return Refused(err.value);
      }
      var left, used, failed;
      ghost var burnt;
      left, used, failed, burnt := RunAndSettle(state, env, msg, gas);
      gasPool := gasPool + left;
      r := Done(used, failed);
    }

    /**
     Apply: a refused message leaves the state as it was; but the pool is short of its gas exactly if it
     was refused late.
     */
    method Apply(msg: Message) returns (r: Verdict)
      requires Valid() && msg.gas < TWO64
      modifies this`gasPool, state
      ensures Valid()
      ensures var a := Messages.Apply(state.base, old(state.view), env, old(gasPool), msg);
        && Agrees(r, a)
        && (a.Applied? ==> state.view == a.view && gasPool == old(gasPool) - a.gasUsed)
        && (a.Rejected? ==> state.view == old(state.view))
        && (a.Rejected? ==> gasPool == old(gasPool) - if RefusedLate(state.base, old(state.view), env, old(gasPool), msg) then msg.gas else 0)
    {
      ghost var k := |state.live|;
      var s := state.Snapshot();
      r := ApplyMessage(msg);
      if r.Refused? {
        assert state.live[k] == s;
        state.RevertToSnapshot(s);
      }
    }

    /** Such a message: a creation with the gas of a call, which costs nothing and empties a pool of that size. */
    method DrainPool(msg: Message) returns (r: Verdict)
      requires Valid() && env.forks.homestead && gasPool == msg.gas == TX_GAS
      requires msg.to.None? && msg.input == [] && msg.price == 0 && msg.nonce == Nonce(state.base, state.view, msg.from)
      modifies this`gasPool, state
      ensures Valid() && r == Refused(NotEnoughIntrinsicGas) && state.view == old(state.view) && gasPool == 0
    {
      UnderpaidCreation(state.base, state.view, env, gasPool, msg);
      r := Apply(msg);
    }

    /** handleBridgeLogs; not `ok` is an error return. */
    method HandleBridgeLogs(to: Option<Address>, logs: seq<Log>) returns (ok: bool)
      requires Valid()
      modifies state`mem, state`tree, state`view
      ensures Valid() && Handled(state.view, ok) == Handle(state.base, bridge, old(state.view), to, logs)
    {
      if |logs| == 0 || to != Some(bridge.address) {
        return true;
      }
      for i := 0 to |logs|
        invariant Valid() && Handled(state.view, true) == HandleAll(state.base, bridge, old(state.view), logs[..i])
      {
        assert logs[..i + 1][..i] == logs[..i];
        ok := ActOn(state, bridge.vault, EventOf(bridge, logs[i]));
        if !ok {
          Stopped(state.base, bridge, old(state.view), logs, i + 1);
          return;
        }
      }
      assert logs[..|logs|] == logs;
      ok := true;
    }

    method WriteFailedReceipt(tx: Tx) returns (ok: bool)
      requires Valid()
      modifies this`receipts, state`tree, state`view
      ensures Valid() && (ok <==> tx.signed)
      ensures state.view == if ok then old(state.view).(logs := []) else old(state.view)
      ensures receipts == if ok then old(receipts) + [Receipt(totalGas, 0, true, old(state.view).logs)] else old(receipts)
    {
      if !tx.signed {
        return false;
      }
      var logs := state.Logs();
      receipts := receipts + [Receipt(totalGas, 0, true, logs)];
      ok := true;
    }

    /** Suicided and empty accounts are marked deleted; before Byzantium the state is committed. */
    method Tidy()
      requires Valid()
      modifies this`state, state
      ensures Valid() && (env.forks.byzantium ==> state == old(state) && state.view == Clean(old(state.view), true))
      ensures !env.forks.byzantium ==> fresh(state) && state.view == View(map[], [], 0)
      ensures !env.forks.byzantium ==>
        exists objs :: Lists(Clean(old(state.view), env.forks.eip155), objs) && state.base == commit(old(state.base), objs)
    {
      if env.forks.byzantium {
        state.CleanDeleteObjects(true);
      } else {
        var objs := state.Commit(env.forks.eip155);
        state := new Txn(commit(state.base, objs));
      }
    }

    /** Write; not `ok` is an error return, after which the block is abandoned. */
    method Write(tx: Tx) returns (ok: bool)
      requires Valid() && tx.msg.gas < TWO64
      modifies this`state, this`gasPool, this`totalGas, this`receipts, state
      ensures Valid() && (state == old(state) || (!env.forks.byzantium && fresh(state)))
      ensures var a := Messages.Apply(old(state.base), old(state.view), env, old(gasPool), tx.msg);
        && (ok ==> tx.signed && a.Applied? && totalGas == old(totalGas) + a.gasUsed && gasPool == old(gasPool) - a.gasUsed)
        && (ok ==> receipts == old(receipts) + [Receipt(totalGas, a.gasUsed, a.failed, a.view.logs)])
        && (ok && env.forks.byzantium ==> Handled(state.view, true) == Written(state.base, bridge, a.view, tx.msg.to))
        && (env.forks.byzantium && tx.signed && a.Applied? && Written(state.base, bridge, a.view, tx.msg.to).ok ==> ok)
    {
      if !tx.signed {
        return false;
      }
      var r := Apply(tx.msg);
      if r.Refused? {
        return false;
      }
      totalGas := totalGas + r.used;
      ok := Record(tx.msg.to, r.used, r.failed);
    }

    /** The rest of Write: the logs are taken, the state tidied, the bridge served, the receipt added. */
    method Record(to: Option<Address>, used: nat, failed: bool) returns (ok: bool)
      requires Valid()
      modifies this`state, this`receipts, state
      ensures Valid() && (state == old(state) || (!env.forks.byzantium && fresh(state)))
      ensures env.forks.byzantium ==> Handled(state.view, ok) == Written(state.base, bridge, old(state.view), to)
      ensures receipts == if ok then old(receipts) + [Receipt(totalGas, used, failed, old(state.view).logs)] else old(receipts)
    {
      var logs := state.Logs();
      var receipt := Receipt(totalGas, used, failed, logs);
      Tidy();
      ok := HandleBridgeLogs(to, logs);
      if ok {
        receipts := receipts + [receipt];
      }
    }

    /** One round of ProcessTransactions; `r` is the receipt it adds. */
    method Process(gasLimit: nat, tx: Tx, ghost limit: nat) returns (ok: bool, ghost r: Receipt)
      requires Valid() && Ledger(limit) && tx.msg.gas < TWO64
      modifies this`state, this`gasPool, this`totalGas, this`receipts, state
      ensures Valid() && (state == old(state) || (!env.forks.byzantium && fresh(state)))
      ensures ok ==> Ledger(limit) && receipts == old(receipts) + [r]
      ensures ok && env.forks.byzantium ==> Balanced(state.base, bridge, gasLimit, tx, r, old(state.view), state.view)
    {
      ghost var total, pool, rs := totalGas, gasPool, receipts;
      if tx.msg.gas > gasLimit {
        ok, r := WriteSkipped(tx, gasLimit);
      } else {
        ok, r := WriteWithin(tx, gasLimit);
      }
      if ok {
        LedgerNext(limit, total, pool, rs, r);
      }
    }

    /** WriteFailedReceipt, for a transaction above the block's gas limit. */
    method WriteSkipped(tx: Tx, ghost gasLimit: nat) returns (ok: bool, ghost r: Receipt)
      requires Valid() && tx.msg.gas > gasLimit
      modifies this`state, this`gasPool, this`totalGas, this`receipts, state
      ensures Valid() && state == old(state)
      ensures ok ==> receipts == old(receipts) + [r] && r.cumulative == totalGas
      ensures ok ==> totalGas == old(totalGas) + r.gasUsed && gasPool == old(gasPool) - r.gasUsed
      ensures ok ==> Balanced(state.base, bridge, gasLimit, tx, r, old(state.view), state.view)
    {
      r := Receipt(totalGas, 0, true, state.view.logs);
      SkippedBalanced(state.base, bridge, gasLimit, tx, r, state.view);
      ok := WriteFailedReceipt(tx);
    }

    /** Write, for a transaction within the block's gas limit. */
    method WriteWithin(tx: Tx, ghost gasLimit: nat) returns (ok: bool, ghost r: Receipt)
      requires Valid() && tx.msg.gas < TWO64 && tx.msg.gas <= gasLimit
      modifies this`state, this`gasPool, this`totalGas, this`receipts, state
      ensures Valid() && (state == old(state) || (!env.forks.byzantium && fresh(state)))
      ensures ok ==> receipts == old(receipts) + [r] && r.cumulative == totalGas
      ensures ok ==> totalGas == old(totalGas) + r.gasUsed && gasPool == old(gasPool) - r.gasUsed
      ensures ok && env.forks.byzantium ==> Balanced(state.base, bridge, gasLimit, tx, r, old(state.view), state.view)
    {
      ghost var v, pool, b := state.view, gasPool, state.base;
      ok := Write(tx);
      if ok {
        ghost var a := Messages.Apply(b, v, env, pool, tx.msg);
        r := Receipt(totalGas, a.gasUsed, a.failed, a.view.logs);
        if env.forks.byzantium {
          WrittenBalanced(b, env, bridge, gasLimit, v, pool, tx, r);
        }
      } else {
        r := Receipt(0, 0, true, []);
      }
    }

    /**
     ProcessTransactions, unless stopped at the transaction `stopAt`: gas used and gas left make up the
     limit, receipts carry prefix sums, and, with Byzantium active and no self-destruction, the sum of
     all balances changes by what the bridge brought in and out.
     */
    method ProcessTransactions(gasLimit: nat, txs: seq<Tx>, stopAt: nat, ghost limit: nat) returns (ok: bool)
      requires Valid() && Ledger(limit) && forall i :: 0 <= i < |txs| ==> txs[i].msg.gas < TWO64
      modifies this`state, this`gasPool, this`totalGas, this`receipts, state
      ensures Valid() && (ok ==> Ledger(limit) && |receipts| == |old(receipts)| + |txs|)
      ensures ok && env.forks.byzantium && AllCalm(txs) && Doomed(old(state.view)) == {} ==>
        state == old(state) && Total(state.base, state.view) ==
          Total(state.base, old(state.view)) + BlockNet(bridge, gasLimit, txs, receipts[|old(receipts)|..]) &&
        Doomed(state.view) == {}
      ensures ok && env.forks.byzantium && ViewOk(state.base, old(state.view)) ==> state == old(state) && ViewOk(state.base, state.view)
    {
      ghost var n, v, b := |receipts|, state.view, state.base;
      ghost var calm := env.forks.byzantium && AllCalm(txs) && Doomed(v) == {};
      assert BlockNet(bridge, gasLimit, txs[..0], receipts[n..]) == 0;
      for i := 0 to |txs|
        invariant Valid() && (state == old(state) || (!env.forks.byzantium && fresh(state)))
        invariant Ledger(limit) && |receipts| == n + i
        invariant calm ==> state == old(state) && Doomed(state.view) == {}
        invariant calm ==> Total(b, state.view) == Total(b, v) + BlockNet(bridge, gasLimit, txs[..i], receipts[n..])
        invariant env.forks.byzantium && ViewOk(b, v) ==> state == old(state) && ViewOk(b, state.view)
      {
        if stopAt <= i {
          return false;
        }
        ghost var rs := receipts;
        ghost var r;
        ok, r := Process(gasLimit, txs[i], limit);
        if !ok {
          return;
        }
        BlockNetNext(bridge, gasLimit, txs, rs, r, n, i);
      }
      assert txs[..|txs|] == txs;
      ok := true;
    }
  }
}
