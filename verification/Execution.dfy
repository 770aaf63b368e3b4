/**
 What a message does to the state, as a function (state/executor.go:708-1008). A call or creation that
 fails gives back the state it started from; the Transition class reaches the same states with
 snapshots and reverts. Running a contract is an arbitrary finite tree of host operations.
 */
module Execution {
  import opened Nibbles
  import opened Rlp
  import opened Options
  import opened Accounts
  import opened Overlay
  import opened Readings
  import opened Totals

  const MAX_DEPTH := 1025
  const MAX_CODE_SIZE := 24576

  datatype CallType = Call | CallCode | DelegateCall | StaticCall | CreateType | Create2Type

  /** runtime.Contract; a missing value transfers nothing. */
  datatype Contract = Contract(kind: CallType, caller: Address, address: Address, depth: nat, value: Option<nat>, gas: nat)

  /** What the interpreter asks of its host. */
  datatype HostOp =
    | Store(a: Address, k: Word, w: Word)
    | Emit(log: Log, room: nat)
    | Selfdestruct(a: Address, to: Address)
    | Callx(c: Contract, body: Program)

  /** One run of the interpreter: the operations it performed, and its result. */
  datatype Program = Program(ops: seq<HostOp>, gasLeft: nat, ret: seq<Byte>, failed: bool)

  /** runtime.ExecutionResult */
  datatype Result = Result(gasLeft: nat, ret: seq<Byte>, failed: bool)

  /** `burnt` is what accounts lost by self-destructing to themselves. */
  datatype Outcome = Outcome(view: View, res: Result, burnt: nat)

  /** Selfdestruct */
  function Destroyed(b: Base, v: View, a: Address, to: Address): (v': View) {
    var v1 := if Suicided(b, v, a) then v else AddRefund(v, 24000);
    Suicide(b, AddBalance(b, v1, to, Balance(b, v1, a)), a)
  }

  /** transfer; None is ErrInsufficientBalance. */
  function Transfer(b: Base, v: View, from: Address, to: Address, amount: Option<nat>): (r: Option<View>) {
    if amount.None? then Some(v)
    else
      var r := SubBalance(b, v, from, amount.value);
      if r.None? then None else Some(AddBalance(b, r.value, to, amount.value))
  }

  /** hasCodeOrNonce */
  predicate Taken(b: Base, v: View, a: Address) {
    Nonce(b, v, a) != 0 || (CodeHashAt(b, v, a).Some? && CodeHashAt(b, v, a) != Some(CodeHash([])))
  }

  function Perform(b: Base, f: Forks, v: View, op: HostOp): (r: (View, nat))
    decreases op
  {
    match op
    case Store(a, k, w) => (SetStorage(b, v, a, k, w, f).0, 0)
    case Emit(log, _) => (v.(logs := v.logs + [log]), 0)
    case Selfdestruct(a, to) => (Destroyed(b, v, a, to), if to == a then Balance(b, v, a) else 0)
    case Callx(c, body) =>
      var o := if c.kind.CreateType? then ApplyCreate(b, f, v, c, body) else ApplyCall(b, f, v, c, c.kind, body);
      (o.view, o.burnt)
  }

  function PerformAll(b: Base, f: Forks, v: View, ops: seq<HostOp>): (r: (View, nat))
    decreases ops
  {
    if ops == [] then (v, 0)
    else
      var r := PerformAll(b, f, v, ops[..|ops| - 1]);
      var r' := Perform(b, f, r.0, ops[|ops| - 1]);
      (r'.0, r.1 + r'.1)
  }

  /** run: no more gas is left than was given. */
  function Run(b: Base, f: Forks, v: View, gas: nat, p: Program): (o: Outcome)
    ensures o.res.gasLeft <= gas
    decreases p, 0
  {
    var r := PerformAll(b, f, v, p.ops);
    Outcome(r.0, Result(if p.gasLeft <= gas then p.gasLeft else gas, p.ret, p.failed), r.1)
  }

  /** The called account is there, and a call has moved its value; other kinds move none. */
  function Entered(b: Base, v: View, c: Contract, kind: CallType): (r: Option<View>) {
    var v1 := Touch(b, v, c.address);
    if kind.Call? then Transfer(b, v1, c.caller, c.address, c.value) else Some(v1)
  }

  function ApplyCall(b: Base, f: Forks, v: View, c: Contract, kind: CallType, p: Program): (o: Outcome)
    ensures o.res.gasLeft <= c.gas
    decreases p, 2
  {
    if c.depth > MAX_DEPTH then Outcome(v, Result(c.gas, [], true), 0) else Called(b, f, v, c, kind, p)
  }

  /** A call that is not too deep. */
  function Called(b: Base, f: Forks, v: View, c: Contract, kind: CallType, p: Program): (o: Outcome)
    ensures o.res.gasLeft <= c.gas
    decreases p, 1
  {
    var v2 := Entered(b, v, c, kind);
    if v2.None? then Outcome(Touch(b, v, c.address), Result(c.gas, [], true), 0)
    else
      var o := Run(b, f, v2.value, c.gas, p);
      if o.res.failed then o.(view := v, burnt := 0) else o
  }

  /** The account a creation prepares, and the caller's nonce. */
  function Prepared(b: Base, f: Forks, v: View, c: Contract): (v': View) {
    var v0 := IncrNonce(b, v, c.caller);
    if f.eip158 then IncrNonce(b, CreateAccount(b, v0, c.address), c.address) else v0
  }

  function ApplyCreate(b: Base, f: Forks, v: View, c: Contract, p: Program): (o: Outcome)
    ensures o.res.gasLeft <= c.gas
    decreases p, 2
  {
    if c.depth > MAX_DEPTH then Outcome(v, Result(c.gas, [], true), 0)
    else if Taken(b, IncrNonce(b, v, c.caller), c.address) then Outcome(IncrNonce(b, v, c.caller), Result(0, [], true), 0)
    else Created(b, f, v, c, p)
  }

  /** A creation that finds its address free. */
  function Created(b: Base, f: Forks, v: View, c: Contract, p: Program): (o: Outcome)
    ensures o.res.gasLeft <= c.gas
    decreases p, 1
  {
    var v0, v1 := IncrNonce(b, v, c.caller), Prepared(b, f, v, c);
    var v2 := Transfer(b, v1, c.caller, c.address, c.value);
    if v2.None? then Outcome(v1, Result(c.gas, [], true), 0)
    else
      var o := Run(b, f, v2.value, c.gas, p);
      if o.res.failed then o.(view := v0, burnt := 0) else Deploy(b, f, v0, c, o)
  }

  /** The end of a creation: the code is paid for and stored, or the creation fails after all. */
  function Deploy(b: Base, f: Forks, v0: View, c: Contract, o: Outcome): (o': Outcome)
    ensures o'.res.gasLeft <= o.res.gasLeft
  {
    var cost := 200 * |o.res.ret|;
    if f.eip158 && |o.res.ret| > MAX_CODE_SIZE then Outcome(v0, Result(0, [], true), 0)
    else if o.res.gasLeft < cost then
      if f.homestead then Outcome(v0, Result(0, [], true), 0)
      else o.(res := Result(o.res.gasLeft, [], true))
    else Outcome(SetCode(b, o.view, c.address, o.res.ret), Result(o.res.gasLeft - cost, o.res.ret, false), o.burnt)
  }

  // Who gets what.

  /** A transfer takes the amount from the sender and gives it to the recipient; nobody else's balance changes. */
  lemma TransferBalances(b: Base, v: View, from: Address, to: Address, x: nat, y: Address)
    requires x <= Balance(b, v, from)
    ensures Transfer(b, v, from, to, Some(x)).Some?
    ensures Balance(b, Transfer(b, v, from, to, Some(x)).value, y) ==
      Balance(b, v, y) - (if y == from then x else 0) + (if y == to then x else 0)
  {
  }

  /** Nothing but balances can be read to differ after a transfer. */
  lemma TransferReads(b: Base, v: View, from: Address, to: Address, x: nat, y: Address)
    requires CodesOk(b) && x <= Balance(b, v, from)
    ensures Transfer(b, v, from, to, Some(x)).Some?
    ensures var v' := Transfer(b, v, from, to, Some(x)).value;
      v'.logs == v.logs && v'.refund == v.refund && RestKept(b, v, v', y) && Suicided(b, v', y) == Suicided(b, v, y)
  {
    SubKeepsRest(b, v, from, x, y);
    var v1 := SubBalance(b, v, from, x).value;
    AddKeepsRest(b, v1, to, x, y);
    RestKeptTwice(b, v, v1, AddBalance(b, v1, to, x), y);
  }

  /** The balance of `a` is given to `to`, and `a` is marked. */
  function GivenAway(b: Base, v: View, a: Address, to: Address): (v': View) {
    Suicide(b, AddBalance(b, v, to, Balance(b, v, a)), a)
  }

  lemma GivenAwayBalances(b: Base, v: View, a: Address, to: Address, y: Address)
    ensures var v' := GivenAway(b, v, a, to);
      && Balance(b, v', y) == (if y == a then 0 else Balance(b, v, y) + if y == to then Balance(b, v, a) else 0)
      && (Suicided(b, v', y) <==> Suicided(b, v, y) || (y == a && (Exists(b, v, a) || a == to)))
  {
  }

  lemma GivenAwayKeeps(b: Base, v: View, a: Address, to: Address, y: Address)
    requires CodesOk(b)
    ensures var v' := GivenAway(b, v, a, to); v'.logs == v.logs && v'.refund == v.refund && RestKept(b, v, v', y)
  {
    var v1 := AddBalance(b, v, to, Balance(b, v, a));
    AddKeepsRest(b, v, to, Balance(b, v, a), y);
    SuicideKeepsRest(b, v1, a, y);
    RestKeptTwice(b, v, v1, Suicide(b, v1, a), y);
  }

  lemma SameObjectsRead(b: Base, v: View, v': View, y: Address)
    requires v'.objs == v.objs
    ensures Exists(b, v', y) == Exists(b, v, y) && Balance(b, v', y) == Balance(b, v, y) && Suicided(b, v', y) == Suicided(b, v, y)
    ensures RestKept(b, v, v', y)
  {
    assert ObjAt(b, v', y) == ObjAt(b, v, y);
  }

  /** Self-destruction: the beneficiary gets the balance, the account is marked and empty, and 24000 is refunded the first time. */
  lemma DestroyedReads(b: Base, v: View, a: Address, to: Address, y: Address)
    requires CodesOk(b) && v.refund + 24000 < TWO64
    ensures var v' := Destroyed(b, v, a, to);
      && Balance(b, v', y) == (if y == a then 0 else Balance(b, v, y) + if y == to then Balance(b, v, a) else 0)
      && (Suicided(b, v', y) <==> Suicided(b, v, y) || (y == a && (Exists(b, v, a) || a == to)))
      && v'.refund == (if Suicided(b, v, a) then v.refund else v.refund + 24000) && v'.logs == v.logs && RestKept(b, v, v', y)
  {
    var v1 := if Suicided(b, v, a) then v else AddRefund(v, 24000);
    assert Destroyed(b, v, a, to) == GivenAway(b, v1, a, to);
    SameObjectsRead(b, v, v1, a);
    SameObjectsRead(b, v, v1, y);
    GivenAwayBalances(b, v1, a, to, y);
    GivenAwayKeeps(b, v1, a, to, y);
    RestKeptTwice(b, v, v1, GivenAway(b, v1, a, to), y);
  }

  /** A storage write of a run shows in the slot, and in no other. */
  lemma StoreShows(b: Base, f: Forks, v: View, a: Address, k: Word, w: Word, x: Address, l: Word)
    ensures Slot(b, Perform(b, f, v, HostOp.Store(a, k, w)).0, x, l) == if (x, l) == (a, k) then w else Slot(b, v, x, l)
  {
    StoreObjects(b, v, a, k, w, f);
  }

  /** A log of a run is appended, and nothing else changes. */
  lemma EmitShows(b: Base, f: Forks, v: View, log: Log, room: nat)
    ensures var v' := Perform(b, f, v, HostOp.Emit(log, room)).0;
      v'.logs == v.logs + [log] && v'.objs == v.objs && v'.refund == v.refund
  {
  }

  /** The operations of a run are performed one after the other. */
  lemma {:induction false} RunInTurn(b: Base, f: Forks, v: View, ops: seq<HostOp>, ops': seq<HostOp>)
    ensures PerformAll(b, f, v, ops + ops').0 == PerformAll(b, f, PerformAll(b, f, v, ops).0, ops').0
  {
    if ops' == [] {
      assert ops + ops' == ops;
    } else {
      var last := |ops'| - 1;
      assert (ops + ops')[..|ops| + last] == ops + ops'[..last];
      RunInTurn(b, f, v, ops, ops'[..last]);
    }
  }

  /** A frame deeper than 1025 fails with all its gas and no trace. */
  lemma TooDeep(b: Base, f: Forks, v: View, c: Contract, kind: CallType, p: Program)
    requires c.depth > 1025
    ensures ApplyCall(b, f, v, c, kind, p) == ApplyCreate(b, f, v, c, p) == Outcome(v, Result(c.gas, [], true), 0)
  {
  }

  /** What a run leaves, returns and keeps of its gas. */
  lemma RunReturns(b: Base, f: Forks, v: View, gas: nat, p: Program)
    ensures var o := Run(b, f, v, gas, p);
      && o.view == PerformAll(b, f, v, p.ops).0 && o.res.failed == p.failed && o.res.ret == p.ret
      && o.res.gasLeft == (if p.gasLeft <= gas then p.gasLeft else gas)
  {
  }

  /** The frame's run starts when its value is moved; what the run does and returns is what a successful call does and returns. */
  lemma CallRuns(b: Base, f: Forks, v: View, c: Contract, kind: CallType, p: Program)
    requires c.depth <= 1025 && !(kind.Call? && c.value.Some? && Balance(b, v, c.caller) < c.value.value)
    ensures Entered(b, v, c, kind).Some?
    ensures var o := ApplyCall(b, f, v, c, kind, p);
      && (o.res.failed <==> p.failed) && o.res.ret == p.ret && o.res.gasLeft == (if p.gasLeft <= c.gas then p.gasLeft else c.gas)
      && (!p.failed ==> o.view == PerformAll(b, f, Entered(b, v, c, kind).value, p.ops).0)
  {
    TransferKeeps(b, Touch(b, v, c.address), c.caller, c.address, c.value);
    RunReturns(b, f, Entered(b, v, c, kind).value, c.gas, p);
    assert ApplyCall(b, f, v, c, kind, p) == Called(b, f, v, c, kind, p);
  }

  /** What the called account starts with: a call moves its value to it, other kinds move nothing. */
  lemma EnteredReads(b: Base, v: View, c: Contract, kind: CallType, y: Address)
    requires CodesOk(b) && Entered(b, v, c, kind).Some?
    ensures var v', x := Entered(b, v, c, kind).value, if kind.Call? && c.value.Some? then c.value.value else 0;
      && Balance(b, v', y) == Balance(b, v, y) - (if y == c.caller then x else 0) + (if y == c.address then x else 0)
      && RestKept(b, v, v', y) && Suicided(b, v', y) == Suicided(b, v, y) && v'.logs == v.logs && v'.refund == v.refund
  {
    var v1 := Touch(b, v, c.address);
    TouchKeepsRest(b, v, c.address, y);
    if kind.Call? && c.value.Some? {
      TransferKeeps(b, v1, c.caller, c.address, c.value);
      TransferBalances(b, v1, c.caller, c.address, c.value.value, y);
      TransferReads(b, v1, c.caller, c.address, c.value.value, y);
      RestKeptTwice(b, v, v1, Transfer(b, v1, c.caller, c.address, c.value).value, y);
    }
  }

  /** A call whose program does nothing pays the called account. */
  lemma CallPays(b: Base, f: Forks, v: View, c: Contract, p: Program, x: nat, y: Address)
    requires CodesOk(b) && c.depth <= 1025 && c.value == Some(x) && x <= Balance(b, v, c.caller) && p.ops == [] && !p.failed
    ensures var o := ApplyCall(b, f, v, c, Call, p);
      && !o.res.failed
      && Balance(b, o.view, y) == Balance(b, v, y) - (if y == c.caller then x else 0) + (if y == c.address then x else 0)
  {
    CallRuns(b, f, v, c, Call, p);
    EnteredReads(b, v, c, Call, y);
  }

  /** A nested frame that only is entered: a call pays the called account, a delegated or static call pays nobody. */
  lemma NestedPays(b: Base, f: Forks, v: View, c: Contract, body: Program, y: Address)
    requires CodesOk(b) && c.depth <= 1025 && !c.kind.CreateType? && body.ops == [] && !body.failed
    requires c.kind.Call? && c.value.Some? ==> c.value.value <= Balance(b, v, c.caller)
    ensures var x := if c.kind.Call? && c.value.Some? then c.value.value else 0;
      Balance(b, Perform(b, f, v, Callx(c, body)).0, y) ==
        Balance(b, v, y) - (if y == c.caller then x else 0) + (if y == c.address then x else 0)
  {
    CallRuns(b, f, v, c, c.kind, body);
    EnteredReads(b, v, c, c.kind, y);
  }

  /** A nested creation that succeeds leaves the returned code at its address. */
  lemma NestedCreates(b: Base, f: Forks, v: View, c: Contract, body: Program)
    requires c.kind.CreateType? && !ApplyCreate(b, f, v, c, body).res.failed
    ensures Code(b, Perform(b, f, v, Callx(c, body)).0, c.address) == body.ret
  {
    CreateStores(b, f, v, c, body);
  }

  /** A creation at an address in use fails, with all its gas used. */
  lemma Collision(b: Base, f: Forks, v: View, c: Contract, p: Program)
    requires c.depth <= 1025 && c.address != c.caller
    requires Nonce(b, v, c.address) != 0 || CodeHashAt(b, v, c.address) !in {None, Some(CodeHash([]))}
    ensures ApplyCreate(b, f, v, c, p) == Outcome(IncrNonce(b, v, c.caller), Result(0, [], true), 0)
  {
    assert ObjAt(b, IncrNonce(b, v, c.caller), c.address) == ObjAt(b, v, c.address);
  }

  /** The run of a creation at an address not in use starts on an account with the value added to its balance and, under EIP-158, nonce 1. */
  lemma PreparedBalances(b: Base, f: Forks, v: View, c: Contract, x: nat, y: Address)
    requires c.value == Some(x) && x <= Balance(b, v, c.caller)
    ensures var r := Transfer(b, Prepared(b, f, v, c), c.caller, c.address, c.value);
      && r.Some?
      && Balance(b, r.value, y) == Balance(b, v, y) - (if y == c.caller then x else 0) + (if y == c.address then x else 0)
      && (f.eip158 ==> Nonce(b, r.value, c.address) == 1)
  {
    PreparedReads(b, f, v, c);
    TransferBalances(b, Prepared(b, f, v, c), c.caller, c.address, x, y);
  }

  /** The caller's nonce is used; under EIP-158 the new account starts without code and slots, before it nothing else changes. */
  lemma PreparedFresh(b: Base, f: Forks, v: View, c: Contract)
    requires CodesOk(b) && c.address != c.caller
    ensures var v', n := Prepared(b, f, v, c), Nonce(b, v, c.caller);
      && Nonce(b, v', c.caller) == (if n == 0xFFFF_FFFF_FFFF_FFFF then 0 else n + 1)
      && (f.eip158 ==> Code(b, v', c.address) == [] && forall k :: Slot(b, v', c.address, k) == ZERO)
      && (!f.eip158 ==> ObjAt(b, v', c.address) == ObjAt(b, v, c.address))
      && forall y :: y != c.caller && y != c.address ==> ObjAt(b, v', y) == ObjAt(b, v, y)
  {
    IncrNonceReads(b, v, c.caller);
  }

  /** What is left of the gas when a creation that could start fails in the end. */
  lemma FailedCreateGas(b: Base, f: Forks, v: View, c: Contract, p: Program)
    requires c.depth <= 1025 && !Taken(b, IncrNonce(b, v, c.caller), c.address)
    ensures var res, gas := ApplyCreate(b, f, v, c, p).res, if p.gasLeft <= c.gas then p.gasLeft else c.gas;
      if c.value.Some? && Balance(b, v, c.caller) < c.value.value then res == Result(c.gas, [], true)
      else if p.failed then res == Result(gas, p.ret, true)
      else if f.eip158 && |p.ret| > 24576 then res == Result(0, [], true)
      else if 200 * |p.ret| > gas then res == Result(if f.homestead then 0 else gas, [], true)
      else res == Result(gas - 200 * |p.ret|, p.ret, false)
  {
    assert ApplyCreate(b, f, v, c, p) == Created(b, f, v, c, p);
    PreparedReads(b, f, v, c);
    TransferKeeps(b, Prepared(b, f, v, c), c.caller, c.address, c.value);
    var v2 := Transfer(b, Prepared(b, f, v, c), c.caller, c.address, c.value);
    if v2.Some? {
      RunReturns(b, f, v2.value, c.gas, p);
    }
  }

  /** A creation that succeeds stores what its run returned as the code of the new account, paid at 200 a byte. */
  lemma CreateStores(b: Base, f: Forks, v: View, c: Contract, p: Program)
    requires !ApplyCreate(b, f, v, c, p).res.failed
    ensures var o := ApplyCreate(b, f, v, c, p);
      && Code(b, o.view, c.address) == o.res.ret == p.ret && CodeHashAt(b, o.view, c.address) == Some(CodeHash(o.res.ret))
      && o.res.gasLeft + 200 * |p.ret| == (if p.gasLeft <= c.gas then p.gasLeft else c.gas)
      && (f.eip158 ==> |p.ret| <= 24576)
  {
    assert ApplyCreate(b, f, v, c, p) == Created(b, f, v, c, p);
    var v2 := Transfer(b, Prepared(b, f, v, c), c.caller, c.address, c.value);
    assert v2.Some?;
    RunReturns(b, f, v2.value, c.gas, p);
    SetCodeReads(b, Run(b, f, v2.value, c.gas, p).view, c.address, p.ret);
  }

  /** A creation whose program does nothing pays the new account. */
  lemma CreatePays(b: Base, f: Forks, v: View, c: Contract, p: Program, x: nat, y: Address)
    requires c.value == Some(x) && p.ops == [] && !ApplyCreate(b, f, v, c, p).res.failed
    ensures Balance(b, ApplyCreate(b, f, v, c, p).view, y) ==
      Balance(b, v, y) - (if y == c.caller then x else 0) + (if y == c.address then x else 0)
  {
    assert ApplyCreate(b, f, v, c, p) == Created(b, f, v, c, p);
    PreparedReads(b, f, v, c);
    TransferKeeps(b, Prepared(b, f, v, c), c.caller, c.address, c.value);
    PreparedBalances(b, f, v, c, x, y);
    var v2 := Transfer(b, Prepared(b, f, v, c), c.caller, c.address, c.value).value;
    RunReturns(b, f, v2, c.gas, p);
    SetCodeReads(b, v2, c.address, p.ret);
    assert y != c.address ==> ObjAt(b, SetCode(b, v2, c.address, p.ret), y) == ObjAt(b, v2, y);
  }

  /** When it succeeds: at an address not in use, its value paid, its run successful and its code paid for and not too long. */
  lemma CreateSucceedsIff(b: Base, f: Forks, v: View, c: Contract, p: Program)
    requires c.address != c.caller
    ensures var gas := if p.gasLeft <= c.gas then p.gasLeft else c.gas;
      !ApplyCreate(b, f, v, c, p).res.failed <==>
        && c.depth <= 1025 && Nonce(b, v, c.address) == 0 && CodeHashAt(b, v, c.address) in {None, Some(CodeHash([]))}
        && (c.value.Some? ==> c.value.value <= Balance(b, v, c.caller)) && !p.failed && 200 * |p.ret| <= gas
        && (f.eip158 ==> |p.ret| <= 24576)
  {
    assert ObjAt(b, IncrNonce(b, v, c.caller), c.address) == ObjAt(b, v, c.address);
    PreparedReads(b, f, v, c);
    TransferKeeps(b, Prepared(b, f, v, c), c.caller, c.address, c.value);
    var v2 := Transfer(b, Prepared(b, f, v, c), c.caller, c.address, c.value);
    if c.depth <= 1025 && !Taken(b, IncrNonce(b, v, c.caller), c.address) {
      assert ApplyCreate(b, f, v, c, p) == Created(b, f, v, c, p);
      if v2.Some? {
        RunReturns(b, f, v2.value, c.gas, p);
      }
    }
  }

  // Nothing is created, and nothing lost but what burns.

  lemma TransferKeeps(b: Base, v: View, from: Address, to: Address, amount: Option<nat>)
    ensures Transfer(b, v, from, to, amount).None? <==> amount.Some? && Balance(b, v, from) < amount.value
    ensures Transfer(b, v, from, to, amount).Some? ==> Total(b, Transfer(b, v, from, to, amount).value) == Total(b, v)
  {
    if amount.Some? {
      TotalSub(b, v, from, amount.value);
      var r := SubBalance(b, v, from, amount.value);
      if r.Some? {
        TotalAdd(b, r.value, to, amount.value);
      }
    }
  }

  lemma UpsertKeeps(b: Base, v: View, a: Address)
    ensures Total(b, Touch(b, v, a)) == Total(b, IncrNonce(b, v, a)) == Total(b, CreateAccount(b, v, a)) == Total(b, v)
    ensures forall code :: Total(b, SetCode(b, v, a, code)) == Total(b, v)
    ensures forall k, w :: Total(b, SetState(b, v, a, k, w)) == Total(b, v)
  {
    ObjAtLives(b, v, a);
    TotalKept(b, v, a, ObjOrFresh(b, v, a));
    TotalKept(b, v, a, Bumped(ObjOrFresh(b, v, a)));
    TotalKept(b, v, a, WithBalance(FRESH, Balance(b, v, a)));
    forall code ensures Total(b, SetCode(b, v, a, code)) == Total(b, v) {
      TotalKept(b, v, a, SetCode(b, v, a, code).objs[a]);
    }
    forall k, w ensures Total(b, SetState(b, v, a, k, w)) == Total(b, v) {
      TotalKept(b, v, a, SetState(b, v, a, k, w).objs[a]);
    }
  }

  lemma StoreKeeps(b: Base, f: Forks, v: View, a: Address, k: Word, w: Word)
    ensures Total(b, SetStorage(b, v, a, k, w, f).0) == Total(b, v)
  {
    StoreObjects(b, v, a, k, w, f);
    UpsertKeeps(b, v, a);
    TotalObjects(b, if Slot(b, v, a, k) == w then v else SetState(b, v, a, k, w), SetStorage(b, v, a, k, w, f).0);
  }

  lemma DestroyedKeeps(b: Base, v: View, a: Address, to: Address)
    ensures Total(b, Destroyed(b, v, a, to)) + (if to == a then Balance(b, v, a) else 0) == Total(b, v)
  {
    var v1 := if Suicided(b, v, a) then v else AddRefund(v, 24000);
    TotalObjects(b, v, v1);
    TotalSelfdestruct(b, v1, a, to);
  }

  lemma {:induction false} PerformKeeps(b: Base, f: Forks, v: View, op: HostOp)
    ensures Total(b, Perform(b, f, v, op).0) + Perform(b, f, v, op).1 == Total(b, v)
    decreases op
  {
    match op
    case Store(a, k, w) => StoreKeeps(b, f, v, a, k, w);
    case Emit(log, _) => TotalObjects(b, v, v.(logs := v.logs + [log]));
    case Selfdestruct(a, to) => DestroyedKeeps(b, v, a, to);
    case Callx(c, body) =>
      if c.kind.CreateType? {
        CreateKeeps(b, f, v, c, body);
      } else {
        CallKeeps(b, f, v, c, c.kind, body);
      }
  }

  lemma {:induction false} PerformAllKeeps(b: Base, f: Forks, v: View, ops: seq<HostOp>)
    ensures Total(b, PerformAll(b, f, v, ops).0) + PerformAll(b, f, v, ops).1 == Total(b, v)
    decreases ops
  {
    if ops != [] {
      var r := PerformAll(b, f, v, ops[..|ops| - 1]);
      PerformAllKeeps(b, f, v, ops[..|ops| - 1]);
      PerformKeeps(b, f, r.0, ops[|ops| - 1]);
    }
  }

  /** A call, however its frames nest, keeps the sum of all balances but for what burns. */
  lemma {:induction false} CallKeeps(b: Base, f: Forks, v: View, c: Contract, kind: CallType, p: Program)
    ensures Total(b, ApplyCall(b, f, v, c, kind, p).view) + ApplyCall(b, f, v, c, kind, p).burnt == Total(b, v)
    decreases p, 1
  {
    if c.depth <= MAX_DEPTH {
      UpsertKeeps(b, v, c.address);
      var v1 := Touch(b, v, c.address);
      TransferKeeps(b, v1, c.caller, c.address, c.value);
      var v2 := if kind.Call? then Transfer(b, v1, c.caller, c.address, c.value) else Some(v1);
      if v2.Some? {
        PerformAllKeeps(b, f, v2.value, p.ops);
      }
      assert Total(b, Called(b, f, v, c, kind, p).view) + Called(b, f, v, c, kind, p).burnt == Total(b, v);
    }
  }

  lemma PreparedKeeps(b: Base, f: Forks, v: View, c: Contract)
    ensures Total(b, Prepared(b, f, v, c)) == Total(b, IncrNonce(b, v, c.caller)) == Total(b, v)
  {
    UpsertKeeps(b, v, c.caller);
    var v0 := IncrNonce(b, v, c.caller);
    UpsertKeeps(b, v0, c.address);
    UpsertKeeps(b, CreateAccount(b, v0, c.address), c.address);
  }

  lemma DeployKeeps(b: Base, f: Forks, v0: View, c: Contract, o: Outcome)
    requires Total(b, o.view) + o.burnt == Total(b, v0)
    ensures Total(b, Deploy(b, f, v0, c, o).view) + Deploy(b, f, v0, c, o).burnt == Total(b, v0)
  {
    UpsertKeeps(b, o.view, c.address);
  }

  lemma {:induction false} CreateKeeps(b: Base, f: Forks, v: View, c: Contract, p: Program)
    ensures Total(b, ApplyCreate(b, f, v, c, p).view) + ApplyCreate(b, f, v, c, p).burnt == Total(b, v)
    decreases p, 1
  {
    var v0, v1 := IncrNonce(b, v, c.caller), Prepared(b, f, v, c);
    PreparedKeeps(b, f, v, c);
    TransferKeeps(b, v1, c.caller, c.address, c.value);
    var v2 := Transfer(b, v1, c.caller, c.address, c.value);
    if c.depth <= MAX_DEPTH && v2.Some? {
      var o := Run(b, f, v2.value, c.gas, p);
      PerformAllKeeps(b, f, v2.value, p.ops);
      DeployKeeps(b, f, v0, c, o);
    }
  }

  /** No account of the program self-destructs to itself. */
  ghost predicate NoSelfBurn(p: Program)
    decreases p
  {
    forall i :: 0 <= i < |p.ops| ==>
      match p.ops[i]
      case Selfdestruct(a, to) => a != to
      case Callx(_, body) => NoSelfBurn(body)
      case _ => true
  }

  lemma {:induction false} NothingBurns(b: Base, f: Forks, v: View, p: Program, n: nat)
    requires NoSelfBurn(p) && n <= |p.ops|
    ensures PerformAll(b, f, v, p.ops[..n]).1 == 0
    decreases p, n
  {
    if n > 0 {
      assert p.ops[..n][..n - 1] == p.ops[..n - 1];
      NothingBurns(b, f, v, p, n - 1);
      var v', op := PerformAll(b, f, v, p.ops[..n - 1]).0, p.ops[n - 1];
      if op.Callx? {
        FrameBurnsNothing(b, f, v', op.c, op.c.kind, op.body);
      }
      assert Perform(b, f, v', op).1 == 0;
    }
  }

  lemma {:induction false} FrameBurnsNothing(b: Base, f: Forks, v: View, c: Contract, kind: CallType, p: Program)
    requires NoSelfBurn(p)
    ensures ApplyCreate(b, f, v, c, p).burnt == 0 && ApplyCall(b, f, v, c, kind, p).burnt == 0
    decreases p, |p.ops| + 1
  {
    assert p.ops[..|p.ops|] == p.ops;
    forall w: View ensures Run(b, f, w, c.gas, p).burnt == 0 {
      NothingBurns(b, f, w, p, |p.ops|);
    }
    assert Created(b, f, v, c, p).burnt == 0 && Called(b, f, v, c, kind, p).burnt == 0;
  }

  // What failing frames leave behind.

  /** Everything a contract can read is the same, whether accounts exist included. */
  ghost predicate SameReads(b: Base, v: View, v': View) {
    && v'.logs == v.logs && v'.refund == v.refund
    && forall a ::
      && Exists(b, v', a) == Exists(b, v, a) && CodeHashAt(b, v', a) == CodeHashAt(b, v, a)
      && Balance(b, v', a) == Balance(b, v, a) && Nonce(b, v', a) == Nonce(b, v, a) && Code(b, v', a) == Code(b, v, a)
      && Suicided(b, v', a) == Suicided(b, v, a) && forall k :: Slot(b, v', a, k) == Slot(b, v, a, k)
  }

  /** Touching an account shows exactly if it was not there. */
  lemma TouchReads(b: Base, v: View, a: Address)
    ensures SameReads(b, v, Touch(b, v, a)) <==> Exists(b, v, a)
  {
    var v' := Touch(b, v, a);
    assert Exists(b, v', a);
    if Exists(b, v, a) {
      forall x ensures ObjAt(b, v', x) == ObjAt(b, v, x) {
      }
      SameObjects(b, v, v');
    }
  }

  lemma SameObjects(b: Base, v: View, v': View)
    requires v'.logs == v.logs && v'.refund == v.refund && forall x :: ObjAt(b, v', x) == ObjAt(b, v, x)
    ensures SameReads(b, v, v')
  {
    forall a
      ensures Exists(b, v', a) == Exists(b, v, a) && CodeHashAt(b, v', a) == CodeHashAt(b, v, a)
      ensures Balance(b, v', a) == Balance(b, v, a) && Nonce(b, v', a) == Nonce(b, v, a) && Code(b, v', a) == Code(b, v, a)
      ensures Suicided(b, v', a) == Suicided(b, v, a) && forall k :: Slot(b, v', a, k) == Slot(b, v, a, k)
    {
      assert ObjAt(b, v', a) == ObjAt(b, v, a);
    }
  }

  /** The call gets as far as moving its value, and cannot. */
  predicate CannotPay(b: Base, v: View, c: Contract, kind: CallType) {
    kind.Call? && c.depth <= MAX_DEPTH && c.value.Some? && Balance(b, v, c.caller) < c.value.value
  }

  /**
   A failed call, at whatever depth it failed, leaves nothing a contract can read; except that one whose
   caller cannot pay its value leaves the called account behind if that did not exist.
   */
  lemma FailedCall(b: Base, f: Forks, v: View, c: Contract, kind: CallType, p: Program)
    requires ApplyCall(b, f, v, c, kind, p).res.failed
    ensures !CannotPay(b, v, c, kind) ==> ApplyCall(b, f, v, c, kind, p).view == v
    ensures SameReads(b, v, ApplyCall(b, f, v, c, kind, p).view) <==> !(CannotPay(b, v, c, kind) && !Exists(b, v, c.address))
    ensures CannotPay(b, v, c, kind) ==> ApplyCall(b, f, v, c, kind, p).res == Result(c.gas, [], true)
  {
    TouchReads(b, v, c.address);
    TransferKeeps(b, Touch(b, v, c.address), c.caller, c.address, c.value);
  }

  /** Such a call, on an empty state: the called account exists afterwards. */
  lemma UnpaidCall(f: Forks, caller: Address, to: Address, gas: nat, p: Program)
    ensures var v, c := View(map[], [], 0), Contract(Call, caller, to, 1, Some(1), gas);
      var o := ApplyCall(EMPTY_BASE, f, v, c, Call, p);
      o.res.failed && !Exists(EMPTY_BASE, v, to) && Exists(EMPTY_BASE, o.view, to)
  {
  }

  const EMPTY_BASE := Base(map[], map[], map[])

  /** The creation gets as far as moving its value, and cannot. */
  predicate Broke(b: Base, v: View, c: Contract) {
    c.depth <= MAX_DEPTH && !Taken(b, IncrNonce(b, v, c.caller), c.address) &&
    c.value.Some? && Balance(b, v, c.caller) < c.value.value
  }

  lemma PreparedReads(b: Base, f: Forks, v: View, c: Contract)
    ensures Balance(b, Prepared(b, f, v, c), c.caller) == Balance(b, v, c.caller)
    ensures f.eip158 ==> Nonce(b, Prepared(b, f, v, c), c.address) == 1
  {
  }

  /**
   A failed creation, under Homestead, leaves just the caller's nonce; except that one whose caller
   cannot pay its value leaves the new account behind, with nonce 1, under EIP-158.
   */
  lemma FailedCreate(b: Base, f: Forks, v: View, c: Contract, p: Program)
    requires f.homestead && ApplyCreate(b, f, v, c, p).res.failed
    ensures c.depth > MAX_DEPTH ==> ApplyCreate(b, f, v, c, p).view == v
    ensures c.depth <= MAX_DEPTH && !(f.eip158 && Broke(b, v, c)) ==>
      ApplyCreate(b, f, v, c, p).view == IncrNonce(b, v, c.caller)
    ensures c.depth <= MAX_DEPTH ==>
      (SameReads(b, IncrNonce(b, v, c.caller), ApplyCreate(b, f, v, c, p).view) <==> !(f.eip158 && Broke(b, v, c)))
    ensures f.eip158 && Broke(b, v, c) ==> Nonce(b, ApplyCreate(b, f, v, c, p).view, c.address) == 1
  {
    PreparedReads(b, f, v, c);
    TransferKeeps(b, Prepared(b, f, v, c), c.caller, c.address, c.value);
  }

  /** A failed creation whose value the caller can pay leaves just the nonce. */
  lemma PaidCreate(b: Base, f: Forks, v: View, c: Contract, p: Program)
    requires f.homestead && ApplyCreate(b, f, v, c, p).res.failed && c.depth <= MAX_DEPTH
    requires c.value.Some? ==> c.value.value <= Balance(b, v, c.caller)
    ensures ApplyCreate(b, f, v, c, p).view == IncrNonce(b, v, c.caller)
  {
    FailedCreate(b, f, v, c, p);
  }

  /** One whose value cannot be paid, on an empty state: the new account exists afterwards, with nonce 1. */
  lemma UnpaidCreate(f: Forks, caller: Address, address: Address, gas: nat, p: Program)
    requires f.homestead && f.eip158 && caller != address
    ensures var v, c := View(map[], [], 0), Contract(CreateType, caller, address, 1, Some(1), gas);
      var o := ApplyCreate(EMPTY_BASE, f, v, c, p);
      o.res.failed && !Exists(EMPTY_BASE, v, address) && Exists(EMPTY_BASE, o.view, address) && Nonce(EMPTY_BASE, o.view, address) == 1
  {
    var v, c := View(map[], [], 0), Contract(CreateType, caller, address, 1, Some(1), gas);
    PreparedReads(EMPTY_BASE, f, v, c);
    TransferKeeps(EMPTY_BASE, Prepared(EMPTY_BASE, f, v, c), caller, address, c.value);
  }

  // Without self-destruction no account is ever doomed.

  ghost predicate NoDestruct(p: Program)
    decreases p
  {
    forall i :: 0 <= i < |p.ops| ==> !p.ops[i].Selfdestruct? && (p.ops[i].Callx? ==> NoDestruct(p.ops[i].body))
  }

  lemma {:induction false} NoDestructNoBurn(p: Program)
    requires NoDestruct(p)
    ensures NoSelfBurn(p)
    decreases p
  {
    forall i | 0 <= i < |p.ops| && p.ops[i].Callx? ensures NoSelfBurn(p.ops[i].body) {
      NoDestructNoBurn(p.ops[i].body);
    }
  }

  // What holds of every object, as long as each change to one keeps it.

  ghost predicate Every(v: View, P: Obj -> bool) {
    forall a :: a in v.objs ==> P(v.objs[a])
  }

  /** Objects as they are loaded have the property, and changes keep it; so does self-destruction if `destruct`. */
  ghost predicate Closed(b: Base, P: Obj -> bool, destruct: bool) {
    && P(FRESH)
    && (forall v: View, a: Address {:trigger ObjAt(b, v, a)} :: a !in v.objs && ObjAt(b, v, a).Some? ==> P(ObjAt(b, v, a).value))
    && (forall o: Obj, n: nat {:trigger WithBalance(o, n)} :: P(o) && !o.deleted ==> P(WithBalance(o, n)))
    && (forall o: Obj {:trigger Bumped(o)} :: P(o) && !o.deleted ==> P(Bumped(o)))
    && (forall o: Obj, code: seq<Byte> {:trigger Coded(o, code)} :: P(o) && !o.deleted ==> P(Coded(o, code)))
    && (forall o: Obj, k: Word, w: Word {:trigger Slotted(o, k, w)} :: P(o) && !o.deleted ==> P(Slotted(o, k, w)))
    && (destruct ==> forall o: Obj {:trigger WithBalance(o, 0)} :: P(o) && !o.deleted ==> P(WithBalance(o, 0).(suicide := true)))
  }

  lemma LoadedHas(b: Base, v: View, a: Address, P: Obj -> bool, d: bool)
    requires Closed(b, P, d) && Every(v, P)
    ensures P(ObjOrFresh(b, v, a)) && !ObjOrFresh(b, v, a).deleted
  {
    ObjAtLives(b, v, a);
  }

  lemma UpsertEvery(b: Base, v: View, a: Address, P: Obj -> bool, d: bool)
    requires Closed(b, P, d) && Every(v, P)
    ensures Every(Touch(b, v, a), P) && Every(IncrNonce(b, v, a), P) && Every(CreateAccount(b, v, a), P)
    ensures forall x :: Every(AddBalance(b, v, a, x), P)
    ensures forall x :: SubBalance(b, v, a, x).Some? ==> Every(SubBalance(b, v, a, x).value, P)
    ensures forall code :: Every(SetCode(b, v, a, code), P)
    ensures forall k, w :: Every(SetState(b, v, a, k, w), P)
    ensures d ==> Every(Suicide(b, v, a), P)
  {
    LoadedHas(b, v, a, P, d);
    assert P(WithBalance(FRESH, Balance(b, v, a)));
  }

  lemma TransferEvery(b: Base, v: View, from: Address, to: Address, amount: Option<nat>, P: Obj -> bool, d: bool)
    requires Closed(b, P, d) && Every(v, P) && Transfer(b, v, from, to, amount).Some?
    ensures Every(Transfer(b, v, from, to, amount).value, P)
  {
    if amount.Some? {
      UpsertEvery(b, v, from, P, d);
      UpsertEvery(b, SubBalance(b, v, from, amount.value).value, to, P, d);
    }
  }

  lemma DestroyedEvery(b: Base, v: View, a: Address, to: Address, P: Obj -> bool)
    requires Closed(b, P, true) && Every(v, P)
    ensures Every(Destroyed(b, v, a, to), P)
  {
    var v1 := if Suicided(b, v, a) then v else AddRefund(v, 24000);
    UpsertEvery(b, v1, to, P, true);
    UpsertEvery(b, AddBalance(b, v1, to, Balance(b, v1, a)), a, P, true);
  }

  lemma {:induction false} RunEvery(b: Base, f: Forks, v: View, p: Program, n: nat, P: Obj -> bool, d: bool)
    requires Closed(b, P, d) && Every(v, P) && (d || NoDestruct(p)) && n <= |p.ops|
    ensures Every(PerformAll(b, f, v, p.ops[..n]).0, P)
    decreases p, n
  {
    if n > 0 {
      assert p.ops[..n][..n - 1] == p.ops[..n - 1];
      RunEvery(b, f, v, p, n - 1, P, d);
      var v', op := PerformAll(b, f, v, p.ops[..n - 1]).0, p.ops[n - 1];
      match op
      case Store(a, k, w) =>
        UpsertEvery(b, v', a, P, d);
        StoreObjects(b, v', a, k, w, f);
      case Emit(_, _) =>
      case Selfdestruct(a, to) => DestroyedEvery(b, v', a, to, P);
      case Callx(c, body) =>
        CallEvery(b, f, v', c, c.kind, body, P, d);
        CreateEvery(b, f, v', c, body, P, d);
    }
  }

  lemma {:induction false} CallEvery(b: Base, f: Forks, v: View, c: Contract, kind: CallType, p: Program, P: Obj -> bool, d: bool)
    requires Closed(b, P, d) && Every(v, P) && (d || NoDestruct(p))
    ensures Every(ApplyCall(b, f, v, c, kind, p).view, P)
    decreases p, |p.ops| + 1
  {
    UpsertEvery(b, v, c.address, P, d);
    var v1 := Touch(b, v, c.address);
    var v2 := if kind.Call? then Transfer(b, v1, c.caller, c.address, c.value) else Some(v1);
    if v2.Some? {
      if kind.Call? {
        TransferEvery(b, v1, c.caller, c.address, c.value, P, d);
      }
      RunEvery(b, f, v2.value, p, |p.ops|, P, d);
      assert p.ops[..|p.ops|] == p.ops;
    }
    assert Every(Called(b, f, v, c, kind, p).view, P);
  }

  lemma {:induction false} CreateEvery(b: Base, f: Forks, v: View, c: Contract, p: Program, P: Obj -> bool, d: bool)
    requires Closed(b, P, d) && Every(v, P) && (d || NoDestruct(p))
    ensures Every(ApplyCreate(b, f, v, c, p).view, P)
    decreases p, |p.ops| + 1
  {
    UpsertEvery(b, v, c.caller, P, d);
    var v0, v1 := IncrNonce(b, v, c.caller), Prepared(b, f, v, c);
    UpsertEvery(b, v0, c.address, P, d);
    UpsertEvery(b, CreateAccount(b, v0, c.address), c.address, P, d);
    var v2 := Transfer(b, v1, c.caller, c.address, c.value);
    if v2.Some? {
      TransferEvery(b, v1, c.caller, c.address, c.value, P, d);
      RunEvery(b, f, v2.value, p, |p.ops|, P, d);
      assert p.ops[..|p.ops|] == p.ops;
      UpsertEvery(b, Run(b, f, v2.value, c.gas, p).view, c.address, P, d);
    }
  }

  /** An account that self-destructed has been deleted. */
  predicate IsCalm(o: Obj) {
    o.suicide ==> o.deleted
  }

  ghost function Calm(): (P: Obj -> bool) {
    (o: Obj) => IsCalm(o)
  }

  lemma CalmClosed(b: Base)
    ensures Closed(b, Calm(), false)
  {
  }

  lemma CalmMeaning(v: View)
    ensures Doomed(v) == {} <==> Every(v, Calm())
  {
    if Doomed(v) == {} {
      forall a | a in v.objs ensures IsCalm(v.objs[a]) {
        assert a !in Doomed(v);
      }
    }
  }

  /** The object has a known root and the right code hash. */
  ghost function KnownObj(b: Base): (P: Obj -> bool) {
    (o: Obj) => ObjOk(b, o)
  }

  /** So has every object a transaction writes. */
  lemma KnownClosed(b: Base)
    ensures Closed(b, KnownObj(b), true)
  {
  }
}
