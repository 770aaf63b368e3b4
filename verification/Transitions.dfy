/**
 Calls and creations as the executor makes them (state/executor.go): frames with snapshots and reverts
 over the journalled state reach what the meaning of the frame says.
 */
module Transitions {
  import opened Nibbles
  import opened Options
  import opened Accounts
  import opened Overlay
  import opened StateTxn
  import opened Totals
  import opened Execution
  import opened Messages

  /** The first `n` elements are still there. */
  ghost predicate Keeps<T>(s: seq<T>, s': seq<T>, n: nat) {
    n <= |s| && n <= |s'| && forall i {:trigger s'[i]} :: 0 <= i < n ==> s'[i] == s[i]
  }

  /** The transaction moved on: older snapshots stand as they stood. */
  twostate predicate Onward(t: Txn)
    reads t
  {
    t.Valid() && Keeps(old(t.live), t.live, |old(t.live)|) && Keeps(old(t.taken), t.taken, |old(t.taken)|)
  }

  // Frames.

  method Destroy(t: Txn, a: Address, to: Address)
    requires t.Valid()
    modifies t`mem, t`tree, t`view
    ensures t.Valid() && t.view == Destroyed(t.base, old(t.view), a, to)
  {
    var gone := t.HasSuicided(a);
    if !gone {
      t.AddRefund(24000);
    }
    var n := t.GetBalance(a);
    t.AddBalance(to, n);
    var _ := t.Suicide(a);
  }

  method Transfer(t: Txn, from: Address, to: Address, amount: Option<nat>) returns (ok: bool)
    requires t.Valid()
    modifies t`mem, t`tree, t`view
    ensures t.Valid() && (ok <==> Execution.Transfer(t.base, old(t.view), from, to, amount).Some?)
    ensures t.view == if ok then Execution.Transfer(t.base, old(t.view), from, to, amount).value else old(t.view)
  {
    if amount.None? {
      return true;
    }
    ok := t.SubBalance(from, amount.value);
    if ok {
      t.AddBalance(to, amount.value);
    }
  }

  method HasCodeOrNonce(t: Txn, a: Address) returns (r: bool)
    requires t.Valid()
    modifies t`mem
    ensures t.Valid() && r == Taken(t.base, t.view, a)
  {
    var n := t.GetNonce(a);
    var h := t.GetCodeHash(a);
    r := n != 0 || (h.Some? && h != Some(CodeHash([])));
  }

  method PerformOp(t: Txn, f: Forks, op: HostOp) returns (ghost burnt: nat)
    requires t.Valid()
    modifies t
    ensures Onward(t) && (t.view, burnt) == Perform(t.base, f, old(t.view), op)
    decreases op
  {
    burnt := Perform(t.base, f, t.view, op).1;
    match op
    case Store(a, k, w) =>
      var _ := t.SetStorage(a, k, w, f);
    case Emit(log, room) => t.EmitLog(log, room);
    case Selfdestruct(a, to) => Destroy(t, a, to);
    case Callx(c, body) =>
      var _, _ := Frame(t, f, c, body);
  }

  method PerformOps(t: Txn, f: Forks, ops: seq<HostOp>) returns (ghost burnt: nat)
    requires t.Valid()
    modifies t
    ensures Onward(t) && (t.view, burnt) == PerformAll(t.base, f, old(t.view), ops)
    decreases ops
  {
    burnt := 0;
    for i := 0 to |ops|
      invariant Onward(t) && (t.view, burnt) == PerformAll(t.base, f, old(t.view), ops[..i])
    {
      assert ops[..i + 1][..i] == ops[..i];
      ghost var n := PerformOp(t, f, ops[i]);
      burnt := burnt + n;
    }
    assert ops[..|ops|] == ops;
  }

  /** Callx */
  method Frame(t: Txn, f: Forks, c: Contract, p: Program) returns (res: Result, ghost burnt: nat)
    requires t.Valid()
    modifies t
    ensures Onward(t)
    ensures Outcome(t.view, res, burnt) ==
      if c.kind.CreateType? then Execution.ApplyCreate(t.base, f, old(t.view), c, p) else Execution.ApplyCall(t.base, f, old(t.view), c, c.kind, p)
    decreases p, 5
  {
    if c.kind.CreateType? {
      res, burnt := ApplyCreate(t, f, c, p);
    } else {
      res, burnt := ApplyCall(t, f, c, c.kind, p);
    }
  }

  method RunProgram(t: Txn, f: Forks, gas: nat, p: Program) returns (res: Result, ghost burnt: nat)
    requires t.Valid()
    modifies t
    ensures Onward(t) && Outcome(t.view, res, burnt) == Run(t.base, f, old(t.view), gas, p)
    decreases p, 0
  {
    burnt := PerformOps(t, f, p.ops);
    res := Result(if p.gasLeft <= gas then p.gasLeft else gas, p.ret, p.failed);
  }

  /** A snapshot was taken when `v0` was shown. */
  ghost predicate Saved(t: Txn, snapshot: nat, k: nat, v0: View)
    reads t
  {
    t.Valid() && k < |t.live| && t.live[k] == snapshot && snapshot < |t.taken| && t.taken[snapshot] == v0
  }

  /** Running with the snapshot to fall back on. */
  method RunOrRevert(t: Txn, f: Forks, gas: nat, p: Program, snapshot: nat, ghost k: nat, ghost v0: View)
    returns (res: Result, ghost burnt: nat)
    requires Saved(t, snapshot, k, v0)
    modifies t
    ensures Saved(t, snapshot, k, v0) && Keeps(old(t.live), t.live, k + 1) && Keeps(old(t.taken), t.taken, |old(t.taken)|)
    ensures var o := Run(t.base, f, old(t.view), gas, p);
      Outcome(t.view, res, burnt) == if o.res.failed then o.(view := v0, burnt := 0) else o
    decreases p, 1
  {
    res, burnt := RunProgram(t, f, gas, p);
    if res.failed {
      assert t.live[k] == snapshot;
      t.RevertToSnapshot(snapshot);
      burnt := 0;
    }
  }

  /** applyCall: a failed run is undone by reverting to the snapshot. */
  method ApplyCall(t: Txn, f: Forks, c: Contract, kind: CallType, p: Program) returns (res: Result, ghost burnt: nat)
    requires t.Valid()
    modifies t
    ensures Onward(t) && Outcome(t.view, res, burnt) == Execution.ApplyCall(t.base, f, old(t.view), c, kind, p)
    decreases p, 2
  {
    if c.depth > MAX_DEPTH {
      return Result(c.gas, [], true), 0;
    }
    res, burnt := CallHere(t, f, c, kind, p);
  }

  /** applyCall from its snapshot on. */
  method CallHere(t: Txn, f: Forks, c: Contract, kind: CallType, p: Program) returns (res: Result, ghost burnt: nat)
    requires t.Valid()
    modifies t
    ensures Onward(t) && Outcome(t.view, res, burnt) == Called(t.base, f, old(t.view), c, kind, p)
    decreases p, 2, 0
  {
    ghost var k, v0 := |t.live|, t.view;
    var snapshot := t.Snapshot();
    var ok := Enter(t, c, kind);
    if !ok {
      return Result(c.gas, [], true), 0;
    }
    res, burnt := RunOrRevert(t, f, c.gas, p, snapshot, k, v0);
  }

  /** The called account, and the value moved to it. */
  method Enter(t: Txn, c: Contract, kind: CallType) returns (ok: bool)
    requires t.Valid()
    modifies t`mem, t`tree, t`view
    ensures t.Valid()
    ensures var r := Entered(t.base, old(t.view), c, kind);
      (ok <==> r.Some?) && t.view == if ok then r.value else Touch(t.base, old(t.view), c.address)
  {
    t.TouchAccount(c.address);
    ok := true;
    if kind.Call? {
      ok := Transfer(t, c.caller, c.address, c.value);
    }
  }

  method ApplyCreate(t: Txn, f: Forks, c: Contract, p: Program) returns (res: Result, ghost burnt: nat)
    requires t.Valid()
    modifies t
    ensures Onward(t) && Outcome(t.view, res, burnt) == Execution.ApplyCreate(t.base, f, old(t.view), c, p)
    decreases p, 4
  {
    if c.depth > MAX_DEPTH {
      return Result(c.gas, [], true), 0;
    }
    t.IncrNonce(c.caller);
    var taken := HasCodeOrNonce(t, c.address);
    if taken {
      return Result(0, [], true), 0;
    }
    res, burnt := CreateHere(t, f, c, p, old(t.view));
  }

  /** applyCreate from its snapshot on; `v` is what was shown before the caller's nonce went up. */
  method CreateHere(t: Txn, f: Forks, c: Contract, p: Program, ghost v: View) returns (res: Result, ghost burnt: nat)
    requires t.Valid() && t.view == IncrNonce(t.base, v, c.caller)
    modifies t
    ensures Onward(t) && Outcome(t.view, res, burnt) == Created(t.base, f, v, c, p)
    decreases p, 3
  {
    ghost var v0, k := t.view, |t.live|;
    var snapshot := t.Snapshot();
    var ok := Prepare(t, f, c, v);
    if !ok {
      return Result(c.gas, [], true), 0;
    }
    res, burnt := RunAndDeploy(t, f, c, p, snapshot, k, v0);
  }

  /** The new account, and the value moved to it. */
  method Prepare(t: Txn, f: Forks, c: Contract, ghost v: View) returns (ok: bool)
    requires t.Valid() && t.view == IncrNonce(t.base, v, c.caller)
    modifies t`mem, t`tree, t`view
    ensures t.Valid()
    ensures var r := Execution.Transfer(t.base, Prepared(t.base, f, v, c), c.caller, c.address, c.value);
      (ok <==> r.Some?) && t.view == if ok then r.value else Prepared(t.base, f, v, c)
  {
    if f.eip158 {
      t.CreateAccount(c.address);
      t.IncrNonce(c.address);
    }
    ok := Transfer(t, c.caller, c.address, c.value);
  }

  method RunAndDeploy(t: Txn, f: Forks, c: Contract, p: Program, snapshot: nat, ghost k: nat, ghost v0: View)
    returns (res: Result, ghost burnt: nat)
    requires Saved(t, snapshot, k, v0)
    modifies t
    ensures t.Valid() && Keeps(old(t.live), t.live, k + 1) && Keeps(old(t.taken), t.taken, |old(t.taken)|)
    ensures var o := Run(t.base, f, old(t.view), c.gas, p);
      Outcome(t.view, res, burnt) == if o.res.failed then o.(view := v0, burnt := 0) else Deploy(t.base, f, v0, c, o)
    decreases p, 2
  {
    res, burnt := RunOrRevert(t, f, c.gas, p, snapshot, k, v0);
    if !res.failed {
      res, burnt := Finish(t, f, c, snapshot, k, v0, res, burnt);
    }
  }

  /** The end of applyCreate. */
  method Finish(t: Txn, f: Forks, c: Contract, snapshot: nat, ghost k: nat, ghost v0: View, ran: Result, ghost burnt: nat)
    returns (res: Result, ghost burnt': nat)
    requires Saved(t, snapshot, k, v0) && !ran.failed
    modifies t`mem, t`tree, t`view, t`live
    ensures t.Valid() && Keeps(old(t.live), t.live, k + 1)
    ensures Outcome(t.view, res, burnt') == Deploy(t.base, f, v0, c, Outcome(old(t.view), ran, burnt))
  {
    res, burnt' := ran, burnt;
    if f.eip158 && |res.ret| > MAX_CODE_SIZE {
      assert t.live[k] == snapshot;
      t.RevertToSnapshot(snapshot);
      return Result(0, [], true), 0;
    }
    var cost := |res.ret| * 200;
    if res.gasLeft < cost {
      res := Result(res.gasLeft, [], true);
      if f.homestead {
        assert t.live[k] == snapshot;
        t.RevertToSnapshot(snapshot);
        res, burnt' := Result(0, [], true), 0;
      }
      return;
    }
    res := res.(gasLeft := res.gasLeft - cost);
    t.SetCode(c.address, res.ret);
  }

  /** UpdateGasUsed: used and left always add up to the limit. */
  method UpdateGasUsed(gasLeft: nat, limit: nat, refund: nat) returns (left: nat, used: nat)
    requires gasLeft <= limit
    ensures left + used == limit && left == gasLeft + Returned(limit, gasLeft, refund)
    ensures limit - gasLeft <= 2 * used
  {
    used := limit - gasLeft;
    var give := refund;
    if give > used / 2 {
      give := used / 2;
    }
    left, used := gasLeft + give, used - give;
  }
}
