/**
 Applying a message as a function: the checks, the fees around the execution, and what a failed
 execution leaves (state/executor.go:617-706, state/runtime/runtime.go:108-118).
 */
module Messages {
  import opened Nibbles
  import opened Rlp
  import opened Options
  import opened Accounts
  import opened Overlay
  import opened Readings
  import opened Totals
  import opened Execution

  const TX_GAS := 21000
  const TX_GAS_CREATE := 53000

  /** A transaction with its sender; `run` is what running it does. */
  datatype Message = Message(from: Address, nonce: Uint64, gas: nat, price: nat, value: nat, to: Option<Address>, input: seq<Byte>, run: Program)

  /** The block's forks and coinbase, and the address a creation gets. */
  datatype Env = Env(forks: Forks, coinbase: Address, createAddress: (Address, nat) -> Address)

  datatype Error =
    | AllGasUsed | NonceTooLow | NonceTooHigh | NotEnoughFundsForGas | BlockLimitReached
    | IntrinsicGasOverflow | NotEnoughIntrinsicGas | NotEnoughFunds

  datatype Applied =
    | Rejected(err: Error)
    | Applied(view: View, gasUsed: nat, gasLeft: nat, failed: bool, burnt: nat)

  // Intrinsic gas.

  function NonZeroCost(f: Forks): (n: nat) {
    if f.istanbul then 16 else 68
  }

  /** What the payload costs, byte by byte. */
  function PayloadCost(input: seq<Byte>, f: Forks): (n: nat) {
    if input == [] then 0
    else PayloadCost(input[..|input| - 1], f) + if input[|input| - 1] == 0 then 4 else NonZeroCost(f)
  }

  function IntrinsicGas(msg: Message, f: Forks): (n: nat) {
    (if msg.to.None? && f.homestead then TX_GAS_CREATE else TX_GAS) + PayloadCost(msg.input, f)
  }

  /** What is left for the execution. */
  function ExecutionGas(msg: Message, f: Forks): (gas: nat)
    requires IntrinsicGas(msg, f) <= msg.gas
    ensures gas <= msg.gas
  {
    msg.gas - IntrinsicGas(msg, f)
  }

  lemma Monotone(a: nat, b: nat, price: nat)
    requires a <= b
    ensures a * price <= b * price
  {
    assert b * price == a * price + (b - a) * price;
  }

  /** Division rounds down. */
  lemma DivisionTest(room: nat, price: nat, count: nat)
    requires 0 < price
    ensures room / price < count <==> room < count * price
  {
    var q := room / price;
    if q < count {
      Monotone(q + 1, count, price);
    } else {
      Monotone(count, q, price);
    }
  }

  /** So the overflow test is exact. */
  lemma OverflowTest(cost: nat, price: nat, count: nat)
    requires 0 < price && cost < TWO64
    ensures (TWO64 - 1 - cost) / price < count <==> cost + count * price >= TWO64
  {
    DivisionTest(TWO64 - 1 - cost, price, count);
  }

  function Zeros(input: seq<Byte>): (n: nat)
    ensures n <= |input|
  {
    if input == [] then 0 else Zeros(input[..|input| - 1]) + if input[|input| - 1] == 0 then 1 else 0
  }

  lemma {:induction false} PayloadByCount(input: seq<Byte>, f: Forks)
    ensures PayloadCost(input, f) == 4 * Zeros(input) + (|input| - Zeros(input)) * NonZeroCost(f)
  {
    if input != [] {
      PayloadByCount(input[..|input| - 1], f);
    }
  }

  method CountZeros(payload: seq<Byte>) returns (zeros: nat)
    ensures zeros == Zeros(payload)
  {
    zeros := 0;
    for i := 0 to |payload|
      invariant zeros == Zeros(payload[..i])
    {
      assert payload[..i + 1][..i] == payload[..i];
      if payload[i] == 0 {
        zeros := zeros + 1;
      }
    }
    assert payload[..|payload|] == payload;
  }

  /** TransactionGasCost: the byte-by-byte cost, or None exactly when it does not fit in 64 bits. */
  method TransactionGasCost(msg: Message, f: Forks) returns (r: Option<nat>)
    ensures r == if IntrinsicGas(msg, f) < TWO64 then Some(IntrinsicGas(msg, f)) else None
  {
    var cost := if msg.to.None? && f.homestead then TX_GAS_CREATE else TX_GAS;
    if |msg.input| > 0 {
      var zeros := CountZeros(msg.input);
      PayloadByCount(msg.input, f);
      r := AddPayload(cost, zeros, |msg.input| - zeros, NonZeroCost(f));
    } else {
      r := Some(cost);
    }
  }

  method AddPayload(base: nat, zeros: nat, nonZeros: nat, nonZeroCost: nat) returns (r: Option<nat>)
    requires base < TWO64 && 0 < nonZeroCost
    ensures var sum := base + nonZeros * nonZeroCost + 4 * zeros;
      r == if sum < TWO64 then Some(sum) else None
  {
    OverflowTest(base, nonZeroCost, nonZeros);
    if (TWO64 - 1 - base) / nonZeroCost < nonZeros {
      return None;
    }
    var cost := base + nonZeros * nonZeroCost;
    OverflowTest(cost, 4, zeros);
    if (TWO64 - 1 - cost) / 4 < zeros {
      return None;
    }
    r := Some(cost + zeros * 4);
  }

  // Applying.

  /** What `gas` costs: the price once per unit. */
  function Fee(gas: nat, price: nat): (n: nat) {
    if gas == 0 then 0 else Fee(gas - 1, price) + price
  }

  lemma {:induction false} FeeIsProduct(gas: nat, price: nat)
    ensures Fee(gas, price) == gas * price
  {
    if gas > 0 {
      FeeIsProduct(gas - 1, price);
    }
  }

  /** Steps 0 to 6 of apply; None when all checks pass. */
  function Check(b: Base, v: View, env: Env, pool: nat, msg: Message): (r: Option<Error>) {
    if pool < TX_GAS then Some(AllGasUsed)
    else if msg.nonce < Nonce(b, v, msg.from) then Some(NonceTooLow)
    else if msg.nonce > Nonce(b, v, msg.from) then Some(NonceTooHigh)
    else if Balance(b, v, msg.from) < Fee(msg.gas, msg.price) then Some(NotEnoughFundsForGas)
    else if pool < msg.gas then Some(BlockLimitReached)
    else if IntrinsicGas(msg, env.forks) >= TWO64 then Some(IntrinsicGasOverflow)
    else if IntrinsicGas(msg, env.forks) > msg.gas then Some(NotEnoughIntrinsicGas)
    else if Balance(b, v, msg.from) - Fee(msg.gas, msg.price) < msg.value then Some(NotEnoughFunds)
    else None
  }

  /** The state once the gas is bought. */
  function Bought(b: Base, v: View, msg: Message): (v': View)
    requires Fee(msg.gas, msg.price) <= Balance(b, v, msg.from)
  {
    SubBalance(b, v, msg.from, Fee(msg.gas, msg.price)).value
  }

  /** Giving back what is left and paying what was used. */
  function Paid(b: Base, v: View, from: Address, back: nat, coinbase: Address, fee: nat): (v': View) {
    AddBalance(b, AddBalance(b, v, from, back), coinbase, fee)
  }

  /** Create2 and Call2 on the state once the gas is bought. */
  function Execute(b: Base, v: View, env: Env, msg: Message, gas: nat): (o: Outcome)
    ensures o.res.gasLeft <= gas
  {
    if msg.to.None? then
      ApplyCreate(b, env.forks, v, Contract(Call, msg.from, env.createAddress(msg.from, Nonce(b, v, msg.from)), 1, Some(msg.value), gas), msg.run)
    else
      ApplyCall(b, env.forks, IncrNonce(b, v, msg.from), Contract(Call, msg.from, msg.to.value, 1, Some(msg.value), gas), Call, msg.run)
  }

  /** What the refund counter gives back: at most half of what was used. */
  function Returned(limit: nat, gasLeft: nat, refund: nat): (n: nat)
    requires gasLeft <= limit
    ensures gasLeft + n <= limit
  {
    var half := (limit - gasLeft) / 2;
    if refund > half then half else refund
  }

  /** Refunding the sender and paying the coinbase. */
  function Settle(b: Base, env: Env, msg: Message, o: Outcome): (r: Applied)
    requires o.res.gasLeft <= msg.gas
    ensures r.Applied? && r.gasLeft + r.gasUsed == msg.gas && r.failed == o.res.failed && r.burnt == o.burnt
  {
    var left := o.res.gasLeft + Returned(msg.gas, o.res.gasLeft, o.view.refund);
    var used := msg.gas - left;
    Applied(Paid(b, o.view, msg.from, Fee(left, msg.price), env.coinbase, Fee(used, msg.price)), used, left, o.res.failed, o.burnt)
  }

  function Apply(b: Base, v: View, env: Env, pool: nat, msg: Message): (r: Applied)
    ensures r.Applied? ==> r.gasLeft + r.gasUsed == msg.gas <= pool
  {
    var err := Check(b, v, env, pool, msg);
    if err.Some? then Rejected(err.value)
    else Settle(b, env, msg, Execute(b, Bought(b, v, msg), env, msg, ExecutionGas(msg, env.forks)))
  }

  // What is checked and what is paid.

  /** All checks pass exactly if the pool and the sender's nonce, gas and balance suffice. */
  lemma CheckPasses(b: Base, v: View, env: Env, pool: nat, msg: Message)
    requires msg.gas < TWO64
    ensures Check(b, v, env, pool, msg).None? <==>
      && 21000 <= pool && msg.gas <= pool && msg.nonce == Nonce(b, v, msg.from)
      && msg.gas * msg.price + msg.value <= Balance(b, v, msg.from) && IntrinsicGas(msg, env.forks) <= msg.gas
  {
    FeeIsProduct(msg.gas, msg.price);
  }

  /** Intrinsic gas: a flat part, 4 for every zero byte and 16 or 68 for every other. */
  lemma IntrinsicMeaning(msg: Message, f: Forks)
    ensures var zeros := multiset(msg.input)[0];
      && zeros <= |msg.input|
      && IntrinsicGas(msg, f) == (if msg.to.None? && f.homestead then 53000 else 21000) + 4 * zeros + (if f.istanbul then 16 else 68) * (|msg.input| - zeros)
  {
    PayloadMeaning(msg.input, f);
  }

  lemma {:induction false} PayloadMeaning(input: seq<Byte>, f: Forks)
    ensures var zeros := multiset(input)[0];
      zeros <= |input| && PayloadCost(input, f) == 4 * zeros + (if f.istanbul then 16 else 68) * (|input| - zeros)
  {
    if input != [] {
      var last := |input| - 1;
      PayloadMeaning(input[..last], f);
      assert input == input[..last] + [input[last]];
      assert multiset(input) == multiset(input[..last]) + multiset{input[last]};
    }
  }

  /**
   The gas used: intrinsic gas plus what the execution used, minus the smaller of the refund counter and
   half of that sum.
   */
  lemma GasUsedExact(b: Base, v: View, env: Env, pool: nat, msg: Message)
    requires Apply(b, v, env, pool, msg).Applied?
    ensures IntrinsicGas(msg, env.forks) <= msg.gas && Fee(msg.gas, msg.price) <= Balance(b, v, msg.from)
    ensures var intrinsic, r := IntrinsicGas(msg, env.forks), Apply(b, v, env, pool, msg);
      var o := Execute(b, Bought(b, v, msg), env, msg, msg.gas - intrinsic);
      var spent := intrinsic + (msg.gas - intrinsic - o.res.gasLeft);
      && r.gasUsed == spent - (if o.view.refund < spent / 2 then o.view.refund else spent / 2)
      && intrinsic <= 2 * r.gasUsed && r.gasLeft == msg.gas - r.gasUsed && r.failed == o.res.failed
  {
  }

  /** Whose balance changes around the execution: the sender buys the gas and gets the rest back, the coinbase gets the fee. */
  lemma FeeBalances(b: Base, v: View, env: Env, pool: nat, msg: Message, y: Address)
    requires Apply(b, v, env, pool, msg).Applied?
    ensures IntrinsicGas(msg, env.forks) <= msg.gas && Fee(msg.gas, msg.price) <= Balance(b, v, msg.from)
    ensures var r, v1 := Apply(b, v, env, pool, msg), Bought(b, v, msg);
      var o := Execute(b, v1, env, msg, msg.gas - IntrinsicGas(msg, env.forks));
      && Balance(b, v1, y) == Balance(b, v, y) - (if y == msg.from then msg.gas * msg.price else 0)
      && Balance(b, r.view, y) == Balance(b, o.view, y) +
           (if y == msg.from then r.gasLeft * msg.price else 0) + (if y == env.coinbase then r.gasUsed * msg.price else 0)
  {
    var r, v1 := Apply(b, v, env, pool, msg), Bought(b, v, msg);
    var o := Execute(b, v1, env, msg, ExecutionGas(msg, env.forks));
    FeeIsProduct(msg.gas, msg.price);
    FeeIsProduct(r.gasLeft, msg.price);
    FeeIsProduct(r.gasUsed, msg.price);
    BoughtReads(b, v, msg, y);
    PaidReads(b, o.view, msg.from, Fee(r.gasLeft, msg.price), env.coinbase, Fee(r.gasUsed, msg.price), y);
  }

  lemma BoughtReads(b: Base, v: View, msg: Message, y: Address)
    requires Fee(msg.gas, msg.price) <= Balance(b, v, msg.from)
    ensures Balance(b, Bought(b, v, msg), y) == Balance(b, v, y) - if y == msg.from then Fee(msg.gas, msg.price) else 0
  {
  }

  lemma PaidReads(b: Base, v: View, from: Address, back: nat, coinbase: Address, fee: nat, y: Address)
    ensures Balance(b, Paid(b, v, from, back, coinbase, fee), y) ==
      Balance(b, v, y) + (if y == from then back else 0) + (if y == coinbase then fee else 0)
  {
    var v1 := AddBalance(b, v, from, back);
    assert y != from ==> ObjAt(b, v1, y) == ObjAt(b, v, y);
    assert y != coinbase ==> ObjAt(b, AddBalance(b, v1, coinbase, fee), y) == ObjAt(b, v1, y);
  }

  /** A payment to an account whose program does nothing, all in all. */
  lemma Payment(b: Base, v: View, env: Env, pool: nat, msg: Message, y: Address)
    requires CodesOk(b) && Apply(b, v, env, pool, msg).Applied? && msg.to.Some? && msg.run.ops == [] && !msg.run.failed
    ensures var fee := Apply(b, v, env, pool, msg).gasUsed * msg.price;
      Balance(b, Apply(b, v, env, pool, msg).view, y) == Balance(b, v, y)
        - (if y == msg.from then msg.value + fee else 0) + (if y == msg.to.value then msg.value else 0) + (if y == env.coinbase then fee else 0)
  {
    var r, v1 := Apply(b, v, env, pool, msg), Bought(b, v, msg);
    FeeBalances(b, v, env, pool, msg, y);
    BoughtBalance(b, v, msg);
    var gas := msg.gas - IntrinsicGas(msg, env.forks);
    var c := Contract(Call, msg.from, msg.to.value, 1, Some(msg.value), gas);
    NonceKeepsBalances(b, v1, msg.from, msg.from);
    NonceKeepsBalances(b, v1, msg.from, y);
    CallPays(b, env.forks, IncrNonce(b, v1, msg.from), c, msg.run, msg.value, y);
    FeesBalance(msg.gas, r.gasLeft, r.gasUsed, msg.price);
    FeeIsProduct(msg.gas, msg.price);
    FeeIsProduct(r.gasLeft, msg.price);
    FeeIsProduct(r.gasUsed, msg.price);
  }

  /** It uses one nonce of the sender, and nothing else but balances can be read to differ. */
  lemma PaymentKeepsRest(b: Base, v: View, env: Env, pool: nat, msg: Message, y: Address)
    requires CodesOk(b) && Apply(b, v, env, pool, msg).Applied? && msg.to.Some? && msg.run.ops == [] && !msg.run.failed
    ensures var v', n := Apply(b, v, env, pool, msg).view, Nonce(b, v, y);
      && Nonce(b, v', y) == (if y != msg.from then n else if n == 0xFFFF_FFFF_FFFF_FFFF then 0 else n + 1)
      && Code(b, v', y) == Code(b, v, y) && SlotsKept(b, v, v', y)
  {
    var v1, gas, cost, back, fee := ApplyParts(b, v, env, pool, msg);
    var u, v2 := IncrNonce(b, v1, msg.from), Execute(b, v1, env, msg, gas).view;
    SubKeepsRest(b, v, msg.from, cost, y);
    ExecutedPayment(b, v1, env, msg, gas, y);
    PaidKeepsRest(b, v2, msg.from, back, env.coinbase, fee, y);
    RestKeptTwice(b, u, v2, Paid(b, v2, msg.from, back, env.coinbase, fee), y);
    NonceUsed(b, v, v1, msg.from, y);
  }

  lemma ExecutedPayment(b: Base, v: View, env: Env, msg: Message, gas: nat, y: Address)
    requires CodesOk(b) && msg.to.Some? && msg.run.ops == [] && !msg.run.failed && msg.value <= Balance(b, v, msg.from)
    ensures RestKept(b, IncrNonce(b, v, msg.from), Execute(b, v, env, msg, gas).view, y)
  {
    var u, c := IncrNonce(b, v, msg.from), Contract(Call, msg.from, msg.to.value, 1, Some(msg.value), gas);
    NonceKeepsBalances(b, v, msg.from, msg.from);
    CallRuns(b, env.forks, u, c, Call, msg.run);
    EnteredReads(b, u, c, Call, y);
  }

  lemma NonceUsed(b: Base, v: View, v1: View, from: Address, y: Address)
    requires CodesOk(b) && RestKept(b, v, v1, y)
    ensures var u, n := IncrNonce(b, v1, from), Nonce(b, v, y);
      && Nonce(b, u, y) == (if y != from then n else if n == 0xFFFF_FFFF_FFFF_FFFF then 0 else n + 1)
      && Code(b, u, y) == Code(b, v, y) && SlotsKept(b, v, u, y)
  {
    IncrNonceReads(b, v1, from);
    assert y != from ==> ObjAt(b, IncrNonce(b, v1, from), y) == ObjAt(b, v1, y);
  }

  /** A creation message that succeeds leaves the returned code at the address made from the sender and its nonce. */
  lemma CreationMessage(b: Base, v: View, env: Env, pool: nat, msg: Message)
    requires CodesOk(b) && Apply(b, v, env, pool, msg).Applied? && msg.to.None? && !Apply(b, v, env, pool, msg).failed
    ensures Code(b, Apply(b, v, env, pool, msg).view, env.createAddress(msg.from, Nonce(b, v, msg.from))) == msg.run.ret
  {
    var v1, gas, cost, back, fee := ApplyParts(b, v, env, pool, msg);
    SubKeepsRest(b, v, msg.from, cost, msg.from);
    var a := env.createAddress(msg.from, Nonce(b, v1, msg.from));
    CreateStores(b, env.forks, v1, Contract(Call, msg.from, a, 1, Some(msg.value), gas), msg.run);
    PaidKeepsRest(b, Execute(b, v1, env, msg, gas).view, msg.from, back, env.coinbase, fee, a);
  }

  lemma PaidKeepsRest(b: Base, v: View, from: Address, back: nat, coinbase: Address, fee: nat, y: Address)
    requires CodesOk(b)
    ensures RestKept(b, v, Paid(b, v, from, back, coinbase, fee), y)
  {
    var v1 := AddBalance(b, v, from, back);
    AddKeepsRest(b, v, from, back, y);
    AddKeepsRest(b, v1, coinbase, fee, y);
    RestKeptTwice(b, v, v1, AddBalance(b, v1, coinbase, fee), y);
  }

  lemma NonceKeepsBalances(b: Base, v: View, a: Address, y: Address)
    ensures Balance(b, IncrNonce(b, v, a), y) == Balance(b, v, y)
  {
  }

  // The sum of all balances.

  lemma FeesBalance(gas: nat, left: nat, used: nat, price: nat)
    requires left + used == gas
    ensures Fee(left, price) + Fee(used, price) == Fee(gas, price)
  {
    FeeIsProduct(gas, price);
    FeeIsProduct(left, price);
    FeeIsProduct(used, price);
  }

  lemma PaidKeeps(b: Base, v: View, from: Address, back: nat, coinbase: Address, fee: nat)
    ensures Total(b, Paid(b, v, from, back, coinbase, fee)) == Total(b, v) + back + fee
  {
    TotalAdd(b, v, from, back);
    TotalAdd(b, AddBalance(b, v, from, back), coinbase, fee);
  }

  /** An applied message taken apart: gas is bought, the message executed, the rest settled. */
  lemma ApplyParts(b: Base, v: View, env: Env, pool: nat, msg: Message) returns (v1: View, gas: nat, cost: nat, back: nat, fee: nat)
    requires Apply(b, v, env, pool, msg).Applied?
    ensures SubBalance(b, v, msg.from, cost) == Some(v1) && msg.value <= Balance(b, v1, msg.from)
    ensures var o, r := Execute(b, v1, env, msg, gas), Apply(b, v, env, pool, msg);
      r.view == Paid(b, o.view, msg.from, back, env.coinbase, fee) && r.burnt == o.burnt && r.failed == o.res.failed
    ensures cost == back + fee && fee == Fee(Apply(b, v, env, pool, msg).gasUsed, msg.price)
  {
    var r := Apply(b, v, env, pool, msg);
    cost, back, fee := Fee(msg.gas, msg.price), Fee(r.gasLeft, msg.price), Fee(r.gasUsed, msg.price);
    FeesBalance(msg.gas, r.gasLeft, r.gasUsed, msg.price);
    v1, gas := Bought(b, v, msg), ExecutionGas(msg, env.forks);
    BoughtBalance(b, v, msg);
  }

  lemma BoughtBalance(b: Base, v: View, msg: Message)
    requires Fee(msg.gas, msg.price) <= Balance(b, v, msg.from)
    ensures Balance(b, Bought(b, v, msg), msg.from) == Balance(b, v, msg.from) - Fee(msg.gas, msg.price)
  {
  }

  /** A message that is applied keeps the sum of all balances, but for what burns. */
  lemma ApplyKeeps(b: Base, v: View, env: Env, pool: nat, msg: Message)
    requires Apply(b, v, env, pool, msg).Applied?
    ensures Total(b, Apply(b, v, env, pool, msg).view) + Apply(b, v, env, pool, msg).burnt == Total(b, v)
    ensures NoSelfBurn(msg.run) ==> Apply(b, v, env, pool, msg).burnt == 0
  {
    var v1, gas, cost, back, fee := ApplyParts(b, v, env, pool, msg);
    TotalSub(b, v, msg.from, cost);
    ExecuteKeeps(b, v1, env, msg, gas);
    PaidKeeps(b, Execute(b, v1, env, msg, gas).view, msg.from, back, env.coinbase, fee);
  }

  lemma ExecuteKeeps(b: Base, v: View, env: Env, msg: Message, gas: nat)
    ensures Total(b, Execute(b, v, env, msg, gas).view) + Execute(b, v, env, msg, gas).burnt == Total(b, v)
    ensures NoSelfBurn(msg.run) ==> Execute(b, v, env, msg, gas).burnt == 0
  {
    if msg.to.None? {
      var c := Contract(Call, msg.from, env.createAddress(msg.from, Nonce(b, v, msg.from)), 1, Some(msg.value), gas);
      CreateKeeps(b, env.forks, v, c, msg.run);
      if NoSelfBurn(msg.run) {
        FrameBurnsNothing(b, env.forks, v, c, Call, msg.run);
      }
    } else {
      var c, v' := Contract(Call, msg.from, msg.to.value, 1, Some(msg.value), gas), IncrNonce(b, v, msg.from);
      UpsertKeeps(b, v, msg.from);
      CallKeeps(b, env.forks, v', c, Call, msg.run);
      if NoSelfBurn(msg.run) {
        FrameBurnsNothing(b, env.forks, v', c, Call, msg.run);
      }
    }
  }

  // What a failed execution leaves.

  /**
   One nonce is used up and a fee moved; the two accounts this concerns exist, and nothing else a contract
   can read has changed.
   */
  ghost predicate OnlyFee(b: Base, v: View, v': View, from: Address, coinbase: Address, fee: nat) {
    && v'.logs == v.logs && v'.refund == v.refund
    && forall a :: FeeAt(b, v, v', from, coinbase, fee, a)
  }

  ghost predicate FeeAt(b: Base, v: View, v': View, from: Address, coinbase: Address, fee: nat, a: Address) {
    && ReadsAt(b, v, v', a, (if a == coinbase then fee else 0) - (if a == from then fee else 0), if a == from then 1 else 0)
    && Exists(b, v', a) == (a == from || a == coinbase || Exists(b, v, a))
  }

  /** `a` has `d` more and `n` more nonces (modulo 2^64), and is otherwise read as before, if it exists. */
  ghost predicate ReadsAt(b: Base, v: View, v': View, a: Address, d: int, n: nat) {
    && Balance(b, v', a) == Balance(b, v, a) + d && Nonce(b, v', a) == (Nonce(b, v, a) + n) % TWO64
    && HashOrNone(b, v', a) == HashOrNone(b, v, a) && Code(b, v', a) == Code(b, v, a)
    && Suicided(b, v', a) == Suicided(b, v, a) && forall k :: Slot(b, v', a, k) == Slot(b, v, a, k)
  }

  lemma ReadsJoined(b: Base, v: View, v1: View, v2: View, a: Address, d: int, n: nat, d': int, n': nat)
    requires ReadsAt(b, v, v1, a, d, n) && ReadsAt(b, v1, v2, a, d', n')
    ensures ReadsAt(b, v, v2, a, d + d', n + n')
  {
  }

  /** That is so of `a`, and every other account is the same. */
  ghost predicate OneChanged(b: Base, v: View, v': View, a: Address, d: int, n: nat) {
    && v'.logs == v.logs && v'.refund == v.refund && ReadsAt(b, v, v', a, d, n)
    && (Exists(b, v, a) ==> Exists(b, v', a)) && forall x :: x != a ==> ObjAt(b, v', x) == ObjAt(b, v, x)
  }

  lemma OneChangedAt(b: Base, v: View, v': View, a: Address, d: int, n: nat, x: Address)
    requires OneChanged(b, v, v', a, d, n)
    ensures ReadsAt(b, v, v', x, if x == a then d else 0, if x == a then n else 0)
    ensures (Exists(b, v, x) ==> Exists(b, v', x)) && (Exists(b, v', x) ==> x == a || Exists(b, v, x))
  {
    assert x != a ==> ObjAt(b, v', x) == ObjAt(b, v, x);
  }

  /** Writing an object with another balance or nonce is read at that account only. */
  lemma WriteReads(b: Base, v: View, a: Address, o: Obj, d: int, n: nat)
    requires CodesOk(b)
    requires var o0 := ObjOrFresh(b, v, a);
      && o.account.balance == o0.account.balance + d && o.account.nonce == (o0.account.nonce + n) % TWO64
      && o == o0.(account := o0.account.(balance := o.account.balance, nonce := o.account.nonce))
    ensures OneChanged(b, v, Write(v, a, o), a, d, n) && Exists(b, Write(v, a, o), a)
  {
    ObjAtLives(b, v, a);
    forall x | x != a ensures ObjAt(b, Write(v, a, o), x) == ObjAt(b, v, x) {
    }
  }

  lemma AddReads(b: Base, v: View, a: Address, x: nat)
    requires CodesOk(b)
    ensures OneChanged(b, v, AddBalance(b, v, a, x), a, x, 0) && Exists(b, AddBalance(b, v, a, x), a)
  {
    WriteReads(b, v, a, Credited(ObjOrFresh(b, v, a), x), x, 0);
  }

  lemma SubReads(b: Base, v: View, a: Address, x: nat)
    requires CodesOk(b) && SubBalance(b, v, a, x).Some?
    ensures OneChanged(b, v, SubBalance(b, v, a, x).value, a, 0 - x, 0)
  {
    if x > 0 {
      WriteReads(b, v, a, Debited(ObjOrFresh(b, v, a), x), 0 - x, 0);
    }
  }

  lemma NonceReads(b: Base, v: View, a: Address)
    requires CodesOk(b)
    ensures OneChanged(b, v, IncrNonce(b, v, a), a, 0, 1)
  {
    WriteReads(b, v, a, Bumped(ObjOrFresh(b, v, a)), 0, 1);
  }

  /** Buying gas, using a nonce, and settling. */
  lemma FeeMoved(b: Base, v: View, v1: View, v2: View, from: Address, coinbase: Address, cost: nat, back: nat, fee: nat)
    requires CodesOk(b) && cost == back + fee && SubBalance(b, v, from, cost) == Some(v1) && SameReads(b, IncrNonce(b, v1, from), v2)
    ensures OnlyFee(b, v, Paid(b, v2, from, back, coinbase, fee), from, coinbase, fee)
  {
    var u, v3 := IncrNonce(b, v1, from), AddBalance(b, v2, from, back);
    var v4 := AddBalance(b, v3, coinbase, fee);
    SubReads(b, v, from, cost);
    NonceReads(b, v1, from);
    AddReads(b, v2, from, back);
    AddReads(b, v3, coinbase, fee);
    forall a ensures FeeAt(b, v, v4, from, coinbase, fee, a) {
      FeeMovedAt(b, v, v1, u, v2, v3, v4, from, coinbase, cost, back, fee, a);
    }
  }

  lemma FeeMovedAt(b: Base, v: View, v1: View, u: View, v2: View, v3: View, v4: View,
                   from: Address, coinbase: Address, cost: nat, back: nat, fee: nat, a: Address)
    requires cost == back + fee && OneChanged(b, v, v1, from, 0 - cost, 0) && OneChanged(b, v1, u, from, 0, 1) && SameReads(b, u, v2)
    requires OneChanged(b, v2, v3, from, back, 0) && Exists(b, v3, from) && OneChanged(b, v3, v4, coinbase, fee, 0) && Exists(b, v4, coinbase)
    ensures FeeAt(b, v, v4, from, coinbase, fee, a)
  {
    OneChangedAt(b, v, v1, from, 0 - cost, 0, a);
    OneChangedAt(b, v1, u, from, 0, 1, a);
    ReadsSame(b, u, v2, a);
    OneChangedAt(b, v2, v3, from, back, 0, a);
    OneChangedAt(b, v3, v4, coinbase, fee, 0, a);
    var d: int, n: nat, e: int := if a == from then 0 - cost else 0, if a == from then 1 else 0, if a == from then back else 0;
    ReadsJoined(b, v, v1, u, a, d, 0, 0, n);
    ReadsJoined(b, v, u, v2, a, d, n, 0, 0);
    ReadsJoined(b, v, v2, v3, a, d, n, e, 0);
    ReadsJoined(b, v, v3, v4, a, d + e, n, if a == coinbase then fee else 0, 0);
  }

  lemma ReadsSame(b: Base, v: View, v': View, a: Address)
    requires SameReads(b, v, v')
    ensures ReadsAt(b, v, v', a, 0, 0) && Exists(b, v', a) == Exists(b, v, a)
  {
    assert Exists(b, v', a) == Exists(b, v, a);
  }

  /**
   Under Homestead, a message whose execution failed, however deep, has used up a nonce and moved the
   fee from the sender to the coinbase.
   */
  lemma FailedExecution(b: Base, v: View, env: Env, pool: nat, msg: Message)
    requires CodesOk(b) && env.forks.homestead
    requires Apply(b, v, env, pool, msg).Applied? && Apply(b, v, env, pool, msg).failed
    ensures var r := Apply(b, v, env, pool, msg);
      OnlyFee(b, v, r.view, msg.from, env.coinbase, Fee(r.gasUsed, msg.price))
  {
    var v1, gas, cost, back, fee := ApplyParts(b, v, env, pool, msg);
    FailedExecute(b, v1, env, msg, gas);
    FeeMoved(b, v, v1, Execute(b, v1, env, msg, gas).view, msg.from, env.coinbase, cost, back, fee);
  }

  lemma FailedExecute(b: Base, v: View, env: Env, msg: Message, gas: nat)
    requires CodesOk(b) && env.forks.homestead && msg.value <= Balance(b, v, msg.from) && Execute(b, v, env, msg, gas).res.failed
    ensures SameReads(b, IncrNonce(b, v, msg.from), Execute(b, v, env, msg, gas).view)
  {
    if msg.to.None? {
      FailedCreate(b, env.forks, v, Contract(Call, msg.from, env.createAddress(msg.from, Nonce(b, v, msg.from)), 1, Some(msg.value), gas), msg.run);
    } else {
      FailedCall(b, env.forks, IncrNonce(b, v, msg.from), Contract(Call, msg.from, msg.to.value, 1, Some(msg.value), gas), Call, msg.run);
    }
  }

  lemma ExecuteEvery(b: Base, v: View, env: Env, msg: Message, gas: nat, P: Obj -> bool, d: bool)
    requires Closed(b, P, d) && Every(v, P) && (d || NoDestruct(msg.run))
    ensures Every(Execute(b, v, env, msg, gas).view, P)
  {
    if msg.to.None? {
      CreateEvery(b, env.forks, v, Contract(Call, msg.from, env.createAddress(msg.from, Nonce(b, v, msg.from)), 1, Some(msg.value), gas), msg.run, P, d);
    } else {
      UpsertEvery(b, v, msg.from, P, d);
      CallEvery(b, env.forks, IncrNonce(b, v, msg.from), Contract(Call, msg.from, msg.to.value, 1, Some(msg.value), gas), Call, msg.run, P, d);
    }
  }

  /** What holds of every object before a message, and is kept by each change, holds after it. */
  lemma ApplyEvery(b: Base, v: View, env: Env, pool: nat, msg: Message, P: Obj -> bool, d: bool)
    requires Apply(b, v, env, pool, msg).Applied? && Closed(b, P, d) && Every(v, P) && (d || NoDestruct(msg.run))
    ensures Every(Apply(b, v, env, pool, msg).view, P)
  {
    var v1, gas, cost, back, fee := ApplyParts(b, v, env, pool, msg);
    UpsertEvery(b, v, msg.from, P, d);
    ExecuteEvery(b, v1, env, msg, gas, P, d);
    var v2 := Execute(b, v1, env, msg, gas).view;
    UpsertEvery(b, v2, msg.from, P, d);
    UpsertEvery(b, AddBalance(b, v2, msg.from, back), env.coinbase, P, d);
  }

  /** Without self-destruction, nothing burns and no account is doomed by a message. */
  lemma ApplyCalm(b: Base, v: View, env: Env, pool: nat, msg: Message)
    requires Apply(b, v, env, pool, msg).Applied? && NoDestruct(msg.run) && Doomed(v) == {}
    ensures Doomed(Apply(b, v, env, pool, msg).view) == {} && Apply(b, v, env, pool, msg).burnt == 0
  {
    CalmClosed(b);
    CalmMeaning(v);
    ApplyEvery(b, v, env, pool, msg, Calm(), false);
    CalmMeaning(Apply(b, v, env, pool, msg).view);
    NoDestructNoBurn(msg.run);
    ApplyKeeps(b, v, env, pool, msg);
  }
}
