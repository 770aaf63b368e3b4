/** What the bridge contract's logs do to the balances (state/executor.go:387-437). */
module Bridge {
  import opened Nibbles
  import opened Options
  import opened Overlay
  import opened Readings
  import opened Totals

  datatype Event =
    | Unrelated
    | Malformed
    | Deposited(receiver: Address, amount: nat)
    | Withdrawn(contract: Address, amount: nat, fee: nat)
    | Burned(sender: Address, amount: nat)

  /** The bridge's address, the vault that gets the fees, and how a log with topics parses. */
  datatype BridgeEnv = BridgeEnv(address: Address, vault: Address, parse: Log -> Event)

  function EventOf(br: BridgeEnv, log: Log): (e: Event) {
    if |log.topics| == 0 then Unrelated else br.parse(log)
  }

  datatype Handled = Handled(view: View, ok: bool)

  /** The real amount of a withdrawal includes the fee. */
  function Whole(e: Event): (n: nat)
    requires e.Withdrawn?
  {
    e.amount + e.fee
  }

  /** The whole amount leaves the contract; the fee goes to the vault. */
  function Withdrawal(b: Base, v: View, contract: Address, whole: nat, vault: Address, fee: nat): (h: Handled) {
    var r := SubBalance(b, v, contract, whole);
    if r.None? then Handled(v, false) else Handled(AddBalance(b, r.value, vault, fee), true)
  }

  function HandleEvent(b: Base, vault: Address, v: View, e: Event): (h: Handled) {
    match e
    case Unrelated => Handled(v, true)
    case Malformed => Handled(v, false)
    case Deposited(receiver, amount) => Handled(AddBalance(b, v, receiver, amount), true)
    case Withdrawn(contract, _, fee) => Withdrawal(b, v, contract, Whole(e), vault, fee)
    case Burned(sender, amount) =>
      var r := SubBalance(b, v, sender, amount);
      if r.None? then Handled(v, false) else Handled(r.value, true)
  }

  /** The logs in turn, up to the first that fails. */
  function HandleAll(b: Base, br: BridgeEnv, v: View, logs: seq<Log>): (h: Handled)
    decreases |logs|
  {
    if logs == [] then Handled(v, true)
    else
      var h := HandleAll(b, br, v, logs[..|logs| - 1]);
      if h.ok then HandleEvent(b, br.vault, h.view, EventOf(br, logs[|logs| - 1])) else h
  }

  /** handleBridgeLogs: only for messages to the bridge. */
  function Handle(b: Base, br: BridgeEnv, v: View, to: Option<Address>, logs: seq<Log>): (h: Handled) {
    if to == Some(br.address) then HandleAll(b, br, v, logs) else Handled(v, true)
  }

  // Whose balance an event changes.

  /** What an event adds to the balance of `a`. */
  function Gain(e: Event, vault: Address, a: Address): (n: int) {
    match e
    case Unrelated => 0
    case Malformed => 0
    case Deposited(receiver, amount) => if a == receiver then amount else 0
    case Withdrawn(contract, amount, fee) => (if a == vault then fee else 0) - if a == contract then amount + fee else 0
    case Burned(sender, amount) => 0 - if a == sender then amount else 0
  }

  /** An event is handled unless it is malformed or its payer has too little; then every balance changes by the gain. */
  lemma EventBalances(b: Base, vault: Address, v: View, e: Event, a: Address)
    ensures HandleEvent(b, vault, v, e).ok <==> match e
      case Malformed => false
      case Withdrawn(contract, amount, fee) => amount + fee <= Balance(b, v, contract)
      case Burned(sender, amount) => amount <= Balance(b, v, sender)
      case _ => true
    ensures !HandleEvent(b, vault, v, e).ok ==> HandleEvent(b, vault, v, e).view == v
    ensures HandleEvent(b, vault, v, e).ok ==> Balance(b, HandleEvent(b, vault, v, e).view, a) == Balance(b, v, a) + Gain(e, vault, a)
  {
    if e.Withdrawn? {
      WithdrawalBalances(b, v, e.contract, Whole(e), vault, e.fee, a);
    }
  }

  lemma WithdrawalBalances(b: Base, v: View, contract: Address, whole: nat, vault: Address, fee: nat, a: Address)
    ensures var h := Withdrawal(b, v, contract, whole, vault, fee);
      && (h.ok <==> whole <= Balance(b, v, contract)) && (!h.ok ==> h.view == v)
      && (h.ok ==> Balance(b, h.view, a) == Balance(b, v, a) - (if a == contract then whole else 0) + (if a == vault then fee else 0))
  {
  }

  /** Nothing but balances can be read to differ. */
  lemma EventKeepsRest(b: Base, vault: Address, v: View, e: Event, a: Address)
    requires CodesOk(b)
    ensures var v' := HandleEvent(b, vault, v, e).view;
      RestKept(b, v, v', a) && Suicided(b, v', a) == Suicided(b, v, a) && v'.logs == v.logs && v'.refund == v.refund
  {
    match e
    case Unrelated =>
    case Malformed =>
    case Deposited(receiver, amount) => AddKeepsRest(b, v, receiver, amount, a);
    case Withdrawn(contract, _, fee) =>
      var r := SubBalance(b, v, contract, Whole(e));
      if r.Some? {
        SubKeepsRest(b, v, contract, Whole(e), a);
        AddKeepsRest(b, r.value, vault, fee, a);
        RestKeptTwice(b, v, r.value, AddBalance(b, r.value, vault, fee), a);
      }
    case Burned(sender, amount) =>
      if SubBalance(b, v, sender, amount).Some? {
        SubKeepsRest(b, v, sender, amount, a);
      }
  }

  /** What the logs add to the balance of `a`. */
  function Gains(br: BridgeEnv, logs: seq<Log>, a: Address): (n: int)
    decreases |logs|
  {
    if logs == [] then 0 else Gains(br, logs[..|logs| - 1], a) + Gain(EventOf(br, logs[|logs| - 1]), br.vault, a)
  }

  /** When all logs are handled, every balance has changed by its gains and nothing else can be read to differ. */
  lemma {:induction false} HandleAllBalances(b: Base, br: BridgeEnv, v: View, logs: seq<Log>, a: Address)
    requires CodesOk(b)
    ensures var h := HandleAll(b, br, v, logs);
      && (h.ok ==> Balance(b, h.view, a) == Balance(b, v, a) + Gains(br, logs, a))
      && RestKept(b, v, h.view, a) && Suicided(b, h.view, a) == Suicided(b, v, a) && h.view.logs == v.logs && h.view.refund == v.refund
    decreases |logs|
  {
    if logs != [] {
      var last := |logs| - 1;
      var h := HandleAll(b, br, v, logs[..last]);
      HandleAllBalances(b, br, v, logs[..last], a);
      if h.ok {
        var e := EventOf(br, logs[last]);
        EventBalances(b, br.vault, h.view, e, a);
        EventKeepsRest(b, br.vault, h.view, e, a);
        RestKeptTwice(b, v, h.view, HandleEvent(b, br.vault, h.view, e).view, a);
      }
    }
  }

  /** A log without topics, or of a message that is not to the bridge, does nothing. */
  lemma NotForBridge(b: Base, br: BridgeEnv, v: View, to: Option<Address>, logs: seq<Log>, log: Log)
    ensures to != Some(br.address) ==> Handle(b, br, v, to, logs) == Handled(v, true)
    ensures to == Some(br.address) ==> Handle(b, br, v, to, logs) == HandleAll(b, br, v, logs)
    ensures log.topics == [] ==> HandleEvent(b, br.vault, v, EventOf(br, log)) == Handled(v, true)
    ensures log.topics != [] ==> EventOf(br, log) == br.parse(log)
  {
  }

  // The sum of all balances.

  /** What an event adds to the sum of all balances. */
  function Worth(e: Event): (n: int) {
    match e
    case Unrelated => 0
    case Malformed => 0
    case Deposited(_, amount) => amount
    case Withdrawn(_, amount, _) => 0 - amount
    case Burned(_, amount) => 0 - amount
  }

  /** Deposits minus withdrawn amounts minus burns. */
  function Net(br: BridgeEnv, logs: seq<Log>): (n: int)
    decreases |logs|
  {
    if logs == [] then 0 else Net(br, logs[..|logs| - 1]) + Worth(EventOf(br, logs[|logs| - 1]))
  }

  lemma HandleEventTotal(b: Base, vault: Address, v: View, e: Event)
    requires HandleEvent(b, vault, v, e).ok
    ensures Total(b, HandleEvent(b, vault, v, e).view) == Total(b, v) + Worth(e)
  {
    match e
    case Unrelated =>
    case Deposited(receiver, amount) => TotalAdd(b, v, receiver, amount);
    case Withdrawn(contract, amount, fee) => WithdrawTotal(b, v, contract, Whole(e), vault, fee);
    case Burned(sender, amount) => TotalSub(b, v, sender, amount);
  }

  lemma WithdrawTotal(b: Base, v: View, contract: Address, whole: nat, vault: Address, fee: nat)
    requires Withdrawal(b, v, contract, whole, vault, fee).ok
    ensures Total(b, Withdrawal(b, v, contract, whole, vault, fee).view) == Total(b, v) - whole + fee
  {
    TotalSub(b, v, contract, whole);
    TotalAdd(b, SubBalance(b, v, contract, whole).value, vault, fee);
  }

  /** When all logs are handled, the sum of all balances changes by the net amount. */
  lemma {:induction false} HandleAllTotal(b: Base, br: BridgeEnv, v: View, logs: seq<Log>)
    requires HandleAll(b, br, v, logs).ok
    ensures Total(b, HandleAll(b, br, v, logs).view) == Total(b, v) + Net(br, logs)
    decreases |logs|
  {
    if logs != [] {
      var rest := logs[..|logs| - 1];
      HandleAllTotal(b, br, v, rest);
      HandleEventTotal(b, br.vault, HandleAll(b, br, v, rest).view, EventOf(br, logs[|logs| - 1]));
    }
  }
}
