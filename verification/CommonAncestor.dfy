/**
 Finding the highest block shared with a peer (protocol/syncer.go:549-620). Heights are below 2^52, so
 that the midpoint computed in floating point is the integer one.
 */
module CommonAncestor {
  import opened Options

  type Hash = nat

  /** What the peer answers when asked for a header. */
  datatype Reply = Failed | Absent | Found(hash: Hash)

  datatype Outcome = Ancestor(number: nat, fork: Hash) | RequestFailed | ForkNotFound | NoHeader

  const TWO52 := 0x10_0000_0000_0000

  ghost predicate Agrees(local: seq<Hash>, peer: nat -> Reply, i: nat) {
    i < |local| && peer(i) == Found(local[i])
  }

  /** Up to height `n`, the two chains agree exactly on the blocks 1 to `top`. */
  ghost predicate AgreeUpTo(local: seq<Hash>, peer: nat -> Reply, n: nat, top: nat) {
    top <= n && forall i {:trigger Agrees(local, peer, i)} :: 1 <= i <= n ==> (Agrees(local, peer, i) <==> i <= top)
  }

  /** Halving `x` passes through 3. */
  predicate LeadsToThree(x: nat) {
    if x < 6 then x == 3 else LeadsToThree(x / 2)
  }

  function Pow2(j: nat): (n: nat)
    ensures n > 0
  {
    if j == 0 then 1 else 2 * Pow2(j - 1)
  }

  ghost predicate LeadingOnes(x: nat, j: nat) {
    3 * Pow2(j) <= x < 4 * Pow2(j)
  }

  lemma LeadingOnesHalved(x: nat, j: nat)
    ensures LeadingOnes(x, 0) <==> x == 3
    ensures LeadingOnes(x, j + 1) <==> LeadingOnes(x / 2, j)
    ensures LeadingOnes(x, j + 1) ==> x >= 6
  {
    assert Pow2(0) == 1 && Pow2(j + 1) == 2 * Pow2(j);
  }

  /** That is: the two leading binary digits of `x` are 11. */
  lemma {:induction false} LeadsToThreeMeaning(x: nat)
    ensures LeadsToThree(x) <==> exists j: nat :: LeadingOnes(x, j)
  {
    LeadingOnesHalved(x, 0);
    forall j: nat ensures LeadingOnes(x, j) ==> if j == 0 then x == 3 else LeadingOnes(x / 2, j - 1) && x >= 6 {
      if j > 0 {
        LeadingOnesHalved(x, j - 1);
      }
    }
    if x >= 6 {
      LeadsToThreeMeaning(x / 2);
      forall j: nat ensures LeadingOnes(x / 2, j) ==> LeadingOnes(x, j + 1) {
        LeadingOnesHalved(x, j);
      }
    }
  }

  /** The block the search ends on: the highest shared one, but genesis for block 1 at some heights. */
  function Reached(n: nat, top: nat): (r: nat) {
    if top == 1 && LeadsToThree(n + 2) then 0 else top
  }

  /** The search ends on the highest shared block if and only if that is not block 1, or `n + 2` does not start with 11. */
  lemma ReachedHighest(n: nat, top: nat)
    requires top <= n
    ensures var x := n + 2; Reached(n, top) == top <==> top != 1 || forall j: nat :: !LeadingOnes(x, j)
  {
    LeadsToThreeMeaning(n + 2);
  }

  function Min(a: nat, b: nat): (m: nat) {
    if a <= b then a else b
  }

  /** The search interval is [lo, hi]; `best` is the last block found to be shared. */
  ghost predicate Narrowed(n: nat, top: nat, lo: nat, hi: int, best: Option<nat>) {
    if lo == 0 then best.None? && top <= hi <= n && (top == 1 ==> LeadsToThree(hi + 2) == LeadsToThree(n + 2))
    else best == Some(lo - 1) && 1 <= lo - 1 <= top <= hi <= n && (top == 1 ==> !LeadsToThree(n + 2))
  }

  /** The loop of findCommonAncestor; None is a failed request. */
  method Search(local: seq<Hash>, n: nat, peer: nat -> Reply, ghost top: nat) returns (r: Option<nat>, ok: bool)
    requires n < |local| && n < TWO52
    ensures ok ==> r.Some? && r.value <= n && (r.value > 0 ==> Agrees(local, peer, r.value))
    ensures !ok ==> exists i {:trigger peer(i)} :: 1 <= i <= n && peer(i).Failed?
    ensures ok && AgreeUpTo(local, peer, n, top) ==> r == Some(Reached(n, top))
  {
    ok, r := true, None;
    var lo: nat, hi: int := 0, n;
    ghost var closed := AgreeUpTo(local, peer, n, top);
    while lo <= hi
      invariant -1 <= hi <= n && (lo == 0 ==> hi >= 0)
      invariant r.Some? ==> 1 <= r.value <= n && Agrees(local, peer, r.value)
      invariant lo > 0 ==> r.Some?
      invariant closed ==> Narrowed(n, top, lo, hi, r)
      decreases hi - lo
    {
      var m := (lo + hi) / 2;
      if m == 0 {
        return Some(0), true;
      }
      match peer(m)
      case Failed => return None, false;
      case Absent =>
        assert !Agrees(local, peer, m);
        hi := m - 1;
      case Found(hash) =>
        if local[m] == hash {
          assert Agrees(local, peer, m);
          r, lo := Some(m), m + 1;
        } else {
          assert !Agrees(local, peer, m);
          hi := m - 1;
        }
    }
  }

  /** Two chains of height 1 that agree on block 1: the search ends on genesis. */
  method BlockOneMissed(local: seq<Hash>, peer: nat -> Reply) returns (r: Option<nat>, ok: bool)
    requires |local| == 2 && peer(1) == Found(local[1])
    ensures ok && r == Some(0) && Agrees(local, peer, 1)
  {
    assert AgreeUpTo(local, peer, 1, 1);
    r, ok := Search(local, 1, peer, 1);
  }

  /**
   findCommonAncestor. It never ends without a header; if the chains agree on the blocks up to `top` and on
   none above, it ends on that block (see Reached), and succeeds if the peer has the next one.
   */
  method FindCommonAncestor(local: seq<Hash>, target: nat, peer: nat -> Reply, ghost top: nat) returns (out: Outcome)
    requires 0 < |local| <= TWO52
    ensures out != NoHeader
    ensures out.RequestFailed? ==> exists i {:trigger peer(i)} :: peer(i).Failed?
    ensures out.Ancestor? ==> (out.number > 0 ==> Agrees(local, peer, out.number)) && peer(out.number + 1) == Found(out.fork)
    ensures var n := Min(|local| - 1, target);
      AgreeUpTo(local, peer, n, top) && !out.RequestFailed? ==>
        match peer(Reached(n, top) + 1)
        case Found(hash) => out == Ancestor(Reached(n, top), hash)
        case _ => out == ForkNotFound
  {
    var max := |local| - 1;
    if max > target {
      max := target;
    }
    var header, ok := Search(local, max, peer, top);
    if !ok {
      return RequestFailed;
    }
    if header.None? {
      return NoHeader;
    }
    match peer(header.value + 1)
    case Failed => out := RequestFailed;
    case Absent => out := ForkNotFound;
    case Found(hash) => out := Ancestor(header.value, hash);
  }
}
