/** The sum of all balances a state transaction shows, and what each mutator does to it. */
module Totals {
  import opened Nibbles
  import opened Options
  import opened Accounts
  import opened Overlay

  ghost function SumOver(b: Base, v: View, s: set<Address>): (n: nat) {
    if s == {} then 0 else
      var a :| a in s;
      Balance(b, v, a) + SumOver(b, v, s - {a})
  }

  lemma {:induction false} SumSplit(b: Base, v: View, s: set<Address>, a: Address)
    requires a in s
    ensures SumOver(b, v, s) == Balance(b, v, a) + SumOver(b, v, s - {a})
    decreases |s|
  {
    var x :| x in s && SumOver(b, v, s) == Balance(b, v, x) + SumOver(b, v, s - {x});
    if x != a {
      SumSplit(b, v, s - {x}, a);
      SumSplit(b, v, s - {a}, x);
      assert s - {x} - {a} == s - {a} - {x};
    }
  }

  lemma {:induction false} SumSame(b: Base, v: View, v': View, s: set<Address>)
    requires forall a :: a in s ==> Balance(b, v', a) == Balance(b, v, a)
    ensures SumOver(b, v', s) == SumOver(b, v, s)
    decreases |s|
  {
    if s != {} {
      var a :| a in s;
      SumSplit(b, v, s, a);
      SumSplit(b, v', s, a);
      SumSame(b, v, v', s - {a});
    }
  }

  /** Equal balances have equal sums, whatever they are read from. */
  lemma {:induction false} SumAcross(b: Base, v: View, b': Base, v': View, s: set<Address>)
    requires forall a :: a in s ==> Balance(b', v', a) == Balance(b, v, a)
    ensures SumOver(b', v', s) == SumOver(b, v, s)
    decreases |s|
  {
    if s != {} {
      var a :| a in s;
      SumSplit(b, v, s, a);
      SumSplit(b', v', s, a);
      SumAcross(b, v, b', v', s - {a});
    }
  }

  /** Addresses that hold nothing do not matter. */
  lemma {:induction false} SumMore(b: Base, v: View, s: set<Address>, s': set<Address>)
    requires s <= s' && forall a :: a in s' - s ==> Balance(b, v, a) == 0
    ensures SumOver(b, v, s') == SumOver(b, v, s)
    decreases |s'|
  {
    if s != s' {
      assert !(s' <= s);
      var a :| a in s' && a !in s;
      SumSplit(b, v, s', a);
      SumMore(b, v, s, s' - {a});
    }
  }

  /** Every account that may hold anything. */
  ghost function Known(b: Base, v: View): (s: set<Address>) {
    b.accounts.Keys + v.objs.Keys
  }

  /** The sum of all balances. */
  ghost function Total(b: Base, v: View): (n: nat) {
    SumOver(b, v, Known(b, v))
  }

  /** A change to one account changes the total by that account's difference. */
  lemma TotalChange(b: Base, v: View, v': View, a: Address)
    requires v'.objs.Keys == v.objs.Keys + {a}
    requires forall x :: x != a ==> Balance(b, v', x) == Balance(b, v, x)
    ensures Total(b, v') == Total(b, v) - Balance(b, v, a) + Balance(b, v', a)
  {
    var s, s' := Known(b, v), Known(b, v');
    SumMore(b, v, s, s');
    SumSplit(b, v, s', a);
    SumSplit(b, v', s', a);
    SumSame(b, v, v', s' - {a});
  }

  lemma TotalSame(b: Base, v: View, v': View)
    requires v'.objs.Keys == v.objs.Keys && forall x :: Balance(b, v', x) == Balance(b, v, x)
    ensures Total(b, v') == Total(b, v)
  {
    SumSame(b, v, v', Known(b, v));
  }

  lemma TotalObjects(b: Base, v: View, v': View)
    requires v'.objs == v.objs
    ensures Total(b, v') == Total(b, v)
  {
    TotalSame(b, v, v');
  }

  lemma TotalWrite(b: Base, v: View, a: Address, o: Obj)
    requires !o.deleted
    ensures Balance(b, Write(v, a, o), a) == o.account.balance
    ensures Total(b, Write(v, a, o)) == Total(b, v) - Balance(b, v, a) + o.account.balance
  {
    TotalChange(b, v, Write(v, a, o), a);
  }

  lemma ObjAtLives(b: Base, v: View, a: Address)
    ensures !ObjOrFresh(b, v, a).deleted && ObjOrFresh(b, v, a).account.balance == Balance(b, v, a)
    ensures ObjAt(b, v, a).Some? ==> !ObjAt(b, v, a).value.deleted
  {
  }

  lemma TotalAdd(b: Base, v: View, a: Address, x: nat)
    ensures Total(b, AddBalance(b, v, a, x)) == Total(b, v) + x
  {
    ObjAtLives(b, v, a);
    var o := ObjOrFresh(b, v, a);
    TotalWrite(b, v, a, Credited(o, x));
  }

  lemma TotalSub(b: Base, v: View, a: Address, x: nat)
    ensures SubBalance(b, v, a, x).Some? <==> x <= Balance(b, v, a)
    ensures SubBalance(b, v, a, x).Some? ==> Total(b, SubBalance(b, v, a, x).value) == Total(b, v) - x
  {
    ObjAtLives(b, v, a);
    if 0 < x <= Balance(b, v, a) {
      var o := ObjOrFresh(b, v, a);
      TotalWrite(b, v, a, Debited(o, x));
    }
  }

  /** Writing an object with the balance the account had keeps the total. */
  lemma TotalKept(b: Base, v: View, a: Address, o: Obj)
    requires !o.deleted && o.account.balance == Balance(b, v, a)
    ensures Total(b, Write(v, a, o)) == Total(b, v)
  {
    TotalWrite(b, v, a, o);
  }

  lemma TotalSuicide(b: Base, v: View, a: Address)
    ensures Total(b, Suicide(b, v, a)) == Total(b, v) - Balance(b, v, a)
  {
    ObjAtLives(b, v, a);
    var o := ObjAt(b, v, a);
    if o.Some? {
      TotalWrite(b, v, a, WithBalance(o.value, 0).(suicide := true));
    }
  }

  /** What the state loses when `a` destructs itself in favour of `to`: its balance, if `to` is `a`. */
  lemma TotalSelfdestruct(b: Base, v: View, a: Address, to: Address)
    ensures Total(b, Suicide(b, AddBalance(b, v, to, Balance(b, v, a)), a)) ==
      Total(b, v) - if to == a then Balance(b, v, a) else 0
  {
    var x := Balance(b, v, a);
    TotalAdd(b, v, to, x);
    ObjAtLives(b, v, to);
    TotalSuicide(b, AddBalance(b, v, to, x), a);
  }

  // Cleaning up deletes what suicided accounts hold; empty accounts hold nothing.

  /** The accounts that self-destructed and are still there. */
  ghost function Doomed(v: View): (s: set<Address>) {
    set a | a in v.objs && v.objs[a].suicide && !v.objs[a].deleted
  }

  lemma CleanBalance(b: Base, v: View, deleteEmpty: bool, a: Address)
    ensures Balance(b, Clean(v, deleteEmpty), a) == if a in Doomed(v) then 0 else Balance(b, v, a)
  {
  }

  lemma {:induction false} SumCleaned(b: Base, v: View, deleteEmpty: bool, s: set<Address>)
    ensures SumOver(b, Clean(v, deleteEmpty), s) == SumOver(b, v, s) - SumOver(b, v, s * Doomed(v))
    decreases |s|
  {
    if s != {} {
      var a :| a in s;
      var v' := Clean(v, deleteEmpty);
      SumSplit(b, v', s, a);
      SumSplit(b, v, s, a);
      CleanBalance(b, v, deleteEmpty, a);
      SumCleaned(b, v, deleteEmpty, s - {a});
      if a in Doomed(v) {
        SumSplit(b, v, s * Doomed(v), a);
        assert s * Doomed(v) - {a} == (s - {a}) * Doomed(v);
      } else {
        assert s * Doomed(v) == (s - {a}) * Doomed(v);
      }
    }
  }

  /** Cleaning up loses exactly what the doomed accounts hold. */
  lemma TotalClean(b: Base, v: View, deleteEmpty: bool)
    ensures Total(b, Clean(v, deleteEmpty)) == Total(b, v) - SumOver(b, v, Doomed(v))
  {
    var v' := Clean(v, deleteEmpty);
    assert Known(b, v') == Known(b, v);
    SumCleaned(b, v, deleteEmpty, Known(b, v));
    assert Known(b, v) * Doomed(v) == Doomed(v);
  }
}
