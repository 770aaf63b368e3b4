/**
 The journalled state transaction (state/txn.go, state/state.go:97-160) with its pointers explicit.
 The radix tree maps addresses to pointers to state objects, which point to an account, which points
 to a balance; log lists are slices of shared backing arrays. A snapshot keeps the tree, hence the
 pointers: what it shows stays fixed because every mutator works on a deep copy, and because appending
 to a log slice overwrites only what no live snapshot can see.
 */
module StateTxn {
  import opened Nibbles
  import opened Rlp
  import opened Options
  import opened Accounts
  import opened Overlay

  /** The Account and StateObject structs; pointers are indices into the memory. */
  datatype AccountCell = AccountCell(nonce: Uint64, balance: nat, root: Buf, codeHash: Buf)
  datatype ObjectCell = ObjectCell(account: nat, code: seq<Byte>, suicide: bool, deleted: bool, dirtyCode: bool, txn: nat)

  /** Everything allocated: objects, accounts, big integers, slot transactions, log arrays. */
  datatype Mem = Mem(
    objects: seq<ObjectCell>, accounts: seq<AccountCell>, ints: seq<nat>,
    slotTxns: seq<map<Word, Option<Word>>>, arrays: seq<seq<Log>>)

  /** A Go slice of logs: the first `len` elements of a backing array, the rest being spare room. */
  datatype LogSlice = LogSlice(arr: nat, len: nat)

  /** The iradix tree: objects by address, the log list, the refund counter. */
  datatype Tree = Tree(objs: map<Address, nat>, logs: Option<LogSlice>, refund: Option<nat>)

  ghost predicate Allocated(m: Mem, p: nat) {
    && p < |m.objects| && m.objects[p].account < |m.accounts| && m.objects[p].txn < |m.slotTxns|
    && m.accounts[m.objects[p].account].balance < |m.ints|
  }

  /** What the object at `p` holds, all pointers followed. */
  function ValueAt(m: Mem, p: nat): (o: Obj)
    requires Allocated(m, p)
  {
    var c := m.objects[p];
    var acc := m.accounts[c.account];
    Obj(Account(acc.nonce, m.ints[acc.balance], acc.root, acc.codeHash), c.code, c.suicide, c.deleted, c.dirtyCode, m.slotTxns[c.txn])
  }

  /** An object just made, with an account, a balance and slots of its own. */
  function Alloc(m: Mem, o: Obj): (m': Mem)
    ensures Allocated(m', |m.objects|) && ValueAt(m', |m.objects|) == o && Extends(m, m')
  {
    Mem(m.objects + [ObjectCell(|m.accounts|, o.code, o.suicide, o.deleted, o.dirtyCode, |m.slotTxns|)],
        m.accounts + [AccountCell(o.account.nonce, |m.ints|, o.account.root, o.account.codeHash)],
        m.ints + [o.account.balance], m.slotTxns + [o.slots], m.arrays)
  }

  /** Account.Copy: a new balance with the same value, a new account with the same fields. */
  function CopyAccount(m: Mem, a: nat): (m': Mem)
    requires a < |m.accounts| && m.accounts[a].balance < |m.ints|
  {
    var c := m.accounts[a];
    m.(ints := m.ints + [m.ints[c.balance]], accounts := m.accounts + [AccountCell(c.nonce, |m.ints|, c.root, c.codeHash)])
  }

  /** StateObject.Copy: the copy, at the end of the memory, has the same value and no part in common with anything older. */
  function CopyObject(m: Mem, p: nat): (m': Mem)
    requires Allocated(m, p)
    ensures Allocated(m', |m.objects|) && ValueAt(m', |m.objects|) == ValueAt(m, p)
    ensures var c := m'.objects[|m.objects|];
      c.account == |m.accounts| && c.txn == |m.slotTxns| && m'.accounts[c.account].balance == |m.ints|
    ensures m' == Alloc(m, ValueAt(m, p)) && Extends(m, m')
  {
    var c := m.objects[p];
    var m1 := CopyAccount(m, c.account);
    m1.(slotTxns := m.slotTxns + [m.slotTxns[c.txn]],
        objects := m.objects + [ObjectCell(|m.accounts|, c.code, c.suicide, c.deleted, c.dirtyCode, |m.slotTxns|)])
  }

  /** Assignment through the pointers of the object at `p`: its fields, its account, its balance, its slots. */
  function Assign(m: Mem, p: nat, o: Obj): (m': Mem)
    requires Allocated(m, p)
    ensures Allocated(m', p) && ValueAt(m', p) == o
  {
    var c := m.objects[p];
    var acc := m.accounts[c.account];
    Mem(m.objects[p := ObjectCell(c.account, o.code, o.suicide, o.deleted, o.dirtyCode, c.txn)],
        m.accounts[c.account := AccountCell(o.account.nonce, acc.balance, o.account.root, o.account.codeHash)],
        m.ints[acc.balance := o.account.balance], m.slotTxns[c.txn := o.slots], m.arrays)
  }

  /** Nothing older was changed but log arrays. */
  ghost predicate Extends(m: Mem, m': Mem) {
    m.objects <= m'.objects && m.accounts <= m'.accounts && m.ints <= m'.ints && m.slotTxns <= m'.slotTxns && m'.arrays == m.arrays
  }

  lemma ExtendsValue(m: Mem, m': Mem, p: nat)
    requires Extends(m, m') && Allocated(m, p)
    ensures Allocated(m', p) && ValueAt(m', p) == ValueAt(m, p)
  {
  }

  /** Changing a copy just made touches nothing older. */
  lemma AssignToCopy(m: Mem, o: Obj, o': Obj)
    ensures Extends(m, Assign(Alloc(m, o), |m.objects|, o'))
  {
  }

  // What a tree shows.

  /** The slice lies in its array. */
  ghost predicate SliceOk(m: Mem, l: Option<LogSlice>) {
    l.Some? ==> l.value.arr < |m.arrays| && l.value.len <= |m.arrays[l.value.arr]|
  }

  function LogsIn(m: Mem, l: Option<LogSlice>): (logs: seq<Log>)
    requires SliceOk(m, l)
  {
    if l.Some? then m.arrays[l.value.arr][..l.value.len] else []
  }

  ghost predicate LogsShown(m: Mem, l: Option<LogSlice>, logs: seq<Log>) {
    SliceOk(m, l) && LogsIn(m, l) == logs
  }

  /** All but the logs. */
  ghost predicate ShowsRest(m: Mem, t: Tree, v: View) {
    && t.objs.Keys == v.objs.Keys
    && (forall a :: a in t.objs ==> Allocated(m, t.objs[a]) && ValueAt(m, t.objs[a]) == v.objs[a])
    && v.refund == if t.refund.Some? then t.refund.value else 0
  }

  ghost predicate Shows(m: Mem, t: Tree, v: View) {
    ShowsRest(m, t, v) && LogsShown(m, t.logs, v.logs)
  }

  lemma ExtendsRest(m: Mem, m': Mem, t: Tree, v: View)
    requires Extends(m, m') && ShowsRest(m, t, v)
    ensures ShowsRest(m', t, v)
  {
    forall a | a in t.objs ensures Allocated(m', t.objs[a]) && ValueAt(m', t.objs[a]) == v.objs[a] {
      ExtendsValue(m, m', t.objs[a]);
    }
  }

  lemma Inserted(m: Mem, m': Mem, t: Tree, v: View, a: Address, p: nat)
    requires Extends(m, m') && Shows(m, t, v) && Allocated(m', p)
    ensures Shows(m', t.(objs := t.objs[a := p]), Write(v, a, ValueAt(m', p)))
  {
    ExtendsRest(m, m', t, v);
  }

  lemma RefundDropped(m: Mem, t: Tree, v: View)
    requires Shows(m, t, v)
    ensures Shows(m, t.(refund := None), v.(refund := 0))
  {
  }

  lemma ShowsAgain(m: Mem, t: Tree, v: View)
    requires ShowsRest(m, t, v) && SliceOk(m, t.logs)
    ensures Shows(m, t, v.(logs := LogsIn(m, t.logs)))
    ensures LogsShown(m, t.logs, v.logs) ==> v.(logs := LogsIn(m, t.logs)) == v
  {
  }

  /** If the later slice shares its array with the earlier one, it is no shorter. */
  ghost predicate NotShorter(l: Option<LogSlice>, later: Option<LogSlice>) {
    l.Some? && later.Some? && l.value.arr == later.value.arr ==> l.value.len <= later.value.len
  }

  /** Every snapshot still shows what was taken, but for the logs; live ones show the logs too. */
  ghost predicate PastShown(m: Mem, snapshots: seq<Tree>, taken: seq<View>, live: seq<nat>) {
    && |taken| == |snapshots|
    && (forall i :: 0 <= i < |snapshots| ==> ShowsRest(m, snapshots[i], taken[i]) && SliceOk(m, snapshots[i].logs))
    && forall i :: 0 <= i < |live| ==> live[i] < |snapshots| && LogsShown(m, snapshots[live[i]].logs, taken[live[i]].logs)
  }

  /** Live snapshots are in order; what was taken or appended later extends the log slices they hold. */
  ghost predicate PastOrdered(snapshots: seq<Tree>, live: seq<nat>, logs: Option<LogSlice>) {
    && (forall i :: 0 <= i < |live| ==> live[i] < |snapshots| && NotShorter(snapshots[live[i]].logs, logs))
    && (forall i, j :: 0 <= i < j < |live| ==> live[i] < live[j])
    && forall i, s {:trigger live[i], snapshots[s]} :: 0 <= i < |live| && live[i] < s < |snapshots| ==>
         NotShorter(snapshots[live[i]].logs, snapshots[s].logs)
  }

  lemma ExtendsPast(m: Mem, m': Mem, snapshots: seq<Tree>, taken: seq<View>, live: seq<nat>)
    requires Extends(m, m') && PastShown(m, snapshots, taken, live)
    ensures PastShown(m', snapshots, taken, live)
  {
    forall i | 0 <= i < |snapshots| ensures ShowsRest(m', snapshots[i], taken[i]) {
      ExtendsRest(m, m', snapshots[i], taken[i]);
    }
  }

  // Appending to a log slice.

  /** Go's append: in place while the array has room, else into a larger copy. */
  function Append(m: Mem, l: Option<LogSlice>, log: Log, room: nat): (r: (Mem, LogSlice))
    requires SliceOk(m, l)
    ensures SliceOk(r.0, Some(r.1))
  {
    if l.Some? && l.value.len < |m.arrays[l.value.arr]| then
      var s := l.value;
      (m.(arrays := m.arrays[s.arr := m.arrays[s.arr][s.len := log]]), s.(len := s.len + 1))
    else
      var seen := LogsIn(m, l);
      (m.(arrays := m.arrays + [seen + [log] + seq(room, _ => log)]), LogSlice(|m.arrays|, |seen| + 1))
  }

  /** How many logs can be appended in place. */
  function Room(m: Mem, l: Option<LogSlice>): (n: nat)
    requires SliceOk(m, l)
  {
    if l.Some? then |m.arrays[l.value.arr]| - l.value.len else 0
  }

  lemma AppendShown(m: Mem, l: Option<LogSlice>, logs: seq<Log>, log: Log, room: nat)
    requires LogsShown(m, l, logs)
    ensures LogsShown(Append(m, l, log, room).0, Some(Append(m, l, log, room).1), logs + [log])
  {
    var m', s' := Append(m, l, log, room).0, Append(m, l, log, room).1;
    assert m'.arrays[s'.arr][..s'.len] == logs + [log];
  }

  /** Appending to `l` overwrites the element of `s` at the end of `l`, if it has one in the same array. */
  ghost predicate Overwrites(m: Mem, l: Option<LogSlice>, s: Option<LogSlice>)
    requires SliceOk(m, l)
  {
    Room(m, l) > 0 && s.Some? && s.value.arr == l.value.arr && l.value.len < s.value.len
  }

  /** Exactly when another slice goes on showing its logs after an append. */
  lemma AppendSeen(m: Mem, l: Option<LogSlice>, log: Log, room: nat, s: Option<LogSlice>, logs: seq<Log>)
    requires SliceOk(m, l) && LogsShown(m, s, logs)
    ensures SliceOk(Append(m, l, log, room).0, s)
    ensures LogsShown(Append(m, l, log, room).0, s, logs) <==> !Overwrites(m, l, s) || logs[l.value.len] == log
  {
    var m' := Append(m, l, log, room).0;
    if Overwrites(m, l, s) {
      assert LogsIn(m', s) == logs[l.value.len := log];
      assert LogsIn(m', s)[l.value.len] == log;
      if logs[l.value.len] == log {
        assert logs[l.value.len := log] == logs;
      }
    } else {
      assert LogsIn(m', s) == logs;
    }
  }

  /** A slice no longer than the appended one does not see the new element. */
  lemma AppendUnseen(m: Mem, l: Option<LogSlice>, log: Log, room: nat, s: Option<LogSlice>, logs: seq<Log>)
    requires SliceOk(m, l) && LogsShown(m, s, logs) && NotShorter(s, l)
    ensures LogsShown(Append(m, l, log, room).0, s, logs) && NotShorter(s, Some(Append(m, l, log, room).1))
  {
    AppendSeen(m, l, log, room, s, logs);
  }

  lemma AppendRest(m: Mem, l: Option<LogSlice>, log: Log, room: nat, t: Tree, v: View)
    requires SliceOk(m, l) && ShowsRest(m, t, v)
    ensures ShowsRest(Append(m, l, log, room).0, t, v)
  {
    var m' := Append(m, l, log, room).0;
    forall a | a in t.objs ensures Allocated(m', t.objs[a]) && ValueAt(m', t.objs[a]) == v.objs[a] {
      assert Allocated(m, t.objs[a]);
    }
  }

  lemma AppendPast(m: Mem, l: Option<LogSlice>, log: Log, room: nat, snapshots: seq<Tree>, taken: seq<View>, live: seq<nat>)
    requires SliceOk(m, l) && PastShown(m, snapshots, taken, live) && PastOrdered(snapshots, live, l)
    ensures PastShown(Append(m, l, log, room).0, snapshots, taken, live)
    ensures PastOrdered(snapshots, live, Some(Append(m, l, log, room).1))
  {
    var m', l' := Append(m, l, log, room).0, Append(m, l, log, room).1;
    forall i | 0 <= i < |snapshots| ensures ShowsRest(m', snapshots[i], taken[i]) && SliceOk(m', snapshots[i].logs) {
      AppendRest(m, l, log, room, snapshots[i], taken[i]);
    }
    forall i | 0 <= i < |live|
      ensures LogsShown(m', snapshots[live[i]].logs, taken[live[i]].logs) && NotShorter(snapshots[live[i]].logs, Some(l'))
    {
      AppendUnseen(m, l, log, room, snapshots[live[i]].logs, taken[live[i]].logs);
    }
  }

  // Appending many, and what that does to longer slices of the same array.

  function AppendAll(m: Mem, l: Option<LogSlice>, xs: seq<Log>, rooms: seq<nat>): (r: (Mem, Option<LogSlice>))
    requires SliceOk(m, l) && |rooms| == |xs|
    ensures SliceOk(r.0, r.1)
    decreases xs
  {
    if xs == [] then (m, l) else
      var r := Append(m, l, xs[0], rooms[0]);
      AppendAll(r.0, Some(r.1), xs[1..], rooms[1..])
  }

  /** In the array at `i`, `xs` was written from `n` on, as far as it goes; nothing else in it changed. */
  ghost predicate Overwritten(m: Mem, m': Mem, i: nat, n: nat, xs: seq<Log>) {
    && i < |m.arrays| <= |m'.arrays| && |m'.arrays[i]| == |m.arrays[i]|
    && forall p {:trigger m'.arrays[i][p]} :: 0 <= p < |m.arrays[i]| ==>
         m'.arrays[i][p] == if n <= p < n + |xs| then xs[p - n] else m.arrays[i][p]
  }

  /** `xs` was appended to `l`, which is now `l'`; the only older array that changed, if any, is that of `l`. */
  ghost predicate Appended(m: Mem, l: Option<LogSlice>, xs: seq<Log>, m': Mem, l': Option<LogSlice>)
    requires SliceOk(m, l)
  {
    && |m.arrays| <= |m'.arrays| && SliceOk(m', l) && SliceOk(m', l')
    && (forall i :: 0 <= i < |m.arrays| && (l.None? || i != l.value.arr) ==> m'.arrays[i] == m.arrays[i])
    && (l.Some? ==> Overwritten(m, m', l.value.arr, l.value.len, xs))
    && LogsIn(m', l') == LogsIn(m, l) + xs
    && if |xs| <= Room(m, l)
       then l' == (if xs == [] then l else Some(LogSlice(l.value.arr, l.value.len + |xs|)))
       else l'.Some? && |m.arrays| <= l'.value.arr
  }

  lemma AppendedInPlace(m: Mem, l: LogSlice, xs: seq<Log>, room: nat, m': Mem, l': Option<LogSlice>)
    requires SliceOk(m, Some(l)) && Room(m, Some(l)) > 0 && xs != []
    requires var r := Append(m, Some(l), xs[0], room); Appended(r.0, Some(r.1), xs[1..], m', l')
    requires SliceOk(m', l') && LogsIn(m', l') == LogsIn(m, Some(l)) + xs
    ensures Appended(m, Some(l), xs, m', l')
  {
    var r := Append(m, Some(l), xs[0], room);
    forall p | 0 <= p < |m.arrays[l.arr]|
      ensures m'.arrays[l.arr][p] == if l.len <= p < l.len + |xs| then xs[p - l.len] else m.arrays[l.arr][p]
    {
      assert r.0.arrays[l.arr][p] == if p == l.len then xs[0] else m.arrays[l.arr][p];
    }
  }

  lemma AppendedMoved(m: Mem, l: Option<LogSlice>, xs: seq<Log>, room: nat, m': Mem, l': Option<LogSlice>)
    requires SliceOk(m, l) && Room(m, l) == 0 && xs != []
    requires var r := Append(m, l, xs[0], room); Appended(r.0, Some(r.1), xs[1..], m', l')
    requires SliceOk(m', l') && LogsIn(m', l') == LogsIn(m, l) + xs
    ensures Appended(m, l, xs, m', l')
  {
  }

  lemma {:induction false} AppendedAll(m: Mem, l: Option<LogSlice>, xs: seq<Log>, rooms: seq<nat>)
    requires SliceOk(m, l) && |rooms| == |xs|
    ensures Appended(m, l, xs, AppendAll(m, l, xs, rooms).0, AppendAll(m, l, xs, rooms).1)
    decreases xs
  {
    AppendedLogs(m, l, xs, rooms);
    if xs != [] {
      var r, r' := Append(m, l, xs[0], rooms[0]), AppendAll(m, l, xs, rooms);
      AppendedAll(r.0, Some(r.1), xs[1..], rooms[1..]);
      if Room(m, l) > 0 {
        AppendedInPlace(m, l.value, xs, rooms[0], r'.0, r'.1);
      } else {
        AppendedMoved(m, l, xs, rooms[0], r'.0, r'.1);
      }
    }
  }

  lemma {:induction false} AppendedLogs(m: Mem, l: Option<LogSlice>, xs: seq<Log>, rooms: seq<nat>)
    requires SliceOk(m, l) && |rooms| == |xs|
    ensures var (m', l') := AppendAll(m, l, xs, rooms); LogsIn(m', l') == LogsIn(m, l) + xs
    decreases xs
  {
    if xs == [] {
      assert LogsIn(m, l) + xs == LogsIn(m, l);
    } else {
      var r := Append(m, l, xs[0], rooms[0]);
      AppendShown(m, l, LogsIn(m, l), xs[0], rooms[0]);
      AppendedLogs(r.0, Some(r.1), xs[1..], rooms[1..]);
      assert LogsIn(m, l) + [xs[0]] + xs[1..] == LogsIn(m, l) + xs;
    }
  }

  /** `xs` with as many elements of `ys` written over its start as it has. */
  function Over(xs: seq<Log>, ys: seq<Log>): (zs: seq<Log>)
    ensures |zs| == |xs| && forall i :: 0 <= i < |xs| ==> zs[i] == if i < |ys| then ys[i] else xs[i]
  {
    if |ys| <= |xs| then ys + xs[|ys|..] else ys[..|xs|]
  }

  /** Two lists appended in turn to the same slice: what the first one holds in the end. */
  lemma AppendedTwice(m: Mem, l: Option<LogSlice>, xs: seq<Log>, m1: Mem, l1: Option<LogSlice>, ys: seq<Log>, m2: Mem, l2: Option<LogSlice>)
    requires SliceOk(m, l) && Appended(m, l, xs, m1, l1) && Appended(m1, l, ys, m2, l2)
    ensures SliceOk(m2, l1) && LogsIn(m2, l1) == LogsIn(m, l) + if Room(m, l) < |xs| then xs else Over(xs, ys)
  {
    if Room(m, l) < |xs| {
      assert m2.arrays[l1.value.arr] == m1.arrays[l1.value.arr];
    } else if xs == [] {
      assert LogsIn(m2, l) == LogsIn(m, l);
      assert LogsIn(m, l) + Over(xs, ys) == LogsIn(m, l);
    } else {
      OverwrittenTwice(m, m1, m2, l.value, xs, ys);
    }
  }

  lemma OverwrittenTwice(m: Mem, m1: Mem, m2: Mem, l: LogSlice, xs: seq<Log>, ys: seq<Log>)
    requires SliceOk(m, Some(l)) && l.len + |xs| <= |m.arrays[l.arr]|
    requires Overwritten(m, m1, l.arr, l.len, xs) && Overwritten(m1, m2, l.arr, l.len, ys)
    ensures m2.arrays[l.arr][..l.len + |xs|] == m.arrays[l.arr][..l.len] + Over(xs, ys)
  {
    var zs := Over(xs, ys);
    forall p | 0 <= p < l.len + |xs| ensures m2.arrays[l.arr][p] == (m.arrays[l.arr][..l.len] + zs)[p] {
      assert m1.arrays[l.arr][p] == if p < l.len then m.arrays[l.arr][p] else xs[p - l.len];
      if l.len <= p {
        assert (m.arrays[l.arr][..l.len] + zs)[p] == zs[p - l.len];
      }
    }
  }

  lemma OverSame(pre: seq<Log>, xs: seq<Log>, ys: seq<Log>)
    ensures pre + Over(xs, ys) == pre + xs <==> forall i :: 0 <= i < |xs| && i < |ys| ==> ys[i] == xs[i]
  {
    var zs := Over(xs, ys);
    if pre + zs == pre + xs {
      forall i | 0 <= i < |xs| ensures zs[i] == xs[i] {
        assert (pre + zs)[|pre| + i] == (pre + xs)[|pre| + i];
      }
    } else {
      assert zs != xs;
    }
  }

  lemma FirstRoom(z: Log, xs: seq<Log>, ys: seq<Log>)
    requires |xs| == |ys| == 1
    ensures forall m {:trigger Append(m, None, z, 1)} ::
      Room(Append(m, None, z, 1).0, Some(Append(m, None, z, 1).1)) == 1
    ensures [] + [z] + xs == [z, xs[0]] && [] + [z] + Over(xs, ys) == [z, ys[0]]
  {
  }

  // Taking and reverting snapshots.

  lemma PastPushed(m: Mem, snapshots: seq<Tree>, taken: seq<View>, live: seq<nat>, t: Tree, v: View)
    requires PastShown(m, snapshots, taken, live) && PastOrdered(snapshots, live, t.logs) && Shows(m, t, v)
    ensures PastShown(m, snapshots + [t], taken + [v], live + [|snapshots|])
    ensures PastOrdered(snapshots + [t], live + [|snapshots|], t.logs)
  {
    var sn, tk, lv := snapshots + [t], taken + [v], live + [|snapshots|];
    forall i | 0 <= i < |lv|
      ensures lv[i] < |sn| && LogsShown(m, sn[lv[i]].logs, tk[lv[i]].logs) && NotShorter(sn[lv[i]].logs, t.logs)
    {
      if i < |live| {
        assert sn[lv[i]] == snapshots[live[i]] && tk[lv[i]] == taken[live[i]];
      }
    }
    forall i, s | 0 <= i < |lv| && lv[i] < s < |sn| ensures NotShorter(sn[lv[i]].logs, sn[s].logs) {
      assert sn[lv[i]] == snapshots[live[i]];
      if s < |snapshots| {
        assert sn[s] == snapshots[s];
      }
    }
  }

  /** The live snapshots that a revert to `id` leaves: those not taken later. */
  ghost function UpTo(live: seq<nat>, id: nat): (r: seq<nat>)
    ensures |r| <= |live| && r == live[..|r|]
    ensures |r| > 0 ==> r[|r| - 1] <= id
    ensures |r| < |live| ==> live[|r|] > id
  {
    if live == [] || live[|live| - 1] <= id then live else UpTo(live[..|live| - 1], id)
  }

  lemma {:induction false} UpToLive(live: seq<nat>, id: nat, k: nat)
    requires k < |live| && live[k] == id && forall i, j :: 0 <= i < j < |live| ==> live[i] < live[j]
    ensures UpTo(live, id) == live[..k + 1]
  {
    if k < |live| - 1 {
      UpToLive(live[..|live| - 1], id, k);
      assert live[..|live| - 1][..k + 1] == live[..k + 1];
    } else {
      assert live[..k + 1] == live;
    }
  }

  lemma UpToBelow(live: seq<nat>, id: nat, i: nat)
    requires i < |UpTo(live, id)| && forall i, j :: 0 <= i < j < |live| ==> live[i] < live[j]
    ensures UpTo(live, id)[i] == live[i] <= id
  {
    var n := |UpTo(live, id)|;
    assert UpTo(live, id)[n - 1] == live[n - 1];
    assert i == n - 1 || live[i] < live[n - 1];
  }

  lemma OrderPopped(snapshots: seq<Tree>, live: seq<nat>, logs: Option<LogSlice>, id: nat)
    requires PastOrdered(snapshots, live, logs) && id < |snapshots|
    ensures PastOrdered(snapshots, UpTo(live, id), snapshots[id].logs)
  {
    var lv := UpTo(live, id);
    forall i | 0 <= i < |lv|
      ensures lv[i] == live[i] && lv[i] < |snapshots| && NotShorter(snapshots[lv[i]].logs, snapshots[id].logs)
    {
      UpToBelow(live, id, i);
    }
  }

  lemma PastPopped(m: Mem, snapshots: seq<Tree>, taken: seq<View>, live: seq<nat>, logs: Option<LogSlice>, id: nat)
    requires PastShown(m, snapshots, taken, live) && PastOrdered(snapshots, live, logs) && id < |snapshots|
    ensures PastShown(m, snapshots, taken, UpTo(live, id)) && PastOrdered(snapshots, UpTo(live, id), snapshots[id].logs)
  {
    OrderPopped(snapshots, live, logs, id);
    forall i | 0 <= i < |UpTo(live, id)| ensures UpTo(live, id)[i] == live[i] {
    }
  }

  // Listing what is to be committed.

  /** Each element of the set exactly once; a radix tree is walked in key order, which is one such list. */
  ghost predicate Enumerates<K>(ks: seq<K>, s: set<K>) {
    && (forall k :: k in s ==> k in ks)
    && (forall i :: 0 <= i < |ks| ==> ks[i] in s)
    && forall i, j :: 0 <= i < j < |ks| ==> ks[i] != ks[j]
  }

  method Walk<K>(s: set<K>) returns (ks: seq<K>)
    ensures Enumerates(ks, s)
  {
    var left := s;
    ks := [];
    while left != {}
      invariant left <= s && Enumerates(ks, s - left)
      decreases left
    {
      var k :| k in left;
      ks, left := ks + [k], left - {k};
    }
  }

  ghost predicate ListsSlots(m: map<Word, Option<Word>>, es: seq<StorageObject>) {
    && (forall i :: 0 <= i < |es| ==> |es[i].key| == 32 && es[i].key in m && es[i].val == m[es[i].key])
    && (forall k :: k in m ==> exists i :: 0 <= i < |es| && es[i].key == k)
    && forall i, j :: 0 <= i < j < |es| ==> es[i].key != es[j].key
  }

  ghost predicate IsObject(x: Object, o: Obj) {
    && x.account == o.account && x.deleted == o.deleted && x.code == (if o.dirtyCode then Some(o.code) else None)
    && if o.deleted then x.storage == [] else ListsSlots(o.slots, x.storage)
  }

  /** Every object once, as it is shown. */
  ghost predicate Lists(v: View, objs: seq<Object>) {
    && (forall i :: 0 <= i < |objs| ==> |objs[i].address| == 20 && objs[i].address in v.objs && IsObject(objs[i], v.objs[objs[i].address]))
    && (forall a :: a in v.objs ==> exists i :: 0 <= i < |objs| && objs[i].address == a)
    && forall i, j :: 0 <= i < j < |objs| ==> objs[i].address != objs[j].address
  }

  method SlotList(m: map<Word, Option<Word>>) returns (es: seq<StorageObject>)
    ensures ListsSlots(m, es)
  {
    var ks := Walk(m.Keys);
    es := seq(|ks|, i requires 0 <= i < |ks| => StorageObject(ks[i], m[ks[i]]));
    forall k | k in m ensures exists i :: 0 <= i < |es| && es[i].key == k {
      var i :| 0 <= i < |ks| && ks[i] == k;
      assert es[i].key == k;
    }
  }

  method ObjectFor(a: Address, o: Obj) returns (x: Object)
    ensures x.address == a && IsObject(x, o)
  {
    var storage := [];
    if !o.deleted {
      storage := SlotList(o.slots);
    }
    x := Object(a, o.account, o.deleted, if o.dirtyCode then Some(o.code) else None, storage);
  }

  ghost predicate Describes(x: Object, a: Address, v: View) {
    x.address == a && a in v.objs && IsObject(x, v.objs[a])
  }

  lemma ListsFrom(v: View, addrs: seq<Address>, objs: seq<Object>)
    requires Enumerates(addrs, v.objs.Keys) && |objs| == |addrs|
    requires forall i :: 0 <= i < |objs| ==> Describes(objs[i], addrs[i], v)
    ensures Lists(v, objs)
  {
    forall a | a in v.objs ensures exists i :: 0 <= i < |objs| && objs[i].address == a {
      var i :| 0 <= i < |addrs| && addrs[i] == a;
      assert Describes(objs[i], addrs[i], v);
    }
    forall i, j | 0 <= i < j < |objs| ensures objs[i].address != objs[j].address {
      assert Describes(objs[i], addrs[i], v) && Describes(objs[j], addrs[j], v);
    }
  }

  method ObjectList(m: Mem, t: Tree, ghost v: View) returns (objs: seq<Object>)
    requires Shows(m, t, v)
    ensures Lists(v, objs)
  {
    var addrs := Walk(t.objs.Keys);
    objs := [];
    for i := 0 to |addrs|
      invariant |objs| == i && forall j :: 0 <= j < i ==> Describes(objs[j], addrs[j], v)
    {
      assert addrs[i] in t.objs;
      var x := ObjectFor(addrs[i], ValueAt(m, t.objs[addrs[i]]));
      objs := objs + [x];
    }
    ListsFrom(v, addrs, objs);
  }

  /** What the standing snapshots show. */
  ghost function Standing(taken: seq<View>, live: seq<nat>): (stack: seq<View>)
    requires forall i :: 0 <= i < |live| ==> live[i] < |taken|
    ensures |stack| == |live| && forall i {:trigger stack[i]} :: 0 <= i < |live| ==> stack[i] == taken[live[i]]
  {
    seq(|live|, i requires 0 <= i < |live| => taken[live[i]])
  }

  lemma StandingPushed(taken: seq<View>, live: seq<nat>, v: View)
    requires forall i :: 0 <= i < |live| ==> live[i] < |taken|
    ensures Standing(taken + [v], live + [|taken|]) == Standing(taken, live) + [v]
  {
    var s, s' := Standing(taken + [v], live + [|taken|]), Standing(taken, live) + [v];
    forall i | 0 <= i < |s| ensures s[i] == s'[i] {
    }
  }

  lemma StandingPopped(taken: seq<View>, live: seq<nat>, k: nat)
    requires k < |live| && forall i :: 0 <= i < |live| ==> live[i] < |taken|
    ensures Standing(taken, live[..k + 1]) == Standing(taken, live)[..k + 1]
  {
  }

  class Txn {
    const base: Base
    var mem: Mem
    var tree: Tree
    var snapshots: seq<Tree>
    /** What the transaction shows now, and what it showed at each snapshot. */
    ghost var view: View
    ghost var taken: seq<View>
    /** The snapshots not overtaken by a revert to an earlier one. */
    ghost var live: seq<nat>

    ghost predicate Valid()
      reads this
    {
      && Shows(mem, tree, view)
      && PastShown(mem, snapshots, taken, live)
      && PastOrdered(snapshots, live, tree.logs)
    }

    constructor (base: Base)
      ensures Valid() && this.base == base && view == View(map[], [], 0) && tree.logs == None && snapshots == [] && live == []
    {
      this.base := base;
      mem, tree, snapshots := Mem([], [], [], [], []), Tree(map[], None, None), [];
      view, taken, live := View(map[], [], 0), [], [];
    }

    method Snapshot() returns (id: nat)
      requires Valid()
      modifies this`snapshots, this`taken, this`live
      ensures Valid() && id == |old(snapshots)| == |old(taken)|
      ensures snapshots == old(snapshots) + [tree] && taken == old(taken) + [view] && live == old(live) + [id]
    {
      id := |snapshots|;
      PastPushed(mem, snapshots, taken, live, tree, view);
      snapshots, taken, live := snapshots + [tree], taken + [view], live + [id];
    }

    /**
     RevertToSnapshot, to any snapshot ever taken. All that was shown then is shown again, but for the logs,
     which are those its slice holds by now. They are the logs taken if the snapshot is live, that is, no
     revert to an earlier one has overtaken it.
     */
    method RevertToSnapshot(id: nat)
      requires Valid() && id < |snapshots|
      modifies this`tree, this`view, this`live
      ensures Valid() && |taken| == |snapshots| && SliceOk(mem, snapshots[id].logs) && tree == snapshots[id]
      ensures view == taken[id].(logs := LogsIn(mem, snapshots[id].logs))
      ensures view == taken[id] <==> LogsIn(mem, snapshots[id].logs) == taken[id].logs
      ensures forall k {:trigger old(live)[k]} :: 0 <= k < |old(live)| && old(live)[k] == id ==>
        view == taken[id] && live == old(live)[..k + 1]
    {
      PastPopped(mem, snapshots, taken, live, tree.logs, id);
      ShowsAgain(mem, snapshots[id], taken[id]);
      ghost var v := taken[id].(logs := LogsIn(mem, snapshots[id].logs));
      forall k | 0 <= k < |live| && live[k] == id ensures v == taken[id] && UpTo(live, id) == live[..k + 1] {
        UpToLive(live, id, k);
      }
      tree, view, live := snapshots[id], v, UpTo(live, id);
    }

    /** getStateObject: a copy, never the object in the tree. */
    method GetStateObject(a: Address) returns (r: Option<nat>)
      requires Valid()
      modifies this`mem
      ensures Valid() && Extends(old(mem), mem)
      ensures r.Some? <==> ObjAt(base, view, a).Some?
      ensures r.Some? ==> r.value == |old(mem).objects| && mem == Alloc(old(mem), ObjAt(base, view, a).value)
      ensures r.None? ==> mem == old(mem)
    {
      r := None;
      var m := mem;
      if a in tree.objs {
        var p := tree.objs[a];
        if mem.objects[p].deleted {
          return;
        }
        m := CopyObject(mem, p);
      } else if a in base.accounts && (base.accounts[a].root == EMPTY_ROOT || base.accounts[a].root in base.storage) {
        m := Alloc(mem, Obj(base.accounts[a], [], false, false, false, map[]));
      } else {
        return;
      }
      r := Some(|mem.objects|);
      mem := m;
      ExtendsRest(old(mem), mem, tree, view);
      ExtendsPast(old(mem), mem, snapshots, taken, live);
    }

    /**
     upsertAccount: the callback changes the copy in place, and the copy is put in the tree; without
     `create` an account that does not exist stays absent.
     */
    method Upsert(a: Address, create: bool, f: Obj -> Obj) returns (found: bool)
      requires Valid()
      modifies this`mem, this`tree, this`view
      ensures Valid() && (found <==> ObjAt(base, old(view), a).Some?)
      ensures view == if found || create then Write(old(view), a, f(ObjOrFresh(base, old(view), a))) else old(view)
    {
      var p := |mem.objects|;
      var r := GetStateObject(a);
      found := r.Some?;
      if !found {
        if !create {
          return;
        }
        mem := Alloc(mem, FRESH);
      }
      ghost var o := ObjOrFresh(base, view, a);
      assert mem == Alloc(old(mem), o) && ValueAt(mem, p) == o;
      AssignToCopy(old(mem), o, f(o));
      Insert(old(mem), a, p, Assign(mem, p, f(ValueAt(mem, p))));
    }

    /** The object at `p`, which is new since the memory was `m`, is put in the tree. */
    method Insert(ghost m: Mem, a: Address, p: nat, m': Mem)
      requires Shows(m, tree, view) && PastShown(m, snapshots, taken, live) && PastOrdered(snapshots, live, tree.logs)
      requires Extends(m, m') && Allocated(m', p)
      modifies this`mem, this`tree, this`view
      ensures Valid() && view == Write(old(view), a, ValueAt(m', p))
      ensures tree.refund == old(tree.refund) && tree.logs == old(tree.logs)
    {
      Inserted(m, m', tree, view, a, p);
      ExtendsPast(m, m', snapshots, taken, live);
      mem, tree, view := m', tree.(objs := tree.objs[a := p]), Write(view, a, ValueAt(m', p));
    }

    method AddBalance(a: Address, x: nat)
      requires Valid()
      modifies this`mem, this`tree, this`view
      ensures Valid() && view == Overlay.AddBalance(base, old(view), a, x)
    {
      var _ := Upsert(a, true, (o: Obj) => Credited(o, x));
    }

    /** Not `ok` is ErrNotEnoughFunds. */
    method SubBalance(a: Address, x: nat) returns (ok: bool)
      requires Valid()
      modifies this`mem, this`tree, this`view
      ensures Valid() && (ok <==> Overlay.SubBalance(base, old(view), a, x).Some?)
      ensures view == if ok then Overlay.SubBalance(base, old(view), a, x).value else old(view)
    {
      if x == 0 {
        return true;
      }
      var n := GetBalance(a);
      if n < x {
        return false;
      }
      var _ := Upsert(a, true, (o: Obj) => Debited(o, x));
      ok := true;
    }

    method GetBalance(a: Address) returns (n: nat)
      requires Valid()
      modifies this`mem
      ensures Valid() && n == Balance(base, view, a)
    {
      var r := GetStateObject(a);
      n := if r.Some? then mem.ints[mem.accounts[mem.objects[r.value].account].balance] else 0;
    }

    method GetNonce(a: Address) returns (n: Uint64)
      requires Valid()
      modifies this`mem
      ensures Valid() && n == Nonce(base, view, a)
    {
      var r := GetStateObject(a);
      n := if r.Some? then mem.accounts[mem.objects[r.value].account].nonce else 0;
    }

    method SetNonce(a: Address, n: Uint64)
      requires Valid()
      modifies this`mem, this`tree, this`view
      ensures Valid() && view == Overlay.SetNonce(base, old(view), a, n)
    {
      var _ := Upsert(a, true, (o: Obj) => o.(account := o.account.(nonce := n)));
    }

    method IncrNonce(a: Address)
      requires Valid()
      modifies this`mem, this`tree, this`view
      ensures Valid() && view == Overlay.IncrNonce(base, old(view), a)
    {
      var _ := Upsert(a, true, Bumped);
    }

    method SetCode(a: Address, code: seq<Byte>)
      requires Valid()
      modifies this`mem, this`tree, this`view
      ensures Valid() && view == Overlay.SetCode(base, old(view), a, code)
    {
      var _ := Upsert(a, true, (o: Obj) => Coded(o, code));
    }

    method GetCodeHash(a: Address) returns (h: Option<Buf>)
      requires Valid()
      modifies this`mem
      ensures Valid() && h == CodeHashAt(base, view, a)
    {
      var r := GetStateObject(a);
      h := if r.Some? then Some(mem.accounts[mem.objects[r.value].account].codeHash) else None;
    }

    method GetCode(a: Address) returns (c: seq<Byte>)
      requires Valid()
      modifies this`mem
      ensures Valid() && c == Code(base, view, a)
    {
      var r := GetStateObject(a);
      c := [];
      if r.Some? {
        var o := ValueAt(mem, r.value);
        if o.dirtyCode {
          c := o.code;
        } else if o.account.codeHash in base.codes {
          c := base.codes[o.account.codeHash];
        }
      }
    }

    method SetState(a: Address, k: Word, w: Word)
      requires Valid()
      modifies this`mem, this`tree, this`view
      ensures Valid() && view == Overlay.SetState(base, old(view), a, k, w)
    {
      var _ := Upsert(a, true, (o: Obj) => Slotted(o, k, w));
    }

    method GetState(a: Address, k: Word) returns (w: Word)
      requires Valid()
      modifies this`mem
      ensures Valid() && w == Slot(base, view, a, k)
    {
      var r := GetStateObject(a);
      w := ZERO;
      if r.Some? {
        var o := ValueAt(mem, r.value);
        if k in o.slots {
          w := if o.slots[k].None? then ZERO else o.slots[k].value;
        } else {
          w := CommittedSlot(base, o, k);
        }
      }
    }

    method GetCommittedState(a: Address, k: Word) returns (w: Word)
      requires Valid()
      modifies this`mem
      ensures Valid() && w == Original(base, view, a, k)
    {
      var r := GetStateObject(a);
      w := if r.Some? then CommittedSlot(base, ValueAt(mem, r.value), k) else ZERO;
    }

    /** Suicide: nothing happens to an account that does not exist; `marksIt` is whether the mark is new. */
    method Suicide(a: Address) returns (marksIt: bool)
      requires Valid()
      modifies this`mem, this`tree, this`view
      ensures Valid() && view == Overlay.Suicide(base, old(view), a)
      ensures marksIt <==> ObjAt(base, old(view), a).Some? && !Suicided(base, old(view), a)
    {
      var marked := HasSuicided(a);
      var found := Upsert(a, false, (o: Obj) => WithBalance(o, 0).(suicide := true));
      marksIt := found && !marked;
    }

    method HasSuicided(a: Address) returns (s: bool)
      requires Valid()
      modifies this`mem
      ensures Valid() && s == Suicided(base, view, a)
    {
      var r := GetStateObject(a);
      s := r.Some? && mem.objects[r.value].suicide;
    }

    method TouchAccount(a: Address)
      requires Valid()
      modifies this`mem, this`tree, this`view
      ensures Valid() && view == Touch(base, old(view), a)
    {
      var _ := Upsert(a, true, (o: Obj) => o);
    }

    method CreateAccount(a: Address)
      requires Valid()
      modifies this`mem, this`tree, this`view
      ensures Valid() && view == Overlay.CreateAccount(base, old(view), a)
    {
      var n := GetBalance(a);
      var _ := Upsert(a, true, (o: Obj) => WithBalance(FRESH, n));
    }

    method GetRefund() returns (g: nat)
      requires Valid()
      ensures g == view.refund
    {
      g := if tree.refund.Some? then tree.refund.value else 0;
    }

    method AddRefund(gas: nat)
      requires Valid()
      modifies this`tree, this`view
      ensures Valid() && view == Overlay.AddRefund(old(view), gas)
    {
      var g := GetRefund();
      tree, view := tree.(refund := Some((g + gas) % TWO64)), Overlay.AddRefund(view, gas);
    }

    method SubRefund(gas: nat)
      requires Valid()
      modifies this`tree, this`view
      ensures Valid() && view == Overlay.SubRefund(old(view), gas)
    {
      var g := GetRefund();
      tree, view := tree.(refund := Some((g - gas) % TWO64)), Overlay.SubRefund(view, gas);
    }

    /** EmitLog; `room` is what append leaves spare when it moves to a larger array. */
    method EmitLog(log: Log, room: nat)
      requires Valid()
      modifies this`mem, this`tree, this`view
      ensures Valid() && view == old(view).(logs := old(view).logs + [log])
      ensures SliceOk(old(mem), old(tree.logs)) && mem == Append(old(mem), old(tree.logs), log, room).0
      ensures tree == old(tree).(logs := Some(Append(old(mem), old(tree.logs), log, room).1))
    {
      var r := Append(mem, tree.logs, log, room);
      AppendPast(mem, tree.logs, log, room, snapshots, taken, live);
      AppendRest(mem, tree.logs, log, room, tree, view);
      AppendShown(mem, tree.logs, view.logs, log, room);
      mem, tree, view := r.0, tree.(logs := Some(r.1)), view.(logs := view.logs + [log]);
    }

    method EmitAll(logs: seq<Log>, rooms: seq<nat>)
      requires Valid() && |rooms| == |logs|
      modifies this`mem, this`tree, this`view
      ensures Valid() && view == old(view).(logs := old(view).logs + logs)
      ensures SliceOk(old(mem), old(tree.logs)) && Appended(old(mem), old(tree.logs), logs, mem, tree.logs)
      ensures tree == old(tree).(logs := tree.logs)
    {
      EmitEach(logs, rooms);
      AppendedAll(old(mem), old(tree.logs), logs, rooms);
    }

    method EmitEach(logs: seq<Log>, rooms: seq<nat>)
      requires Valid() && |rooms| == |logs|
      modifies this`mem, this`tree, this`view
      ensures Valid() && view == old(view).(logs := old(view).logs + logs)
      ensures SliceOk(old(mem), old(tree.logs))
      ensures mem == AppendAll(old(mem), old(tree.logs), logs, rooms).0
      ensures tree == old(tree).(logs := AppendAll(old(mem), old(tree.logs), logs, rooms).1)
      decreases logs
    {
      if logs == [] {
        assert view.logs + logs == view.logs;
      } else {
        EmitLog(logs[0], rooms[0]);
        EmitEach(logs[1..], rooms[1..]);
        assert old(view).logs + [logs[0]] + logs[1..] == old(view).logs + logs;
      }
    }

    /**
     A snapshot overtaken by a revert to an earlier one: the logs emitted since are written over its own
     if these fitted in the array. So it is restored exactly if they did not fit or are the same.
     */
    method OvertakenRevert(xs: seq<Log>, rx: seq<nat>, ys: seq<Log>, ry: seq<nat>) returns (id: nat)
      requires Valid() && |rx| == |xs| && |ry| == |ys|
      modifies this
      ensures Valid() && SliceOk(old(mem), old(tree.logs)) && id < |taken|
      ensures taken[id] == old(view).(logs := old(view).logs + xs)
      ensures view == taken[id].(logs := old(view).logs + if Room(old(mem), old(tree.logs)) < |xs| then xs else Over(xs, ys))
      ensures view == taken[id] <==>
        Room(old(mem), old(tree.logs)) < |xs| || forall i :: 0 <= i < |xs| && i < |ys| ==> ys[i] == xs[i]
    {
      id := Overtake(xs, rx, ys, ry);
      OverSame(old(view).logs, xs, ys);
      RevertToSnapshot(id);
    }

    method Overtake(xs: seq<Log>, rx: seq<nat>, ys: seq<Log>, ry: seq<nat>) returns (id: nat)
      requires Valid() && |rx| == |xs| && |ry| == |ys|
      modifies this
      ensures Valid() && SliceOk(old(mem), old(tree.logs)) && id < |snapshots| == |taken|
      ensures taken[id] == old(view).(logs := old(view).logs + xs)
      ensures LogsShown(mem, snapshots[id].logs,
        old(view).logs + if Room(old(mem), old(tree.logs)) < |xs| then xs else Over(xs, ys))
    {
      var first := Snapshot();
      EmitAll(xs, rx);
      id := Snapshot();
      ghost var m1, l1 := mem, tree.logs;
      RevertToSnapshot(first);
      assert tree.logs == old(tree.logs) && snapshots[id].logs == l1;
      EmitAll(ys, ry);
      AppendedTwice(old(mem), old(tree.logs), xs, m1, l1, ys, mem, tree.logs);
    }

    /** Logs: hands out the log list and forgets it. */
    method Logs() returns (logs: seq<Log>)
      requires Valid()
      modifies this`tree, this`view
      ensures Valid() && logs == old(view).logs && view == old(view).(logs := [])
    {
      logs := LogsIn(mem, tree.logs);
      tree, view := tree.(logs := None), view.(logs := []);
    }

    method SetStorage(a: Address, k: Word, w: Word, f: Forks) returns (status: StorageStatus)
      requires Valid()
      modifies this`mem, this`tree, this`view
      ensures Valid() && (view, status) == Overlay.SetStorage(base, old(view), a, k, w, f)
    {
      var current := GetState(a, k);
      if current == w {
        return StorageUnchanged;
      }
      var original := GetCommittedState(a, k);
      SetState(a, k, w);
      if LegacyMetering(f) {
        if current == ZERO {
          return StorageAdded;
        } else if w == ZERO {
          AddRefund(15000);
          return StorageDeleted;
        }
        return StorageModified;
      }
      if original == current {
        if original == ZERO {
          return StorageAdded;
        }
        if w == ZERO {
          AddRefund(15000);
          return StorageDeleted;
        }
        return StorageModified;
      }
      MeterAgain(original, current, w, f);
      status := StorageModifiedAgain;
    }

    method MeterAgain(original: Word, current: Word, w: Word, f: Forks)
      requires Valid()
      modifies this`tree, this`view
      ensures Valid() && view == NetRefund(old(view), original, current, w, f)
    {
      if original != ZERO {
        if current == ZERO {
          SubRefund(15000);
        } else if w == ZERO {
          AddRefund(15000);
        }
      }
      if original == w {
        if original == ZERO {
          AddRefund(if f.istanbul then 19200 else 19800);
        } else {
          AddRefund(if f.istanbul then 4200 else 4800);
        }
      }
    }

    /** The object in the tree is replaced by a copy marked deleted. */
    method MarkDeleted(a: Address)
      requires Valid() && a in tree.objs
      modifies this`mem, this`tree, this`view
      ensures Valid() && a in old(view).objs && view == Write(old(view), a, old(view).objs[a].(deleted := true))
      ensures tree.refund == old(tree.refund) && tree.logs == old(tree.logs)
    {
      var p, o := |mem.objects|, ValueAt(mem, tree.objs[a]);
      AssignToCopy(mem, o, o.(deleted := true));
      Insert(mem, a, p, Assign(CopyObject(mem, tree.objs[a]), p, o.(deleted := true)));
    }

    /** CleanDeleteObjects: the dead objects are marked, one by one, and the refund is dropped. */
    method CleanDeleteObjects(deleteEmpty: bool)
      requires Valid()
      modifies this`mem, this`tree, this`view
      ensures Valid() && view == Clean(old(view), deleteEmpty)
    {
      var remove := set a | a in tree.objs && IsDead(ValueAt(mem, tree.objs[a]), deleteEmpty);
      assert remove == Dead(view, deleteEmpty);
      MarkAll(remove);
      RefundDropped(mem, tree, view);
      tree, view := tree.(refund := None), view.(refund := 0);
    }

    /** The loop over the objects to remove, in any order. */
    method MarkAll(dead: set<Address>)
      requires Valid() && dead <= view.objs.Keys
      modifies this`mem, this`tree, this`view
      ensures Valid() && view == Marked(old(view), dead)
      decreases dead
    {
      if dead == {} {
        MarkedNone(view);
      } else {
        var a :| a in dead;
        MarkedRest(view, dead, a);
        MarkDeleted(a);
        MarkAll(dead - {a});
      }
    }

    /** Commit: everything in the tree, cleaned up, as objects for the trie. */
    method Commit(deleteEmpty: bool) returns (objs: seq<Object>)
      requires Valid()
      modifies this`mem, this`tree, this`view
      ensures Valid() && view == Clean(old(view), deleteEmpty) && Lists(view, objs)
    {
      CleanDeleteObjects(deleteEmpty);
      objs := ObjectList(mem, tree, view);
    }

    // Runs.

    ghost function Shown(): (j: Journal)
      requires Valid()
      reads this
    {
      Journal(view, Standing(taken, live))
    }

    /** A run of changes, snapshots and reverts to standing snapshots does what the journal says. */
    method Perform(cs: seq<Command>, ids: seq<nat>) returns (ids': seq<nat>)
      requires Valid() && ids == live
      modifies this
      ensures Valid() && ids' == live && Shown() == ObeyAll(base, old(Shown()), cs)
    {
      ids' := ids;
      for i := 0 to |cs|
        invariant Valid() && ids' == live && Shown() == ObeyAll(base, old(Shown()), cs[..i])
      {
        assert cs[..i + 1][..i] == cs[..i];
        ids' := Follow(cs[i], ids');
      }
      assert cs[..|cs|] == cs;
    }

    /** Properly nested work after a snapshot is undone by reverting to it. */
    method PerformNested(work: seq<Command>, ids: seq<nat>) returns (ids': seq<nat>)
      requires Valid() && ids == live && Within(work, |ids| + 1)
      modifies this
      ensures Valid() && ids' == live && view == old(view) && Shown().stack == old(Shown()).stack + [view]
    {
      NestedRevert(base, Shown(), work);
      ids' := Perform([Snap] + work + [Revert(|ids|)], ids);
    }

    /** One step; `ids` are the ids of the standing snapshots. */
    method Follow(c: Command, ids: seq<nat>) returns (ids': seq<nat>)
      requires Valid() && ids == live
      modifies this
      ensures Valid() && ids' == live && Shown() == Obey(base, old(Shown()), c)
    {
      ids' := ids;
      match c
      case Do(change) =>
        Apply(change);
      case Snap =>
        var id := Snapshot();
        ids' := ids + [id];
        StandingPushed(old(taken), old(live), view);
      case Revert(k) =>
        if k < |ids| {
          RevertToSnapshot(ids[k]);
          ids' := ids[..k + 1];
          StandingPopped(taken, old(live), k);
        }
    }

    method Apply(c: Change)
      requires Valid()
      modifies this`mem, this`tree, this`view
      ensures Valid() && view == Effect(base, old(view), c)
    {
      match c
      case Credit(a, x) => AddBalance(a, x);
      case Debit(a, x) =>
        var _ := SubBalance(a, x);
      case NonceTo(a, n) => SetNonce(a, n);
      case NonceUp(a) => IncrNonce(a);
      case CodeTo(a, code) => SetCode(a, code);
      case SlotTo(a, k, w) => SetState(a, k, w);
      case Store(a, k, w, f) =>
        var _ := SetStorage(a, k, w, f);
      case _ => ApplyRest(c);
    }

    method ApplyRest(c: Change)
      requires Valid() && !c.Credit? && !c.Debit? && !c.NonceTo? && !c.NonceUp? && !c.CodeTo? && !c.SlotTo? && !c.Store?
      modifies this`mem, this`tree, this`view
      ensures Valid() && view == Effect(base, old(view), c)
    {
      match c
      case Destroy(a) =>
        var _ := Suicide(a);
      case TouchIt(a) => TouchAccount(a);
      case Create(a) => CreateAccount(a);
      case Emit(log, room) => EmitLog(log, room);
      case Refund(gas) => AddRefund(gas);
      case TakeBack(gas) => SubRefund(gas);
      case TakeLogs =>
        var _ := Logs();
      case CleanUp(deleteEmpty) => CleanDeleteObjects(deleteEmpty);
    }
  }

  /** A run that overtakes: the second snapshot was taken with x as its last log and comes back with y. */
  method OvertakenRun(base: Base, z: Log, x: Log, y: Log) returns (t: Txn, id: nat)
    ensures t.Valid() && t.base == base && id < |t.taken|
    ensures t.taken[id].logs == [z, x] && t.view.logs == [z, y]
  {
    t := new Txn(base);
    t.EmitLog(z, 1);
    FirstRoom(z, [x], [y]);
    id := t.OvertakenRevert([x], [0], [y], [0]);
  }
}
