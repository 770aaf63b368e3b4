/** Accounts and the objects a block's state changes are handed to the trie as (state/state.go). */
module Accounts {
  import opened Nibbles
  import opened Rlp
  import opened Options

  /** The bytes of a number, big end first and without leading zeros. */
  function BigEndian(n: nat): (b: seq<Byte>) {
    if n == 0 then [] else BigEndian(n / 256) + [n % 256]
  }

  function FromBigEndian(b: seq<Byte>): (n: nat) {
    if b == [] then 0 else 256 * FromBigEndian(b[..|b| - 1]) + b[|b| - 1]
  }

  lemma {:induction false} BigEndianRoundTrip(n: nat)
    ensures FromBigEndian(BigEndian(n)) == n
  {
    if n != 0 {
      BigEndianRoundTrip(n / 256);
      assert BigEndian(n)[..|BigEndian(n)| - 1] == BigEndian(n / 256);
    }
  }

  function Pow256(k: nat): (n: nat)
    ensures n > 0
  {
    if k == 0 then 1 else 256 * Pow256(k - 1)
  }

  /** Positional value: what comes before `b` counts 256 times for every byte of `b`. */
  lemma {:induction false} FromBigEndianJoined(a: seq<Byte>, b: seq<Byte>)
    ensures FromBigEndian(a + b) == FromBigEndian(a) * Pow256(|b|) + FromBigEndian(b)
  {
    if b == [] {
      assert a + b == a;
    } else {
      var front := b[..|b| - 1];
      FromBigEndianJoined(a, front);
      assert (a + b)[..|a + b| - 1] == a + front;
      assert 256 * (FromBigEndian(a) * Pow256(|front|)) == FromBigEndian(a) * Pow256(|b|);
    }
  }

  /** No leading zero byte is written. */
  lemma {:induction false} BigEndianMinimal(n: nat)
    requires n > 0
    ensures BigEndian(n) != [] && BigEndian(n)[0] != 0
  {
    if n >= 256 {
      BigEndianMinimal(n / 256);
    } else {
      assert BigEndian(n / 256) == [];
    }
  }

  /** `k` bytes hold exactly the numbers below 256^k. */
  lemma {:induction false} BigEndianLength(n: nat, k: nat)
    requires n < Pow256(k)
    ensures |BigEndian(n)| <= k
  {
    if n != 0 {
      BigEndianLength(n / 256, k - 1);
    }
  }

  lemma {:induction false} FromBigEndianBound(b: seq<Byte>)
    ensures FromBigEndian(b) < Pow256(|b|)
  {
    if b != [] {
      FromBigEndianBound(b[..|b| - 1]);
    }
  }

  lemma {:induction false} Pow256Grows(j: nat, k: nat)
    requires j <= k
    ensures Pow256(j) <= Pow256(k)
  {
    if j < k {
      Pow256Grows(j, k - 1);
    }
  }

  const TWO64 := 0x1_0000_0000_0000_0000

  lemma EightBytes()
    ensures Pow256(8) == TWO64
  {
    assert Pow256(2) == 65536;
    assert Pow256(4) == 65536 * Pow256(2);
    assert Pow256(6) == 65536 * Pow256(4);
  }

  type Uint64 = n: nat | n < TWO64

  datatype Account = Account(nonce: Uint64, balance: nat, root: Buf, codeHash: Buf)

  /** Account.MarshalWith, marshalled. */
  function MarshalAccount(a: Account): (b: Buf) {
    Marshal(List([Bytes(Raw(BigEndian(a.nonce))), Bytes(Raw(BigEndian(a.balance))), Bytes(a.root), Bytes(a.codeHash)]))
  }

  /** Account.UnmarshalRlp; None is its error return, which a nonce of more than eight bytes also gets. */
  function UnmarshalAccount(b: Buf): (r: Option<Account>) {
    if b.Marshal? && b.body.List? && |b.body.items| >= 4 && (forall i :: 0 <= i < 4 ==> b.body.items[i].Bytes?) &&
       b.body.items[0].buf.Raw? && |b.body.items[0].buf.bytes| <= 8 && b.body.items[1].buf.Raw?
    then
      var items := b.body.items;
      FitsEightBytes(items[0].buf.bytes);
      Some(Account(FromBigEndian(items[0].buf.bytes), FromBigEndian(items[1].buf.bytes), items[2].buf, items[3].buf))
    else None
  }

  lemma FitsEightBytes(b: seq<Byte>)
    requires |b| <= 8
    ensures FromBigEndian(b) < TWO64
  {
    FromBigEndianBound(b);
    Pow256Grows(|b|, 8);
    EightBytes();
  }

  /** The four fields in the order of section 4.1 of the Yellow Paper: nonce, balance, storage root, code hash. */
  lemma AccountLayout(a: Account)
    ensures var b := MarshalAccount(a);
      && b.Marshal? && b.body.List? && |b.body.items| == 4 && (forall i :: 0 <= i < 4 ==> b.body.items[i].Bytes?)
      && b.body.items[0].buf.Raw? && FromBigEndian(b.body.items[0].buf.bytes) == a.nonce
      && b.body.items[1].buf.Raw? && FromBigEndian(b.body.items[1].buf.bytes) == a.balance
      && b.body.items[2].buf == a.root && b.body.items[3].buf == a.codeHash
  {
    BigEndianRoundTrip(a.nonce);
    BigEndianRoundTrip(a.balance);
  }

  /** Every account, its nonce being a 64-bit number, is read back as it was written. */
  lemma AccountRoundTrip(a: Account)
    ensures UnmarshalAccount(MarshalAccount(a)) == Some(a)
  {
    BigEndianRoundTrip(a.nonce);
    EightBytes();
    BigEndianLength(a.nonce, 8);
    BigEndianRoundTrip(a.balance);
  }

  /** bytes.TrimLeft(b, "\x00") */
  function TrimLeft(b: seq<Byte>): (r: seq<Byte>) {
    if b != [] && b[0] == 0 then TrimLeft(b[1..]) else b
  }

  /** types.BytesToHash on at most 32 bytes: padded on the left. */
  function Pad32(b: seq<Byte>): (r: seq<Byte>)
    requires |b| <= 32
    ensures |r| == 32
  {
    seq(32 - |b|, _ => 0) + b
  }

  lemma {:induction false} TrimPads(b: seq<Byte>)
    ensures |TrimLeft(b)| <= |b| && b == seq(|b| - |TrimLeft(b)|, _ => 0) + TrimLeft(b)
  {
    if b != [] && b[0] == 0 {
      TrimPads(b[1..]);
      assert b == [0] + b[1..];
    }
  }

  lemma {:induction false} ZerosAreWorthless(k: nat, b: seq<Byte>)
    ensures FromBigEndian(seq(k, _ => 0) + b) == FromBigEndian(b)
  {
    if k == 0 {
      assert seq(k, _ => 0) + b == b;
    } else {
      assert seq(k, _ => 0) + b == [0] + (seq(k - 1, _ => 0) + b);
      FromBigEndianJoined([0], seq(k - 1, _ => 0) + b);
      ZerosAreWorthless(k - 1, b);
    }
  }

  /** Neither trimming nor padding changes the number, and trimming leaves no leading zero. */
  lemma SameNumber(b: seq<Byte>)
    ensures FromBigEndian(TrimLeft(b)) == FromBigEndian(b) && (TrimLeft(b) != [] ==> TrimLeft(b)[0] != 0)
    ensures |b| <= 32 ==> FromBigEndian(Pad32(b)) == FromBigEndian(b)
  {
    TrimPads(b);
    ZerosAreWorthless(|b| - |TrimLeft(b)|, TrimLeft(b));
    if |b| <= 32 {
      ZerosAreWorthless(32 - |b|, b);
    }
  }

  /** Trimming for storage and padding on the way back give the same 32-byte word. */
  lemma WordRoundTrip(w: seq<Byte>)
    requires |w| == 32
    ensures |TrimLeft(w)| <= 32 && Pad32(TrimLeft(w)) == w
  {
    TrimPads(w);
  }

  /** How a storage word is kept in a storage trie. */
  function SlotValue(w: seq<Byte>): (b: Buf) {
    Marshal(Bytes(Raw(TrimLeft(w))))
  }

  /** StateObject.GetCommitedState on what the trie answered. */
  function SlotWord(v: Option<Buf>): (w: seq<Byte>) {
    if v.Some? && v.value.Marshal? && v.value.body.Bytes? && v.value.body.buf.Raw? && |v.value.body.buf.bytes| <= 32
    then Pad32(v.value.body.buf.bytes)
    else Pad32([])
  }

  /** A storage entry; None deletes it. */
  datatype StorageObject = StorageObject(key: seq<Byte>, val: Option<seq<Byte>>)

  /** What is handed to the trie for one account; `code` is there if it is to be written. */
  datatype Object = Object(address: seq<Byte>, account: Account, deleted: bool, code: Option<seq<Byte>>, storage: seq<StorageObject>)
}
