/**
 The bitmap of valid jump destinations (state/runtime/evm/bitmap.go), against the definition in section
 9.4.3 of the Ethereum Yellow Paper.
 */
module JumpDest {
  import opened Nibbles

  const JUMPDEST: Byte := 0x5B
  const PUSH1 := 0x60
  const PUSH32 := 0x7F
  const BITMAP_SIZE := 8

  // The definition.

  /** N: where the instruction after the one at `i` starts. */
  function Next(i: nat, w: Byte): (n: nat)
    ensures n > i
  {
    if PUSH1 <= w <= PUSH32 then i + (w - PUSH1) + 2 else i + 1
  }

  /** D_J: the jump destinations from `i` on. */
  ghost function Destinations(code: seq<Byte>, i: nat): (s: set<nat>)
    decreases |code| - i
  {
    if i >= |code| then {}
    else if code[i] == JUMPDEST then {i} + Destinations(code, Next(i, code[i]))
    else Destinations(code, Next(i, code[i]))
  }

  /** Decoding from `from` on meets an instruction that starts at `i`. */
  ghost predicate StartsAt(code: seq<Byte>, from: nat, i: nat)
    decreases |code| - from
  {
    from < |code| && (from == i || StartsAt(code, Next(from, code[from]), i))
  }

  /** The destinations are the instruction starts that hold a JUMPDEST: push data never counts. */
  lemma {:induction false} DestinationsMeaning(code: seq<Byte>, from: nat, i: nat)
    ensures i in Destinations(code, from) <==> i < |code| && StartsAt(code, from, i) && code[i] == JUMPDEST
    decreases |code| - from
  {
    if from < |code| {
      DestinationsMeaning(code, Next(from, code[from]), i);
    }
  }

  /** The byte at `i` is data of a push instruction at `s`: one of the 1 to 32 bytes after the opcode 0x60 to 0x7F. */
  ghost predicate IsDataOf(code: seq<Byte>, s: nat, i: nat) {
    s < i < |code| && 0x60 <= code[s] <= 0x7F && i - s <= code[s] - 0x5F
  }

  /** Decoding meets `i`, or a push instruction that has `i` in its data. */
  lemma {:induction false} StartOrData(code: seq<Byte>, from: nat, i: nat)
    requires from <= i < |code|
    ensures StartsAt(code, from, i) || exists s :: StartsAt(code, from, s) && IsDataOf(code, s, i)
    decreases |code| - from
  {
    var next := Next(from, code[from]);
    if from < i && next <= i {
      StartOrData(code, next, i);
      if !StartsAt(code, next, i) {
        var s :| StartsAt(code, next, s) && IsDataOf(code, s, i);
        assert StartsAt(code, from, s);
      }
    } else if from < i {
      assert StartsAt(code, from, from) && IsDataOf(code, from, i);
    }
  }

  lemma {:induction false} StartsInOrder(code: seq<Byte>, from: nat, i: nat)
    requires StartsAt(code, from, i)
    ensures from <= i < |code|
    decreases |code| - from
  {
    if from != i {
      StartsInOrder(code, Next(from, code[from]), i);
    }
  }

  lemma {:induction false} StartIsNoData(code: seq<Byte>, from: nat, s: nat, i: nat)
    requires StartsAt(code, from, s) && StartsAt(code, from, i)
    ensures !IsDataOf(code, s, i)
    decreases |code| - from
  {
    if from == s {
      if i != s {
        StartsInOrder(code, Next(from, code[from]), i);
      }
    } else if from == i {
      StartsInOrder(code, from, s);
    } else {
      StartIsNoData(code, Next(from, code[from]), s, i);
    }
  }

  /** An instruction starts at exactly the bytes that are no data of a push instruction that starts before. */
  lemma StartsMeaning(code: seq<Byte>, i: nat)
    requires i < |code|
    ensures StartsAt(code, 0, i) <==> !exists s :: StartsAt(code, 0, s) && IsDataOf(code, s, i)
  {
    StartOrData(code, 0, i);
    if StartsAt(code, 0, i) {
      forall s | StartsAt(code, 0, s) ensures !IsDataOf(code, s, i) {
        StartIsNoData(code, 0, s, i);
      }
    }
  }

  // Bits.

  function Mask(k: nat): (m: bv8)
    requires k < 8
  {
    (1 as bv8) << k
  }

  predicate Bit(b: bv8, k: nat)
    requires k < 8
  {
    b & Mask(k) != 0
  }

  lemma MaskValues()
    ensures Mask(0) == 1 && Mask(1) == 2 && Mask(2) == 4 && Mask(3) == 8
    ensures Mask(4) == 16 && Mask(5) == 32 && Mask(6) == 64 && Mask(7) == 128
  {
  }

  /** Or-ing in a mask sets that bit and no other. */
  lemma OneBitSet(b: bv8, k: nat, j: nat)
    requires k < 8 && j < 8
    ensures Bit(b | Mask(k), j) <==> j == k || Bit(b, j)
  {
    MaskValues();
  }

  lemma NoBitSet(k: nat)
    requires k < 8
    ensures !Bit(0, k)
  {
  }

  /** The opcodes with top bits 011. */
  predicate IsPushOp(c: Byte) {
    c / 32 == 3
  }

  // The bitmap.

  ghost predicate Holds(buf: seq<bv8>, i: nat) {
    i / BITMAP_SIZE < |buf| && Bit(buf[i / BITMAP_SIZE], i % BITMAP_SIZE)
  }

  class Bitmap {
    var buf: array<bv8>

    constructor ()
      ensures fresh(buf) && buf.Length == 0
    {
      buf := new bv8[0];
    }

    predicate IsSet(i: nat)
      requires i / BITMAP_SIZE < buf.Length
      reads this, buf
      ensures IsSet(i) <==> Holds(buf[..], i)
    {
      buf[i / BITMAP_SIZE] & Mask(i % BITMAP_SIZE) != 0
    }

    /** set */
    method Set(i: nat)
      requires i / BITMAP_SIZE < buf.Length
      modifies buf
      ensures forall j: nat {:trigger Holds(buf[..], j)} :: Holds(buf[..], j) <==> j == i || Holds(old(buf[..]), j)
    {
      ghost var was := buf[..];
      buf[i / BITMAP_SIZE] := buf[i / BITMAP_SIZE] | Mask(i % BITMAP_SIZE);
      forall j: nat ensures Holds(buf[..], j) <==> j == i || Holds(was, j) {
        if j / BITMAP_SIZE == i / BITMAP_SIZE {
          OneBitSet(was[i / BITMAP_SIZE], i % BITMAP_SIZE, j % BITMAP_SIZE);
        }
      }
    }

    /** setCode, on a zeroed buffer of the length it asks for: afterwards exactly the destinations are set. */
    method SetCode(code: seq<Byte>)
      modifies this
      ensures fresh(buf) && buf.Length == |code| / BITMAP_SIZE + 1
      ensures forall i: nat {:trigger Holds(buf[..], i)} :: Holds(buf[..], i) <==> i in Destinations(code, 0)
    {
      buf := new bv8[|code| / BITMAP_SIZE + 1](_ => 0);
      ghost var bits := buf[..];
      forall j: nat ensures !Holds(bits, j) {
        NoBitSet(j % BITMAP_SIZE);
      }
      var i: nat := 0;
      while i < |code|
        invariant fresh(buf) && buf.Length == |code| / BITMAP_SIZE + 1 && bits == buf[..]
        invariant forall j: nat :: Holds(bits, j) || j in Destinations(code, i) <==> j in Destinations(code, 0)
        decreases |code| - i
      {
        var c := code[i];
        assert IsPushOp(c) <==> PUSH1 <= c <= PUSH32;
        if IsPushOp(c) {
          i := i + (c - 0x60 + 2);
        } else {
          if c == JUMPDEST {
            Set(i);
            bits := buf[..];
          }
          i := i + 1;
        }
      }
    }

    /** reset: the bytes are zeroed for the next use, and the slice is cut to nothing. */
    method Reset()
      modifies this, buf
      ensures buf.Length == 0 && forall i :: 0 <= i < old(buf).Length ==> old(buf)[i] == 0
    {
      var b := buf;
      for i := 0 to b.Length
        invariant forall k :: 0 <= k < i ==> b[k] == 0
      {
        b[i] := 0;
      }
      buf := new bv8[0];
    }
  }

  /** isSet after setCode: exactly at the instruction starts that hold a JUMPDEST. */
  method IsJumpDest(b: Bitmap, code: seq<Byte>, i: nat) returns (r: bool)
    requires i < |code|
    modifies b
    ensures r <==> StartsAt(code, 0, i) && code[i] == JUMPDEST
  {
    b.SetCode(code);
    r := b.IsSet(i);
    DestinationsMeaning(code, 0, i);
  }
}
