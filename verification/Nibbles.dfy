/**
 Hex-prefix keys of the trie (state/immutable-trie/encoding.go, and prefixLen/concat of trie.go).
 A hex key is a sequence of nibbles, possibly ended by the terminator 16.
 */
module Nibbles {

  type Byte = b: int | 0 <= b < 256

  /** A slice of nibbles; 16 is the terminator. */
  type Hex = seq<int>

  const TERMINATOR := 16

  predicate AllNibbles(h: Hex) {
    forall i :: 0 <= i < |h| ==> 0 <= h[i] < 16
  }

  /** Ends in the terminator, which occurs nowhere else. */
  predicate Terminated(h: Hex) {
    |h| > 0 && h[|h| - 1] == TERMINATOR && forall i :: 0 <= i < |h| - 1 ==> 0 <= h[i] < 16
  }

  /** What a node's key field may hold: nibbles, with or without a final terminator. */
  predicate IsHex(h: Hex) {
    AllNibbles(h) || Terminated(h)
  }

  predicate HasTerminator(h: Hex) {
    |h| > 0 && h[|h| - 1] == TERMINATOR
  }

  /** The nibbles of a byte string, high nibble first, followed by the terminator. */
  function HexOf(bytes: seq<Byte>): (h: Hex)
    ensures Terminated(h)
  {
    seq(2 * |bytes| + 1, i requires 0 <= i < 2 * |bytes| + 1 =>
      if i == 2 * |bytes| then TERMINATOR else if i % 2 == 0 then bytes[i / 2] / 16 else bytes[i / 2] % 16)
  }

  /** Every byte's high and low nibble, and 16 at the end. */
  lemma HexOfMeaning(bytes: seq<Byte>)
    ensures |HexOf(bytes)| == 2 * |bytes| + 1 && HexOf(bytes)[2 * |bytes|] == 16
    ensures forall i :: 0 <= i < |bytes| ==> 16 * HexOf(bytes)[2 * i] + HexOf(bytes)[2 * i + 1] == bytes[i]
  {
  }

  method BytesToHexNibbles(bytes: seq<Byte>) returns (nibbles: Hex)
    ensures nibbles == HexOf(bytes)
  {
    var buf := new int[2 * |bytes| + 1](_ => 0);
    for i := 0 to |bytes|
      invariant forall j :: 0 <= j < 2 * i ==> buf[j] == HexOf(bytes)[j]
    {
      buf[2 * i] := bytes[i] / 16;
      buf[2 * i + 1] := bytes[i] % 16;
    }
    buf[buf.Length - 1] := TERMINATOR;
    nibbles := buf[..];
  }

  /** Adjacent nibbles packed into bytes. */
  function Packed(h: Hex): (c: seq<Byte>)
    requires |h| % 2 == 0 && AllNibbles(h)
  {
    seq(|h| / 2, i requires 0 <= i < |h| / 2 => 16 * h[2 * i] + h[2 * i + 1])
  }

  /** The nibbles without the terminator. */
  function Body(h: Hex): (b: Hex) {
    if HasTerminator(h) then h[..|h| - 1] else h
  }

  /** The nibbles with their flag nibble (and its padding) in front: what encodeCompact packs. */
  function Flagged(h: Hex): (f: Hex)
    requires IsHex(h)
    ensures AllNibbles(f) && |f| % 2 == 0 && |f| > 0
  {
    var body := Body(h);
    var flag := (if HasTerminator(h) then 2 else 0) + |body| % 2;
    if |body| % 2 == 1 then [flag] + body else [flag, 0] + body
  }

  function Compact(h: Hex): (c: seq<Byte>)
    requires IsHex(h)
    ensures |c| > 0
  {
    Packed(Flagged(h))
  }

  /**
   HP of Appendix C of the Yellow Paper: the first byte's high nibble is 2 with and 0 without terminator, plus 1
   for an odd number of nibbles; its low nibble is the first nibble then, else 0; the others follow in pairs.
   */
  lemma CompactMeaning(h: Hex)
    requires IsHex(h)
    ensures var c, x := Compact(h), if HasTerminator(h) then h[..|h| - 1] else h;
      && |c| == |x| / 2 + 1 && c[0] / 16 == (if HasTerminator(h) then 2 else 0) + |x| % 2
      && (if |x| % 2 == 1
          then c[0] % 16 == x[0] && forall j :: 0 <= j < |x| / 2 ==> c[j + 1] == 16 * x[2 * j + 1] + x[2 * j + 2]
          else c[0] % 16 == 0 && forall j :: 0 <= j < |x| / 2 ==> c[j + 1] == 16 * x[2 * j] + x[2 * j + 1])
  {
    var x := Body(h);
    var flag := (if HasTerminator(h) then 2 else 0) + |x| % 2;
    FlaggedFrom(h, flag, x);
    if |x| % 2 == 1 {
      PackedOdd(flag, x);
    } else {
      PackedEven(flag, x);
    }
  }

  lemma PackedOdd(flag: int, x: Hex)
    requires 0 <= flag < 4 && AllNibbles(x) && |x| % 2 == 1
    ensures var c := Packed([flag] + x);
      |c| == |x| / 2 + 1 && c[0] == 16 * flag + x[0] && forall j :: 0 <= j < |x| / 2 ==> c[j + 1] == 16 * x[2 * j + 1] + x[2 * j + 2]
  {
    var f := [flag] + x;
    forall j | 0 <= j < |x| / 2 ensures Packed(f)[j + 1] == 16 * x[2 * j + 1] + x[2 * j + 2] {
      assert f[2 * (j + 1)] == x[2 * j + 1] && f[2 * (j + 1) + 1] == x[2 * j + 2];
    }
  }

  lemma PackedEven(flag: int, x: Hex)
    requires 0 <= flag < 4 && AllNibbles(x) && |x| % 2 == 0
    ensures var c := Packed([flag, 0] + x);
      |c| == |x| / 2 + 1 && c[0] == 16 * flag && forall j :: 0 <= j < |x| / 2 ==> c[j + 1] == 16 * x[2 * j] + x[2 * j + 1]
  {
    var f := [flag, 0] + x;
    forall j | 0 <= j < |x| / 2 ensures Packed(f)[j + 1] == 16 * x[2 * j] + x[2 * j + 1] {
      assert f[2 * (j + 1)] == x[2 * j] && f[2 * (j + 1) + 1] == x[2 * j + 1];
    }
  }

  method PackNibbles(h: Hex) returns (result: seq<Byte>)
    requires |h| % 2 == 0 && AllNibbles(h)
    ensures result == Packed(h)
  {
    var buf := new Byte[|h| / 2](_ => 0);
    for i := 0 to buf.Length
      invariant forall j :: 0 <= j < i ==> buf[j] == 16 * h[2 * j] + h[2 * j + 1]
    {
      buf[i] := (16 * h[2 * i]) % 256 + h[2 * i + 1];
    }
    result := buf[..];
  }

  method EncodeCompact(hex: Hex) returns (result: seq<Byte>)
    requires IsHex(hex)
    ensures result == Compact(hex)
  {
    var h, terminator := hex, 0;
    if HasTerminator(hex) {
      h, terminator := hex[..|hex| - 1], 1;
    }
    var oddLen := |h| % 2;
    var flag := 2 * terminator + oddLen;
    if oddLen == 1 {
      h := [flag] + h;
    } else {
      h := [flag, 0] + h;
    }
    assert h == Flagged(hex);
    result := PackNibbles(h);
  }

  /** Nibbles without their flag; those of a flag below 2 lose the terminator too. */
  function Unflagged(hex: Hex): (h: Hex)
    requires |hex| >= 3
  {
    var base := if hex[0] < 2 then hex[..|hex| - 1] else hex;
    if hex[0] % 2 == 1 then base[1..] else base[2..]
  }

  /** decodeCompact, whose slicing panics on an empty input. */
  function Expanded(compact: seq<Byte>): (h: Hex)
    requires |compact| > 0
  {
    Unflagged(HexOf(compact))
  }

  /** A compact string as encodeCompact writes it: flag at most 3, zero padding after an even flag. */
  predicate WellFlagged(c: seq<Byte>) {
    |c| > 0 && c[0] < 64 && ((c[0] / 16) % 2 == 1 || c[0] % 16 == 0)
  }

  lemma NibblesOfPacked(f: Hex)
    requires AllNibbles(f) && |f| % 2 == 0
    ensures HexOf(Packed(f)) == f + [TERMINATOR]
  {
    forall i | 0 <= i < |f| ensures HexOf(Packed(f))[i] == f[i] {
      assert i % 2 == 0 || i == 2 * (i / 2) + 1;
    }
  }

  lemma UnflagFlagged(h: Hex)
    requires IsHex(h)
    ensures Unflagged(Flagged(h) + [TERMINATOR]) == h
  {
    var f := Flagged(h);
    var hex := f + [TERMINATOR];
    if |Body(h)| % 2 == 1 {
      assert f == [f[0]] + Body(h) && hex[1..] == Body(h) + [TERMINATOR];
    } else {
      assert f == [f[0], 0] + Body(h) && hex[2..] == Body(h) + [TERMINATOR];
    }
    assert hex[..|hex| - 1] == f;
  }

  /** Decoding undoes encoding, with or without a terminator. */
  lemma DecodeEncode(h: Hex)
    requires IsHex(h)
    ensures Expanded(Compact(h)) == h
  {
    NibblesOfPacked(Flagged(h));
    UnflagFlagged(h);
  }

  lemma UnflaggedIsHex(hex: Hex)
    requires Terminated(hex) && |hex| >= 3
    ensures IsHex(Unflagged(hex)) && HasTerminator(Unflagged(hex)) == (hex[0] >= 2)
  {
  }

  lemma ExpandedIsHex(c: seq<Byte>)
    requires |c| > 0
    ensures IsHex(Expanded(c)) && HasTerminator(Expanded(c)) == (c[0] >= 32)
  {
    assert HexOf(c)[0] == c[0] / 16;
    UnflaggedIsHex(HexOf(c));
  }

  lemma CompactIsWellFlagged(h: Hex)
    requires IsHex(h)
    ensures WellFlagged(Compact(h))
  {
    var f := Flagged(h);
    assert Packed(f)[0] == 16 * f[0] + f[1];
  }

  lemma FlagUnflagged(hex: Hex)
    requires Terminated(hex) && |hex| >= 3 && |hex| % 2 == 1
    requires hex[0] < 4 && (hex[0] % 2 == 1 || hex[1] == 0)
    ensures IsHex(Unflagged(hex)) && Flagged(Unflagged(hex)) + [TERMINATOR] == hex
  {
    UnflaggedIsHex(hex);
    var d, front := if hex[0] % 2 == 1 then 1 else 2, hex[..|hex| - 1];
    UnflaggedBody(hex, d);
    FlaggedFrom(Unflagged(hex), hex[0], front[d..]);
    assert front == hex[..d] + front[d..];
    assert hex == front + [TERMINATOR];
  }

  /** Flagging puts the flag, and a zero if it is even, before the body. */
  lemma FlaggedFrom(h: Hex, flag: int, body: Hex)
    requires IsHex(h) && Body(h) == body && 0 <= flag < 4 && HasTerminator(h) == (flag >= 2) && |body| % 2 == flag % 2
    ensures Flagged(h) == (if flag % 2 == 1 then [flag] else [flag, 0]) + body
  {
  }

  lemma UnflaggedBody(hex: Hex, d: nat)
    requires Terminated(hex) && |hex| >= 3 && hex[0] < 4 && d == (if hex[0] % 2 == 1 then 1 else 2)
    ensures IsHex(Unflagged(hex)) && HasTerminator(Unflagged(hex)) == (hex[0] >= 2)
    ensures Body(Unflagged(hex)) == hex[..|hex| - 1][d..]
  {
    UnflaggedIsHex(hex);
  }

  /** The flagged nibbles of a well-flagged string are its own nibbles. */
  lemma FlaggedOfExpanded(c: seq<Byte>)
    requires WellFlagged(c)
    ensures IsHex(Expanded(c))
    ensures Flagged(Expanded(c)) + [TERMINATOR] == HexOf(c)
  {
    assert HexOf(c)[0] == c[0] / 16 && HexOf(c)[1] == c[0] % 16;
    FlagUnflagged(HexOf(c));
  }

  /** Encoding undoes decoding exactly on the compact strings encodeCompact can produce. */
  lemma EncodeDecode(c: seq<Byte>)
    requires |c| > 0
    ensures IsHex(Expanded(c))
    ensures Compact(Expanded(c)) == c <==> WellFlagged(c)
  {
    ExpandedIsHex(c);
    CompactIsWellFlagged(Expanded(c));
    if WellFlagged(c) {
      FlaggedOfExpanded(c);
      NibblesOfPacked(Flagged(Expanded(c)));
      HexOfInjective(Compact(Expanded(c)), c);
    }
  }

  /** Distinct byte strings have distinct hex keys. */
  lemma HexOfInjective(a: seq<Byte>, b: seq<Byte>)
    requires HexOf(a) == HexOf(b)
    ensures a == b
  {
    assert |HexOf(a)| == |HexOf(b)|;
    forall i | 0 <= i < |a| ensures a[i] == b[i] {
      assert HexOf(a)[2 * i] == HexOf(b)[2 * i] && HexOf(a)[2 * i + 1] == HexOf(b)[2 * i + 1];
      assert a[i] == 16 * (a[i] / 16) + a[i] % 16;
    }
  }

  /** Length of the longest common prefix. */
  function PrefixLen(a: Hex, b: Hex): (n: nat)
    ensures n <= |a| && n <= |b| && a[..n] == b[..n]
    ensures n < |a| && n < |b| ==> a[n] != b[n]
  {
    if |a| == 0 || |b| == 0 || a[0] != b[0] then 0
    else
      var n := PrefixLen(a[1..], b[1..]);
      assert a[..n + 1] == [a[0]] + a[1..][..n] && b[..n + 1] == [b[0]] + b[1..][..n];
      n + 1
  }

  /** The common prefix length is the only number with these two properties. */
  lemma PrefixLenUnique(a: Hex, b: Hex, n: nat)
    requires n <= |a| && n <= |b| && a[..n] == b[..n]
    requires n < |a| && n < |b| ==> a[n] != b[n]
    ensures n == PrefixLen(a, b)
  {
    var p := PrefixLen(a, b);
    assert forall i :: 0 <= i < p ==> a[..p][i] == a[i] && b[..p][i] == b[i];
    assert forall i :: 0 <= i < n ==> a[..n][i] == a[i] && b[..n][i] == b[i];
  }

  method ComputePrefixLen(k1: Hex, k2: Hex) returns (i: nat)
    ensures i == PrefixLen(k1, k2)
  {
    var max := |k1|;
    if |k2| < max {
      max := |k2|;
    }
    i := 0;
    while i < max
      invariant i <= max && k1[..i] == k2[..i]
    {
      if k1[i] != k2[i] {
        break;
      }
      i := i + 1;
    }
    PrefixLenUnique(k1, k2, i);
  }

  /** Terminated keys are prefix-free: one that is a prefix of a hex key is that key. */
  lemma PrefixFree(s: Hex, k: Hex)
    requires Terminated(s) && IsHex(k) && |s| <= |k| && s == k[..|s|]
    ensures s == k
  {
    assert s[|s| - 1] == k[|s| - 1] == TERMINATOR;
  }
}
