/**
 Bytes and the fixed-width little-endian integers of Python's `struct` module
 ("<I" is four bytes, "<Q" is eight), shared by the shared-memory chambers and
 by the GGUF header tool.
 */
module Bytes {

  type Byte = x: int | 0 <= x < 256

  const TWO_32: nat := 0x1_0000_0000
  const TWO_64: nat := 0x1_0000_0000_0000_0000

  function Pow256(n: nat): (p: nat)
    ensures p > 0
  {
    if n == 0 then 1 else 256 * Pow256(n - 1)
  }

  /** The `n` low-order bytes of `x`, least significant first. */
  function ToLE(x: nat, n: nat): (b: seq<Byte>)
    ensures |b| == n
  {
    if n == 0 then [] else [x % 256] + ToLE(x / 256, n - 1)
  }

  function FromLE(b: seq<Byte>): (x: nat)
    ensures x < Pow256(|b|)
  {
    if b == [] then 0 else b[0] + 256 * FromLE(b[1..])
  }

  lemma {:induction false} FromToLE(x: nat, n: nat)
    requires x < Pow256(n)
    ensures FromLE(ToLE(x, n)) == x
  {
    if n > 0 {
      FromToLE(x / 256, n - 1);
      assert ToLE(x, n)[1..] == ToLE(x / 256, n - 1);
    }
  }

  lemma {:induction false} ToFromLE(b: seq<Byte>)
    ensures ToLE(FromLE(b), |b|) == b
  {
    if b != [] {
      ToFromLE(b[1..]);
      var x := FromLE(b);
      assert x % 256 == b[0] && x / 256 == FromLE(b[1..]);
      assert b == [b[0]] + b[1..];
    }
  }

  lemma {:induction false} ZerosRead(b: seq<Byte>)
    requires forall i :: 0 <= i < |b| ==> b[i] == 0
    ensures FromLE(b) == 0
  {
    if b != [] {
      ZerosRead(b[1..]);
    }
  }

  lemma Widths()
    ensures Pow256(4) == TWO_32 && Pow256(8) == TWO_64
  {
  }

  lemma FromLEFirst(b: seq<Byte>)
    requires b != []
    ensures FromLE(b) == b[0] + 256 * FromLE(b[1..])
  {
  }

  /** "<I": the four bytes, least significant first. */
  lemma FourByteWord(b: seq<Byte>)
    requires |b| == 4
    ensures FromLE(b) == b[0] as int + 0x100 * (b[1] as int) + 0x1_0000 * (b[2] as int) + 0x100_0000 * (b[3] as int)
  {
    FromLEFirst(b);
    FromLEFirst(b[1..]);
    FromLEFirst(b[2..]);
    FromLEFirst(b[3..]);
    assert b[1..][1..] == b[2..] && b[2..][1..] == b[3..] && b[3..][1..] == [];
  }

  /** "<Q": the eight bytes, the low word first. */
  lemma EightByteWord(b: seq<Byte>)
    requires |b| == 8
    ensures FromLE(b) == FromLE(b[..4]) + TWO_32 * FromLE(b[4..])
  {
    FourByteWord(b[..4]);
    FromLEFirst(b);
    FromLEFirst(b[1..]);
    FromLEFirst(b[2..]);
    FromLEFirst(b[3..]);
    assert b[1..][1..] == b[2..] && b[2..][1..] == b[3..] && b[3..][1..] == b[4..];
  }
}
