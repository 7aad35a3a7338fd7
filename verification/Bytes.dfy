/** Bytes and the little-endian words the on-disk structures are made of. */
module Bytes {

  type byte = x: int | 0 <= x < 256

  /** `n` zero bytes, as left by memset. */
  function Zeros(n: nat): (s: seq<byte>)
    ensures |s| == n
  {
    seq(n, _ => 0)
  }

  /** The 16-bit little-endian word at offset `i`. */
  function U16(s: seq<byte>, i: nat): (v: nat)
    requires i + 1 < |s|
    ensures v < 0x1_0000
  {
    s[i] as int + 0x100 * s[i + 1] as int
  }

  function PutU16(s: seq<byte>, i: nat, v: nat): (r: seq<byte>)
    requires i + 1 < |s|
    requires v < 0x1_0000
    ensures |r| == |s|
    ensures U16(r, i) == v
    ensures forall j :: 0 <= j < |s| && j != i && j != i + 1 ==> r[j] == s[j]
  {
    s[i := v % 0x100][i + 1 := v / 0x100]
  }

  /** The 32-bit little-endian word at offset `i`. */
  function U32(s: seq<byte>, i: nat): (v: nat)
    requires i + 3 < |s|
    ensures v < 0x1_0000_0000
  {
    U16(s, i) + 0x1_0000 * U16(s, i + 2)
  }

  function PutU32(s: seq<byte>, i: nat, v: nat): (r: seq<byte>)
    requires i + 3 < |s|
    requires v < 0x1_0000_0000
    ensures |r| == |s|
    ensures U32(r, i) == v
    ensures forall j :: 0 <= j < |s| && !(i <= j < i + 4) ==> r[j] == s[j]
  {
    PutU16(PutU16(s, i, v % 0x1_0000), i + 2, v / 0x1_0000)
  }

  /** The four bytes PutU32 stores, lowest first. */
  lemma PutU32Bytes(s: seq<byte>, i: nat, v: nat)
    requires i + 3 < |s|
    requires v < 0x1_0000_0000
    ensures PutU32(s, i, v) ==
            s[i := v % 0x100][i + 1 := v / 0x100 % 0x100][i + 2 := v / 0x1_0000 % 0x100][i + 3 := v / 0x100_0000]
  {
    assert v % 0x1_0000 % 0x100 == v % 0x100;
    assert v % 0x1_0000 / 0x100 == v / 0x100 % 0x100;
    assert v / 0x1_0000 / 0x100 == v / 0x100_0000;
  }

  lemma MulAtMost(a: int, b: int, c: int)
    requires a <= b && 0 <= c
    ensures a * c <= b * c
  {
  }

  function Min(a: int, b: int): int {
    if a < b then a else b
  }
}
