/** Bytes and little-endian 32-bit words. */
module Bytes {

  type byte = x: int | 0 <= x < 256

  const UINT32_LIMIT: nat := 0x1_0000_0000

  const INT64_LIMIT: int := 0x8000_0000_0000_0000

  predicate IsInt64(n: int) { -INT64_LIMIT <= n < INT64_LIMIT }

  function U32(s: seq<byte>): (v: nat)
    requires |s| == 4
    ensures v < UINT32_LIMIT
  {
    s[0] as int + 0x100 * (s[1] as int) + 0x1_0000 * (s[2] as int) + 0x100_0000 * (s[3] as int)
  }

  function PutU32(v: nat): (s: seq<byte>)
    requires v < UINT32_LIMIT
    ensures |s| == 4 && U32(s) == v
  {
    var v1 := v / 0x100;
    var v2 := v1 / 0x100;
    [v % 0x100, v1 % 0x100, v2 % 0x100, v2 / 0x100]
  }

  /** The low byte stands first. */
  lemma LowByteFirst(v: nat)
    requires v < UINT32_LIMIT
    ensures PutU32(v)[0] == v % 0x100 && PutU32(v)[1] == v / 0x100 % 0x100
    ensures PutU32(v)[2] == v / 0x100 / 0x100 % 0x100 && PutU32(v)[3] == v / 0x100 / 0x100 / 0x100
  {
  }

  /** Copies `n` bytes at `from` to `to`; the ranges may overlap. */
  method MemMove(a: array<byte>, to: nat, from: nat, n: nat)
    requires to + n <= a.Length && from + n <= a.Length
    modifies a
    ensures forall i {:trigger a[i]} :: 0 <= i < a.Length ==>
              a[i] == if to <= i < to + n then old(a[from + i - to]) else old(a[i])
  {
    forall i | 0 <= i < n {
      a[to + i] := a[from + i];
    }
  }

  method CopyIn(a: array<byte>, to: nat, s: seq<byte>)
    requires to + |s| <= a.Length
    modifies a
    ensures forall i {:trigger a[i]} :: 0 <= i < a.Length ==> a[i] == if to <= i < to + |s| then s[i - to] else old(a[i])
  {
    forall i | 0 <= i < |s| {
      a[to + i] := s[i];
    }
  }
}
