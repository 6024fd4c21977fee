/** Integers of the source's widths. */
module Integers {
  /** n as 32 bits hold it, read as an unsigned number. */
  function ToUInt32(n: int): (r: nat)
    ensures r < 0x1_0000_0000 && (0 <= n < 0x1_0000_0000 ==> r == n)
  {
    n % 0x1_0000_0000
  }

  /** n as 32 bits hold it, read in two's complement. */
  function ToInt32(n: int): (r: int)
    ensures -0x8000_0000 <= r < 0x8000_0000 && (-0x8000_0000 <= n < 0x8000_0000 ==> r == n)
  {
    if ToUInt32(n) < 0x8000_0000 then ToUInt32(n) else ToUInt32(n) - 0x1_0000_0000
  }

  /** Neither changes a number but by multiples of 2^32. */
  lemma WrapsExactly(n: int)
    ensures (n - ToUInt32(n)) % 0x1_0000_0000 == 0 && (n - ToInt32(n)) % 0x1_0000_0000 == 0
  {
  }

  function Min(a: nat, b: nat): nat {
    if a < b then a else b
  }

  function Zeros(n: nat): (r: seq<nat>)
    ensures |r| == n && forall i :: 0 <= i < n ==> r[i] == 0
  {
    seq(n, _ => 0)
  }
}
