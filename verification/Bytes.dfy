/** Bytes, machine words and big-endian numbers shared by every component. */
module Bytes {

  type byte = x: int | 0 <= x < 0x100

  /** A 32-bit unsigned word (`UInt32`). Wrap-around is always written out as `% 0x1_0000_0000`. */
  type u32 = x: int | 0 <= x < 0x1_0000_0000

  function Min(a: nat, b: nat): nat {
    if a < b then a else b
  }

  /** The number a byte sequence spells, most significant byte first. */
  function Num(s: seq<byte>): nat {
    if |s| == 0 then 0 else Num(s[..|s| - 1]) * 0x100 + s[|s| - 1]
  }

  lemma NumSnoc(s: seq<byte>, b: byte)
    ensures Num(s + [b]) == Num(s) * 0x100 + b
  {
    assert (s + [b])[..|s|] == s;
  }

  /** Reading one byte more of a sequence. */
  lemma NumNext(s: seq<byte>, n: nat)
    requires n < |s|
    ensures Num(s[..n + 1]) == Num(s[..n]) * 0x100 + s[n]
  {
    assert s[..n + 1] == s[..n] + [s[n]];
    NumSnoc(s[..n], s[n]);
  }

  function Repeat(b: byte, n: nat): (s: seq<byte>)
    ensures |s| == n
    ensures forall i :: 0 <= i < n ==> s[i] == b
  {
    if n == 0 then [] else Repeat(b, n - 1) + [b]
  }
}
