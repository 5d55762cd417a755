/**
 Numbers of a fixed width in memory, as a little-endian host reads and writes them, with or
 without swapping the bytes: 16, 24, 32 and 40 bits are widths of 2, 3, 4 and 5.
 */
module Scalars {

  import opened Bytes
  import opened Powers

  function Range(width: nat): (r: nat)
    ensures r > 0
  {
    if width == 0 then 1 else 0x100 * Range(width - 1)
  }

  /** The number that bytes spell, least significant byte first. */
  function Little(s: seq<byte>): (v: nat)
    ensures v < Range(|s|)
  {
    if s == [] then 0 else s[0] + 0x100 * Little(s[1..])
  }

  /** The low `width` bytes of a number; what lies above is cut off. */
  function LittleBytes(v: nat, width: nat): (s: seq<byte>)
    ensures |s| == width
  {
    if width == 0 then [] else [v % 0x100] + LittleBytes(v / 0x100, width - 1)
  }

  function Reversed(s: seq<byte>): (r: seq<byte>)
    ensures |r| == |s| && forall i :: 0 <= i < |s| ==> r[i] == s[|s| - 1 - i]
  {
    seq(|s|, i requires 0 <= i < |s| => s[|s| - 1 - i])
  }

  /** `swapEndian` */
  method SwapEndian(src: seq<byte>) returns (dst: seq<byte>)
    ensures dst == Reversed(src)
  {
    dst := Repeat(0, |src|);
    for i := 0 to |src|
      invariant |dst| == |src| && forall k :: 0 <= k < i ==> dst[k] == src[|src| - k - 1]
    {
      dst := dst[i := src[|src| - i - 1]];
    }
  }

  function InOrder(s: seq<byte>, mismatch: bool): seq<byte> {
    if mismatch then Reversed(s) else s
  }

  /** `readScalar` of the bytes at some offset. */
  function Read(s: seq<byte>, mismatch: bool): nat {
    Little(InOrder(s, mismatch))
  }

  /** The bytes that `writeScalar` leaves. */
  function Written(v: nat, width: nat, mismatch: bool): (s: seq<byte>)
    ensures |s| == width
  {
    InOrder(LittleBytes(v, width), mismatch)
  }

  /** `writeScalar` into a buffer */
  method WriteScalar(buf: array<byte>, offset: nat, v: nat, width: nat, mismatch: bool)
    requires offset + width <= buf.Length
    modifies buf
    ensures buf[..] == old(buf[..offset]) + Written(v, width, mismatch) + old(buf[offset + width..])
  {
    var val := LittleBytes(v, width);
    if mismatch {
      val := SwapEndian(val);
    }
    for i := 0 to width
      invariant buf[..offset] == old(buf[..offset]) && buf[offset + width..] == old(buf[offset + width..])
      invariant buf[offset..offset + i] == val[..i]
    {
      buf[offset + i] := val[i];
    }
    assert buf[..] == buf[..offset] + buf[offset..offset + width] + buf[offset + width..];
  }

  // ---------- Round trips ----------

  lemma {:induction false} LittleOfBytes(v: nat, width: nat)
    ensures Little(LittleBytes(v, width)) == v % Range(width)
  {
    if width > 0 {
      LittleOfBytes(v / 0x100, width - 1);
      assert LittleBytes(v, width)[1..] == LittleBytes(v / 0x100, width - 1);
      LowDigit(v, Range(width - 1));
    }
  }

  lemma LowDigit(v: nat, p: nat)
    requires p > 0
    ensures v % (0x100 * p) == v % 0x100 + 0x100 * (v / 0x100 % p)
  {
    var h := v / 0x100;
    var q, r := h / p, h % p;
    assert v == 0x100 * (p * q + r) + v % 0x100;
    ModIs(v, 0x100 * p, q, v % 0x100 + 0x100 * r);
  }

  lemma {:induction false} BytesOfLittle(s: seq<byte>)
    ensures LittleBytes(Little(s), |s|) == s
  {
    if s != [] {
      BytesOfLittle(s[1..]);
      assert s == [s[0]] + s[1..];
    }
  }

  lemma ReversedTwice(s: seq<byte>)
    ensures Reversed(Reversed(s)) == s
  {
  }

  /** What is written in one byte order is read back in the same, cut to its width. */
  lemma WrittenIsRead(v: nat, width: nat, mismatch: bool)
    ensures Read(Written(v, width, mismatch), mismatch) == v % Range(width)
    ensures v < Range(width) ==> Read(Written(v, width, mismatch), mismatch) == v
  {
    ReversedTwice(LittleBytes(v, width));
    LittleOfBytes(v, width);
    if v < Range(width) {
      ModIs(v, Range(width), 0, v);
    }
  }

  /** Reading loses nothing: the bytes can be written again. */
  lemma ReadIsWritten(s: seq<byte>, mismatch: bool)
    ensures Written(Read(s, mismatch), |s|, mismatch) == s
  {
    ReversedTwice(s);
    BytesOfLittle(InOrder(s, mismatch));
  }

  /** Swapped numbers are big-endian ones. */
  lemma {:induction false} SwappedIsBig(s: seq<byte>)
    ensures Read(s, true) == Num(s)
  {
    if s != [] {
      var k := |s| - 1;
      SwappedIsBig(s[..k]);
      assert Reversed(s)[0] == s[k];
      assert Reversed(s)[1..] == Reversed(s[..k]);
    }
  }

  // ---------- Which byte order a header has ----------

  /** `isEndianMismatch`, from the two bytes of the major version. */
  predicate LooksSwapped(s: seq<byte>)
    requires |s| == 2
  {
    Read(s, false) > 255
  }

  lemma TwoBytes(v: nat)
    requires v < 0x1_0000
    ensures LittleBytes(v, 2) == [v % 0x100, v / 0x100]
  {
    assert LittleBytes(v, 2) == [v % 0x100] + LittleBytes(v / 0x100, 1);
    assert LittleBytes(v / 0x100, 1) == [v / 0x100 % 0x100] + LittleBytes(v / 0x100 / 0x100, 0);
  }

  /**
   The byte order is recognized from the major version exactly if that is at most 255 in the order
   of the host, and not a multiple of 256 in the other; between 1 and 255 it always is.
   */
  lemma ByteOrderIsRecognized(major: nat, mismatch: bool)
    requires major < 0x1_0000
    ensures LooksSwapped(Written(major, 2, mismatch)) == mismatch <==> (if mismatch then major % 0x100 != 0 else major <= 255)
    ensures 1 <= major <= 255 ==> LooksSwapped(Written(major, 2, mismatch)) == mismatch
  {
    TwoBytes(major);
    var a: byte, b: byte := major % 0x100, major / 0x100;
    var s: seq<byte> := [a, b];
    var t: seq<byte> := [b, a];
    assert Reversed(s) == t;
    assert s[1..] == [b] && t[1..] == [a];
    assert Little([b]) == b + 0x100 * Little([]) && Little([a]) == a + 0x100 * Little([]);
    assert Little(s) == a + 0x100 * b && Little(t) == b + 0x100 * a;
  }
}
