/**
 The hash values of the match finder. The short hashes are exact: together with the first
 byte they determine the other bytes they cover.
 */
module Hashes {
  import opened Bytes
  import opened Powers

  /** Exclusive or. */
  function Xor(a: nat, b: nat): nat {
    if a == 0 && b == 0 then 0 else 2 * Xor(a / 2, b / 2) + (if a % 2 != b % 2 then 1 else 0)
  }

  lemma XorBits(a: nat, b: nat)
    ensures Xor(a, b) / 2 == Xor(a / 2, b / 2)
    ensures Xor(a, b) % 2 == if a % 2 != b % 2 then 1 else 0
  {
  }

  /** From a masked exclusive or, what was mixed in can be read back. */
  lemma {:induction false} XorCancels(t: nat, a: nat, b: nat, k: nat)
    requires Xor(t, a) % Pow2(k) == Xor(t, b) % Pow2(k)
    ensures a % Pow2(k) == b % Pow2(k)
    decreases k
  {
    if k > 0 {
      XorBits(t, a);
      XorBits(t, b);
      hide Xor;
      var p := Pow2(k - 1);
      ModTwice(Xor(t, a), p);
      ModTwice(Xor(t, b), p);
      ModTwice(a, p);
      ModTwice(b, p);
      XorCancels(t / 2, a / 2, b / 2, k - 1);
    }
  }

  /** Mixing in higher bits leaves the lower ones. */
  lemma {:induction false} XorHigh(a: nat, c: nat, k: nat)
    ensures Xor(a, c * Pow2(k)) % Pow2(k) == a % Pow2(k)
    decreases k
  {
    if k > 0 {
      var p := Pow2(k - 1);
      assert c * Pow2(k) == 2 * (c * p);
      XorBits(a, c * Pow2(k));
      hide Xor;
      assert c * Pow2(k) / 2 == c * p && c * Pow2(k) % 2 == 0;
      ModTwice(Xor(a, c * Pow2(k)), p);
      ModTwice(a, p);
      XorHigh(a / 2, c, k - 1);
    }
  }

  // ---------- The hashes ----------

  /** Two bytes mixed. */
  function Mix2(crc: seq<nat>, b0: byte, b1: byte): nat
    requires |crc| == 0x100
  {
    Xor(crc[b0], b1)
  }

  function Mix3(crc: seq<nat>, b0: byte, b1: byte, b2: byte): nat
    requires |crc| == 0x100
  {
    Xor(Mix2(crc, b0, b1), b2 * 0x100)
  }

  function Hash2(crc: seq<nat>, data: seq<byte>, at: nat): (h: nat)
    requires |crc| == 0x100 && at + 2 <= |data|
    ensures h < 0x400
  {
    Mix2(crc, data[at], data[at + 1]) % 0x400
  }

  function Hash3(crc: seq<nat>, data: seq<byte>, at: nat): (h: nat)
    requires |crc| == 0x100 && at + 3 <= |data|
    ensures h < 0x1_0000
  {
    Mix3(crc, data[at], data[at + 1], data[at + 2]) % 0x1_0000
  }

  /** The hash of four bytes; `hashMask` is one less than a power of two. */
  function Hash4(crc: seq<nat>, data: seq<byte>, at: nat, hashSize: nat): (h: nat)
    requires |crc| == 0x100 && at + 4 <= |data| && hashSize > 0
    ensures h < hashSize
  {
    Xor(Mix3(crc, data[at], data[at + 1], data[at + 2]), crc[data[at + 3]] * 0x20) % hashSize
  }

  lemma PowersHere()
    ensures Pow2(8) == 0x100 && Pow2(10) == 0x400 && Pow2(16) == 0x1_0000
  {
    assert Pow2(8) == 0x100;
    assert Pow2(2) == 4;
    Pow2Add(8, 2);
    Pow2Add(8, 8);
  }

  /** The first byte and the hash of two determine the second byte. */
  lemma Hash2IsExact(crc: seq<nat>, data: seq<byte>, a: nat, b: nat)
    requires |crc| == 0x100 && a + 2 <= |data| && b + 2 <= |data|
    requires data[a] == data[b] && Hash2(crc, data, a) == Hash2(crc, data, b)
    ensures data[a + 1] == data[b + 1]
  {
    hide Xor, Pow2;
    PowersHere();
    XorCancels(crc[data[a]], data[a + 1], data[b + 1], 10);
    SmallMod(data[a + 1], 0x400);
    SmallMod(data[b + 1], 0x400);
  }

  lemma SmallMod(x: nat, p: nat)
    requires x < p
    ensures x % p == x
  {
  }

  /** The first byte and the hash of three determine the second and the third byte. */
  lemma Hash3IsExact(crc: seq<nat>, data: seq<byte>, a: nat, b: nat)
    requires |crc| == 0x100 && a + 3 <= |data| && b + 3 <= |data|
    requires data[a] == data[b] && Hash3(crc, data, a) == Hash3(crc, data, b)
    ensures data[a + 1] == data[b + 1] && data[a + 2] == data[b + 2]
  {
    hide Xor, Pow2;
    PowersHere();
    var t, u, v := crc[data[a]], Mix2(crc, data[a], data[a + 1]), Mix2(crc, data[b], data[b + 1]);
    XorHigh(u, data[a + 2], 8);
    XorHigh(v, data[b + 2], 8);
    var x, y := Mix3(crc, data[a], data[a + 1], data[a + 2]), Mix3(crc, data[b], data[b + 1], data[b + 2]);
    SameLowByte(x, y);
    XorCancels(t, data[a + 1], data[b + 1], 8);
    SmallMod(data[a + 1], 0x100);
    SmallMod(data[b + 1], 0x100);
    var c: nat, d: nat := data[a + 2], data[b + 2];
    XorCancels(u, c * 0x100, d * 0x100, 16);
    SmallMod(c * 0x100, 0x1_0000);
    SmallMod(d * 0x100, 0x1_0000);
  }

  lemma SameLowByte(x: nat, y: nat)
    requires x % 0x1_0000 == y % 0x1_0000
    ensures x % 0x100 == y % 0x100
  {
    ModOfMod(x, 0x100, 0x100);
    ModOfMod(y, 0x100, 0x100);
  }
}
