/** Machine words with masks: bitwise and, shifts with a sign, and counters that wrap. */
module Masks {

  import opened Bytes
  import opened Powers

  /** Bitwise and */
  function And(a: nat, b: nat): (r: nat)
    ensures r <= a
  {
    if a == 0 || b == 0 then 0 else 2 * And(a / 2, b / 2) + (if a % 2 == 1 && b % 2 == 1 then 1 else 0)
  }

  lemma AndStep(a: nat, b: nat)
    ensures And(a, b) == 2 * And(a / 2, b / 2) + (if a % 2 == 1 && b % 2 == 1 then 1 else 0)
  {
  }

  lemma {:induction false} AndCommutes(a: nat, b: nat)
    ensures And(a, b) == And(b, a)
    decreases a
  {
    if a > 0 && b > 0 {
      AndCommutes(a / 2, b / 2);
    }
  }

  /** The lowest bits of `x` */
  lemma {:induction false} AndLow(x: nat, k: nat)
    ensures And(x, Pow2(k) - 1) == x % Pow2(k)
    decreases k
  {
    if k > 0 {
      var p := Pow2(k - 1);
      ModTwice(x, p);
      AndLow(x / 2, k - 1);
      AndStep(x, 2 * p - 1);
      hide And;
      assert (2 * p - 1) / 2 == p - 1 && (2 * p - 1) % 2 == 1;
    }
  }

  /** The bits of `x` from `lo` up to `hi`, left where they are. */
  lemma {:induction false} AndField(x: nat, hi: nat, lo: nat)
    requires lo <= hi
    ensures Pow2(lo) <= Pow2(hi) && And(x, Pow2(hi) - Pow2(lo)) == x % Pow2(hi) / Pow2(lo) * Pow2(lo)
    decreases hi
  {
    Pow2Monotone(lo, hi);
    if lo == 0 {
      AndLow(x, hi);
      hide And, Pow2;
      assert Pow2(0) == 1 by { WordPower(); }
    } else {
      var p, q := Pow2(hi - 1), Pow2(lo - 1);
      AndField(x / 2, hi - 1, lo - 1);
      Doubled(hi, lo);
      AndStep(x, 2 * p - 2 * q);
      hide And, Pow2;
      assert (2 * p - 2 * q) / 2 == p - q && (2 * p - 2 * q) % 2 == 0;
      FieldDoubled(x, p, q);
    }
  }

  lemma Doubled(hi: nat, lo: nat)
    requires hi > 0 && lo > 0
    ensures Pow2(hi) == 2 * Pow2(hi - 1) && Pow2(lo) == 2 * Pow2(lo - 1)
  {
  }

  lemma FieldDoubled(x: nat, p: nat, q: nat)
    requires p > 0 && q > 0
    ensures x % (2 * p) / (2 * q) * (2 * q) == 2 * (x / 2 % p / q * q)
  {
    ModTwice(x, p);
    var n, bit := x / 2 % p, x % 2;
    TwiceOver(n, bit, q);
  }

  lemma TwiceOver(n: nat, bit: nat, q: nat)
    requires q > 0 && bit < 2
    ensures (2 * n + bit) / (2 * q) * (2 * q) == 2 * (n / q * q)
  {
    HalfTwice(2 * n + bit, q);
    HalfCommutes(2 * n + bit, q);
    var d := n / q;
    assert (2 * n + bit) / 2 == n;
    assert d * (2 * q) == 2 * (d * q);
  }

  /** A mask of all ones selects everything, a mask of zeros nothing. */
  lemma AndWord(x: u32)
    ensures And(x, 0xFFFF_FFFF) == x == And(0xFFFF_FFFF, x) && And(x, 0) == 0 == And(0, x)
  {
    AndZero(x);
    hide And;
    WordPower();
    AndLow(x, 32);
    hide Pow2;
    assert x % 0x1_0000_0000 == x;
    AndCommutes(x, 0xFFFF_FFFF);
  }

  lemma AndZero(x: nat)
    ensures And(x, 0) == 0 == And(0, x)
  {
  }

  lemma WordPower()
    ensures Pow2(32) == 0x1_0000_0000 && Pow2(8) == 0x100 && Pow2(0) == 1
  {
    assert Pow2(4) == 0x10;
    Pow2Add(4, 4);
    Pow2Add(8, 8);
    Pow2Add(16, 16);
  }

  /** `(Int32)x >> 5` */
  function Sar5(x: u32): u32 {
    x / 32 + (if x >= 0x8000_0000 then 0xF800_0000 else 0)
  }

  // ---------- Counters ----------

  /** The counter of bytes is a machine word. */
  ghost predicate Wraps(word: u32, n: nat) {
    word == n % 0x1_0000_0000
  }

  lemma WrapsMore(word: u32, n: nat)
    requires Wraps(word, n)
    ensures Wraps((word + 1) % 0x1_0000_0000, n + 1)
  {
  }

  lemma WordModPower(n: nat, k: nat)
    requires k <= 32
    ensures n % 0x1_0000_0000 % Pow2(k) == n % Pow2(k)
  {
    Pow2Add(k, 32 - k);
    WordPower();
    hide Pow2;
    ModOfMod(n, Pow2(k), Pow2(32 - k));
  }
}
