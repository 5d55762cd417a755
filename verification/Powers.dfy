/** Powers of two, and the bits of a number read from either end. */
module Powers {

  function Pow2(n: nat): (r: nat)
    ensures r > 0
  {
    if n == 0 then 1 else 2 * Pow2(n - 1)
  }

  lemma Pow2Step(n: nat)
    ensures Pow2(n + 1) == 2 * Pow2(n)
  {
  }

  lemma {:induction false} Pow2Add(a: nat, b: nat)
    ensures Pow2(a + b) == Pow2(a) * Pow2(b)
  {
    if a > 0 {
      Pow2Add(a - 1, b);
    }
  }

  lemma {:induction false} Pow2Monotone(a: nat, b: nat)
    requires a <= b
    ensures Pow2(a) <= Pow2(b)
  {
    if a < b {
      Pow2Monotone(a, b - 1);
    }
  }

  lemma HalfTwice(t: nat, p: nat)
    requires p > 0
    ensures t / (2 * p) == t / p / 2
  {
    var q, r := t / (2 * p), t % (2 * p);
    assert t == 2 * p * q + r;
    var q1 := if r < p then 2 * q else 2 * q + 1;
    assert t == p * q1 + (t - p * q1);
    DivIs(t, p, q1);
  }

  lemma MulMonotone(p: nat, a: nat, b: nat)
    ensures a <= b ==> p * a <= p * b
  {
  }

  lemma DivNat(t: nat, p: nat)
    requires p > 0
    ensures t / p >= 0
  {
  }

  lemma DivIs(t: nat, p: nat, q: nat)
    requires p > 0 && p * q <= t < p * (q + 1)
    ensures t / p == q
  {
    var d := t / p;
    MulMonotone(p, d + 1, q);
    MulMonotone(p, q + 1, d);
  }

  /** Reading a number from the top: one more bit extends the prefix by that bit. */
  lemma PrefixBit(t: nat, left: nat)
    requires left > 0
    ensures t / Pow2(left - 1) == 2 * (t / Pow2(left)) + t / Pow2(left - 1) % 2
  {
    HalfTwice(t, Pow2(left - 1));
  }

  /** Reading a number from the bottom: one more bit extends the suffix by that bit. */
  lemma SuffixBit(t: nat, k: nat)
    ensures t % Pow2(k + 1) == t % Pow2(k) + (t / Pow2(k) % 2) * Pow2(k)
  {
    var p := Pow2(k);
    var q, r := t / p, t % p;
    assert t == p * q + r;
    var h, b := q / 2, q % 2;
    assert q == 2 * h + b;
    assert t == 2 * p * h + (b * p + r) by {
      assert p * q == p * (2 * h) + p * b;
    }
    assert b * p + r < 2 * p;
    ModIs(t, 2 * p, h, b * p + r);
  }

  lemma ModIs(t: nat, p: nat, q: nat, r: nat)
    requires p > 0 && t == p * q + r && r < p
    ensures t % p == r && t / p == q
  {
    DivIs(t, p, q);
  }

  lemma ModOfMod(n: nat, p: nat, q: nat)
    requires p > 0 && q > 0
    ensures n % (p * q) % p == n % p
  {
    var high, w := n / (p * q), n % (p * q);
    var h, r := w / p, w % p;
    DivNat(n, p * q);
    DivNat(w, p);
    assert n == p * (q * high + h) + r by {
      assert n == p * q * high + w;
      assert w == p * h + r;
    }
    ModIs(n, p, q * high + h, r);
  }

  lemma ModTwice(x: nat, p: nat)
    requires p > 0
    ensures x % (2 * p) == 2 * (x / 2 % p) + x % 2
  {
    var q, r := x / 2 / p, x / 2 % p;
    assert x / 2 == p * q + r;
    assert x == 2 * p * q + (2 * r + x % 2) by {
      assert 2 * (p * q) == 2 * p * q;
    }
    DivNat(x / 2, p);
    ModIs(x, 2 * p, q, 2 * r + x % 2);
  }

  lemma HalfCommutes(t: nat, p: nat)
    requires p > 0
    ensures t / p / 2 == t / 2 / p
  {
    HalfTwice(t, p);
    var q, r := t / 2 / p, t / 2 % p;
    assert t / 2 == p * q + r;
    assert t == 2 * p * q + (2 * r + t % 2);
    ModIs(t, 2 * p, q, 2 * r + t % 2);
  }
}
