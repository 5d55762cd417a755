/** Comparing the suffixes of a text by their first bytes. */
module Suffixes {
  import opened Bytes

  /** Both suffixes have `limit` bytes. */
  ghost predicate InText(text: seq<byte>, a: nat, b: nat, limit: nat) {
    a + limit <= |text| && b + limit <= |text|
  }

  /** From the `k`-th byte on, how far the suffixes at `a` and `b` agree, `limit` bytes at most. */
  function CommonFrom(text: seq<byte>, a: nat, b: nat, k: nat, limit: nat): (n: nat)
    requires InText(text, a, b, limit) && k <= limit
    ensures k <= n <= limit
    ensures n < limit ==> text[a + n] != text[b + n]
    decreases limit - k
  {
    if k < limit && text[a + k] == text[b + k] then CommonFrom(text, a, b, k + 1, limit) else k
  }

  function Common(text: seq<byte>, a: nat, b: nat, limit: nat): (n: nat)
    requires InText(text, a, b, limit)
    ensures n <= limit
    ensures n < limit ==> text[a + n] != text[b + n]
  {
    CommonFrom(text, a, b, 0, limit)
  }

  predicate SameAt(text: seq<byte>, a: nat, b: nat, k: nat) {
    a + k < |text| && b + k < |text| && text[a + k] == text[b + k]
  }

  /** The first `n` bytes agree. */
  ghost predicate Agree(text: seq<byte>, a: nat, b: nat, n: nat) {
    forall k :: 0 <= k < n ==> SameAt(text, a, b, k)
  }

  lemma {:induction false} CommonFromAgrees(text: seq<byte>, a: nat, b: nat, k: nat, limit: nat)
    requires InText(text, a, b, limit) && k <= limit && Agree(text, a, b, k)
    ensures Agree(text, a, b, CommonFrom(text, a, b, k, limit))
    decreases limit - k
  {
    if k < limit && text[a + k] == text[b + k] {
      CommonFromAgrees(text, a, b, k + 1, limit);
    }
  }

  lemma CommonAgrees(text: seq<byte>, a: nat, b: nat, limit: nat)
    requires InText(text, a, b, limit)
    ensures Agree(text, a, b, Common(text, a, b, limit))
  {
    CommonFromAgrees(text, a, b, 0, limit);
  }

  /** A common prefix that cannot be extended is the common prefix. */
  lemma CommonIs(text: seq<byte>, a: nat, b: nat, limit: nat, n: nat)
    requires InText(text, a, b, limit) && n <= limit && Agree(text, a, b, n)
    requires n < limit ==> text[a + n] != text[b + n]
    ensures Common(text, a, b, limit) == n
  {
    var c := Common(text, a, b, limit);
    CommonAgrees(text, a, b, limit);
    assert c < n ==> SameAt(text, a, b, c);
    assert n < c ==> SameAt(text, a, b, n);
  }

  /** Knowing that the first bytes agree, the comparison may start behind them. */
  lemma StartLater(text: seq<byte>, a: nat, b: nat, k: nat, limit: nat)
    requires InText(text, a, b, limit) && k <= limit && Agree(text, a, b, k)
    ensures CommonFrom(text, a, b, k, limit) == Common(text, a, b, limit)
  {
    CommonFromAgrees(text, a, b, k, limit);
    CommonIs(text, a, b, limit, CommonFrom(text, a, b, k, limit));
  }

  lemma CommonSymmetric(text: seq<byte>, a: nat, b: nat, limit: nat)
    requires InText(text, a, b, limit)
    ensures Common(text, a, b, limit) == Common(text, b, a, limit)
  {
    CommonAgrees(text, a, b, limit);
    var n := Common(text, a, b, limit);
    forall k | 0 <= k < n ensures SameAt(text, b, a, k) {
      assert SameAt(text, a, b, k);
    }
    CommonIs(text, b, a, limit, n);
  }

  lemma CommonShorter(text: seq<byte>, a: nat, b: nat, m: nat, limit: nat)
    requires InText(text, a, b, limit) && m <= limit
    ensures Common(text, a, b, m) == if Common(text, a, b, limit) < m then Common(text, a, b, limit) else m
  {
    CommonAgrees(text, a, b, limit);
    var n := if Common(text, a, b, limit) < m then Common(text, a, b, limit) else m;
    CommonIs(text, a, b, m, n);
  }

  datatype Order = Smaller | Equal | Larger

  /** The order of two suffixes by their first `limit` bytes. */
  function Compare(text: seq<byte>, a: nat, b: nat, limit: nat): Order
    requires InText(text, a, b, limit)
  {
    var n := Common(text, a, b, limit);
    if n == limit then Equal else if text[a + n] < text[b + n] then Smaller else Larger
  }

  /** The suffix at `a` does not come after that at `b`. */
  ghost predicate AtMost(text: seq<byte>, a: nat, b: nat, limit: nat)
    requires InText(text, a, b, limit)
  {
    Compare(text, a, b, limit) != Larger
  }

  lemma CompareReversed(text: seq<byte>, a: nat, b: nat, limit: nat)
    requires InText(text, a, b, limit)
    ensures Compare(text, b, a, limit) ==
      match Compare(text, a, b, limit) { case Smaller => Larger case Equal => Equal case Larger => Smaller }
  {
    CommonSymmetric(text, a, b, limit);
  }

  lemma AtMostShorter(text: seq<byte>, a: nat, b: nat, m: nat, limit: nat)
    requires InText(text, a, b, limit) && m <= limit && AtMost(text, a, b, limit)
    ensures AtMost(text, a, b, m)
  {
    CommonShorter(text, a, b, m, limit);
  }

  lemma AtMostBothWays(text: seq<byte>, a: nat, b: nat, limit: nat)
    requires InText(text, a, b, limit) && AtMost(text, a, b, limit) && AtMost(text, b, a, limit)
    ensures Agree(text, a, b, limit)
  {
    CommonAgrees(text, a, b, limit);
    CommonSymmetric(text, a, b, limit);
  }

  /** Between two suffixes in order, the common prefix with either end is at least that of the ends. */
  lemma AtMostTransitive(text: seq<byte>, a: nat, b: nat, c: nat, limit: nat)
    requires InText(text, a, b, limit) && InText(text, b, c, limit)
    requires AtMost(text, a, b, limit) && AtMost(text, b, c, limit)
    ensures AtMost(text, a, c, limit)
    ensures var m, n := Common(text, a, b, limit), Common(text, b, c, limit);
      Common(text, a, c, limit) == if m < n then m else n
  {
    var m, n := Common(text, a, b, limit), Common(text, b, c, limit);
    CommonAgrees(text, a, b, limit);
    CommonAgrees(text, b, c, limit);
    var k := if m < n then m else n;
    forall i | 0 <= i < k ensures SameAt(text, a, c, i) {
      assert SameAt(text, a, b, i) && SameAt(text, b, c, i);
    }
    if k < m { assert SameAt(text, a, b, k); }
    if k < n { assert SameAt(text, b, c, k); }
    CommonIs(text, a, c, limit, k);
  }
}
