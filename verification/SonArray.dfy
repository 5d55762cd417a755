/**
 The tree in its cyclic array. Each position has a pair of references in `son`; the pairs of
 the last `size` positions share the array in turn. The search of the match finder walks
 down the tree and re-links it as it goes; here that walk is a function on the array, and
 it is proved to split the tree that the array shows.
 */
module SonArray {
  import opened Bytes
  import opened Suffixes
  import opened MatchTree

  /**
   The current place in a text. `pos` numbers it for the references in the array; the
   numbers are machine words and are reduced from time to time. `limit` bytes are compared,
   and `cyc` is the place of the current pair in the cyclic array.
   */
  datatype Space = Space(text: seq<byte>, at: nat, pos: nat, limit: nat, size: nat, cyc: nat) {
    ghost predicate Valid() {
      0 < pos <= at + 1 && limit > 0 && at + limit <= |text| && cyc < size
    }
  }

  /** References up to here are empty or too old (`cmCheck`). */
  function Lo(s: Space): nat {
    if s.pos <= s.size then 0 else s.pos - s.size
  }

  /** The reference `r` is in use. */
  predicate InUse(s: Space, r: nat) {
    Lo(s) < r < s.pos
  }

  /** A place in the text that a reference in use can mean. */
  predicate Live(s: Space, x: nat) {
    x < s.at && s.at - x < s.size && s.at - x < s.pos
  }

  function RefOf(s: Space, x: nat): nat
    requires Live(s, x)
  {
    s.pos - (s.at - x)
  }

  function PlaceOf(s: Space, r: nat): (x: nat)
    requires s.pos <= s.at + 1 && InUse(s, r)
    ensures Live(s, x) && RefOf(s, x) == r
  {
    s.at - (s.pos - r)
  }

  lemma RefsInUse(s: Space, x: nat)
    requires s.pos <= s.at + 1 && Live(s, x)
    ensures InUse(s, RefOf(s, x)) && PlaceOf(s, RefOf(s, x)) == x
  {
  }

  /** The pair of a place, counting back from the current one and round the end of the array. */
  function Slot(s: Space, x: nat): nat
    requires s.cyc < s.size && x <= s.at < x + s.size
  {
    var delta := s.at - x;
    if delta > s.cyc then s.cyc + s.size - delta else s.cyc - delta
  }

  lemma LiveHasSlot(s: Space, x: nat)
    requires s.cyc < s.size && Live(s, x)
    ensures x < s.at < x + s.size && Slot(s, x) < s.size
  {
  }

  /** Where the pair of a position begins. */
  function Pair(s: Space, x: nat): (p: nat)
    requires s.cyc < s.size && Live(s, x)
    ensures p + 1 < 2 * s.size
  {
    LiveHasSlot(s, x);
    2 * Slot(s, x)
  }

  lemma SlotsApart(s: Space, x: nat, y: nat)
    requires s.cyc < s.size && x <= s.at < x + s.size && y <= s.at < y + s.size && x != y
    ensures Slot(s, x) != Slot(s, y)
  {
  }

  /** The array holds the tree `t` at the reference `r`. */
  ghost predicate Shows(s: Space, son: seq<nat>, r: nat, t: Tree)
    requires s.cyc < s.size && |son| == 2 * s.size
    decreases t
  {
    match t
    case Leaf => r <= Lo(s)
    case Node(x, left, right) =>
      && Live(s, x) && r == RefOf(s, x)
      && Shows(s, son, son[Pair(s, x)], left) && Shows(s, son, son[Pair(s, x) + 1], right)
  }

  /** The place `p` is not in the pair of a position of the tree. */
  ghost predicate Outside(s: Space, nodes: set<nat>, p: nat)
    requires s.cyc < s.size
  {
    forall y :: y in nodes && Live(s, y) ==> p != Pair(s, y) && p != Pair(s, y) + 1
  }

  /** Outside two places and the pairs of some positions nothing has changed. */
  ghost predicate Untouched(s: Space, a: seq<nat>, b: seq<nat>, nodes: set<nat>, p0: nat, p1: nat)
    requires s.cyc < s.size
  {
    |a| == |b| && forall i :: 0 <= i < |a| && i != p0 && i != p1 && Outside(s, nodes, i) ==> b[i] == a[i]
  }

  lemma {:induction false} ShowsLive(s: Space, son: seq<nat>, r: nat, t: Tree)
    requires s.cyc < s.size && |son| == 2 * s.size && Shows(s, son, r, t)
    ensures forall y :: y in Nodes(t) ==> Live(s, y)
    decreases t
  {
    if t.Node? {
      ShowsLive(s, son, son[Pair(s, t.x)], t.left);
      ShowsLive(s, son, son[Pair(s, t.x) + 1], t.right);
    }
  }

  ghost predicate SamePair(s: Space, a: seq<nat>, b: seq<nat>, y: nat)
    requires s.cyc < s.size && |a| == |b| == 2 * s.size
  {
    Live(s, y) ==> a[Pair(s, y)] == b[Pair(s, y)] && a[Pair(s, y) + 1] == b[Pair(s, y) + 1]
  }

  lemma {:induction false} ShowsSame(s: Space, a: seq<nat>, b: seq<nat>, r: nat, t: Tree)
    requires s.cyc < s.size && |a| == |b| == 2 * s.size && Shows(s, a, r, t)
    requires forall y :: y in Nodes(t) ==> SamePair(s, a, b, y)
    ensures Shows(s, b, r, t)
    decreases t
  {
    if t.Node? {
      assert SamePair(s, a, b, t.x);
      ShowsSame(s, a, b, a[Pair(s, t.x)], t.left);
      ShowsSame(s, a, b, a[Pair(s, t.x) + 1], t.right);
    }
  }

  /** A tree none of whose pairs is touched is still there. */
  lemma ShowsUntouched(s: Space, a: seq<nat>, b: seq<nat>, r: nat, t: Tree, nodes: set<nat>, p0: nat, p1: nat)
    requires s.cyc < s.size && |a| == |b| == 2 * s.size && Shows(s, a, r, t)
    requires Untouched(s, a, b, nodes, p0, p1) && Nodes(t) !! nodes
    requires Outside(s, Nodes(t), p0) && Outside(s, Nodes(t), p1)
    ensures Shows(s, b, r, t)
  {
    ShowsLive(s, a, r, t);
    forall y | y in Nodes(t) ensures SamePair(s, a, b, y) {
      PairUntouched(s, a, b, nodes, p0, p1, y);
    }
    ShowsSame(s, a, b, r, t);
  }

  lemma PairUntouched(s: Space, a: seq<nat>, b: seq<nat>, nodes: set<nat>, p0: nat, p1: nat, y: nat)
    requires s.cyc < s.size && |a| == |b| == 2 * s.size && Live(s, y) && y !in nodes
    requires Untouched(s, a, b, nodes, p0, p1)
    requires p0 != Pair(s, y) && p0 != Pair(s, y) + 1 && p1 != Pair(s, y) && p1 != Pair(s, y) + 1
    ensures SamePair(s, a, b, y)
  {
    PairOutside(s, nodes, y);
  }

  lemma PairOutside(s: Space, nodes: set<nat>, y: nat)
    requires s.cyc < s.size && Live(s, y) && y !in nodes
    ensures Outside(s, nodes, Pair(s, y)) && Outside(s, nodes, Pair(s, y) + 1)
  {
    forall z | z in nodes && Live(s, z) ensures Pair(s, z) + 1 < Pair(s, y) || Pair(s, y) + 1 < Pair(s, z) {
      LiveHasSlot(s, y);
      LiveHasSlot(s, z);
      SlotsApart(s, y, z);
    }
  }

  // ---------- The walk in the array ----------

  /** The variables of the loop: two places to be linked, the current match, two known lengths. */
  datatype Walk = Walk(p0: nat, p1: nat, cm: nat, len0: nat, len1: nat)

  function MinLen(w: Walk): nat {
    if w.len0 < w.len1 then w.len0 else w.len1
  }

  ghost predicate WalkFits(s: Space, son: seq<nat>, w: Walk) {
    && s.Valid() && |son| == 2 * s.size
    && w.p0 < |son| && w.p1 < |son| && w.len0 < s.limit && w.len1 < s.limit
  }

  datatype Result = Result(son: seq<nat>, found: seq<Found>)

  /** One pass of the loop: what is linked, where the walk goes on, and the match found. */
  datatype Pass = Pass(son: seq<nat>, w: Walk, full: bool, here: seq<Found>, best: nat)

  function NextPass(s: Space, son: seq<nat>, w: Walk, best: nat): (p: Pass)
    requires WalkFits(s, son, w) && InUse(s, w.cm)
    ensures |p.son| == |son| && (!p.full ==> WalkFits(s, p.son, p.w))
  {
    var x := PlaceOf(s, w.cm);
    var pair := Pair(s, x);
    var n := CommonFrom(s.text, x, s.at, MinLen(w), s.limit);
    var here, best1 := if best < n then [Found(n, x)] else [], if best < n then n else best;
    if n == s.limit then Pass(son[w.p1 := son[pair]][w.p0 := son[pair + 1]], w, true, here, best1)
    else if s.text[x + n] < s.text[s.at + n] then
      Pass(son[w.p1 := w.cm], Walk(w.p0, pair + 1, son[pair + 1], w.len0, n), false, here, best1)
    else
      Pass(son[w.p0 := w.cm], Walk(pair, w.p1, son[pair], n, w.len1), false, here, best1)
  }

  /** The loop of `GetMatchesSpec1`; `cut` is the number of passes left. */
  function Descend(s: Space, son: seq<nat>, w: Walk, cut: nat, best: nat): (r: Result)
    requires WalkFits(s, son, w)
    ensures |r.son| == |son|
    decreases cut
  {
    if cut == 0 || !InUse(s, w.cm) then Result(son[w.p0 := 0][w.p1 := 0], [])
    else
      var p := NextPass(s, son, w, best);
      if p.full then Result(p.son, p.here)
      else
        var r := Descend(s, p.son, p.w, cut - 1, p.best);
        Result(r.son, p.here + r.found)
  }

  /**
   What the two lengths mean: no suffix of the rest of the tree comes before the current one
   in its first `len1` bytes, or after it in its first `len0` bytes.
   */
  ghost predicate Enclosed(s: Space, w: Walk, nodes: set<nat>) {
    forall y :: y in nodes ==>
      && InText(s.text, y, s.at, s.limit) && w.len0 <= s.limit && w.len1 <= s.limit
      && AtMost(s.text, s.at, y, w.len1) && AtMost(s.text, y, s.at, w.len0)
  }

  /** The comparison may start at the smaller of the two lengths. */
  lemma MayStartLater(s: Space, w: Walk, nodes: set<nat>, y: nat)
    requires s.Valid() && Enclosed(s, w, nodes) && y in nodes
    ensures CommonFrom(s.text, y, s.at, MinLen(w), s.limit) == Common(s.text, y, s.at, s.limit)
    ensures Agree(s.text, y, s.at, MinLen(w))
  {
    var m := MinLen(w);
    AtMostShorter(s.text, s.at, y, m, w.len1);
    AtMostShorter(s.text, y, s.at, m, w.len0);
    AtMostBothWays(s.text, y, s.at, m);
    StartLater(s.text, y, s.at, m, s.limit);
  }

  /** Going right from `x` raises the lower bound, going left lowers the upper one. */
  lemma EnclosedBelow(s: Space, w: Walk, t: Tree)
    requires s.Valid() && t.Node? && Sorted(s.text, s.limit, t) && Enclosed(s, w, Nodes(t))
    ensures var n := Common(s.text, t.x, s.at, s.limit);
      && Enclosed(s, w.(len1 := n), Nodes(t.right))
      && Enclosed(s, w.(len0 := n), Nodes(t.left))
  {
    var n := Common(s.text, t.x, s.at, s.limit);
    CommonShorter(s.text, t.x, s.at, n, s.limit);
    CompareReversed(s.text, t.x, s.at, n);
    forall y | y in Nodes(t.right) ensures AtMost(s.text, s.at, y, n) {
      AtMostShorter(s.text, t.x, y, n, s.limit);
      AtMostTransitive(s.text, s.at, t.x, y, n);
    }
    forall y | y in Nodes(t.left) ensures AtMost(s.text, y, s.at, n) {
      AtMostShorter(s.text, y, t.x, n, s.limit);
      AtMostTransitive(s.text, y, t.x, s.at, n);
    }
  }

  // ---------- The walk splits the tree ----------

  /** The walk stands before the tree `t`, and the two places to be linked lie outside it. */
  ghost predicate Before(s: Space, son: seq<nat>, w: Walk, t: Tree) {
    && WalkFits(s, son, w) && w.p0 != w.p1
    && Shows(s, son, w.cm, t) && Sorted(s.text, s.limit, t) && Aged(t, s.at)
    && Outside(s, Nodes(t), w.p0) && Outside(s, Nodes(t), w.p1)
    && Enclosed(s, w, Nodes(t))
  }

  /** The two places show the parts of the tree, and nothing else has changed. */
  ghost predicate SplitIn(s: Space, son: seq<nat>, son1: seq<nat>, w: Walk, nodes: set<nat>, p: Parts) {
    && s.cyc < s.size && |son| == |son1| == 2 * s.size && w.p0 < |son| && w.p1 < |son|
    && Shows(s, son1, son1[w.p1], p.less) && Shows(s, son1, son1[w.p0], p.greater)
    && Untouched(s, son, son1, nodes, w.p0, w.p1)
  }

  /** What is known of the two sides of a node. */
  lemma Sides(s: Space, son: seq<nat>, r: nat, t: Tree)
    requires s.Valid() && |son| == 2 * s.size && t.Node?
    requires Shows(s, son, r, t) && Sorted(s.text, s.limit, t) && Aged(t, s.at)
    ensures Live(s, t.x) && r == RefOf(s, t.x) && InText(s.text, t.x, s.at, s.limit)
    ensures Shows(s, son, son[Pair(s, t.x)], t.left) && Shows(s, son, son[Pair(s, t.x) + 1], t.right)
    ensures Sorted(s.text, s.limit, t.left) && Sorted(s.text, s.limit, t.right)
    ensures Aged(t.left, s.at) && Aged(t.right, s.at)
    ensures Nodes(t.left) !! Nodes(t.right) && t.x !in Nodes(t.left) && t.x !in Nodes(t.right)
    ensures Nodes(t) == {t.x} + Nodes(t.left) + Nodes(t.right)
  {
    hide NoneAfter, NoneBefore;
    AgedNodes(t.left, t.x);
    AgedNodes(t.right, t.x);
    AgedLater(t.left, t.x, s.at);
    AgedLater(t.right, t.x, s.at);
  }

  lemma OutsideFewer(s: Space, fewer: set<nat>, nodes: set<nat>, p: nat)
    requires s.cyc < s.size && fewer <= nodes && Outside(s, nodes, p)
    ensures Outside(s, fewer, p)
  {
    hide Pair;
  }

  /** Linking at a place outside a tree leaves it as it is. */
  lemma LinkKeeps(s: Space, son: seq<nat>, p: nat, v: nat, r: nat, t: Tree)
    requires s.cyc < s.size && |son| == 2 * s.size && p < |son| && Shows(s, son, r, t) && Outside(s, Nodes(t), p)
    ensures Shows(s, son[p := v], r, t)
  {
    assert Untouched(s, son, son[p := v], {}, p, p);
    ShowsUntouched(s, son, son[p := v], r, t, {}, p, p);
  }

  /** The walk after a pass that goes right: the position is linked in, and its right side comes next. */
  lemma StepRight(s: Space, son: seq<nat>, w: Walk, t: Tree)
    requires Before(s, son, w, t) && t.Node? && Compare(s.text, t.x, s.at, s.limit) == Smaller
    ensures Live(s, t.x) && w.cm == RefOf(s, t.x) && InText(s.text, t.x, s.at, s.limit)
    ensures var pair, n := Pair(s, t.x), Common(s.text, t.x, s.at, s.limit);
      Before(s, son[w.p1 := w.cm], Walk(w.p0, pair + 1, son[pair + 1], w.len0, n), t.right)
  {
    hide Sorted, Aged, Enclosed, Shows, Outside, Pair, Live;
    Sides(s, son, w.cm, t);
    var pair, n := Pair(s, t.x), Common(s.text, t.x, s.at, s.limit);
    EnclosedBelow(s, w, t);
    PairOutside(s, Nodes(t.right), t.x);
    OutsideFewer(s, Nodes(t.right), Nodes(t), w.p0);
    OutsideFewer(s, Nodes(t.right), Nodes(t), w.p1);
    PlacesApart(s, Nodes(t), t.x, w.p0);
    PlacesApart(s, Nodes(t), t.x, w.p1);
    LinkKeeps(s, son, w.p1, w.cm, son[pair + 1], t.right);
    EnclosedSame(s, w.(len1 := n), Walk(w.p0, pair + 1, son[pair + 1], w.len0, n), Nodes(t.right));
  }

  lemma EnclosedSame(s: Space, w: Walk, w1: Walk, nodes: set<nat>)
    requires Enclosed(s, w, nodes) && w1.len0 == w.len0 && w1.len1 == w.len1
    ensures Enclosed(s, w1, nodes)
  {
  }

  lemma PlacesApart(s: Space, nodes: set<nat>, x: nat, p: nat)
    requires s.cyc < s.size && Live(s, x) && x in nodes && Outside(s, nodes, p)
    ensures p != Pair(s, x) && p != Pair(s, x) + 1
  {
  }

  lemma StepLeft(s: Space, son: seq<nat>, w: Walk, t: Tree)
    requires Before(s, son, w, t) && t.Node? && Compare(s.text, t.x, s.at, s.limit) == Larger
    ensures Live(s, t.x) && w.cm == RefOf(s, t.x) && InText(s.text, t.x, s.at, s.limit)
    ensures var pair, n := Pair(s, t.x), Common(s.text, t.x, s.at, s.limit);
      Before(s, son[w.p0 := w.cm], Walk(pair, w.p1, son[pair], n, w.len1), t.left)
  {
    hide Sorted, Aged, Enclosed, Shows, Outside, Pair, Live;
    Sides(s, son, w.cm, t);
    var pair, n := Pair(s, t.x), Common(s.text, t.x, s.at, s.limit);
    EnclosedBelow(s, w, t);
    PairOutside(s, Nodes(t.left), t.x);
    OutsideFewer(s, Nodes(t.left), Nodes(t), w.p0);
    OutsideFewer(s, Nodes(t.left), Nodes(t), w.p1);
    PlacesApart(s, Nodes(t), t.x, w.p0);
    PlacesApart(s, Nodes(t), t.x, w.p1);
    LinkKeeps(s, son, w.p0, w.cm, son[pair], t.left);
    EnclosedSame(s, w.(len0 := n), Walk(pair, w.p1, son[pair], n, w.len1), Nodes(t.left));
  }

  /** A place that no change has touched and that no position of the changed tree owns keeps its reference. */
  lemma PlaceUntouched(s: Space, a: seq<nat>, b: seq<nat>, nodes: set<nat>, p0: nat, p1: nat, p: nat)
    requires s.cyc < s.size && |a| == 2 * s.size && p < |a| && p != p0 && p != p1
    requires Untouched(s, a, b, nodes, p0, p1) && Outside(s, nodes, p)
    ensures b[p] == a[p]
  {
  }

  /** After the right side has been split, the position with its left side and the smaller part is in place. */
  lemma JoinRight(s: Space, son: seq<nat>, son1: seq<nat>, w: Walk, t: Tree, p: Parts)
    requires Before(s, son, w, t) && t.Node? && Live(s, t.x) && w.cm == RefOf(s, t.x)
    requires SplitIn(s, son[w.p1 := w.cm], son1, w.(p1 := Pair(s, t.x) + 1), Nodes(t.right), p)
    ensures SplitIn(s, son, son1, w, Nodes(t), Parts(Node(t.x, t.left, p.less), p.greater))
  {
    hide Sorted, Aged, Enclosed, Outside, Pair, Live, Untouched;
    Sides(s, son, w.cm, t);
    var pair, mid := Pair(s, t.x), son[w.p1 := w.cm];
    OutsideFewer(s, Nodes(t.right), Nodes(t), w.p1);
    OutsideFewer(s, Nodes(t.left), Nodes(t), w.p0);
    OutsideFewer(s, Nodes(t.left), Nodes(t), w.p1);
    PairOutside(s, Nodes(t.right), t.x);
    PairOutside(s, Nodes(t.left), t.x);
    PlacesApart(s, Nodes(t), t.x, w.p0);
    PlacesApart(s, Nodes(t), t.x, w.p1);
    PlaceUntouched(s, mid, son1, Nodes(t.right), w.p0, pair + 1, w.p1);
    PlaceUntouched(s, mid, son1, Nodes(t.right), w.p0, pair + 1, pair);
    LinkKeeps(s, son, w.p1, w.cm, son[pair], t.left);
    ShowsUntouched(s, mid, son1, son[pair], t.left, Nodes(t.right), w.p0, pair + 1);
    UntouchedJoin(s, son, son1, t, w.p0, w.p1, w.p1, w.cm, w.p0, pair + 1, Nodes(t.right));
  }

  lemma UntouchedJoin(s: Space, son: seq<nat>, son1: seq<nat>, t: Tree, p0: nat, p1: nat, p: nat, v: nat, q0: nat, q1: nat, below: set<nat>)
    requires s.cyc < s.size && |son| == 2 * s.size && p < |son| && t.Node? && Live(s, t.x) && below <= Nodes(t)
    requires p == p0 || p == p1
    requires q0 == p0 || q0 == Pair(s, t.x)
    requires q1 == p1 || q1 == Pair(s, t.x) + 1
    requires Untouched(s, son[p := v], son1, below, q0, q1)
    ensures Untouched(s, son, son1, Nodes(t), p0, p1)
  {
    forall i | 0 <= i < |son| && i != p0 && i != p1 && Outside(s, Nodes(t), i) ensures son1[i] == son[i] {
      OutsideFewer(s, below, Nodes(t), i);
      PlacesApart(s, Nodes(t), t.x, i);
    }
  }

  lemma JoinLeft(s: Space, son: seq<nat>, son1: seq<nat>, w: Walk, t: Tree, p: Parts)
    requires Before(s, son, w, t) && t.Node? && Live(s, t.x) && w.cm == RefOf(s, t.x)
    requires SplitIn(s, son[w.p0 := w.cm], son1, w.(p0 := Pair(s, t.x)), Nodes(t.left), p)
    ensures SplitIn(s, son, son1, w, Nodes(t), Parts(p.less, Node(t.x, p.greater, t.right)))
  {
    hide Sorted, Aged, Enclosed, Outside, Pair, Live, Untouched;
    Sides(s, son, w.cm, t);
    var pair, mid := Pair(s, t.x), son[w.p0 := w.cm];
    OutsideFewer(s, Nodes(t.left), Nodes(t), w.p0);
    OutsideFewer(s, Nodes(t.right), Nodes(t), w.p0);
    OutsideFewer(s, Nodes(t.right), Nodes(t), w.p1);
    PairOutside(s, Nodes(t.left), t.x);
    PairOutside(s, Nodes(t.right), t.x);
    PlacesApart(s, Nodes(t), t.x, w.p0);
    PlacesApart(s, Nodes(t), t.x, w.p1);
    PlaceUntouched(s, mid, son1, Nodes(t.left), pair, w.p1, w.p0);
    PlaceUntouched(s, mid, son1, Nodes(t.left), pair, w.p1, pair + 1);
    LinkKeeps(s, son, w.p0, w.cm, son[pair + 1], t.right);
    ShowsUntouched(s, mid, son1, son[pair + 1], t.right, Nodes(t.left), pair, w.p1);
    UntouchedJoin(s, son, son1, t, w.p0, w.p1, w.p0, w.cm, pair, w.p1, Nodes(t.left));
  }

  /** A full match is replaced: its two sides become the parts. */
  lemma JoinEqual(s: Space, son: seq<nat>, w: Walk, t: Tree)
    requires Before(s, son, w, t) && t.Node?
    ensures Live(s, t.x)
    ensures var pair := Pair(s, t.x);
      SplitIn(s, son, son[w.p1 := son[pair]][w.p0 := son[pair + 1]], w, Nodes(t), Parts(t.left, t.right))
  {
    hide Sorted, Aged, Enclosed, Outside, Pair, Live;
    Sides(s, son, w.cm, t);
    var pair := Pair(s, t.x);
    var son1 := son[w.p1 := son[pair]][w.p0 := son[pair + 1]];
    OutsideFewer(s, Nodes(t.left), Nodes(t), w.p0);
    OutsideFewer(s, Nodes(t.left), Nodes(t), w.p1);
    OutsideFewer(s, Nodes(t.right), Nodes(t), w.p0);
    OutsideFewer(s, Nodes(t.right), Nodes(t), w.p1);
    assert Untouched(s, son, son1, {}, w.p0, w.p1);
    assert Untouched(s, son, son1, Nodes(t), w.p0, w.p1);
    ShowsUntouched(s, son, son1, son[pair], t.left, {}, w.p0, w.p1);
    ShowsUntouched(s, son, son1, son[pair + 1], t.right, {}, w.p0, w.p1);
  }

  lemma CutOff(s: Space, son: seq<nat>, w: Walk, t: Tree)
    requires Before(s, son, w, t)
    ensures SplitIn(s, son, son[w.p0 := 0][w.p1 := 0], w, Nodes(t), Parts(Leaf, Leaf))
  {
    hide Sorted, Aged, Enclosed, Outside, Pair, Live;
  }

  lemma SplitSamePlaces(s: Space, son: seq<nat>, son1: seq<nat>, w: Walk, v: Walk, nodes: set<nat>, p: Parts)
    requires SplitIn(s, son, son1, w, nodes, p) && v.p0 == w.p0 && v.p1 == w.p1
    ensures SplitIn(s, son, son1, v, nodes, p)
  {
  }

  lemma EndOfWalk(s: Space, son: seq<nat>, w: Walk, t: Tree)
    requires Before(s, son, w, t)
    ensures WalkFits(s, son, w) && Sorted(s.text, s.limit, t)
    ensures t.Leaf? ==> !InUse(s, w.cm)
  {
  }

  /** At a node, the comparison that starts late finds the whole common prefix. */
  lemma NodeOfWalk(s: Space, son: seq<nat>, w: Walk, t: Tree)
    requires Before(s, son, w, t) && t.Node?
    ensures WalkFits(s, son, w) && Sorted(s.text, s.limit, t) && Sorted(s.text, s.limit, t.left) && Sorted(s.text, s.limit, t.right)
    ensures Live(s, t.x) && InUse(s, w.cm) && PlaceOf(s, w.cm) == t.x && InText(s.text, t.x, s.at, s.limit)
    ensures CommonFrom(s.text, t.x, s.at, MinLen(w), s.limit) == Common(s.text, t.x, s.at, s.limit)
    ensures Agree(s.text, t.x, s.at, MinLen(w))
  {
    Sides(s, son, w.cm, t);
    RefsInUse(s, t.x);
    MayStartLater(s, w, Nodes(t), t.x);
    hide Enclosed, Shows, Outside;
  }

  /** The walk in the array does what the walk in the tree does. */
  ghost predicate WalksAlike(s: Space, son: seq<nat>, w: Walk, t: Tree, cut: nat, best: nat)
    requires WalkFits(s, son, w) && Sorted(s.text, s.limit, t)
  {
    var r := Descend(s, son, w, cut, best);
    && SplitIn(s, son, r.son, w, Nodes(t), Split(s.text, s.limit, s.at, t, cut))
    && r.found == Search(s.text, s.limit, s.at, t, cut, best)
  }

  lemma AlikeAtEnd(s: Space, son: seq<nat>, w: Walk, t: Tree, cut: nat, best: nat)
    requires Before(s, son, w, t) && (cut == 0 || t.Leaf?)
    ensures WalkFits(s, son, w) && Sorted(s.text, s.limit, t) && WalksAlike(s, son, w, t, cut, best)
  {
    hide Sorted, Aged, Enclosed, Outside, Shows, SplitIn, Before, Pair, Slot;
    EndOfWalk(s, son, w, t);
    CutOff(s, son, w, t);
  }

  lemma AlikeEqual(s: Space, son: seq<nat>, w: Walk, t: Tree, cut: nat, best: nat)
    requires Before(s, son, w, t) && cut > 0 && t.Node? && Compare(s.text, t.x, s.at, s.limit) == Equal
    ensures WalkFits(s, son, w) && Sorted(s.text, s.limit, t) && WalksAlike(s, son, w, t, cut, best)
  {
    hide Sorted, Aged, Enclosed, Outside, Shows, SplitIn, Before, Pair, Slot;
    NodeOfWalk(s, son, w, t);
    JoinEqual(s, son, w, t);
  }

  /** One pass to the right, in the array and in the tree. */
  lemma PassRight(s: Space, son: seq<nat>, w: Walk, t: Tree, cut: nat, best: nat)
    requires Before(s, son, w, t) && cut > 0 && t.Node? && Compare(s.text, t.x, s.at, s.limit) == Smaller
    ensures WalkFits(s, son, w) && InUse(s, w.cm) && Sorted(s.text, s.limit, t) && Sorted(s.text, s.limit, t.right)
    ensures Live(s, t.x) && w.cm == RefOf(s, t.x) && InText(s.text, t.x, s.at, s.limit)
    ensures var pair, n := Pair(s, t.x), Common(s.text, t.x, s.at, s.limit);
            var here, best1 := if best < n then [Found(n, t.x)] else [], if best < n then n else best;
            var p := Split(s.text, s.limit, s.at, t.right, cut - 1);
            && NextPass(s, son, w, best) == Pass(son[w.p1 := w.cm], Walk(w.p0, pair + 1, son[pair + 1], w.len0, n), false, here, best1)
            && Search(s.text, s.limit, s.at, t, cut, best) == here + Search(s.text, s.limit, s.at, t.right, cut - 1, best1)
            && Split(s.text, s.limit, s.at, t, cut) == Parts(Node(t.x, t.left, p.less), p.greater)
  {
    hide Sorted, Aged, Enclosed, Outside, Shows, Before, Pair, Slot;
    NodeOfWalk(s, son, w, t);
  }

  lemma PassLeft(s: Space, son: seq<nat>, w: Walk, t: Tree, cut: nat, best: nat)
    requires Before(s, son, w, t) && cut > 0 && t.Node? && Compare(s.text, t.x, s.at, s.limit) == Larger
    ensures WalkFits(s, son, w) && InUse(s, w.cm) && Sorted(s.text, s.limit, t) && Sorted(s.text, s.limit, t.left)
    ensures Live(s, t.x) && w.cm == RefOf(s, t.x) && InText(s.text, t.x, s.at, s.limit)
    ensures var pair, n := Pair(s, t.x), Common(s.text, t.x, s.at, s.limit);
            var here, best1 := if best < n then [Found(n, t.x)] else [], if best < n then n else best;
            var p := Split(s.text, s.limit, s.at, t.left, cut - 1);
            && NextPass(s, son, w, best) == Pass(son[w.p0 := w.cm], Walk(pair, w.p1, son[pair], n, w.len1), false, here, best1)
            && Search(s.text, s.limit, s.at, t, cut, best) == here + Search(s.text, s.limit, s.at, t.left, cut - 1, best1)
            && Split(s.text, s.limit, s.at, t, cut) == Parts(p.less, Node(t.x, p.greater, t.right))
  {
    hide Sorted, Aged, Enclosed, Outside, Shows, Before, Pair, Slot;
    NodeOfWalk(s, son, w, t);
  }

  lemma AlikeRight(s: Space, son: seq<nat>, w: Walk, t: Tree, cut: nat, best: nat)
    requires Before(s, son, w, t) && cut > 0 && t.Node? && Compare(s.text, t.x, s.at, s.limit) == Smaller
    requires var pair, n := Pair(s, t.x), Common(s.text, t.x, s.at, s.limit);
      var son1, w1 := son[w.p1 := w.cm], Walk(w.p0, pair + 1, son[pair + 1], w.len0, n);
      WalkFits(s, son1, w1) && WalksAlike(s, son1, w1, t.right, cut - 1, if best < n then n else best)
    ensures WalkFits(s, son, w) && Sorted(s.text, s.limit, t) && WalksAlike(s, son, w, t, cut, best)
  {
    hide Sorted, SplitIn, Before, Pair, Compare, Common, Search, Split, NextPass, Nodes, InUse, Live;
    PassRight(s, son, w, t, cut, best);
    var pair, n := Pair(s, t.x), Common(s.text, t.x, s.at, s.limit);
    var son1, w1, p := son[w.p1 := w.cm], Walk(w.p0, pair + 1, son[pair + 1], w.len0, n), Split(s.text, s.limit, s.at, t.right, cut - 1);
    var r := Descend(s, son1, w1, cut - 1, if best < n then n else best);
    SplitSamePlaces(s, son1, r.son, w1, w.(p1 := pair + 1), Nodes(t.right), p);
    JoinRight(s, son, r.son, w, t, p);
  }

  lemma AlikeLeft(s: Space, son: seq<nat>, w: Walk, t: Tree, cut: nat, best: nat)
    requires Before(s, son, w, t) && cut > 0 && t.Node? && Compare(s.text, t.x, s.at, s.limit) == Larger
    requires var pair, n := Pair(s, t.x), Common(s.text, t.x, s.at, s.limit);
      var son1, w1 := son[w.p0 := w.cm], Walk(pair, w.p1, son[pair], n, w.len1);
      WalkFits(s, son1, w1) && WalksAlike(s, son1, w1, t.left, cut - 1, if best < n then n else best)
    ensures WalkFits(s, son, w) && Sorted(s.text, s.limit, t) && WalksAlike(s, son, w, t, cut, best)
  {
    hide Sorted, SplitIn, Before, Pair, Compare, Common, Search, Split, NextPass, Nodes, InUse, Live;
    PassLeft(s, son, w, t, cut, best);
    var pair, n := Pair(s, t.x), Common(s.text, t.x, s.at, s.limit);
    var son1, w1, p := son[w.p0 := w.cm], Walk(pair, w.p1, son[pair], n, w.len1), Split(s.text, s.limit, s.at, t.left, cut - 1);
    var r := Descend(s, son1, w1, cut - 1, if best < n then n else best);
    SplitSamePlaces(s, son1, r.son, w1, w.(p0 := pair), Nodes(t.left), p);
    JoinLeft(s, son, r.son, w, t, p);
  }

  /**
   The walk in the array is the walk in the tree: it splits the tree between the two places,
   reports the matches of the search, and changes nothing else, although it starts each
   comparison at the smaller of the two lengths.
   */
  lemma {:induction false} DescendSplits(s: Space, son: seq<nat>, w: Walk, t: Tree, cut: nat, best: nat)
    requires Before(s, son, w, t)
    ensures WalkFits(s, son, w) && Sorted(s.text, s.limit, t) && WalksAlike(s, son, w, t, cut, best)
    decreases cut
  {
    hide Sorted, Aged, Enclosed, Outside, Shows, SplitIn, Pair, WalksAlike;
    if cut == 0 || t.Leaf? {
      AlikeAtEnd(s, son, w, t, cut, best);
    } else {
      NodeOfWalk(s, son, w, t);
      var pair, n := Pair(s, t.x), Common(s.text, t.x, s.at, s.limit);
      var best1 := if best < n then n else best;
      match Compare(s.text, t.x, s.at, s.limit) {
        case Equal => AlikeEqual(s, son, w, t, cut, best);
        case Smaller =>
          StepRight(s, son, w, t);
          DescendSplits(s, son[w.p1 := w.cm], Walk(w.p0, pair + 1, son[pair + 1], w.len0, n), t.right, cut - 1, best1);
          AlikeRight(s, son, w, t, cut, best);
        case Larger =>
          StepLeft(s, son, w, t);
          DescendSplits(s, son[w.p0 := w.cm], Walk(pair, w.p1, son[pair], n, w.len1), t.left, cut - 1, best1);
          AlikeLeft(s, son, w, t, cut, best);
      }
    }
  }
}
