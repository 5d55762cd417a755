/**
 `GetMatchesSpec1` and `SkipMatchesSpec`, in place on the array of references.
 */
module TreeSearch {
  import opened Bytes
  import opened Suffixes
  import opened MatchTree
  import opened SonArray

  /** The walk from the pair of the current position. */
  function FirstWalk(s: Space, curMatch: nat): Walk
    requires s.Valid()
  {
    var own := Slot(s, s.at);
    Walk(2 * own + 1, 2 * own, curMatch, 0, 0)
  }

  lemma OwnPairOutside(s: Space, nodes: set<nat>)
    requires s.Valid()
    ensures Slot(s, s.at) == s.cyc
    ensures Outside(s, nodes, 2 * s.cyc) && Outside(s, nodes, 2 * s.cyc + 1)
  {
    forall y | y in nodes && Live(s, y) ensures 2 * s.cyc != Pair(s, y) && 2 * s.cyc + 1 != Pair(s, y) + 1 {
      SlotsApart(s, y, s.at);
    }
  }

  /** Any tree that the array shows can be searched from the current position. */
  lemma FirstWalkBefore(s: Space, son: seq<nat>, curMatch: nat, t: Tree)
    requires s.Valid() && |son| == 2 * s.size
    requires Shows(s, son, curMatch, t) && Sorted(s.text, s.limit, t) && Aged(t, s.at)
    ensures Before(s, son, FirstWalk(s, curMatch), t)
  {
    OwnPairOutside(s, Nodes(t));
    hide Outside, Shows, Aged, Sorted, Enclosed;
    AgedNodes(t, s.at);
    NothingKnown(s, FirstWalk(s, curMatch), Nodes(t));
  }

  /** Lengths of zero promise nothing. */
  lemma NothingKnown(s: Space, w: Walk, nodes: set<nat>)
    requires s.Valid() && w.len0 == 0 && w.len1 == 0 && forall y :: y in nodes ==> y < s.at
    ensures Enclosed(s, w, nodes)
  {
  }

  /** A match as it is reported: the length, and the distance less one. */
  function Reported(at: nat, found: seq<Found>): seq<(nat, nat)> {
    if found == [] then []
    else
      var f := found[|found| - 1];
      Reported(at, found[..|found| - 1]) + [(f.len, if f.x < at then at - f.x - 1 else 0)]
  }

  lemma ReportedOne(at: nat, found: seq<Found>, f: Found)
    requires f.x < at
    ensures Reported(at, found + [f]) == Reported(at, found) + [(f.len, at - f.x - 1)]
  {
    assert (found + [f])[..|found|] == found;
  }

  /** What is linked does not depend on what is reported. */
  lemma {:induction false} LinksIgnoreBest(s: Space, son: seq<nat>, w: Walk, cut: nat, best: nat, other: nat)
    requires WalkFits(s, son, w)
    ensures Descend(s, son, w, cut, best).son == Descend(s, son, w, cut, other).son
    decreases cut
  {
    hide NextPass, InUse;
    if cut > 0 && InUse(s, w.cm) {
      PassIgnoresBest(s, son, w, best, other);
      var p, q := NextPass(s, son, w, best), NextPass(s, son, w, other);
      if !p.full { LinksIgnoreBest(s, p.son, p.w, cut - 1, p.best, q.best); }
    }
  }

  lemma PassIgnoresBest(s: Space, son: seq<nat>, w: Walk, best: nat, other: nat)
    requires WalkFits(s, son, w) && InUse(s, w.cm)
    ensures var p, q := NextPass(s, son, w, best), NextPass(s, son, w, other);
      q.son == p.son && q.w == p.w && q.full == p.full
  {
    hide Pair, CommonFrom;
  }

  /** The remaining walk, and what has been found before it, make up the whole. */
  ghost predicate Rest(s: Space, son: seq<nat>, w: Walk, t: Tree, cut: nat, best: nat, sofar: seq<Found>, whole: Result) {
    && Before(s, son, w, t) && w.len0 <= best && w.len1 <= best < s.limit
    && var r := Descend(s, son, w, cut, best);
       whole == Result(r.son, sofar + r.found)
  }

  /** The tree that a pass leaves to be searched. */
  ghost function Below(s: Space, t: Tree): Tree
    requires s.Valid() && Sorted(s.text, s.limit, t) && t.Node?
  {
    Onwards(s.text, s.limit, s.at, t)
  }

  /** A pass of the walk, and what is left after it. */
  lemma RestAfter(s: Space, son: seq<nat>, w: Walk, t: Tree, cut: nat, best: nat, sofar: seq<Found>, whole: Result)
    requires Rest(s, son, w, t, cut, best, sofar, whole) && cut > 0 && InUse(s, w.cm)
    ensures WalkFits(s, son, w) && t.Node? && Sorted(s.text, s.limit, t)
    ensures var p := NextPass(s, son, w, best);
      if p.full then whole == Result(p.son, sofar + p.here)
      else Rest(s, p.son, p.w, Below(s, t), cut - 1, p.best, sofar + p.here, whole)
  {
    UseIsNode(s, son, w, t);
    NodeOfWalk(s, son, w, t);
    var p := NextPass(s, son, w, best);
    if !p.full {
      PassSteps(s, son, w, t, best);
      hide Before, NextPass, Pair;
      var r := Descend(s, p.son, p.w, cut - 1, p.best);
      assert sofar + (p.here + r.found) == (sofar + p.here) + r.found;
    }
  }

  lemma PassSteps(s: Space, son: seq<nat>, w: Walk, t: Tree, best: nat)
    requires Before(s, son, w, t) && InUse(s, w.cm) && t.Node? && w.len0 <= best && w.len1 <= best < s.limit
    ensures WalkFits(s, son, w) && Sorted(s.text, s.limit, t)
    ensures var p := NextPass(s, son, w, best);
      !p.full ==> Before(s, p.son, p.w, Below(s, t)) && p.w.len0 <= p.best && p.w.len1 <= p.best < s.limit
  {
    hide Sorted, Aged, Enclosed, Outside, Shows, Pair;
    NodeOfWalk(s, son, w, t);
    match Compare(s.text, t.x, s.at, s.limit)
    case Equal =>
    case Smaller => StepRight(s, son, w, t);
    case Larger => StepLeft(s, son, w, t);
  }

  lemma UseIsNode(s: Space, son: seq<nat>, w: Walk, t: Tree)
    requires Before(s, son, w, t) && InUse(s, w.cm)
    ensures t.Node?
  {
  }

  // ---------- The loops ----------

  /** Compares on from the `from`-th byte, which has been found equal. */
  method Extend(data: seq<byte>, pb: nat, cur: nat, from: nat, lenLimit: nat) returns (len: nat)
    requires InText(data, pb, cur, lenLimit) && from < lenLimit && data[pb + from] == data[cur + from]
    ensures len == CommonFrom(data, pb, cur, from, lenLimit) && from < len
  {
    len := from + 1;
    while len != lenLimit && data[pb + len] == data[cur + len]
      invariant from < len <= lenLimit
      invariant CommonFrom(data, pb, cur, len, lenLimit) == CommonFrom(data, pb, cur, from, lenLimit)
      decreases lenLimit - len
    {
      len := len + 1;
    }
  }

  /** The place of a reference and of its pair, computed as the loop computes them. */
  lemma Located(s: Space, cm: nat)
    requires s.Valid() && InUse(s, cm)
    ensures var delta := s.pos - cm;
      && 0 < delta <= s.at && PlaceOf(s, cm) == s.at - delta
      && Pair(s, PlaceOf(s, cm)) == 2 * (if delta > s.cyc then s.cyc + s.size - delta else s.cyc - delta)
  {
  }

  /** What the loop does in one pass, against the value of a pass. */
  lemma PassIs(s: Space, son: seq<nat>, w: Walk, best: nat, n: nat)
    requires WalkFits(s, son, w) && InUse(s, w.cm) && w.len0 <= best && w.len1 <= best < s.limit
    requires n == CommonFrom(s.text, PlaceOf(s, w.cm), s.at, MinLen(w), s.limit)
    ensures var x, pair := PlaceOf(s, w.cm), Pair(s, PlaceOf(s, w.cm));
      && NextPass(s, son, w, best) ==
           (if n == s.limit then
              Pass(son[w.p1 := son[pair]][w.p0 := son[pair + 1]], w, true, [Found(n, x)], n)
            else
              var here, best1 := if best < n then [Found(n, x)] else [], if best < n then n else best;
              if s.text[x + n] < s.text[s.at + n] then
                Pass(son[w.p1 := w.cm], Walk(w.p0, pair + 1, son[pair + 1], w.len0, n), false, here, best1)
              else
                Pass(son[w.p0 := w.cm], Walk(pair, w.p1, son[pair], n, w.len1), false, here, best1))
      && (best < n ==> MinLen(w) < n)
  {
    hide Pair, CommonFrom;
  }

  lemma RestEnds(s: Space, son: seq<nat>, w: Walk, t: Tree, cut: nat, best: nat, sofar: seq<Found>, whole: Result)
    requires Rest(s, son, w, t, cut, best, sofar, whole) && (cut == 0 || !InUse(s, w.cm))
    ensures w.p0 < |son| && w.p1 < |son| && whole.son == son[w.p0 := 0][w.p1 := 0] && whole.found == sofar
  {
  }

  lemma RestFits(s: Space, son: seq<nat>, w: Walk, t: Tree, cut: nat, best: nat, sofar: seq<Found>, whole: Result)
    requires Rest(s, son, w, t, cut, best, sofar, whole)
    ensures WalkFits(s, son, w) && w.p0 != w.p1 && Outside(s, Nodes(t), w.p0) && Outside(s, Nodes(t), w.p1)
    ensures w.cm > Lo(s) ==> InUse(s, w.cm) && t.Node? && PlaceOf(s, w.cm) == t.x
    ensures w.len0 <= best && w.len1 <= best < s.limit
  {
    if t.Node? { NodeOfWalk(s, son, w, t); }
  }

  /** What a pass reports. */
  ghost predicate Adds(s: Space, here: seq<Found>, d: seq<(nat, nat)>, d1: seq<(nat, nat)>) {
    if here == [] then d1 == d else |here| == 1 && here[0].x < s.at && d1 == d + [(here[0].len, s.at - here[0].x - 1)]
  }

  /** The comparison of a pass, and what it reports. It starts at the smaller of the two known lengths. */
  method ComparePass(s: Space, pb: nat, w: Walk, maxLen: nat, d: seq<(nat, nat)>) returns (len: nat, best: nat, d1: seq<(nat, nat)>)
    requires s.Valid() && pb < s.at && w.len0 <= maxLen && w.len1 <= maxLen < s.limit
    ensures len == CommonFrom(s.text, pb, s.at, MinLen(w), s.limit)
    ensures best == (if maxLen < len then len else maxLen)
    ensures d1 == if maxLen < len then d + [(len, s.at - pb - 1)] else d
  {
    len, best, d1 := if w.len0 < w.len1 then w.len0 else w.len1, maxLen, d;
    CommonStart(s.text, pb, s.at, len, s.limit);
    if s.text[pb + len] == s.text[s.at + len] {
      len := Extend(s.text, pb, s.at, len, s.limit);
      if best < len {
        best := len;
        d1 := d1 + [(len, s.at - pb - 1)];
      }
    }
  }

  /** The links of a pass, for a common prefix of `len` bytes. */
  method LinkPass(s: Space, son: array<nat>, pb: nat, pair: nat, w: Walk, len: nat, ghost best: nat) returns (full: bool, w1: Walk)
    requires WalkFits(s, son[..], w) && InUse(s, w.cm) && w.p0 != w.p1 && w.len0 <= best && w.len1 <= best < s.limit
    requires pb == PlaceOf(s, w.cm) && pair == Pair(s, pb) && len == CommonFrom(s.text, pb, s.at, MinLen(w), s.limit)
    requires w.p0 != pair && w.p0 != pair + 1 && w.p1 != pair && w.p1 != pair + 1
    modifies son
    ensures var p := NextPass(s, old(son[..]), w, best);
      son[..] == p.son && full == p.full && w1 == p.w
  {
    hide NextPass, Pair, CommonFrom;
    PassIs(s, son[..], w, best, len);
    ghost var was: seq<nat> := son[..];
    full, w1 := len == s.limit, w;
    if full {
      var pair0 := son[pair];
      son[w.p1] := pair0;
      son[w.p0] := son[pair + 1];
      assert son[..] == was[w.p1 := was[pair]][w.p0 := was[pair + 1]];
    } else if s.text[pb + len] < s.text[s.at + len] {
      son[w.p1] := w.cm;
      w1 := Walk(w.p0, pair + 1, son[pair + 1], w.len0, len);
      assert son[..] == was[w.p1 := w.cm];
    } else {
      son[w.p0] := w.cm;
      w1 := Walk(pair, w.p1, son[pair], len, w.len1);
      assert son[..] == was[w.p0 := w.cm];
    }
  }

  /** The body of the loop of `GetMatchesSpec1`. */
  method SearchPass(s: Space, son: array<nat>, w: Walk, maxLen: nat, d: seq<(nat, nat)>)
    returns (full: bool, w1: Walk, best: nat, d1: seq<(nat, nat)>)
    requires WalkFits(s, son[..], w) && InUse(s, w.cm) && w.p0 != w.p1 && w.len0 <= maxLen && w.len1 <= maxLen < s.limit
    requires var pair := Pair(s, PlaceOf(s, w.cm)); w.p0 != pair && w.p0 != pair + 1 && w.p1 != pair && w.p1 != pair + 1
    modifies son
    ensures var p := NextPass(s, old(son[..]), w, maxLen);
      son[..] == p.son && full == p.full && w1 == p.w && best == p.best && Adds(s, p.here, d, d1)
  {
    hide NextPass, Pair, CommonFrom;
    Located(s, w.cm);
    var delta := s.pos - w.cm;
    var pair: nat := 2 * (if delta > s.cyc then s.cyc + s.size - delta else s.cyc - delta);
    var pb := s.at - delta;
    var len;
    len, best, d1 := ComparePass(s, pb, w, maxLen, d);
    PassIs(s, son[..], w, maxLen, len);
    full, w1 := LinkPass(s, son, pb, pair, w, len, maxLen);
  }

  /** What a search is asked: the array shows a tree that is sorted and aged. */
  ghost predicate Asked(s: Space, son: seq<nat>, curMatch: nat, t: Tree) {
    && s.Valid() && |son| == 2 * s.size
    && Shows(s, son, curMatch, t) && Sorted(s.text, s.limit, t) && Aged(t, s.at)
  }

  /**
   `GetMatchesSpec1`: reports the matches of the search in the tree at `curMatch`, and splits
   that tree below the current position, in place.
   */
  method GetMatchesSpec1(s: Space, curMatch: nat, son: array<nat>, cutValue: nat, maxLen: nat, ghost t: Tree) returns (d: seq<(nat, nat)>)
    requires Asked(s, son[..], curMatch, t) && cutValue > 0 && maxLen < s.limit
    modifies son
    ensures son[..] == Descend(s, old(son[..]), FirstWalk(s, curMatch), cutValue, 0).son
    ensures SplitIn(s, old(son[..]), son[..], FirstWalk(s, curMatch), Nodes(t), Split(s.text, s.limit, s.at, t, cutValue))
    ensures d == Reported(s.at, Search(s.text, s.limit, s.at, t, cutValue, maxLen))
  {
    hide Descend, NextPass, Pair, Slot, Shows, Sorted, Aged, Search, Split, Reported, SplitIn, Before, CommonFrom, Outside, Rest, Adds;
    FirstWalkBefore(s, son[..], curMatch, t);
    var w := Walk(2 * s.cyc + 1, 2 * s.cyc, curMatch, 0, 0);
    OwnPairOutside(s, Nodes(t));
    DescendSplits(s, son[..], w, t, cutValue, maxLen);
    LinksIgnoreBest(s, son[..], w, cutValue, maxLen, 0);
    ghost var whole := Descend(s, son[..], w, cutValue, maxLen);
    StartRest(s, son[..], w, t, cutValue, maxLen);
    var cut: nat, best: nat := cutValue, maxLen;
    var cmCheck: nat := if s.pos <= s.size then 0 else s.pos - s.size;
    ghost var tree, sofar: seq<Found> := t, [];
    d := [];
    while cut > 0 && cmCheck < w.cm
      invariant son.Length == 2 * s.size
      invariant Rest(s, son[..], w, tree, cut, best, sofar, whole)
      invariant d == Reported(s.at, sofar)
      decreases cut
    {
      RestFits(s, son[..], w, tree, cut, best, sofar, whole);
      RestAfter(s, son[..], w, tree, cut, best, sofar, whole);
      PlacesApart(s, Nodes(tree), tree.x, w.p0);
      PlacesApart(s, Nodes(tree), tree.x, w.p1);
      ghost var p := NextPass(s, son[..], w, best);
      var full;
      full, w, best, d := SearchPass(s, son, w, best, d);
      AddsReported(s, sofar, p.here, d);
      sofar := sofar + p.here;
      if full { return; }
      tree := Below(s, tree);
      cut := cut - 1;
    }
    RestEnds(s, son[..], w, tree, cut, best, sofar, whole);
    ghost var last: seq<nat> := son[..];
    son[w.p0] := 0;
    son[w.p1] := 0;
    assert son[..] == last[w.p0 := 0][w.p1 := 0];
  }

  lemma AddsReported(s: Space, sofar: seq<Found>, here: seq<Found>, d1: seq<(nat, nat)>)
    requires Adds(s, here, Reported(s.at, sofar), d1)
    ensures d1 == Reported(s.at, sofar + here)
  {
    if |here| == 1 {
      ReportedOne(s.at, sofar, here[0]);
      assert here == [here[0]];
    } else {
      assert sofar + here == sofar;
    }
  }

  lemma StartRest(s: Space, son: seq<nat>, w: Walk, t: Tree, cut: nat, best: nat)
    requires Before(s, son, w, t) && w.len0 == 0 == w.len1 && best < s.limit
    ensures WalkFits(s, son, w) && Rest(s, son, w, t, cut, best, [], Descend(s, son, w, cut, best))
    ensures Reported(s.at, []) == []
  {
    hide Descend;
    var r := Descend(s, son, w, cut, best);
    assert [] + r.found == r.found;
  }

  lemma CommonStart(data: seq<byte>, pb: nat, cur: nat, len: nat, limit: nat)
    requires InText(data, pb, cur, limit) && len < limit
    ensures data[pb + len] != data[cur + len] ==> CommonFrom(data, pb, cur, len, limit) == len
  {
  }

  /** The body of the loop of `SkipMatchesSpec`. */
  method SkipPass(s: Space, son: array<nat>, w: Walk, ghost best: nat) returns (full: bool, w1: Walk)
    requires WalkFits(s, son[..], w) && InUse(s, w.cm) && w.p0 != w.p1 && w.len0 <= best && w.len1 <= best < s.limit
    requires var pair := Pair(s, PlaceOf(s, w.cm)); w.p0 != pair && w.p0 != pair + 1 && w.p1 != pair && w.p1 != pair + 1
    modifies son
    ensures var p := NextPass(s, old(son[..]), w, best);
      son[..] == p.son && full == p.full && w1 == p.w
  {
    hide NextPass, Pair, CommonFrom;
    Located(s, w.cm);
    var delta := s.pos - w.cm;
    var pair: nat := 2 * (if delta > s.cyc then s.cyc + s.size - delta else s.cyc - delta);
    var pb := s.at - delta;
    var len := if w.len0 < w.len1 then w.len0 else w.len1;
    CommonStart(s.text, pb, s.at, len, s.limit);
    if s.text[pb + len] == s.text[s.at + len] {
      len := Extend(s.text, pb, s.at, len, s.limit);
    }
    full, w1 := LinkPass(s, son, pb, pair, w, len, best);
  }

  /**
   `SkipMatchesSpec`: the same walk without reporting. It leaves the array exactly as
   `GetMatchesSpec1` does.
   */
  method SkipMatchesSpec(s: Space, curMatch: nat, son: array<nat>, cutValue: nat, ghost t: Tree)
    requires Asked(s, son[..], curMatch, t) && cutValue > 0
    modifies son
    ensures son[..] == Descend(s, old(son[..]), FirstWalk(s, curMatch), cutValue, 0).son
    ensures SplitIn(s, old(son[..]), son[..], FirstWalk(s, curMatch), Nodes(t), Split(s.text, s.limit, s.at, t, cutValue))
  {
    hide Descend, NextPass, Pair, Slot, Shows, Sorted, Aged, Search, Split, Reported, SplitIn, Before, CommonFrom, Outside, Rest;
    FirstWalkBefore(s, son[..], curMatch, t);
    ghost var best: nat := s.limit - 1;
    var w := Walk(2 * s.cyc + 1, 2 * s.cyc, curMatch, 0, 0);
    OwnPairOutside(s, Nodes(t));
    DescendSplits(s, son[..], w, t, cutValue, best);
    LinksIgnoreBest(s, son[..], w, cutValue, best, 0);
    ghost var whole := Descend(s, son[..], w, cutValue, best);
    StartRest(s, son[..], w, t, cutValue, best);
    var cut: nat := cutValue;
    var cmCheck: nat := if s.pos <= s.size then 0 else s.pos - s.size;
    ghost var tree, sofar: seq<Found> := t, [];
    while cut > 0 && cmCheck < w.cm
      invariant son.Length == 2 * s.size && best == s.limit - 1
      invariant Rest(s, son[..], w, tree, cut, best, sofar, whole)
      decreases cut
    {
      RestFits(s, son[..], w, tree, cut, best, sofar, whole);
      RestAfter(s, son[..], w, tree, cut, best, sofar, whole);
      PlacesApart(s, Nodes(tree), tree.x, w.p0);
      PlacesApart(s, Nodes(tree), tree.x, w.p1);
      ghost var p := NextPass(s, son[..], w, best);
      BestStays(s, son[..], w, best);
      var full;
      full, w := SkipPass(s, son, w, best);
      sofar := sofar + p.here;
      if full { return; }
      tree := Below(s, tree);
      cut := cut - 1;
    }
    RestEnds(s, son[..], w, tree, cut, best, sofar, whole);
    ghost var last: seq<nat> := son[..];
    son[w.p0] := 0;
    son[w.p1] := 0;
    assert son[..] == last[w.p0 := 0][w.p1 := 0];
  }

  lemma BestStays(s: Space, son: seq<nat>, w: Walk, best: nat)
    requires WalkFits(s, son, w) && InUse(s, w.cm) && best == s.limit - 1
    ensures var p := NextPass(s, son, w, best); !p.full ==> p.best == best
  {
    hide Pair, CommonFrom;
  }
}