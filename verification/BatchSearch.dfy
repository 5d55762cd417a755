/**
 `GetMatchesSpecN_2`: searching many positions in one call. It is proved to do what a search
 position by position does, its shortcut for long matches included, and never to fail.
 */
module BatchSearch {
  import opened Bytes
  import opened Suffixes
  import opened MatchTree
  import opened SonArray
  import opened TreeSearch
  import opened Forest

  /** The place `k` positions on, before the end of the array. */
  function Ahead(s: Space, k: nat): Space {
    s.(at := s.at + k, pos := s.pos + k, cyc := s.cyc + k)
  }

  ghost predicate Fits(s: Space, son: seq<nat>, n: nat) {
    && s.Valid() && |son| == 2 * s.size && s.cyc + n <= s.size && s.at + n + s.limit <= |s.text| + 1
    && (s.pos < s.size ==> s.cyc == s.pos)
  }

  lemma AheadValid(s: Space, son: seq<nat>, n: nat, k: nat)
    requires Fits(s, son, n) && k < n
    ensures Ahead(s, k).Valid() && Ahead(s, k).size == s.size && Ahead(s, k).limit == s.limit && Ahead(s, k).text == s.text
  {
  }

  datatype Outcome = Outcome(son: seq<nat>, found: seq<seq<Found>>)

  /** The first `n` positions one after the other, each searched as `GetMatchesSpec1` does. */
  function OneByOne(s: Space, son: seq<nat>, deltas: seq<nat>, n: nat, cut: nat, best: nat): (r: Outcome)
    requires n <= |deltas| && Fits(s, son, |deltas|)
    ensures |r.son| == |son| && |r.found| == n
  {
    if n == 0 then Outcome(son, [])
    else
      var before := OneByOne(s, son, deltas, n - 1, cut, best);
      AheadValid(s, son, |deltas|, n - 1);
      var here := Ahead(s, n - 1);
      var curMatch := if deltas[n - 1] <= here.pos then here.pos - deltas[n - 1] else 0;
      var r := Descend(here, before.son, FirstWalk(here, curMatch), cut, best);
      Outcome(r.son, before.found + [r.found])
  }

  /** What is written for one position: the count of numbers, then lengths and distances. */
  function Numbers(ms: seq<(nat, nat)>): seq<nat> {
    if ms == [] then [] else Numbers(ms[..|ms| - 1]) + [ms[|ms| - 1].0, ms[|ms| - 1].1]
  }

  function Record(at: nat, found: seq<Found>): seq<nat> {
    var ms := Reported(at, found);
    [2 * |ms|] + Numbers(ms)
  }

  function Records(at: nat, found: seq<seq<Found>>): seq<nat> {
    if found == [] then []
    else Records(at, found[..|found| - 1]) + Record(at + |found| - 1, found[|found| - 1])
  }

  lemma RecordsOne(at: nat, found: seq<seq<Found>>, f: seq<Found>)
    ensures Records(at, found + [f]) == Records(at, found) + Record(at + |found|, f)
  {
    assert (found + [f])[..|found|] == found;
  }

  /** At every position the array shows a tree to be searched. */
  ghost predicate AllAsked(s: Space, son: seq<nat>, deltas: seq<nat>, cut: nat, best: nat, trees: seq<Tree>)
    requires Fits(s, son, |deltas|)
  {
    |trees| == |deltas| && forall k :: 0 <= k < |deltas| ==> AskedAt(s, son, deltas, cut, best, trees, k)
  }

  ghost predicate AskedAt(s: Space, son: seq<nat>, deltas: seq<nat>, cut: nat, best: nat, trees: seq<Tree>, k: nat)
    requires Fits(s, son, |deltas|) && k < |deltas| == |trees|
  {
    && 0 < deltas[k] <= s.pos + k
    && Asked(Ahead(s, k), OneByOne(s, son, deltas, k, cut, best).son, s.pos + k - deltas[k], trees[k])
  }

  // ---------- Where the trees come from ----------

  /** The roots after `n` positions have been entered in their buckets. */
  function RootsAfter(s: Space, roots: seq<nat>, buckets: seq<nat>, n: nat): (r: seq<nat>)
    requires n <= |buckets| && forall k :: 0 <= k < |buckets| ==> buckets[k] < |roots|
    ensures |r| == |roots|
  {
    if n == 0 then roots else RootsAfter(s, roots, buckets, n - 1)[buckets[n - 1] := s.pos + n - 1]
  }

  /** The differences are those to the roots of the buckets. */
  ghost predicate FromBuckets(s: Space, roots: seq<nat>, buckets: seq<nat>, deltas: seq<nat>) {
    && |deltas| == |buckets| && (forall k :: 0 <= k < |buckets| ==> buckets[k] < |roots|)
    && forall k :: 0 <= k < |buckets| ==> DeltaOf(s, roots, buckets, deltas, k)
  }

  ghost predicate DeltaOf(s: Space, roots: seq<nat>, buckets: seq<nat>, deltas: seq<nat>, k: nat)
    requires k < |buckets| == |deltas| && forall k :: 0 <= k < |buckets| ==> buckets[k] < |roots|
  {
    RootsAfter(s, roots, buckets, k)[buckets[k]] + deltas[k] == s.pos + k
  }

  /** A run over buckets keeps all trees in order, so that every position can be searched. */
  lemma {:induction false} ForestRun(s: Space, son: seq<nat>, roots: seq<nat>, trees: seq<Tree>, buckets: seq<nat>, deltas: seq<nat>,
                                     n: nat, cut: nat, best: nat) returns (trees1: seq<Tree>)
    requires Fits(s, son, |deltas|) && s.size > 1 && FromBuckets(s, roots, buckets, deltas) && n < |deltas|
    requires ForestOk(s, son, roots, trees)
    ensures ForestOk(Ahead(s, n), OneByOne(s, son, deltas, n, cut, best).son, RootsAfter(s, roots, buckets, n), trees1)
  {
    trees1 := trees;
    if n > 0 {
      var trees0 := ForestRun(s, son, roots, trees, buckets, deltas, n - 1, cut, best);
      trees1 := ForestStep(s, son, roots, trees0, buckets, deltas, n - 1, cut, best);
    }
  }

  lemma ForestStep(s: Space, son: seq<nat>, roots: seq<nat>, trees: seq<Tree>, buckets: seq<nat>, deltas: seq<nat>,
                   n: nat, cut: nat, best: nat) returns (trees1: seq<Tree>)
    requires Fits(s, son, |deltas|) && s.size > 1 && FromBuckets(s, roots, buckets, deltas) && n + 1 < |deltas|
    requires ForestOk(Ahead(s, n), OneByOne(s, son, deltas, n, cut, best).son, RootsAfter(s, roots, buckets, n), trees)
    ensures ForestOk(Ahead(s, n + 1), OneByOne(s, son, deltas, n + 1, cut, best).son, RootsAfter(s, roots, buckets, n + 1), trees1)
  {
    hide Shows, Sorted, Aged, Descend, Split, Insert, Prune;
    AheadValid(s, son, |deltas|, n);
    var here, before, roots0, h := Ahead(s, n), OneByOne(s, son, deltas, n, cut, best).son, RootsAfter(s, roots, buckets, n), buckets[n];
    assert DeltaOf(s, roots, buckets, deltas, n);
    assert TreeOk(here, before, roots0[h], trees[h]);
    var w := FirstWalk(here, roots0[h]);
    FirstWalkBefore(here, before, roots0[h], trees[h]);
    DescendSplits(here, before, w, trees[h], cut, best);
    ForestInserted(here, s.limit, before, Descend(here, before, w, cut, best).son, roots0, trees, h, cut);
    trees1 := PruneAll(trees[h := Insert(s.text, s.limit, here.at, trees[h], cut)], First(NextSpace(here, s.limit)));
    assert NextSpace(here, s.limit) == Ahead(s, n + 1);
  }

  lemma BucketsAreAsked(s: Space, son: seq<nat>, roots: seq<nat>, trees: seq<Tree>, buckets: seq<nat>, deltas: seq<nat>,
                        k: nat, cut: nat, best: nat) returns (t: Tree)
    requires Fits(s, son, |deltas|) && s.size > 1 && FromBuckets(s, roots, buckets, deltas) && k < |deltas|
    requires ForestOk(s, son, roots, trees)
    ensures 0 < deltas[k] <= s.pos + k
    ensures Asked(Ahead(s, k), OneByOne(s, son, deltas, k, cut, best).son, s.pos + k - deltas[k], t)
  {
    var trees1 := ForestRun(s, son, roots, trees, buckets, deltas, k, cut, best);
    assert DeltaOf(s, roots, buckets, deltas, k);
    AheadValid(s, son, |deltas|, k);
    var roots1 := RootsAfter(s, roots, buckets, k);
    t := trees1[buckets[k]];
    assert TreeOk(Ahead(s, k), OneByOne(s, son, deltas, k, cut, best).son, roots1[buckets[k]], t);
    RootIsOlder(Ahead(s, k), OneByOne(s, son, deltas, k, cut, best).son, roots1[buckets[k]], t);
  }

  lemma RootIsOlder(s: Space, son: seq<nat>, r: nat, t: Tree)
    requires s.Valid() && |son| == 2 * s.size && Shows(s, son, r, t)
    ensures r < s.pos
  {
  }

  // ---------- The search of one position ----------

  /** The reference a pass goes on with is older than the one it comes from. */
  lemma ChildIsOlder(s: Space, son: seq<nat>, w: Walk, t: Tree, son1: seq<nat>, w1: Walk)
    requires Before(s, son, w, t) && t.Node? && InUse(s, w.cm)
    requires Before(s, son1, w1, Below(s, t))
    ensures w1.cm < w.cm
  {
    NodeOfWalk(s, son, w, t);
    if Below(s, t).Node? {
      NodeOfWalk(s, son1, w1, Below(s, t));
      OlderBelow(s, t);
    } else {
      EndOfWalk(s, son1, w1, Below(s, t));
      LeafIsStale(s, son1, w1);
    }
  }

  lemma OlderBelow(s: Space, t: Tree)
    requires s.Valid() && Sorted(s.text, s.limit, t) && t.Node? && Aged(t, s.at) && Below(s, t).Node?
    ensures Below(s, t).x < t.x
  {
  }

  lemma LeafIsStale(s: Space, son: seq<nat>, w: Walk)
    requires Before(s, son, w, Leaf)
    ensures w.cm <= Lo(s)
  {
  }

  /** The tree loop of `GetMatchesSpecN_2` for one position; its failure exit is never taken. */
  method SearchOne(here: Space, son: array<nat>, curMatch: nat, cutValue: nat, maxLen: nat, ghost t: Tree)
    returns (ms: seq<(nat, nat)>, full: bool)
    requires Asked(here, son[..], curMatch, t) && cutValue > 0 && maxLen < here.limit
    modifies son
    ensures son[..] == Descend(here, old(son[..]), FirstWalk(here, curMatch), cutValue, maxLen).son
    ensures ms == Reported(here.at, Descend(here, old(son[..]), FirstWalk(here, curMatch), cutValue, maxLen).found)
    ensures full ==> ms != [] && LongMatch(here, ms[|ms| - 1])
  {
    hide Descend, NextPass, Pair, Slot, Shows, Sorted, Aged, Reported, SplitIn, Before, CommonFrom, Outside, Rest, Adds, LongMatch;
    FirstWalkBefore(here, son[..], curMatch, t);
    var w := Walk(2 * here.cyc + 1, 2 * here.cyc, curMatch, 0, 0);
    OwnPairOutside(here, Nodes(t));
    ghost var whole := Descend(here, son[..], w, cutValue, maxLen);
    StartRest(here, son[..], w, t, cutValue, maxLen);
    var cut: nat, best: nat := cutValue, maxLen;
    var cmCheck: nat := if here.pos <= here.size then 0 else here.pos - here.size;
    ghost var tree, sofar: seq<Found> := t, [];
    ms, full := [], false;
    while cut > 0 && cmCheck < w.cm
      invariant son.Length == 2 * here.size
      invariant Rest(here, son[..], w, tree, cut, best, sofar, whole)
      invariant ms == Reported(here.at, sofar)
      decreases cut
    {
      RestFits(here, son[..], w, tree, cut, best, sofar, whole);
      RestAfter(here, son[..], w, tree, cut, best, sofar, whole);
      PlacesApart(here, Nodes(tree), tree.x, w.p0);
      PlacesApart(here, Nodes(tree), tree.x, w.p1);
      ghost var p, w0, before, best0 := NextPass(here, son[..], w, best), w, son[..], best;
      RestBefore(here, son[..], w, tree, cut, best, sofar, whole);
      NodeOfWalk(here, son[..], w, tree);
      full, w, best, ms := SearchPass(here, son, w, best, ms);
      AddsReported(here, sofar, p.here, ms);
      if full {
        FullIsLong(here, before, w0, best0, sofar, ms);
        return;
      }
      sofar := sofar + p.here;
      RestBefore(here, son[..], w, Below(here, tree), cut - 1, best, sofar, whole);
      ChildIsOlder(here, before, w0, tree, son[..], w);
      if w.cm >= w0.cm { assert false; }
      tree := Below(here, tree);
      cut := cut - 1;
    }
    RestEnds(here, son[..], w, tree, cut, best, sofar, whole);
    ghost var last: seq<nat> := son[..];
    son[w.p0] := 0;
    son[w.p1] := 0;
    assert son[..] == last[w.p0 := 0][w.p1 := 0];
  }

  lemma RestBefore(s: Space, son: seq<nat>, w: Walk, t: Tree, cut: nat, best: nat, sofar: seq<Found>, whole: Result)
    requires Rest(s, son, w, t, cut, best, sofar, whole)
    ensures Before(s, son, w, t)
  {
  }

  /** A match over all bytes compared. */
  ghost predicate LongMatch(s: Space, m: (nat, nat)) {
    && m.0 == s.limit && m.1 + 1 <= s.at && s.at + s.limit <= |s.text|
    && Agree(s.text, s.at - (m.1 + 1), s.at, s.limit)
  }

  /** What a full pass reports last is a match over all bytes. */
  lemma FullIsLong(s: Space, son: seq<nat>, w: Walk, best: nat, sofar: seq<Found>, ms: seq<(nat, nat)>)
    requires WalkFits(s, son, w) && InUse(s, w.cm) && best < s.limit && NextPass(s, son, w, best).full
    requires ms == Reported(s.at, sofar + NextPass(s, son, w, best).here)
    requires Agree(s.text, PlaceOf(s, w.cm), s.at, MinLen(w))
    ensures ms != [] && LongMatch(s, ms[|ms| - 1])
  {
    var x := PlaceOf(s, w.cm);
    var here := NextPass(s, son, w, best).here;
    assert here == [Found(s.limit, x)];
    ReportedOne(s.at, sofar, Found(s.limit, x));
    CommonFromAgrees(s.text, x, s.at, MinLen(w), s.limit);
    hide Pair;
  }

  // ---------- The shortcut for long matches ----------

  /**
   When the root of the tree agrees in all bytes, a search is a copy of its pair and one match:
   this is what makes the shortcut right.
   */
  lemma LongMatchCopies(here: Space, son: seq<nat>, delta: nat, cut: nat, best: nat)
    requires here.Valid() && |son| == 2 * here.size && cut > 0 && best < here.limit
    requires 0 < delta < here.size && delta < here.pos && Agree(here.text, here.at - delta, here.at, here.limit)
    ensures Live(here, here.at - delta)
    ensures var x := here.at - delta;
      Descend(here, son, FirstWalk(here, here.pos - delta), cut, best) ==
        Result(son[2 * here.cyc := son[Pair(here, x)]][2 * here.cyc + 1 := son[Pair(here, x) + 1]], [Found(here.limit, x)])
  {
    var x := here.at - delta;
    StartLater(here.text, x, here.at, 0, here.limit);
    CommonIs(here.text, x, here.at, here.limit, here.limit);
    hide CommonFrom, Pair;
  }

  lemma NextIsLong(s: Space, m: (nat, nat), last: nat)
    requires s.Valid() && LongMatch(s, m) && last == s.at + s.limit && last < |s.text|
    requires s.text[last - (m.1 + 1)] == s.text[last]
    ensures LongMatch(Ahead(s, 1), m)
    ensures Agree(s.text, s.at + 1 - (m.1 + 1), s.at + 1, s.limit)
  {
    var delta := m.1 + 1;
    var a, b := s.at + 1 - delta, s.at + 1;
    forall k | 0 <= k < s.limit ensures SameAt(s.text, a, b, k) {
      assert k + 1 < s.limit ==> SameAt(s.text, s.at - delta, s.at, k + 1);
    }
  }

  /** What has been done for the first `k` positions. */
  ghost predicate Done(s: Space, son0: seq<nat>, son: seq<nat>, deltas: seq<nat>, cut: nat, best: nat, k: nat, d: seq<nat>) {
    && k <= |deltas| && Fits(s, son0, |deltas|)
    && var r := OneByOne(s, son0, deltas, k, cut, best);
       son == r.son && d == Records(s.at, r.found)
  }

  lemma DoneOne(s: Space, son0: seq<nat>, son: seq<nat>, son1: seq<nat>, deltas: seq<nat>, cut: nat, best: nat, k: nat,
                d: seq<nat>, d1: seq<nat>, r: Result)
    requires Done(s, son0, son, deltas, cut, best, k, d) && k < |deltas| && deltas[k] <= s.pos + k
    requires WalkFits(Ahead(s, k), son, FirstWalk(Ahead(s, k), s.pos + k - deltas[k]))
    requires r == Descend(Ahead(s, k), son, FirstWalk(Ahead(s, k), s.pos + k - deltas[k]), cut, best)
    requires son1 == r.son && d1 == d + Record(s.at + k, r.found)
    ensures Done(s, son0, son1, deltas, cut, best, k + 1, d1)
  {
    hide Descend, Record, Records, FirstWalk;
    AheadValid(s, son0, |deltas|, k);
    RecordsOne(s.at, OneByOne(s, son0, deltas, k, cut, best).found, r.found);
  }

  /** A position without a match: its pair is emptied. */
  method EmptyPair(here: Space, son: array<nat>, curMatch: nat, ghost cut: nat, ghost best: nat)
    requires here.Valid() && son.Length == 2 * here.size && !InUse(here, curMatch)
    modifies son
    ensures WalkFits(here, old(son[..]), FirstWalk(here, curMatch))
    ensures Descend(here, old(son[..]), FirstWalk(here, curMatch), cut, best) == Result(son[..], [])
  {
    ghost var was: seq<nat> := son[..];
    son[2 * here.cyc] := 0;
    son[2 * here.cyc + 1] := 0;
    assert son[..] == was[2 * here.cyc + 1 := 0][2 * here.cyc := 0];
  }

  /** The pair of the position `delta` back is copied. */
  method CopyPair(here: Space, son: array<nat>, delta: nat)
    requires here.Valid() && son.Length == 2 * here.size && 0 < delta < here.size && delta < here.pos
    modifies son
    ensures Live(here, here.at - delta)
    ensures var pair := Pair(here, here.at - delta);
      son[..] == old(son[..])[2 * here.cyc := old(son[pair])][2 * here.cyc + 1 := old(son[pair + 1])]
  {
    ghost var was: seq<nat> := son[..];
    Located(here, here.pos - delta);
    var src: nat := 2 * (if delta > here.cyc then here.cyc + here.size - delta else here.cyc - delta);
    OwnPairOutside(here, {here.at - delta});
    var p0, p1 := son[src], son[src + 1];
    son[2 * here.cyc] := p0;
    son[2 * here.cyc + 1] := p1;
    assert son[..] == was[2 * here.cyc := p0][2 * here.cyc + 1 := p1];
  }

  /** The loop of the shortcut, entered after a match over all bytes with difference `delta`. */
  method LongRun(s: Space, son: array<nat>, deltas: seq<nat>, cutValue: nat, maxLen: nat, room: nat, start: nat, d: seq<nat>, m: (nat, nat),
                 ghost son0: seq<nat>)
    returns (k: nat, d1: seq<nat>)
    requires Fits(s, son0, |deltas|) && cutValue > 0 && maxLen < s.limit
    requires Done(s, son0, son[..], deltas, cutValue, maxLen, start, d) && 0 < start <= |deltas|
    requires LongMatch(Ahead(s, start - 1), m) && m.1 + 1 < s.size && m.1 + 1 < s.pos + start - 1
    modifies son
    ensures start <= k && Done(s, son0, son[..], deltas, cutValue, maxLen, k, d1)
    ensures |d| <= |d1|
  {
    hide Descend, Pair, Records, Reported, OneByOne, Agree;
    k, d1 := start, d;
    var delta := m.1 + 1;
    while k < |deltas| && deltas[k] == delta && s.text[s.at + k - 1 + s.limit - delta] == s.text[s.at + k - 1 + s.limit] && |d1| < room
      invariant start <= k <= |deltas| && son.Length == |son0| == 2 * s.size
      invariant Done(s, son0, son[..], deltas, cutValue, maxLen, k, d1)
      invariant LongMatch(Ahead(s, k - 1), m) && |d| <= |d1|
    {
      AheadValid(s, son0, |deltas|, k - 1);
      AheadValid(s, son0, |deltas|, k);
      NextIsLong(Ahead(s, k - 1), m, s.at + k - 1 + s.limit);
      var here := Ahead(s, k);
      LongMatchCopies(here, son[..], delta, cutValue, maxLen);
      ghost var was, d0 := son[..], d1;
      CopyPair(here, son, delta);
      d1 := d1 + [2, s.limit, delta - 1];
      ghost var r := Descend(here, was, FirstWalk(here, here.pos - delta), cutValue, maxLen);
      OneRecord(here.at, s.limit, delta);
      DoneOne(s, son0, was, son[..], deltas, cutValue, maxLen, k, d0, d1, r);
      k := k + 1;
    }
  }

  lemma OneRecord(at: nat, len: nat, delta: nat)
    requires 0 < delta <= at
    ensures Record(at, [Found(len, at - delta)]) == [2, len, delta - 1]
  {
    ReportedOne(at, [], Found(len, at - delta));
    assert [] + [Found(len, at - delta)] == [Found(len, at - delta)];
    assert Reported(at, [Found(len, at - delta)]) == [(len, delta - 1)];
    assert Numbers([(len, delta - 1)]) == [len, delta - 1];
  }

  /**
   `GetMatchesSpecN_2`: the positions of one call, each searched in the tree at its difference.
   It stops when the positions are used up or `room` numbers have been written, and leaves the
   array and the answers that searching one by one leaves.
   */
  method GetMatchesSpecN2(s: Space, son: array<nat>, deltas: seq<nat>, cutValue: nat, maxLen: nat, room: nat, ghost trees: seq<Tree>)
    returns (d: seq<nat>, k: nat)
    requires Fits(s, son[..], |deltas|) && cutValue > 0 && maxLen < s.limit
    requires AllAsked(s, son[..], deltas, cutValue, maxLen, trees)
    modifies son
    ensures k <= |deltas| && (k == |deltas| || |d| >= room)
    ensures son[..] == OneByOne(s, old(son[..]), deltas, k, cutValue, maxLen).son
    ensures d == Records(s.at, OneByOne(s, old(son[..]), deltas, k, cutValue, maxLen).found)
  {
    hide Descend, Pair, Records, Reported, OneByOne, Agree, Done, AskedAt, Record, LongMatch;
    ghost var son0 := son[..];
    NothingDone(s, son0, deltas, cutValue, maxLen);
    d, k := [], 0;
    var more := true;
    while more && k < |deltas|
      invariant k <= |deltas| && son.Length == |son0| == 2 * s.size && (!more ==> |d| >= room)
      invariant Done(s, son0, son[..], deltas, cutValue, maxLen, k, d)
      decreases |deltas| - k
    {
      k, d := BatchPass(s, son, deltas, cutValue, maxLen, room, k, d, trees, son0);
      more := |d| < room;
    }
    DoneMeans(s, son0, son[..], deltas, cutValue, maxLen, k, d);
  }

  lemma NothingDone(s: Space, son0: seq<nat>, deltas: seq<nat>, cut: nat, best: nat)
    requires Fits(s, son0, |deltas|)
    ensures Done(s, son0, son0, deltas, cut, best, 0, [])
  {
  }

  lemma DoneMeans(s: Space, son0: seq<nat>, son: seq<nat>, deltas: seq<nat>, cut: nat, best: nat, k: nat, d: seq<nat>)
    requires Done(s, son0, son, deltas, cut, best, k, d)
    ensures k <= |deltas| && Fits(s, son0, |deltas|)
    ensures son == OneByOne(s, son0, deltas, k, cut, best).son && d == Records(s.at, OneByOne(s, son0, deltas, k, cut, best).found)
  {
  }

  lemma AskedHere(s: Space, son0: seq<nat>, son: seq<nat>, deltas: seq<nat>, cut: nat, best: nat, k: nat, d: seq<nat>, trees: seq<Tree>)
    requires Done(s, son0, son, deltas, cut, best, k, d) && AllAsked(s, son0, deltas, cut, best, trees) && k < |deltas|
    ensures |trees| == |deltas| && 0 < deltas[k] <= s.pos + k
    ensures Asked(Ahead(s, k), son, s.pos + k - deltas[k], trees[k])
  {
    assert AskedAt(s, son0, deltas, cut, best, trees, k);
    hide Shows, Sorted, Aged;
  }

  lemma LongIsReachable(here: Space, son: seq<nat>, curMatch: nat, t: Tree, cut: nat, best: nat)
    requires Asked(here, son, curMatch, t) && best < here.limit && cut > 0
    ensures var ms := Reported(here.at, Descend(here, son, FirstWalk(here, curMatch), cut, best).found);
      ms != [] ==> ms[|ms| - 1].1 + 1 < here.size && ms[|ms| - 1].1 + 1 < here.pos
  {
    hide Descend, Search, Shows, Sorted, Aged, Split, SplitIn, Before, Reported, TrueMatches, Slot, Nodes;
    FirstWalkBefore(here, son, curMatch, t);
    DescendSplits(here, son, FirstWalk(here, curMatch), t, cut, best);
    SearchIsTrue(here.text, here.limit, here.at, t, cut, best, here.at);
    ShowsLive(here, son, curMatch, t);
    var found := Search(here.text, here.limit, here.at, t, cut, best);
    LastReported(here, found, t, best);
  }

  lemma LastReported(here: Space, found: seq<Found>, t: Tree, best: nat)
    requires TrueMatches(here.text, here.limit, here.at, Nodes(t), best, found) && forall y :: y in Nodes(t) ==> Live(here, y)
    ensures var ms := Reported(here.at, found);
      ms != [] ==> ms[|ms| - 1].1 + 1 < here.size && ms[|ms| - 1].1 + 1 < here.pos
  {
    hide Nodes;
    if found != [] {
      assert found == found[..|found| - 1] + [found[|found| - 1]];
      ReportedOne(here.at, found[..|found| - 1], found[|found| - 1]);
    }
  }

  /** One pass of the outer loop: a position, and the run of long matches behind it. */
  method BatchPass(s: Space, son: array<nat>, deltas: seq<nat>, cutValue: nat, maxLen: nat, room: nat, start: nat, d: seq<nat>,
                   ghost trees: seq<Tree>, ghost son0: seq<nat>)
    returns (k: nat, d1: seq<nat>)
    requires Fits(s, son0, |deltas|) && cutValue > 0 && maxLen < s.limit && son.Length == |son0|
    requires AllAsked(s, son0, deltas, cutValue, maxLen, trees)
    requires Done(s, son0, son[..], deltas, cutValue, maxLen, start, d) && start < |deltas|
    modifies son
    ensures start < k <= |deltas| && Done(s, son0, son[..], deltas, cutValue, maxLen, k, d1)
  {
    hide Descend, Pair, Records, Reported, OneByOne, Agree, Done, AskedAt, Record, LongMatch, Shows, Sorted, Aged, AllAsked;
    AskedHere(s, son0, son[..], deltas, cutValue, maxLen, start, d, trees);
    AheadValid(s, son0, |deltas|, start);
    var here, delta := Ahead(s, start), deltas[start];
    ghost var was, t := son[..], trees[start];
    if delta == 0 { assert false; }
    var cbs := here.size;
    if here.pos < cbs {
      if delta > here.pos { assert false; }
      cbs := here.pos;
    }
    k := start + 1;
    ghost var r := Descend(here, was, FirstWalk(here, here.pos - delta), cutValue, maxLen);
    if delta >= cbs {
      EmptyPair(here, son, here.pos - delta, cutValue, maxLen);
      d1 := d + [0];
      EmptyRecord(here.at);
      DoneOne(s, son0, was, son[..], deltas, cutValue, maxLen, start, d, d1, r);
    } else {
      LongIsReachable(here, was, here.pos - delta, t, cutValue, maxLen);
      var ms, full := SearchOne(here, son, here.pos - delta, cutValue, maxLen, t);
      d1 := d + [2 * |ms|] + Numbers(ms);
      RecordIs(here.at, r.found, ms, d, d1);
      DoneOne(s, son0, was, son[..], deltas, cutValue, maxLen, start, d, d1, r);
      if full {
        k, d1 := LongRun(s, son, deltas, cutValue, maxLen, room, k, d1, ms[|ms| - 1], son0);
      }
    }
    DoneMeans(s, son0, son[..], deltas, cutValue, maxLen, k, d1);
  }

  lemma EmptyRecord(at: nat)
    ensures Record(at, []) == [0]
  {
  }

  lemma RecordIs(at: nat, found: seq<Found>, ms: seq<(nat, nat)>, d: seq<nat>, d1: seq<nat>)
    requires ms == Reported(at, found) && d1 == d + [2 * |ms|] + Numbers(ms)
    ensures d1 == d + Record(at, found)
  {
  }
}