/**
 All trees of the match finder in one array: moving on by one position, which lets the
 oldest position fall out of the cyclic array, and reducing all references at once when the
 position counter is about to overflow.
 */
module Forest {
  import opened Bytes
  import opened Suffixes
  import opened MatchTree
  import opened SonArray
  import opened TreeSearch

  /** The oldest place a reference can mean. */
  function First(s: Space): nat
    requires s.pos <= s.at + 1
  {
    s.at + 1 - (if s.size < s.pos then s.size else s.pos)
  }

  lemma LiveFromFirst(s: Space, x: nat)
    requires s.pos <= s.at + 1 && s.size > 0 && s.pos > 0
    ensures Live(s, x) <==> First(s) <= x < s.at
  {
  }

  function NextSpace(s: Space, limit: nat): Space {
    Space(s.text, s.at + 1, s.pos + 1, limit, s.size, if s.cyc + 1 == s.size then 0 else s.cyc + 1)
  }

  /** The tree without the places before `first`. */
  function Prune(t: Tree, first: nat): Tree {
    if t.Leaf? || t.x < first then Leaf else Node(t.x, Prune(t.left, first), Prune(t.right, first))
  }

  lemma {:induction false} PruneNodes(t: Tree, first: nat)
    ensures Nodes(Prune(t, first)) <= Nodes(t)
  {
    if t.Node? {
      PruneNodes(t.left, first);
      PruneNodes(t.right, first);
    }
  }

  lemma {:induction false} PruneKeeps(text: seq<byte>, limit: nat, t: Tree, first: nat, bound: nat)
    requires Sorted(text, limit, t) && Aged(t, bound)
    ensures Sorted(text, limit, Prune(t, first)) && Aged(Prune(t, first), bound)
  {
    hide AtMost;
    if t.Node? {
      PruneNodes(t.left, first);
      PruneNodes(t.right, first);
      PruneKeeps(text, limit, t.left, first, t.x);
      PruneKeeps(text, limit, t.right, first, t.x);
    }
  }

  /** What is left after pruning is what was not too old. */
  lemma {:induction false} PruneDropsOnlyOld(t: Tree, first: nat, bound: nat, y: nat)
    requires Aged(t, bound) && y in Nodes(t) && y >= first
    ensures y in Nodes(Prune(t, first))
  {
    AgedNodes(t.left, t.x);
    AgedNodes(t.right, t.x);
    if y in Nodes(t.left) {
      PruneDropsOnlyOld(t.left, first, t.x, y);
    } else if y in Nodes(t.right) {
      PruneDropsOnlyOld(t.right, first, t.x, y);
    }
  }

  /** A tree in order by more bytes is in order by fewer. */
  lemma {:induction false} SortedShorter(text: seq<byte>, limit: nat, fewer: nat, t: Tree)
    requires Sorted(text, limit, t) && fewer <= limit
    ensures Sorted(text, fewer, t)
  {
    if t.Node? {
      forall y | y in Nodes(t.left) ensures AtMost(text, y, t.x, fewer) {
        AtMostShorter(text, y, t.x, fewer, limit);
      }
      forall y | y in Nodes(t.right) ensures AtMost(text, t.x, y, fewer) {
        AtMostShorter(text, t.x, y, fewer, limit);
      }
      SortedShorter(text, limit, fewer, t.left);
      SortedShorter(text, limit, fewer, t.right);
    }
  }

  // ---------- Moving on ----------

  lemma SamePlaceNext(s: Space, limit: nat, x: nat)
    requires 0 < s.pos <= s.at + 1 && s.cyc < s.size && x < s.at && Live(NextSpace(s, limit), x)
    ensures Live(s, x) && RefOf(NextSpace(s, limit), x) == RefOf(s, x) && Pair(NextSpace(s, limit), x) == Pair(s, x)
  {
  }

  lemma {:induction false} ShowsNext(s: Space, limit: nat, son: seq<nat>, r: nat, t: Tree)
    requires 0 < s.pos <= s.at + 1 && s.cyc < s.size && |son| == 2 * s.size && Shows(s, son, r, t)
    ensures Shows(NextSpace(s, limit), son, r, Prune(t, First(NextSpace(s, limit))))
    decreases t
  {
    var s1 := NextSpace(s, limit);
    if t.Node? {
      LiveFromFirst(s1, t.x);
      if t.x >= First(s1) {
        SamePlaceNext(s, limit, t.x);
        ShowsNext(s, limit, son, son[Pair(s, t.x)], t.left);
        ShowsNext(s, limit, son, son[Pair(s, t.x) + 1], t.right);
      }
    }
  }

  /** The newly inserted position, seen from the next one. */
  lemma RootShowsNext(s: Space, limit: nat, son: seq<nat>, p: Parts)
    requires s.Valid() && s.size > 1 && |son| == 2 * s.size
    requires Shows(s, son, son[2 * s.cyc], p.less) && Shows(s, son, son[2 * s.cyc + 1], p.greater)
    ensures Shows(NextSpace(s, limit), son, s.pos, Prune(Node(s.at, p.less, p.greater), First(NextSpace(s, limit))))
  {
    ShowsNext(s, limit, son, son[2 * s.cyc], p.less);
    ShowsNext(s, limit, son, son[2 * s.cyc + 1], p.greater);
  }

  // ---------- All trees ----------

  ghost predicate TreeOk(s: Space, son: seq<nat>, r: nat, t: Tree)
    requires s.cyc < s.size && |son| == 2 * s.size
  {
    Shows(s, son, r, t) && Sorted(s.text, s.limit, t) && Aged(t, s.at)
  }

  /** The array shows every tree at its root, and no place is in two trees. */
  ghost predicate ForestOk(s: Space, son: seq<nat>, roots: seq<nat>, trees: seq<Tree>)
    requires s.cyc < s.size && |son| == 2 * s.size
  {
    && |roots| == |trees|
    && (forall h :: 0 <= h < |trees| ==> TreeOk(s, son, roots[h], trees[h]))
    && (forall g, h :: 0 <= g < h < |trees| ==> Nodes(trees[g]) !! Nodes(trees[h]))
  }

  /** All trees without the places before `first`. */
  function PruneAll(trees: seq<Tree>, first: nat): (r: seq<Tree>)
    ensures |r| == |trees| && forall h :: 0 <= h < |trees| ==> r[h] == Prune(trees[h], first)
  {
    seq(|trees|, h requires 0 <= h < |trees| => Prune(trees[h], first))
  }

  lemma TreeOkNext(s: Space, limit: nat, son: seq<nat>, r: nat, t: Tree)
    requires 0 < s.pos <= s.at + 1 && s.cyc < s.size && |son| == 2 * s.size && TreeOk(s, son, r, t) && limit <= s.limit
    ensures TreeOk(NextSpace(s, limit), son, r, Prune(t, First(NextSpace(s, limit))))
  {
    var first := First(NextSpace(s, limit));
    ShowsNext(s, limit, son, r, t);
    SortedShorter(s.text, s.limit, limit, t);
    AgedLater(t, s.at, s.at + 1);
    PruneKeeps(s.text, limit, t, first, s.at + 1);
  }

  /** Moving on without an insertion. */
  lemma ForestNext(s: Space, limit: nat, son: seq<nat>, roots: seq<nat>, trees: seq<Tree>)
    requires 0 < s.pos <= s.at + 1 && s.cyc < s.size && |son| == 2 * s.size && limit <= s.limit
    requires ForestOk(s, son, roots, trees)
    ensures ForestOk(NextSpace(s, limit), son, roots, PruneAll(trees, First(NextSpace(s, limit))))
  {
    hide TreeOk;
    var first := First(NextSpace(s, limit));
    forall h | 0 <= h < |trees| ensures TreeOk(NextSpace(s, limit), son, roots[h], PruneAll(trees, first)[h]) {
      TreeOkNext(s, limit, son, roots[h], trees[h]);
    }
    PruneApart(trees, first);
  }

  lemma PruneApart(trees: seq<Tree>, first: nat)
    requires forall g, h :: 0 <= g < h < |trees| ==> Nodes(trees[g]) !! Nodes(trees[h])
    ensures var r := PruneAll(trees, first); forall g, h :: 0 <= g < h < |r| ==> Nodes(r[g]) !! Nodes(r[h])
  {
    var r := PruneAll(trees, first);
    forall g, h | 0 <= g < h < |r| ensures Nodes(r[g]) !! Nodes(r[h]) {
      PruneNodes(trees[g], first);
      PruneNodes(trees[h], first);
    }
  }

  // ---------- Insertion ----------

  lemma OthersUntouched(s: Space, son: seq<nat>, son1: seq<nat>, curMatch: nat, nodes: set<nat>, p: Parts, r: nat, t: Tree)
    requires s.Valid() && |son| == 2 * s.size && TreeOk(s, son, r, t) && Nodes(t) !! nodes
    requires SplitIn(s, son, son1, FirstWalk(s, curMatch), nodes, p)
    ensures TreeOk(s, son1, r, t)
  {
    OwnPairOutside(s, Nodes(t));
    ShowsUntouched(s, son, son1, r, t, nodes, 2 * s.cyc + 1, 2 * s.cyc);
  }

  lemma InsertedOk(s: Space, limit: nat, son: seq<nat>, son1: seq<nat>, r: nat, t: Tree, cut: nat)
    requires s.Valid() && s.size > 1 && |son| == 2 * s.size && TreeOk(s, son, r, t) && limit <= s.limit
    requires SplitIn(s, son, son1, FirstWalk(s, r), Nodes(t), Split(s.text, s.limit, s.at, t, cut))
    ensures var t1 := Insert(s.text, s.limit, s.at, t, cut);
      && Nodes(t1) <= Nodes(t) + {s.at}
      && TreeOk(NextSpace(s, limit), son1, s.pos, Prune(t1, First(NextSpace(s, limit))))
  {
    hide Shows, Sorted, Aged, Split, Outside, Untouched, Prune;
    var t1, first := Insert(s.text, s.limit, s.at, t, cut), First(NextSpace(s, limit));
    InsertKeeps(s.text, s.limit, s.at, t, cut);
    OwnPairOutside(s, Nodes(t));
    RootShowsNext(s, limit, son1, Split(s.text, s.limit, s.at, t, cut));
    SortedShorter(s.text, s.limit, limit, t1);
    PruneKeeps(s.text, limit, t1, first, s.at + 1);
  }

  /** An insertion into one tree, and moving on: every tree is in order again. */
  lemma ForestInserted(s: Space, limit: nat, son: seq<nat>, son1: seq<nat>, roots: seq<nat>, trees: seq<Tree>, h: nat, cut: nat)
    requires s.Valid() && s.size > 1 && |son| == 2 * s.size && ForestOk(s, son, roots, trees) && h < |trees| && limit <= s.limit
    requires Sorted(s.text, s.limit, trees[h])
    requires SplitIn(s, son, son1, FirstWalk(s, roots[h]), Nodes(trees[h]), Split(s.text, s.limit, s.at, trees[h], cut))
    ensures ForestOk(NextSpace(s, limit), son1, roots[h := s.pos],
                     PruneAll(trees[h := Insert(s.text, s.limit, s.at, trees[h], cut)], First(NextSpace(s, limit))))
  {
    hide TreeOk, Sorted, Split, Insert, Prune, Nodes;
    var t1, first := Insert(s.text, s.limit, s.at, trees[h], cut), First(NextSpace(s, limit));
    var trees1, roots1 := trees[h := t1], roots[h := s.pos];
    assert TreeOk(s, son, roots[h], trees[h]);
    InsertedOk(s, limit, son, son1, roots[h], trees[h], cut);
    forall g | 0 <= g < |trees1| ensures TreeOk(NextSpace(s, limit), son1, roots1[g], PruneAll(trees1, first)[g]) {
      if g != h {
        assert TreeOk(s, son, roots[g], trees[g]);
        OthersUntouched(s, son, son1, roots[h], Nodes(trees[h]), Split(s.text, s.limit, s.at, trees[h], cut), roots[g], trees[g]);
        TreeOkNext(s, limit, son1, roots[g], trees[g]);
      }
    }
    forall f, g | 0 <= f < g < |trees1| ensures Nodes(trees1[f]) !! Nodes(trees1[g]) {
      NotCurrent(s, son, roots[f], trees[f]);
      NotCurrent(s, son, roots[g], trees[g]);
    }
    PruneApart(trees1, first);
  }

  lemma NotCurrent(s: Space, son: seq<nat>, r: nat, t: Tree)
    requires s.cyc < s.size && |son| == 2 * s.size && TreeOk(s, son, r, t)
    ensures s.at !in Nodes(t)
  {
    AgedNodes(t, s.at);
  }

  // ---------- Reducing the references ----------

  /** Subtraction that stops at zero, the empty reference. */
  function Saturated(r: nat, sub: nat): nat {
    if r < sub then 0 else r - sub
  }

  function SaturatedAll(refs: seq<nat>, sub: nat): (r: seq<nat>)
    ensures |r| == |refs| && forall i :: 0 <= i < |refs| ==> r[i] == Saturated(refs[i], sub)
  {
    seq(|refs|, i requires 0 <= i < |refs| => Saturated(refs[i], sub))
  }

  /** The current place after `MatchFinder_REDUCE_OFFSETS` with the largest amount that keeps the references in use. */
  function Reduced(s: Space): Space {
    s.(pos := s.size)
  }

  lemma SamePlaceReduced(s: Space, x: nat)
    requires s.size < s.pos <= s.at + 1 && s.cyc < s.size
    ensures Live(Reduced(s), x) <==> Live(s, x)
    ensures Live(s, x) ==> RefOf(Reduced(s), x) == Saturated(RefOf(s, x), s.pos - s.size) && Pair(Reduced(s), x) == Pair(s, x)
  {
  }

  /** A reference in use keeps its distance, and one that is too old reads as empty. */
  lemma RefsReduced(s: Space, r: nat)
    requires s.size < s.pos <= s.at + 1
    ensures var r1 := Saturated(r, s.pos - s.size);
      && (r < s.pos ==> (InUse(Reduced(s), r1) <==> InUse(s, r)))
      && (InUse(s, r) ==> Reduced(s).pos - r1 == s.pos - r && PlaceOf(Reduced(s), r1) == PlaceOf(s, r))
      && (r <= Lo(s) ==> r1 == 0)
  {
  }

  /** After the reduction the array shows the same trees. */
  lemma {:induction false} ShowsReduced(s: Space, son: seq<nat>, r: nat, t: Tree)
    requires s.size < s.pos <= s.at + 1 && s.cyc < s.size && |son| == 2 * s.size && Shows(s, son, r, t)
    ensures Shows(Reduced(s), SaturatedAll(son, s.pos - s.size), Saturated(r, s.pos - s.size), t)
    decreases t
  {
    if t.Node? {
      SamePlaceReduced(s, t.x);
      ShowsReduced(s, son, son[Pair(s, t.x)], t.left);
      ShowsReduced(s, son, son[Pair(s, t.x) + 1], t.right);
    }
  }

  lemma ForestReduced(s: Space, son: seq<nat>, roots: seq<nat>, trees: seq<Tree>)
    requires s.size < s.pos <= s.at + 1 && s.cyc < s.size && |son| == 2 * s.size && ForestOk(s, son, roots, trees)
    ensures ForestOk(Reduced(s), SaturatedAll(son, s.pos - s.size), SaturatedAll(roots, s.pos - s.size), trees)
  {
    hide Shows, Sorted, Aged;
    var sub := s.pos - s.size;
    forall h | 0 <= h < |trees| ensures TreeOk(Reduced(s), SaturatedAll(son, sub), SaturatedAll(roots, sub)[h], trees[h]) {
      assert TreeOk(s, son, roots[h], trees[h]);
      ShowsReduced(s, son, roots[h], trees[h]);
    }
  }
}
