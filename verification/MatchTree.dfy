/**
 The binary tree of the match finder as a value. A tree is sorted by suffix and ordered by
 position, children older than their parents. Searching for the longest match and inserting
 the current position at the root are one walk, which splits the tree.
 */
module MatchTree {
  import opened Bytes
  import opened Suffixes

  datatype Tree = Leaf | Node(x: nat, left: Tree, right: Tree)

  function Nodes(t: Tree): set<nat> {
    match t
    case Leaf => {}
    case Node(x, left, right) => {x} + Nodes(left) + Nodes(right)
  }

  ghost predicate NoneAfter(text: seq<byte>, limit: nat, s: set<nat>, x: nat) {
    forall y :: y in s ==> InText(text, y, x, limit) && AtMost(text, y, x, limit)
  }

  ghost predicate NoneBefore(text: seq<byte>, limit: nat, s: set<nat>, x: nat) {
    forall y :: y in s ==> InText(text, x, y, limit) && AtMost(text, x, y, limit)
  }

  /** In order by the first `limit` bytes of the suffixes. */
  ghost predicate Sorted(text: seq<byte>, limit: nat, t: Tree) {
    match t
    case Leaf => true
    case Node(x, left, right) =>
      && x + limit <= |text|
      && NoneAfter(text, limit, Nodes(left), x) && NoneBefore(text, limit, Nodes(right), x)
      && Sorted(text, limit, left) && Sorted(text, limit, right)
  }

  /** Every position is older than `bound`, and than its parent; none occurs twice. */
  ghost predicate Aged(t: Tree, bound: nat) {
    match t
    case Leaf => true
    case Node(x, left, right) =>
      x < bound && Aged(left, x) && Aged(right, x) && Nodes(left) !! Nodes(right)
  }

  lemma {:induction false} AgedNodes(t: Tree, bound: nat)
    requires Aged(t, bound)
    ensures forall y :: y in Nodes(t) ==> y < bound
  {
    if t.Node? {
      AgedNodes(t.left, t.x);
      AgedNodes(t.right, t.x);
    }
  }

  // ---------- The walk ----------

  datatype Parts = Parts(less: Tree, greater: Tree)

  /**
   The positions of `t` before and after the suffix at `cur`. A position that agrees in all
   `limit` bytes is dropped, as is everything below the `cut`-th level.
   */
  function Split(text: seq<byte>, limit: nat, cur: nat, t: Tree, cut: nat): Parts
    requires cur + limit <= |text| && Sorted(text, limit, t)
  {
    if t.Leaf? || cut == 0 then Parts(Leaf, Leaf)
    else
      match Compare(text, t.x, cur, limit)
      case Equal => Parts(t.left, t.right)
      case Smaller =>
        var p := Split(text, limit, cur, t.right, cut - 1);
        Parts(Node(t.x, t.left, p.less), p.greater)
      case Larger =>
        var p := Split(text, limit, cur, t.left, cut - 1);
        Parts(p.less, Node(t.x, p.greater, t.right))
  }

  /** A match: its length and its position. */
  datatype Found = Found(len: nat, x: nat)

  /** The matches met on the walk, each longer than all before it and than `best`. */
  function Search(text: seq<byte>, limit: nat, cur: nat, t: Tree, cut: nat, best: nat): seq<Found>
    requires cur + limit <= |text| && Sorted(text, limit, t)
  {
    if t.Leaf? || cut == 0 then []
    else
      var n := Common(text, t.x, cur, limit);
      var here, best1 := if best < n then [Found(n, t.x)] else [], if best < n then n else best;
      match Compare(text, t.x, cur, limit)
      case Equal => here
      case Smaller => here + Search(text, limit, cur, t.right, cut - 1, best1)
      case Larger => here + Search(text, limit, cur, t.left, cut - 1, best1)
  }

  /** The walk ends before the cut does. */
  predicate Finishes(text: seq<byte>, limit: nat, cur: nat, t: Tree, cut: nat)
    requires cur + limit <= |text| && Sorted(text, limit, t)
  {
    if t.Leaf? then true
    else if cut == 0 then false
    else
      match Compare(text, t.x, cur, limit)
      case Equal => true
      case Smaller => Finishes(text, limit, cur, t.right, cut - 1)
      case Larger => Finishes(text, limit, cur, t.left, cut - 1)
  }

  // ---------- Splitting ----------

  /** Where the walk goes on. */
  function Onwards(text: seq<byte>, limit: nat, cur: nat, t: Tree): Tree
    requires cur + limit <= |text| && Sorted(text, limit, t) && t.Node?
  {
    match Compare(text, t.x, cur, limit)
    case Equal => Leaf
    case Smaller => t.right
    case Larger => t.left
  }

  lemma {:induction false} SplitNodes(text: seq<byte>, limit: nat, cur: nat, t: Tree, cut: nat)
    requires cur + limit <= |text| && Sorted(text, limit, t)
    ensures var p := Split(text, limit, cur, t, cut);
      Nodes(p.less) <= Nodes(t) && Nodes(p.greater) <= Nodes(t)
    decreases cut
  {
    hide NoneAfter, NoneBefore, Compare;
    if t.Node? && cut > 0 {
      SplitNodes(text, limit, cur, Onwards(text, limit, cur, t), cut - 1);
    }
  }

  /** What is put to the left of the current suffix is not after it, and the other way round. */
  lemma {:induction false} SplitDivides(text: seq<byte>, limit: nat, cur: nat, t: Tree, cut: nat)
    requires cur + limit <= |text| && Sorted(text, limit, t)
    ensures var p := Split(text, limit, cur, t, cut);
      NoneAfter(text, limit, Nodes(p.less), cur) && NoneBefore(text, limit, Nodes(p.greater), cur)
    decreases cut
  {
    hide Compare;
    if t.Node? && cut > 0 {
      CompareReversed(text, t.x, cur, limit);
      var order := Compare(text, t.x, cur, limit);
      if order != Larger { StaysBefore(text, limit, Nodes(t.left), t.x, cur); }
      if order != Smaller { StaysAfter(text, limit, Nodes(t.right), t.x, cur); }
      SplitDivides(text, limit, cur, Onwards(text, limit, cur, t), cut - 1);
    }
  }

  lemma StaysBefore(text: seq<byte>, limit: nat, s: set<nat>, x: nat, cur: nat)
    requires NoneAfter(text, limit, s, x) && InText(text, x, cur, limit) && AtMost(text, x, cur, limit)
    ensures NoneAfter(text, limit, s, cur)
  {
    forall y | y in s ensures InText(text, y, cur, limit) && AtMost(text, y, cur, limit) {
      AtMostTransitive(text, y, x, cur, limit);
    }
  }

  lemma StaysAfter(text: seq<byte>, limit: nat, s: set<nat>, x: nat, cur: nat)
    requires NoneBefore(text, limit, s, x) && InText(text, cur, x, limit) && AtMost(text, cur, x, limit)
    ensures NoneBefore(text, limit, s, cur)
  {
    forall y | y in s ensures InText(text, cur, y, limit) && AtMost(text, cur, y, limit) {
      AtMostTransitive(text, cur, x, y, limit);
    }
  }

  /** Both parts are sorted and aged again, and they share no position. */
  lemma {:induction false} SplitKeeps(text: seq<byte>, limit: nat, cur: nat, t: Tree, cut: nat, bound: nat)
    requires cur + limit <= |text| && Sorted(text, limit, t) && Aged(t, bound)
    ensures var p := Split(text, limit, cur, t, cut);
      && Sorted(text, limit, p.less) && Sorted(text, limit, p.greater)
      && Aged(p.less, bound) && Aged(p.greater, bound) && Nodes(p.less) !! Nodes(p.greater)
    decreases cut
  {
    hide Compare, NoneAfter, NoneBefore;
    if t.Node? && cut > 0 {
      AgedLater(t.left, t.x, bound);
      AgedLater(t.right, t.x, bound);
      var next := Onwards(text, limit, cur, t);
      var p := Split(text, limit, cur, next, cut - 1);
      SplitNodes(text, limit, cur, next, cut - 1);
      SplitKeeps(text, limit, cur, next, cut - 1, t.x);
      AgedLater(p.less, t.x, bound);
      AgedLater(p.greater, t.x, bound);
      match Compare(text, t.x, cur, limit) {
        case Equal =>
        case Smaller => JoinLess(text, limit, t.x, t.left, p.less, p.greater, Nodes(t.right), bound);
        case Larger => JoinGreater(text, limit, t.x, p.less, p.greater, t.right, Nodes(t.left), bound);
      }
    }
  }

  lemma JoinLess(text: seq<byte>, limit: nat, x: nat, left: Tree, less: Tree, greater: Tree, all: set<nat>, bound: nat)
    requires x + limit <= |text| && x < bound && Sorted(text, limit, left) && Sorted(text, limit, less) && Aged(left, x) && Aged(less, x)
    requires NoneAfter(text, limit, Nodes(left), x) && NoneBefore(text, limit, all, x)
    requires Nodes(less) <= all && Nodes(greater) <= all && Nodes(left) !! all && Nodes(less) !! Nodes(greater)
    requires Aged(greater, x)
    ensures Sorted(text, limit, Node(x, left, less)) && Aged(Node(x, left, less), bound)
    ensures Nodes(Node(x, left, less)) !! Nodes(greater)
  {
    AgedNodes(greater, x);
    hide AtMost, InText;
  }

  lemma JoinGreater(text: seq<byte>, limit: nat, x: nat, less: Tree, greater: Tree, right: Tree, all: set<nat>, bound: nat)
    requires x + limit <= |text| && x < bound && Sorted(text, limit, right) && Sorted(text, limit, greater)
             && Aged(right, x) && Aged(greater, x)
    requires NoneBefore(text, limit, Nodes(right), x) && NoneAfter(text, limit, all, x)
    requires Nodes(less) <= all && Nodes(greater) <= all && Nodes(right) !! all && Nodes(less) !! Nodes(greater)
    requires Aged(less, x)
    ensures Sorted(text, limit, Node(x, greater, right)) && Aged(Node(x, greater, right), bound)
    ensures Nodes(Node(x, greater, right)) !! Nodes(less)
  {
    AgedNodes(less, x);
    hide AtMost, InText;
  }

  lemma {:induction false} AgedLater(t: Tree, bound: nat, later: nat)
    requires Aged(t, bound) && bound <= later
    ensures Aged(t, later)
  {
  }

  /** The tree after an insertion: the current position on top, what is older split below it. */
  function Insert(text: seq<byte>, limit: nat, cur: nat, t: Tree, cut: nat): Tree
    requires cur + limit <= |text| && Sorted(text, limit, t)
  {
    var p := Split(text, limit, cur, t, cut);
    Node(cur, p.less, p.greater)
  }

  /** An insertion keeps the tree sorted by suffix and ordered by age. */
  lemma InsertKeeps(text: seq<byte>, limit: nat, cur: nat, t: Tree, cut: nat)
    requires cur + limit <= |text| && Sorted(text, limit, t) && Aged(t, cur)
    ensures var r := Insert(text, limit, cur, t, cut);
      Sorted(text, limit, r) && Aged(r, cur + 1) && Nodes(r) <= Nodes(t) + {cur}
  {
    SplitKeeps(text, limit, cur, t, cut, cur);
    SplitDivides(text, limit, cur, t, cut);
    SplitNodes(text, limit, cur, t, cut);
  }

  // ---------- Searching ----------

  /** The matches are true, longer and longer, farther and farther. */
  ghost predicate TrueMatches(text: seq<byte>, limit: nat, cur: nat, nodes: set<nat>, best: nat, found: seq<Found>) {
    && (forall i :: 0 <= i < |found| ==>
          && found[i].x in nodes && best < found[i].len
          && InText(text, found[i].x, cur, limit) && found[i].len == Common(text, found[i].x, cur, limit))
    && (forall i, j :: 0 <= i < j < |found| ==> found[i].len < found[j].len && found[i].x > found[j].x)
  }

  lemma SearchUnfolds(text: seq<byte>, limit: nat, cur: nat, t: Tree, cut: nat, best: nat)
    requires cur + limit <= |text| && Sorted(text, limit, t) && t.Node? && cut > 0
    ensures var n := Common(text, t.x, cur, limit);
      var here, best1 := if best < n then [Found(n, t.x)] else [], if best < n then n else best;
      Search(text, limit, cur, t, cut, best) == here + Search(text, limit, cur, Onwards(text, limit, cur, t), cut - 1, best1)
  {
    hide Compare, NoneAfter, NoneBefore;
  }

  lemma {:induction false} SearchIsTrue(text: seq<byte>, limit: nat, cur: nat, t: Tree, cut: nat, best: nat, bound: nat)
    requires cur + limit <= |text| && Sorted(text, limit, t) && Aged(t, bound)
    ensures TrueMatches(text, limit, cur, Nodes(t), best, Search(text, limit, cur, t, cut, best))
    ensures forall f :: f in Search(text, limit, cur, t, cut, best) ==> f.x < bound
    decreases cut
  {
    hide Compare, NoneAfter, NoneBefore, TrueMatches;
    if t.Node? && cut > 0 {
      var n, next := Common(text, t.x, cur, limit), Onwards(text, limit, cur, t);
      var here, best1 := if best < n then [Found(n, t.x)] else [], if best < n then n else best;
      SearchUnfolds(text, limit, cur, t, cut, best);
      SearchIsTrue(text, limit, cur, next, cut - 1, best1, t.x);
      MatchesJoin(text, limit, cur, Nodes(t), Nodes(next), best, best1, t.x, n, here, Search(text, limit, cur, next, cut - 1, best1));
    } else {
      assert TrueMatches(text, limit, cur, Nodes(t), best, []) by { NoMatches(text, limit, cur, Nodes(t), best); }
    }
  }

  lemma NoMatches(text: seq<byte>, limit: nat, cur: nat, nodes: set<nat>, best: nat)
    ensures TrueMatches(text, limit, cur, nodes, best, [])
  {
  }

  lemma MatchesJoin(text: seq<byte>, limit: nat, cur: nat, nodes: set<nat>, below: set<nat>, best: nat, best1: nat,
                    x: nat, n: nat, here: seq<Found>, rest: seq<Found>)
    requires InText(text, x, cur, limit) && n == Common(text, x, cur, limit) && x in nodes && below <= nodes
    requires if best < n then here == [Found(n, x)] && best1 == n else here == [] && best1 == best
    requires TrueMatches(text, limit, cur, below, best1, rest) && forall f :: f in rest ==> f.x < x
    ensures TrueMatches(text, limit, cur, nodes, best, here + rest)
  {
    hide Common;
    if here == [] { assert here + rest == rest; }
  }

  /**
   What the walk does not enter is beaten: every position of the tree agrees with the current
   one in no more bytes than some position met, and not younger, does.
   */
  ghost predicate Beaten(text: seq<byte>, limit: nat, cur: nat, best: nat, found: seq<Found>, y: nat)
    requires InText(text, y, cur, limit)
  {
    var n := Common(text, y, cur, limit);
    n <= best || exists i :: 0 <= i < |found| && found[i].len >= n && found[i].x >= y
  }

  lemma {:induction false} SearchBeatsAll(text: seq<byte>, limit: nat, cur: nat, t: Tree, cut: nat, best: nat, bound: nat, y: nat)
    requires cur + limit <= |text| && Sorted(text, limit, t) && Aged(t, bound) && y in Nodes(t)
    requires Finishes(text, limit, cur, t, cut)
    ensures InText(text, y, cur, limit) && Beaten(text, limit, cur, best, Search(text, limit, cur, t, cut, best), y)
    decreases cut
  {
    hide Compare, NoneAfter, NoneBefore, Beaten;
    var n, next := Common(text, t.x, cur, limit), Onwards(text, limit, cur, t);
    var here, best1 := if best < n then [Found(n, t.x)] else [], if best < n then n else best;
    var rest := Search(text, limit, cur, next, cut - 1, best1);
    SearchUnfolds(text, limit, cur, t, cut, best);
    if y in Nodes(next) {
      SearchBeatsAll(text, limit, cur, next, cut - 1, best1, t.x, y);
      AgedNodes(next, t.x);
      BeatenLater(text, limit, cur, best, best1, here, rest, y, n, t.x);
    } else {
      AgedNodes(t.left, t.x);
      AgedNodes(t.right, t.x);
      if y != t.x { AsideAgreesLess(text, limit, cur, t, y); }
      BeatenHere(text, limit, cur, best, here, rest, y, n, t.x);
    }
  }

  /** The length of the last match, or `best` when there is none */
  function Longest(found: seq<Found>, best: nat): nat {
    if found == [] then best else found[|found| - 1].len
  }

  /** `y` agrees in no more bytes than the last match, and is not nearer than a match of at most its length. */
  ghost predicate NoBetter(text: seq<byte>, limit: nat, cur: nat, best: nat, found: seq<Found>, y: nat) {
    && InText(text, y, cur, limit) && Common(text, y, cur, limit) <= Longest(found, best)
    && forall i :: 0 <= i < |found| && found[i].len <= Common(text, y, cur, limit) ==> y <= found[i].x
  }

  /**
   When the cut does not end the walk, the last match is the longest in the whole tree, and every
   match reported is the nearest of its length or more.
   */
  lemma SearchFindsBest(text: seq<byte>, limit: nat, cur: nat, t: Tree, cut: nat, best: nat, bound: nat)
    requires cur + limit <= |text| && Sorted(text, limit, t) && Aged(t, bound) && Finishes(text, limit, cur, t, cut)
    ensures forall y :: y in Nodes(t) ==> NoBetter(text, limit, cur, best, Search(text, limit, cur, t, cut, best), y)
  {
    hide Search, Finishes, Sorted, Aged, Nodes, NoBetter;
    var found := Search(text, limit, cur, t, cut, best);
    SearchIsTrue(text, limit, cur, t, cut, best, bound);
    forall y | y in Nodes(t) ensures NoBetter(text, limit, cur, best, found, y) {
      SearchBeatsAll(text, limit, cur, t, cut, best, bound, y);
      BeatenIsNoBetter(text, limit, cur, Nodes(t), best, found, y);
    }
  }

  lemma BeatenIsNoBetter(text: seq<byte>, limit: nat, cur: nat, nodes: set<nat>, best: nat, found: seq<Found>, y: nat)
    requires TrueMatches(text, limit, cur, nodes, best, found)
    requires InText(text, y, cur, limit) && Beaten(text, limit, cur, best, found, y)
    ensures NoBetter(text, limit, cur, best, found, y)
  {
    hide Common, InText;
    var n := Common(text, y, cur, limit);
    if n > best {
      var j :| 0 <= j < |found| && found[j].len >= n && found[j].x >= y;
      assert j < |found| - 1 ==> found[j].len < found[|found| - 1].len;
      forall i | 0 <= i < |found| && found[i].len <= n ensures y <= found[i].x {
        assert i <= j;
      }
    }
  }

  lemma BeatenHere(text: seq<byte>, limit: nat, cur: nat, best: nat, here: seq<Found>, rest: seq<Found>, y: nat, n: nat, x: nat)
    requires InText(text, y, cur, limit) && Common(text, y, cur, limit) <= n && y <= x
    requires best < n ==> here == [Found(n, x)]
    ensures Beaten(text, limit, cur, best, here + rest, y)
  {
    assert best < n ==> (here + rest)[0] == Found(n, x);
  }

  lemma BeatenLater(text: seq<byte>, limit: nat, cur: nat, best: nat, best1: nat, here: seq<Found>, rest: seq<Found>,
                    y: nat, n: nat, x: nat)
    requires InText(text, y, cur, limit) && Beaten(text, limit, cur, best1, rest, y) && y <= x
    requires if best < n then here == [Found(n, x)] && best1 == n else here == [] && best1 == best
    ensures Beaten(text, limit, cur, best, here + rest, y)
  {
    var c, found := Common(text, y, cur, limit), here + rest;
    if best < c {
      if c <= best1 {
        assert found[0] == Found(n, x);
      } else {
        var i :| 0 <= i < |rest| && rest[i].len >= c && rest[i].x >= y;
        assert found[|here| + i] == rest[i];
      }
    }
  }

  /** On the side the walk leaves aside, nothing agrees with the current suffix in more bytes. */
  lemma AsideAgreesLess(text: seq<byte>, limit: nat, cur: nat, t: Tree, y: nat)
    requires cur + limit <= |text| && t.Node? && Sorted(text, limit, t)
    requires y in Nodes(t) && y != t.x && y !in Nodes(Onwards(text, limit, cur, t))
    ensures InText(text, y, cur, limit) && Common(text, y, cur, limit) <= Common(text, t.x, cur, limit)
  {
    CompareReversed(text, t.x, cur, limit);
    CommonSymmetric(text, t.x, cur, limit);
    match Compare(text, t.x, cur, limit)
    case Equal =>
    case Smaller =>
      AtMostTransitive(text, y, t.x, cur, limit);
    case Larger =>
      AtMostTransitive(text, cur, t.x, y, limit);
      CommonSymmetric(text, cur, y, limit);
  }
}
