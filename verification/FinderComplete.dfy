/**
 What the match finder does not miss, stated on the data alone: in every run, every earlier place in
 reach that repeats the next four bytes is served, unless some walk ran out of passes; and so are
 the latest places that repeat two or three bytes, unless a collision has taken their place.
 */
module FinderComplete {

  import opened Bytes
  import opened Suffixes
  import opened MatchTree
  import opened Forest
  import opened Hashes
  import opened FinderSpec

  // ---------- The trees ----------

  /** An insertion loses nothing but what the new place stands for. */
  lemma {:induction false} SplitHolds(text: seq<byte>, limit: nat, cur: nat, t: Tree, cut: nat, z: nat)
    requires cur + limit <= |text| && Sorted(text, limit, t) && Finishes(text, limit, cur, t, cut) && z in Nodes(t)
    ensures var p := Split(text, limit, cur, t, cut);
            z in Nodes(p.less) || z in Nodes(p.greater) || (z + limit <= |text| && Agree(text, z, cur, limit))
    decreases cut
  {
    hide NoneAfter, NoneBefore, Agree, Common;
    var order := Compare(text, t.x, cur, limit);
    if order == Equal {
      CommonAgrees(text, t.x, cur, limit);
    } else {
      var next := Onwards(text, limit, cur, t);
      if z in Nodes(next) {
        SplitHolds(text, limit, cur, next, cut - 1, z);
      }
    }
  }

  /** Pruning by age loses nothing that is young enough. */
  lemma {:induction false} PruneHolds(t: Tree, first: nat, bound: nat, z: nat)
    requires Aged(t, bound) && z in Nodes(t) && z >= first
    ensures z in Nodes(Prune(t, first))
  {
    if z != t.x {
      AgedNodes(t.left, t.x);
      AgedNodes(t.right, t.x);
      if z in Nodes(t.left) {
        PruneHolds(t.left, first, t.x, z);
      } else {
        PruneHolds(t.right, first, t.x, z);
      }
    }
  }

  /** The place `z` of the tree stands for `y`: it is not older and repeats whatever can still be asked for. */
  ghost predicate StandsFor(su: Setup, at: nat, t: Tree, y: nat, z: nat) {
    z in Nodes(t) && y <= z && Agree(su.data, y, z, Limit(su, at))
  }

  ghost predicate Kept(su: Setup, at: nat, t: Tree, y: nat) {
    exists z :: StandsFor(su, at, t, y, z)
  }

  /** A place that has been entered and is in reach */
  predicate Entered(su: Setup, at: nat, y: nat) {
    Oldest(su, at) <= y < at && y + 4 <= |su.data|
  }

  ghost predicate TreesComplete(su: Setup, st: State)
    requires su.Valid() && |st.trees| == su.hashSize
  {
    forall y :: Entered(su, st.at, y) ==> Kept(su, st.at, st.trees[Hash4(su.crc, su.data, y, su.hashSize)], y)
  }

  /** The walk at this position does not run out of passes. */
  ghost predicate RunsThrough(su: Setup, st: State)
    requires su.Valid() && Ok(su, st)
  {
    Limit(su, st.at) >= 4 ==>
      OkTree(su, st, Hash4(su.crc, su.data, st.at, su.hashSize))
      && Finishes(su.data, Limit(su, st.at), st.at, st.trees[Hash4(su.crc, su.data, st.at, su.hashSize)], su.cut)
  }

  ghost predicate OkTree(su: Setup, st: State, h: nat)
    requires su.Valid() && h < su.hashSize
  {
    h < |st.trees| && st.at + Limit(su, st.at) <= |su.data| && TreeFits(su, st.at, st.trees[h])
  }

  /** The places in reach are those less than `size` behind. */
  lemma InReach(su: Setup, n: nat, y: nat)
    requires y < n && su.size > 1
    ensures Oldest(su, n) <= y <==> n - y < su.size
  {
  }

  lemma LimitShrinks(su: Setup, at: nat)
    ensures Limit(su, at + 1) <= Limit(su, at) && (at < |su.data| ==> at + Limit(su, at) <= |su.data|)
    ensures su.maxLen >= 4 ==> (Limit(su, at) >= 4 <==> at + 4 <= |su.data|)
  {
  }

  /** In another tree, or at the end of the data, what stands for `y` stays. */
  lemma KeptAside(su: Setup, at: nat, t: Tree, y: nat)
    requires Aged(t, at) && Kept(su, at, t, y) && Oldest(su, at + 1) <= y
    ensures Kept(su, at + 1, Prune(t, Oldest(su, at + 1)), y)
  {
    LimitShrinks(su, at);
    hide Limit, Oldest, Aged, Nodes;
    var z: nat :| StandsFor(su, at, t, y, z);
    PruneHolds(t, Oldest(su, at + 1), at, z);
    assert StandsFor(su, at + 1, Prune(t, Oldest(su, at + 1)), y, z);
  }

  /** In the tree that the new place is put into, it stays or the new place stands for it. */
  lemma KeptInserted(su: Setup, at: nat, t: Tree, y: nat)
    requires at < |su.data| && TreeFits(su, at, t) && Kept(su, at, t, y) && Oldest(su, at + 1) <= y
    requires at + Limit(su, at) <= |su.data| && Finishes(su.data, Limit(su, at), at, t, su.cut)
    ensures Kept(su, at + 1, Prune(Insert(su.data, Limit(su, at), at, t, su.cut), Oldest(su, at + 1)), y)
  {
    LimitShrinks(su, at);
    hide Limit, Oldest, Split, Sorted, Finishes, Prune;
    var limit := Limit(su, at);
    var z: nat :| StandsFor(su, at, t, y, z);
    var t1 := Insert(su.data, limit, at, t, su.cut);
    AgedNodes(t, at);
    InsertKeeps(su.data, limit, at, t, su.cut);
    SplitHolds(su.data, limit, at, t, su.cut, z);
    var z1 := if z in Nodes(t1) then z else at;
    assert Agree(su.data, y, z1, Limit(su, at + 1)) by {
      if z1 == at {
        AgreeOn(su.data, y, z, at, limit);
      }
    }
    PruneHolds(t1, Oldest(su, at + 1), at + 1, z1);
    assert StandsFor(su, at + 1, Prune(t1, Oldest(su, at + 1)), y, z1);
  }

  lemma AgreeOn(text: seq<byte>, a: nat, b: nat, c: nat, n: nat)
    requires Agree(text, a, b, n) && Agree(text, b, c, n)
    ensures Agree(text, a, c, n)
  {
    forall k | 0 <= k < n ensures SameAt(text, a, c, k) {
      assert SameAt(text, a, b, k) && SameAt(text, b, c, k);
    }
  }

  /** The new place itself is the root of its tree. */
  lemma NewIsKept(su: Setup, at: nat, t: Tree)
    requires su.Valid() && at + Limit(su, at) <= |su.data| && TreeFits(su, at, t) && at < |su.data|
    ensures Kept(su, at + 1, Prune(Insert(su.data, Limit(su, at), at, t, su.cut), Oldest(su, at + 1)), at)
  {
    OldestGrows(su, at);
    LimitShrinks(su, at);
    LimitShrinks(su, at + 1);
    hide Limit, Oldest, Split, Sorted;
    var r := Prune(Insert(su.data, Limit(su, at), at, t, su.cut), Oldest(su, at + 1));
    AgreeWithSelf(su, at);
    assert StandsFor(su, at + 1, r, at, at);
  }

  lemma AgreeWithSelf(su: Setup, at: nat)
    requires at < |su.data|
    ensures Agree(su.data, at, at, Limit(su, at + 1))
  {
  }

  /** The tree of a hash after the next position */
  lemma NextTree(su: Setup, st: State, h: nat)
    requires su.Valid() && HeadsFit(su, st) && st.at < |su.data| && h < su.hashSize
    ensures Limit(su, st.at) >= 4 ==> st.at + 4 <= |su.data|
    ensures Next(su, st).trees[h] ==
      Prune(if Limit(su, st.at) >= 4 && h == Hash4(su.crc, su.data, st.at, su.hashSize)
            then Insert(su.data, Limit(su, st.at), st.at, st.trees[h], su.cut) else st.trees[h],
            Oldest(su, st.at + 1))
  {
    LimitShrinks(su, st.at);
    hide Limit, Oldest, Prune, Insert, Hash2, Hash3, Hash4, Sorted, Expire;
  }

  /** What stands for `y` in its tree after the next position */
  lemma StaysKept(su: Setup, st: State, y: nat)
    requires su.Valid() && Ok(su, st) && st.at < |su.data| && TreesComplete(su, st) && RunsThrough(su, st)
    requires HeadsFit(su, st) && Entered(su, st.at + 1, y)
    ensures var h := Hash4(su.crc, su.data, y, su.hashSize); Kept(su, st.at + 1, Next(su, st).trees[h], y)
  {
    OldestGrows(su, st.at);
    LimitShrinks(su, st.at);
    hide Limit, Oldest, Kept, Prune, Insert, HeadsFit, Finishes, Hash2, Hash3, Hash4, Sorted, Aged, Expire, Next;
    var h, at := Hash4(su.crc, su.data, y, su.hashSize), st.at;
    var t := st.trees[h];
    assert TreeFits(su, at, t);
    NextTree(su, st, h);
    if y == at {
      NewIsKept(su, at, t);
    } else {
      assert Entered(su, at, y);
      if Limit(su, at) >= 4 && h == Hash4(su.crc, su.data, at, su.hashSize) {
        KeptInserted(su, at, t, y);
      } else {
        KeptAside(su, at, t, y);
      }
    }
  }

  lemma TreesStayComplete(su: Setup, st: State)
    requires su.Valid() && Ok(su, st) && st.at < |su.data| && TreesComplete(su, st) && RunsThrough(su, st)
    ensures HeadsFit(su, st) && TreesComplete(su, Next(su, st))
  {
    OkFits(su, st);
    hide Limit, Kept, Prune, Insert, HeadsFit, RunsThrough, Hash2, Hash3, Hash4, Ok, Entered;
    forall y: nat | Entered(su, st.at + 1, y)
      ensures Kept(su, st.at + 1, Next(su, st).trees[Hash4(su.crc, su.data, y, su.hashSize)], y)
    {
      StaysKept(su, st, y);
    }
  }

  // ---------- The heads ----------

  /** The head is a place entered not before `y`. */
  predicate NotBefore(head: Head, y: nat) {
    head.HeadAt? && head.x >= y
  }

  ghost predicate HeadsComplete(su: Setup, st: State)
    requires su.Valid() && |st.heads2| == 0x400 && |st.heads3| == 0x1_0000
  {
    forall y :: Entered(su, st.at, y) ==>
      && NotBefore(st.heads2[Hash2(su.crc, su.data, y)], y)
      && NotBefore(st.heads3[Hash3(su.crc, su.data, y)], y)
  }

  lemma HeadsStayComplete(su: Setup, st: State)
    requires su.Valid() && Ok(su, st) && st.at < |su.data| && HeadsComplete(su, st)
    ensures HeadsFit(su, st) && HeadsComplete(su, Next(su, st))
  {
    OkFits(su, st);
    OldestGrows(su, st.at);
    LimitShrinks(su, st.at);
    hide Limit, Oldest, Prune, Insert, HeadsFit, Hash2, Hash3, Hash4, Sorted, TreeFits;
    var st1 := Next(su, st);
    forall y: nat | Entered(su, st1.at, y)
      ensures NotBefore(st1.heads2[Hash2(su.crc, su.data, y)], y) && NotBefore(st1.heads3[Hash3(su.crc, su.data, y)], y)
    {
      if y < st.at {
        assert Entered(su, st.at, y);
      }
    }
  }

  // ---------- Whole runs ----------

  /** No walk of the first `n` positions has run out of passes. */
  ghost predicate NeverRanOut(su: Setup, n: nat)
    requires su.Valid() && n <= |su.data|
  {
    forall m :: 0 <= m < n ==> RunsThrough(su, After(su, m))
  }

  lemma {:induction false} AfterIsComplete(su: Setup, n: nat)
    requires su.Valid() && n <= |su.data|
    ensures HeadsComplete(su, After(su, n))
    ensures NeverRanOut(su, n) ==> TreesComplete(su, After(su, n))
  {
    hide Ok, RunsThrough, Next, TreesComplete, HeadsComplete;
    if n == 0 {
      NothingEntered(su);
    } else {
      AfterIsComplete(su, n - 1);
      HeadsStayComplete(su, After(su, n - 1));
      if NeverRanOut(su, n) {
        assert NeverRanOut(su, n - 1);
        TreesStayComplete(su, After(su, n - 1));
      }
    }
  }

  lemma NothingEntered(su: Setup)
    requires su.Valid()
    ensures HeadsComplete(su, Start(su)) && TreesComplete(su, Start(su))
  {
  }

  /** A walk goes to older and older places, so that as many passes as there are places are enough. */
  lemma {:induction false} PassesSuffice(text: seq<byte>, limit: nat, cur: nat, t: Tree, cut: nat, bound: nat)
    requires cur + limit <= |text| && Sorted(text, limit, t) && Aged(t, bound) && bound <= cut
    ensures Finishes(text, limit, cur, t, cut)
    decreases cut
  {
    hide Compare, NoneAfter, NoneBefore;
    if t.Node? {
      PassesSuffice(text, limit, cur, Onwards(text, limit, cur, t), cut - 1, t.x);
    }
  }

  lemma EnoughPasses(su: Setup)
    requires su.Valid() && su.cut >= |su.data|
    ensures NeverRanOut(su, |su.data|)
  {
    hide Finishes, Sorted, Aged, Hash4, After;
    forall m: nat | m < |su.data| ensures RunsThrough(su, After(su, m)) {
      var st := After(su, m);
      LimitShrinks(su, m);
      if Limit(su, m) >= 4 {
        var t := st.trees[Hash4(su.crc, su.data, m, su.hashSize)];
        assert TreeFits(su, m, t);
        PassesSuffice(su.data, Limit(su, m), m, t, su.cut, m);
      }
    }
  }

  // ---------- What is served ----------

  /** The next `k` bytes are repeated at `y`. */
  ghost predicate Repeats(su: Setup, n: nat, y: nat, k: nat) {
    y < n && n + k <= |su.data| && Agree(su.data, y, n, k)
  }

  /** Equal bytes have equal hashes. */
  lemma SameHashes(su: Setup, n: nat, y: nat, k: nat)
    requires su.Valid() && Repeats(su, n, y, k)
    ensures k >= 2 ==> Hash2(su.crc, su.data, y) == Hash2(su.crc, su.data, n)
    ensures k >= 3 ==> Hash3(su.crc, su.data, y) == Hash3(su.crc, su.data, n)
    ensures k >= 4 ==> Hash4(su.crc, su.data, y, su.hashSize) == Hash4(su.crc, su.data, n, su.hashSize)
  {
    if k >= 2 { assert SameAt(su.data, y, n, 0) && SameAt(su.data, y, n, 1); }
    if k >= 3 { assert SameAt(su.data, y, n, 2); }
    if k >= 4 { assert SameAt(su.data, y, n, 3); }
    hide Xor;
  }

  lemma CommonAtLeast(text: seq<byte>, a: nat, b: nat, limit: nat, k: nat)
    requires InText(text, a, b, limit) && k <= limit && Agree(text, a, b, k)
    ensures Common(text, a, b, limit) >= k
  {
    var c := Common(text, a, b, limit);
    assert c < k ==> SameAt(text, a, b, c);
  }

  lemma CommonOfSame(text: seq<byte>, y: nat, z: nat, n: nat, limit: nat)
    requires InText(text, y, n, limit) && InText(text, z, n, limit) && Agree(text, y, z, limit)
    ensures Common(text, y, n, limit) == Common(text, z, n, limit)
  {
    var c := Common(text, y, n, limit);
    CommonAgrees(text, y, n, limit);
    forall k | 0 <= k < c ensures SameAt(text, z, n, k) {
      assert SameAt(text, y, n, k) && SameAt(text, y, z, k);
    }
    if c < limit { assert SameAt(text, y, z, c); }
    CommonIs(text, z, n, limit, c);
  }

  /** Some match reported at `n` is at least as long as the one with `y`, and not farther away. */
  ghost predicate Served(su: Setup, n: nat, d: seq<(nat, nat)>, y: nat) {
    && y < n && n + Limit(su, n) <= |su.data|
    && exists i :: 0 <= i < |d| && Serves(d[i], Common(su.data, y, n, Limit(su, n)), n - y - 1)
  }

  lemma ServedInFront(su: Setup, n: nat, a: seq<(nat, nat)>, b: seq<(nat, nat)>, y: nat)
    requires Served(su, n, a, y)
    ensures Served(su, n, a + b, y)
  {
    hide Common;
    var i :| 0 <= i < |a| && Serves(a[i], Common(su.data, y, n, Limit(su, n)), n - y - 1);
    assert (a + b)[i] == a[i];
  }

  /** A match that the heads give serves every older place that repeats no more bytes. */
  lemma HeadServes(su: Setup, at: nat, h2: Head, h3: Head, y: nat)
    requires 4 <= Limit(su, at) && at + Limit(su, at) <= |su.data| && y < at
    requires (h2.HeadAt? ==> h2.x < at) && (h3.HeadAt? ==> h3.x < at) && NotBefore(h2, y) && NotBefore(h3, y)
    requires var p := FromHeads(su, at, Limit(su, at), h2, h3); 4 <= Common(su.data, y, at, Limit(su, at)) <= p.best
    ensures Served(su, at, FromHeads(su, at, Limit(su, at), h2, h3).found, y)
  {
    hide Common, CommonFrom, Limit;
    var d := FromHeads(su, at, Limit(su, at), h2, h3).found;
    assert Serves(d[|d| - 1], Common(su.data, y, at, Limit(su, at)), at - y - 1);
  }

  /**
   In every run in which no walk ran out of passes: every place in reach that repeats the next four
   bytes is served by what is reported.
   */
  lemma FourBytesAreServed(su: Setup, n: nat, y: nat)
    requires su.Valid() && n < |su.data| && NeverRanOut(su, n + 1)
    requires Repeats(su, n, y, 4) && n - y < su.size
    ensures HeadsFit(su, After(su, n)) && Served(su, n, Matches(su, After(su, n)), y)
  {
    var st, limit := After(su, n), Limit(su, n);
    LimitShrinks(su, n);
    OkFits(su, st);
    assert NeverRanOut(su, n) && RunsThrough(su, st);
    AfterIsComplete(su, n);
    SameHashes(su, n, y, 4);
    InReach(su, n, y);
    CommonAtLeast(su.data, y, n, limit, 4);
    HeadsAreTrue(su, st);
    hide After, Limit, Oldest, Common, Hash2, Hash3, Hash4, FromHeads, Search, Finishes, Sorted, Ok, HeadsFit, Agree;
    assert Entered(su, n, y);
    var p := FromHeads(su, n, limit, st.heads2[Hash2(su.crc, su.data, n)], st.heads3[Hash3(su.crc, su.data, n)]);
    if Common(su.data, y, n, limit) <= p.best {
      HeadServes(su, n, st.heads2[Hash2(su.crc, su.data, n)], st.heads3[Hash3(su.crc, su.data, n)], y);
      if !p.done {
        ServedInFront(su, n, p.found, Matches(su, st)[|p.found|..], y);
        assert p.found + Matches(su, st)[|p.found|..] == Matches(su, st);
      }
    } else {
      TreeServes(su, st, y);
    }
  }

  lemma TreeServes(su: Setup, st: State, y: nat)
    requires su.Valid() && Ok(su, st) && HeadsFit(su, st) && 4 <= Limit(su, st.at) && st.at + Limit(su, st.at) <= |su.data|
    requires RunsThrough(su, st) && TreesComplete(su, st) && Entered(su, st.at, y) && y < st.at
    requires Hash4(su.crc, su.data, y, su.hashSize) == Hash4(su.crc, su.data, st.at, su.hashSize)
    requires var p := FromHeads(su, st.at, Limit(su, st.at), st.heads2[Hash2(su.crc, su.data, st.at)], st.heads3[Hash3(su.crc, su.data, st.at)]);
             Common(su.data, y, st.at, Limit(su, st.at)) > p.best
    ensures Served(su, st.at, Matches(su, st), y)
  {
    hide Limit, Oldest, Common, Hash2, Hash3, Hash4, FromHeads, Matches, Finishes, Sorted, Nodes;
    var at, limit := st.at, Limit(su, st.at);
    var t := st.trees[Hash4(su.crc, su.data, at, su.hashSize)];
    assert TreeFits(su, at, t);
    assert Kept(su, at, t, y);
    var z: nat :| StandsFor(su, at, t, y, z);
    AgedNodes(t, at);
    CommonOfSame(su.data, y, z, at, limit);
    EveryPlaceIsServed(su, st, z);
  }

  // ---------- The short hashes ----------

  /** No place entered after `y` has taken its place among the heads of two bytes. */
  ghost predicate LastOfPair(su: Setup, n: nat, y: nat)
    requires su.Valid() && n + 4 <= |su.data|
  {
    forall x :: y < x < n ==> Hash2(su.crc, su.data, x) != Hash2(su.crc, su.data, n)
  }

  ghost predicate LastOfTriple(su: Setup, n: nat, y: nat)
    requires su.Valid() && n + 4 <= |su.data|
  {
    forall x :: y < x < n ==> Hash3(su.crc, su.data, x) != Hash3(su.crc, su.data, n)
  }

  /** The heads that are asked at `n` are the last places with the same hash. */
  lemma HeadsAreLast(su: Setup, st: State, y: nat, k: nat)
    requires su.Valid() && Ok(su, st) && HeadsComplete(su, st) && st.at + 4 <= |su.data| && 2 <= k <= 3
    requires Oldest(su, st.at) <= y && Repeats(su, st.at, y, k)
    ensures NotBefore(st.heads2[Hash2(su.crc, su.data, st.at)], y) && Entered(su, st.at, y)
    ensures LastOfPair(su, st.at, y) ==> st.heads2[Hash2(su.crc, su.data, st.at)] == HeadAt(y)
    ensures k == 3 && LastOfTriple(su, st.at, y) ==> st.heads3[Hash3(su.crc, su.data, st.at)] == HeadAt(y)
  {
    hide Hash2, Hash3, Oldest, TreeFits, Agree;
    var h, g := Hash2(su.crc, su.data, st.at), Hash3(su.crc, su.data, st.at);
    SameHashes(su, st.at, y, k);
    assert Entered(su, st.at, y);
    assert HeadOk2(su, st.at, h, st.heads2[h]) && HeadOk3(su, st.at, g, st.heads3[g]);
  }

  /**
   The latest place in reach that repeats the next two bytes is served, or a later place with the same
   hash and other bytes has taken its place.
   */
  lemma PairIsServed(su: Setup, n: nat, y: nat)
    requires su.Valid() && n + 4 <= |su.data| && Repeats(su, n, y, 2) && n - y < su.size && LastOfPair(su, n, y)
    ensures HeadsFit(su, After(su, n)) && Served(su, n, Matches(su, After(su, n)), y)
  {
    var st := After(su, n);
    LimitShrinks(su, n);
    OkFits(su, st);
    AfterIsComplete(su, n);
    HeadsAreTrue(su, st);
    InReach(su, n, y);
    hide After, Limit, Oldest, Hash2, Hash3, Hash4, Search, Sorted, Ok, HeadsFit, LastOfPair, HeadsComplete;
    HeadsAreLast(su, st, y, 2);
    PairServes(su, n, st.heads2[Hash2(su.crc, su.data, n)], st.heads3[Hash3(su.crc, su.data, n)], y);
    HeadsAreInFront(su, st, y);
  }

  lemma HeadsAreInFront(su: Setup, st: State, y: nat)
    requires su.Valid() && HeadsFit(su, st) && 4 <= Limit(su, st.at) && st.at + Limit(su, st.at) <= |su.data| && HeadsBefore(su, st)
    requires var p := FromHeads(su, st.at, Limit(su, st.at), st.heads2[Hash2(su.crc, su.data, st.at)], st.heads3[Hash3(su.crc, su.data, st.at)]);
             Served(su, st.at, p.found, y)
    ensures Served(su, st.at, Matches(su, st), y)
  {
    hide Limit, Hash2, Hash3, Hash4, FromHeads, Search, Sorted, Served;
    var p := FromHeads(su, st.at, Limit(su, st.at), st.heads2[Hash2(su.crc, su.data, st.at)], st.heads3[Hash3(su.crc, su.data, st.at)]);
    ServedInFront(su, st.at, p.found, Matches(su, st)[|p.found|..], y);
    assert p.found + Matches(su, st)[|p.found|..] == Matches(su, st);
  }

  lemma PairServes(su: Setup, at: nat, h2: Head, h3: Head, y: nat)
    requires 4 <= Limit(su, at) && at + Limit(su, at) <= |su.data| && Repeats(su, at, y, 2)
    requires h2 == HeadAt(y) && (h3.HeadAt? ==> h3.x < at)
    ensures Served(su, at, FromHeads(su, at, Limit(su, at), h2, h3).found, y)
  {
    hide Common, CommonFrom, Limit;
    assert SameAt(su.data, y, at, 0) && SameAt(su.data, y, at, 1);
    var p := FromHeads(su, at, Limit(su, at), h2, h3);
    if su.data[y + 2] == su.data[at + 2] {
      ThreeSame(su.data, y, at);
      StartLater(su.data, y, at, 3, Limit(su, at));
    } else {
      CommonIs(su.data, y, at, Limit(su, at), 2);
    }
    assert Serves(p.found[0], Common(su.data, y, at, Limit(su, at)), at - y - 1);
  }

  lemma ThreeSame(text: seq<byte>, y: nat, at: nat)
    requires Agree(text, y, at, 2) && y < at && at + 2 < |text| && text[y + 2] == text[at + 2]
    ensures Agree(text, y, at, 3)
  {
    assert SameAt(text, y, at, 2);
    forall k | 0 <= k < 3 ensures SameAt(text, y, at, k) {
      if k < 2 { assert SameAt(text, y, at, k); }
    }
  }

  /** The same for three bytes. */
  lemma TripleIsServed(su: Setup, n: nat, y: nat)
    requires su.Valid() && n + 4 <= |su.data| && Repeats(su, n, y, 3) && n - y < su.size && LastOfTriple(su, n, y)
    ensures HeadsFit(su, After(su, n)) && Served(su, n, Matches(su, After(su, n)), y)
  {
    var st := After(su, n);
    LimitShrinks(su, n);
    OkFits(su, st);
    AfterIsComplete(su, n);
    HeadsAreTrue(su, st);
    InReach(su, n, y);
    hide After, Limit, Oldest, Hash2, Hash3, Hash4, Search, Sorted, HeadsFit, HeadsComplete, TreeFits;
    HeadsAreLast(su, st, y, 3);
    var h := Hash2(su.crc, su.data, n);
    assert HeadOk2(su, n, h, st.heads2[h]);
    TripleServes(su, n, st.heads2[h], st.heads3[Hash3(su.crc, su.data, n)], y);
    HeadsAreInFront(su, st, y);
  }

  lemma TripleServes(su: Setup, at: nat, h2: Head, h3: Head, y: nat)
    requires su.Valid() && 4 <= Limit(su, at) && at + Limit(su, at) <= |su.data| && Repeats(su, at, y, 3) && LastOfTriple(su, at, y)
    requires h3 == HeadAt(y) && NotBefore(h2, y) && h2.x < at && Hash2(su.crc, su.data, h2.x) == Hash2(su.crc, su.data, at)
    ensures Served(su, at, FromHeads(su, at, Limit(su, at), h2, h3).found, y)
  {
    hide Common, CommonFrom, Limit, Hash2;
    assert SameAt(su.data, y, at, 0) && SameAt(su.data, y, at, 1) && SameAt(su.data, y, at, 2);
    var p := FromHeads(su, at, Limit(su, at), h2, h3);
    if Usable(su, at, h2) && su.data[h2.x + 2] == su.data[at + 2] {
      Hash2IsExact(su.crc, su.data, h2.x, at);
      assert SameAt(su.data, h2.x, at, 0) && SameAt(su.data, h2.x, at, 1) && SameAt(su.data, h2.x, at, 2);
      SameHashes(su, at, h2.x, 3);
      assert h2.x == y;
    }
    StartLater(su.data, y, at, 3, Limit(su, at));
    assert Serves(p.found[|p.found| - 1], Common(su.data, y, at, Limit(su, at)), at - y - 1);
  }
}
