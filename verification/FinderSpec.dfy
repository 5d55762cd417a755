/**
 What the match finder answers, stated on places in the data alone: no position numbers, no
 cyclic array, no references. Every answer is a list of true matches, over a whole run.
 */
module FinderSpec {
  import opened Bytes
  import opened Suffixes
  import opened MatchTree
  import opened TreeSearch
  import opened Forest
  import opened Hashes

  datatype Setup = Setup(data: seq<byte>, crc: seq<nat>, hashSize: nat, size: nat, cut: nat, maxLen: nat) {
    ghost predicate Valid() {
      |crc| == 0x100 && hashSize > 0 && size > 1 && cut > 0 && maxLen >= 4
    }
  }

  datatype Head = NoHead | HeadAt(x: nat)

  /** The current place, the latest place of each short hash, and a tree for each long one. */
  datatype State = State(at: nat, heads2: seq<Head>, heads3: seq<Head>, trees: seq<Tree>)

  /** How many bytes are compared: as long as a match may be, and no more than there are. */
  function Limit(su: Setup, at: nat): nat {
    var avail := if at < |su.data| then |su.data| - at else 0;
    if su.maxLen < avail then su.maxLen else avail
  }

  /** The oldest place that is still in reach. */
  function Oldest(su: Setup, at: nat): nat {
    if at + 1 <= su.size then 0 else at + 1 - su.size
  }

  predicate Usable(su: Setup, at: nat, h: Head)
    requires at < |su.data|
  {
    h.HeadAt? && h.x < |su.data| && su.data[h.x] == su.data[at]
  }

  /** A match at the place `x`. */
  function MatchAt(at: nat, x: nat, len: nat): (nat, nat) {
    (len, if x < at then at - x - 1 else 0)
  }

  datatype HeadPart = HeadPart(found: seq<(nat, nat)>, best: nat, done: bool)

  /** The matches of the short hashes, of two bytes and of three or more. */
  function FromHeads(su: Setup, at: nat, limit: nat, h2: Head, h3: Head): HeadPart
    requires 4 <= limit && at + limit <= |su.data|
    requires h2.HeadAt? ==> h2.x < at
    requires h3.HeadAt? ==> h3.x < at
  {
    var ok2, ok3 := Usable(su, at, h2), Usable(su, at, h3);
    if ok2 && su.data[h2.x + 2] == su.data[at + 2] then
      var n := CommonFrom(su.data, h2.x, at, 3, limit);
      HeadPart([MatchAt(at, h2.x, n)], n, n == limit)
    else if ok3 then
      var n := CommonFrom(su.data, h3.x, at, 3, limit);
      HeadPart((if ok2 then [MatchAt(at, h2.x, 2)] else []) + [MatchAt(at, h3.x, n)], n, n == limit)
    else HeadPart(if ok2 then [MatchAt(at, h2.x, 2)] else [], 3, false)
  }

  ghost predicate HeadsFit(su: Setup, st: State) {
    && |st.heads2| == 0x400 && |st.heads3| == 0x1_0000 && |st.trees| == su.hashSize
    && (forall h :: 0 <= h < 0x400 ==> st.heads2[h].HeadAt? ==> st.heads2[h].x < st.at)
    && (forall h :: 0 <= h < 0x1_0000 ==> st.heads3[h].HeadAt? ==> st.heads3[h].x < st.at)
    && (forall h :: 0 <= h < su.hashSize ==> Sorted(su.data, Limit(su, st.at), st.trees[h]))
  }

  /** The answer of `Bt4_MatchFinder_GetMatches`: lengths and distances less one. */
  function Matches(su: Setup, st: State): seq<(nat, nat)>
    requires su.Valid() && HeadsFit(su, st)
  {
    var limit := Limit(su, st.at);
    if limit < 4 then []
    else
      var p := FromHeads(su, st.at, limit, st.heads2[Hash2(su.crc, su.data, st.at)], st.heads3[Hash3(su.crc, su.data, st.at)]);
      if p.done then p.found
      else p.found + Reported(st.at, Search(su.data, limit, st.at, st.trees[Hash4(su.crc, su.data, st.at, su.hashSize)], su.cut, p.best))
  }

  function Expire(h: Head, oldest: nat): Head {
    if h.HeadAt? && h.x < oldest then NoHead else h
  }

  function ExpireAll(hs: seq<Head>, oldest: nat): (r: seq<Head>)
    ensures |r| == |hs| && forall i :: 0 <= i < |hs| ==> r[i] == Expire(hs[i], oldest)
  {
    seq(|hs|, i requires 0 <= i < |hs| => Expire(hs[i], oldest))
  }

  /** The state after a position, whether it was searched or skipped. */
  function Next(su: Setup, st: State): State
    requires su.Valid() && HeadsFit(su, st)
  {
    var oldest, limit := Oldest(su, st.at + 1), Limit(su, st.at);
    if limit < 4 then
      State(st.at + 1, ExpireAll(st.heads2, oldest), ExpireAll(st.heads3, oldest), PruneAll(st.trees, oldest))
    else
      var h2, h3, hv := Hash2(su.crc, su.data, st.at), Hash3(su.crc, su.data, st.at), Hash4(su.crc, su.data, st.at, su.hashSize);
      State(st.at + 1,
            ExpireAll(st.heads2[h2 := HeadAt(st.at)], oldest), ExpireAll(st.heads3[h3 := HeadAt(st.at)], oldest),
            PruneAll(st.trees[hv := Insert(su.data, limit, st.at, st.trees[hv], su.cut)], oldest))
  }

  // ---------- What is kept ----------

  ghost predicate HeadOk2(su: Setup, at: nat, h: nat, head: Head) {
    head.HeadAt? ==> Oldest(su, at) <= head.x < at && head.x + 2 <= |su.data| && |su.crc| == 0x100 && Hash2(su.crc, su.data, head.x) == h
  }

  ghost predicate HeadOk3(su: Setup, at: nat, h: nat, head: Head) {
    head.HeadAt? ==> Oldest(su, at) <= head.x < at && head.x + 3 <= |su.data| && |su.crc| == 0x100 && Hash3(su.crc, su.data, head.x) == h
  }

  ghost predicate TreeFits(su: Setup, at: nat, t: Tree) {
    && Sorted(su.data, Limit(su, at), t) && Aged(t, at)
    && forall y :: y in Nodes(t) ==> Oldest(su, at) <= y
  }

  /** Heads and trees hold places in reach, each head one with its own hash. */
  ghost predicate Ok(su: Setup, st: State) {
    && st.at <= |su.data|
    && |st.heads2| == 0x400 && |st.heads3| == 0x1_0000 && |st.trees| == su.hashSize
    && (forall h :: 0 <= h < 0x400 ==> HeadOk2(su, st.at, h, st.heads2[h]))
    && (forall h :: 0 <= h < 0x1_0000 ==> HeadOk3(su, st.at, h, st.heads3[h]))
    && (forall h :: 0 <= h < su.hashSize ==> TreeFits(su, st.at, st.trees[h]))
  }

  lemma OkFits(su: Setup, st: State)
    requires Ok(su, st)
    ensures HeadsFit(su, st)
  {
    forall h | 0 <= h < 0x400 ensures st.heads2[h].HeadAt? ==> st.heads2[h].x < st.at {
      assert HeadOk2(su, st.at, h, st.heads2[h]);
    }
    forall h | 0 <= h < 0x1_0000 ensures st.heads3[h].HeadAt? ==> st.heads3[h].x < st.at {
      assert HeadOk3(su, st.at, h, st.heads3[h]);
    }
    forall h | 0 <= h < su.hashSize ensures Sorted(su.data, Limit(su, st.at), st.trees[h]) {
      assert TreeFits(su, st.at, st.trees[h]);
    }
  }

  lemma TreeNext(su: Setup, at: nat, t: Tree)
    requires su.Valid() && at < |su.data|
    requires Sorted(su.data, Limit(su, at), t) && Aged(t, at + 1)
    ensures TreeFits(su, at + 1, Prune(t, Oldest(su, at + 1)))
  {
    SortedShorter(su.data, Limit(su, at), Limit(su, at + 1), t);
    PruneKeeps(su.data, Limit(su, at + 1), t, Oldest(su, at + 1), at + 1);
    PruneKeepsYoung(t, Oldest(su, at + 1));
  }

  lemma {:induction false} PruneKeepsYoung(t: Tree, first: nat)
    ensures forall y :: y in Nodes(Prune(t, first)) ==> y >= first
  {
    if t.Node? {
      PruneKeepsYoung(t.left, first);
      PruneKeepsYoung(t.right, first);
    }
  }

  /** Every position keeps the state in order. */
  lemma NextKeepsOk(su: Setup, st: State)
    requires su.Valid() && Ok(su, st) && st.at < |su.data|
    ensures HeadsFit(su, st) && Ok(su, Next(su, st))
  {
    hide Prune, Insert, Sorted, Aged, Hash2, Hash3, Hash4, Limit, Oldest, Expire;
    OkFits(su, st);
    var oldest, limit, st1 := Oldest(su, st.at + 1), Limit(su, st.at), Next(su, st);
    OldestGrows(su, st.at);
    forall h | 0 <= h < 0x400 ensures HeadOk2(su, st1.at, h, st1.heads2[h]) {
      assert HeadOk2(su, st.at, h, st.heads2[h]);
      ExpireOk2(su, st.at, h, st.heads2[h]);
      if limit >= 4 { ExpireOk2(su, st.at, Hash2(su.crc, su.data, st.at), HeadAt(st.at)); }
    }
    forall h | 0 <= h < 0x1_0000 ensures HeadOk3(su, st1.at, h, st1.heads3[h]) {
      assert HeadOk3(su, st.at, h, st.heads3[h]);
      ExpireOk3(su, st.at, h, st.heads3[h]);
      if limit >= 4 { ExpireOk3(su, st.at, Hash3(su.crc, su.data, st.at), HeadAt(st.at)); }
    }
    forall h | 0 <= h < su.hashSize ensures TreeFits(su, st1.at, st1.trees[h]) {
      assert TreeFits(su, st.at, st.trees[h]);
      AgedLater(st.trees[h], st.at, st.at + 1);
      TreeNext(su, st.at, st.trees[h]);
      if limit >= 4 {
        InsertKeeps(su.data, limit, st.at, st.trees[h], su.cut);
        TreeNext(su, st.at, Insert(su.data, limit, st.at, st.trees[h], su.cut));
      }
    }
  }

  lemma OldestGrows(su: Setup, at: nat)
    requires su.Valid()
    ensures Oldest(su, at) <= Oldest(su, at + 1) <= at
    ensures at < |su.data| ==> at + Limit(su, at) <= |su.data|
  {
  }

  lemma ExpireOk2(su: Setup, at: nat, h: nat, head: Head)
    requires |su.crc| == 0x100
    requires head.HeadAt? ==> head.x <= at && head.x + 2 <= |su.data| && Hash2(su.crc, su.data, head.x) == h
    ensures HeadOk2(su, at + 1, h, Expire(head, Oldest(su, at + 1)))
  {
    hide Hash2;
  }

  lemma ExpireOk3(su: Setup, at: nat, h: nat, head: Head)
    requires |su.crc| == 0x100
    requires head.HeadAt? ==> head.x <= at && head.x + 3 <= |su.data| && Hash3(su.crc, su.data, head.x) == h
    ensures HeadOk3(su, at + 1, h, Expire(head, Oldest(su, at + 1)))
  {
    hide Hash3;
  }

  // ---------- The answers are true ----------

  /** A match: so many bytes, and no more within the limit, repeat those at that distance, which is in reach. */
  ghost predicate TrueMatch(su: Setup, at: nat, m: (nat, nat)) {
    && m.1 < at && m.1 + 1 < su.size && at + Limit(su, at) <= |su.data|
    && 2 <= m.0 <= Limit(su, at) && m.0 == Common(su.data, at - m.1 - 1, at, Limit(su, at))
  }

  ghost predicate TrueReport(su: Setup, at: nat, d: seq<(nat, nat)>) {
    && (forall i :: 0 <= i < |d| ==> TrueMatch(su, at, d[i]))
    && (forall i, j :: 0 <= i < j < |d| ==> d[i].0 < d[j].0)
  }

  lemma HeadMatch3(su: Setup, at: nat, x: nat)
    requires su.Valid() && 4 <= Limit(su, at) && Oldest(su, at) <= x < at
    requires su.data[x] == su.data[at] && su.data[x + 1] == su.data[at + 1] && su.data[x + 2] == su.data[at + 2]
    ensures var n := CommonFrom(su.data, x, at, 3, Limit(su, at)); 3 <= n && TrueMatch(su, at, MatchAt(at, x, n))
  {
    assert forall k :: 0 <= k < 3 ==> SameAt(su.data, x, at, k);
    StartLater(su.data, x, at, 3, Limit(su, at));
  }

  lemma HeadMatch2(su: Setup, at: nat, x: nat)
    requires su.Valid() && 4 <= Limit(su, at) && Oldest(su, at) <= x < at
    requires su.data[x] == su.data[at] && su.data[x + 1] == su.data[at + 1] && su.data[x + 2] != su.data[at + 2]
    ensures TrueMatch(su, at, MatchAt(at, x, 2))
  {
    assert forall k :: 0 <= k < 2 ==> SameAt(su.data, x, at, k);
    CommonIs(su.data, x, at, Limit(su, at), 2);
  }

  /** The bytes that a head's hash vouches for. */
  ghost predicate Vouched(su: Setup, at: nat, h: Head, n: nat) {
    h.HeadAt? ==>
      && Oldest(su, at) <= h.x < at && at + n <= |su.data|
      && (SameAt(su.data, h.x, at, 0) ==> forall k :: 0 <= k < n ==> SameAt(su.data, h.x, at, k))
  }

  lemma HeadsVouch(su: Setup, at: nat, h2: Head, h3: Head)
    requires su.Valid() && at + 4 <= |su.data|
    requires HeadOk2(su, at, Hash2(su.crc, su.data, at), h2) && HeadOk3(su, at, Hash3(su.crc, su.data, at), h3)
    ensures Vouched(su, at, h2, 2) && Vouched(su, at, h3, 3)
  {
    hide Hash2, Hash3;
    if Usable(su, at, h2) { Hash2IsExact(su.crc, su.data, h2.x, at); }
    if Usable(su, at, h3) { Hash3IsExact(su.crc, su.data, h3.x, at); }
  }

  ghost predicate GoodPart(su: Setup, at: nat, p: HeadPart) {
    && TrueReport(su, at, p.found) && 3 <= p.best <= Limit(su, at) && (p.done <==> p.best == Limit(su, at))
    && forall i :: 0 <= i < |p.found| ==> p.found[i].0 <= p.best
  }

  lemma VouchedIsTrue(su: Setup, at: nat, h2: Head, h3: Head)
    requires su.Valid() && 4 <= Limit(su, at) && at + Limit(su, at) <= |su.data| && Vouched(su, at, h2, 2) && Vouched(su, at, h3, 3)
    ensures GoodPart(su, at, FromHeads(su, at, Limit(su, at), h2, h3))
  {
    hide TrueMatch, CommonFrom, Limit, Oldest;
    if Usable(su, at, h2) {
      assert SameAt(su.data, h2.x, at, 1);
      if su.data[h2.x + 2] == su.data[at + 2] { HeadMatch3(su, at, h2.x); } else { HeadMatch2(su, at, h2.x); }
    }
    if Usable(su, at, h3) {
      assert SameAt(su.data, h3.x, at, 1) && SameAt(su.data, h3.x, at, 2);
      HeadMatch3(su, at, h3.x);
    }
  }

  /** The matches of the short hashes are true, and what comes after them is longer. */
  lemma HeadsAreTrue(su: Setup, st: State)
    requires su.Valid() && Ok(su, st) && 4 <= Limit(su, st.at)
    ensures HeadsFit(su, st) && st.at + Limit(su, st.at) <= |su.data|
    ensures HeadsBefore(su, st)
    ensures GoodPart(su, st.at,
                        FromHeads(su, st.at, Limit(su, st.at), st.heads2[Hash2(su.crc, su.data, st.at)], st.heads3[Hash3(su.crc, su.data, st.at)]))
  {
    hide Hash2, Hash3, HeadsFit, FromHeads, GoodPart, TreeFits;
    OkFits(su, st);
    var h2, h3 := st.heads2[Hash2(su.crc, su.data, st.at)], st.heads3[Hash3(su.crc, su.data, st.at)];
    assert HeadOk2(su, st.at, Hash2(su.crc, su.data, st.at), h2);
    assert HeadOk3(su, st.at, Hash3(su.crc, su.data, st.at), h3);
    HeadsVouch(su, st.at, h2, h3);
    VouchedIsTrue(su, st.at, h2, h3);
  }

  /** The two heads at hand lie before the current place. */
  ghost predicate HeadsBefore(su: Setup, st: State) {
    && |su.crc| == 0x100 && st.at + 4 <= |su.data| && |st.heads2| == 0x400 && |st.heads3| == 0x1_0000
    && var h2, h3 := st.heads2[Hash2(su.crc, su.data, st.at)], st.heads3[Hash3(su.crc, su.data, st.at)];
       (h2.HeadAt? ==> h2.x < st.at) && (h3.HeadAt? ==> h3.x < st.at)
  }

  lemma {:induction false} ReportedAt(at: nat, found: seq<Found>, i: nat)
    requires i < |found|
    ensures |Reported(at, found)| == |found| && Reported(at, found)[i] == MatchAt(at, found[i].x, found[i].len)
    decreases |found|
  {
    var front := found[..|found| - 1];
    if i < |front| {
      ReportedAt(at, front, i);
    } else if front != [] {
      ReportedAt(at, front, 0);
    }
  }

  lemma SearchReportsTrue(su: Setup, at: nat, t: Tree, best: nat)
    requires su.Valid() && at < |su.data| && TreeFits(su, at, t) && 2 <= best
    ensures at + Limit(su, at) <= |su.data|
    ensures var d := Reported(at, Search(su.data, Limit(su, at), at, t, su.cut, best));
      TrueReport(su, at, d) && forall i :: 0 <= i < |d| ==> best < d[i].0
  {
    var found := Search(su.data, Limit(su, at), at, t, su.cut, best);
    SearchIsTrue(su.data, Limit(su, at), at, t, su.cut, best, at);
    AgedNodes(t, at);
    var d := Reported(at, found);
    if found != [] { ReportedAt(at, found, 0); }
    forall i | 0 <= i < |d| ensures TrueMatch(su, at, d[i]) && best < d[i].0 {
      ReportedAt(at, found, i);
      FoundIsTrue(su, at, t, best, found, i);
    }
    forall i, j | 0 <= i < j < |d| ensures d[i].0 < d[j].0 {
      ReportedAt(at, found, i);
      ReportedAt(at, found, j);
    }
  }

  lemma FoundIsTrue(su: Setup, at: nat, t: Tree, best: nat, found: seq<Found>, i: nat)
    requires su.Valid() && at < |su.data| && at + Limit(su, at) <= |su.data| && TreeFits(su, at, t) && 2 <= best
    requires TrueMatches(su.data, Limit(su, at), at, Nodes(t), best, found) && i < |found| && found[i].x < at
    ensures TrueMatch(su, at, MatchAt(at, found[i].x, found[i].len)) && best < found[i].len
  {
    hide Sorted, Aged, Common;
  }

  lemma JoinReports(su: Setup, at: nat, a: seq<(nat, nat)>, b: seq<(nat, nat)>, best: nat)
    requires TrueReport(su, at, a) && TrueReport(su, at, b)
    requires forall i :: 0 <= i < |a| ==> a[i].0 <= best
    requires forall i :: 0 <= i < |b| ==> best < b[i].0
    ensures TrueReport(su, at, a + b)
  {
    hide TrueMatch;
  }

  /** Every answer lists true matches, each longer than the one before. */
  lemma MatchesAreTrue(su: Setup, st: State)
    requires su.Valid() && Ok(su, st)
    ensures HeadsFit(su, st) && TrueReport(su, st.at, Matches(su, st))
  {
    hide Limit, FromHeads, Search, Reported, Hash2, Hash3, Hash4, TrueMatch, TreeFits;
    OkFits(su, st);
    if Limit(su, st.at) >= 4 {
      HeadsAreTrue(su, st);
      var p := FromHeads(su, st.at, Limit(su, st.at), st.heads2[Hash2(su.crc, su.data, st.at)], st.heads3[Hash3(su.crc, su.data, st.at)]);
      if !p.done {
        var t := st.trees[Hash4(su.crc, su.data, st.at, su.hashSize)];
        assert TreeFits(su, st.at, t);
        SearchReportsTrue(su, st.at, t, p.best);
        SortedHere(su, st.at, t);
        JoinReports(su, st.at, p.found, Reported(st.at, Search(su.data, Limit(su, st.at), st.at, t, su.cut, p.best)), p.best);
      }
    }
  }

  lemma SortedHere(su: Setup, at: nat, t: Tree)
    requires TreeFits(su, at, t)
    ensures Sorted(su.data, Limit(su, at), t)
  {
  }

  // ---------- The answers are the best the tree has ----------

  /** At least so long, and not farther away. */
  predicate Serves(m: (nat, nat), len: nat, dist: nat) {
    m.0 >= len && m.1 <= dist
  }

  /**
   Every place of the searched tree is served: when the number of passes does not run out, a
   match with a place of the tree is never longer than what the heads gave, unless a match at
   least as long and not farther away is reported.
   */
  lemma EveryPlaceIsServed(su: Setup, st: State, y: nat)
    requires su.Valid() && Ok(su, st) && 4 <= Limit(su, st.at) && HeadsFit(su, st) && st.at + Limit(su, st.at) <= |su.data|
    requires var t := st.trees[Hash4(su.crc, su.data, st.at, su.hashSize)];
      y in Nodes(t) && y < st.at && Finishes(su.data, Limit(su, st.at), st.at, t, su.cut)
    ensures var d, n := Matches(su, st), Common(su.data, y, st.at, Limit(su, st.at));
      var p := FromHeads(su, st.at, Limit(su, st.at), st.heads2[Hash2(su.crc, su.data, st.at)], st.heads3[Hash3(su.crc, su.data, st.at)]);
      n <= p.best || exists i :: 0 <= i < |d| && Serves(d[i], n, st.at - y - 1)
  {
    hide Limit, FromHeads, Hash2, Hash3, Hash4, Sorted, Aged, Search, Finishes;
    var at, limit := st.at, Limit(su, st.at);
    HeadsAreTrue(su, st);
    var p := FromHeads(su, at, limit, st.heads2[Hash2(su.crc, su.data, at)], st.heads3[Hash3(su.crc, su.data, at)]);
    var t := st.trees[Hash4(su.crc, su.data, at, su.hashSize)];
    assert TreeFits(su, at, t);
    var n := Common(su.data, y, at, limit);
    if n > p.best {
      SearchBeatsAll(su.data, limit, at, t, su.cut, p.best, at, y);
      var found := Search(su.data, limit, at, t, su.cut, p.best);
      var i :| 0 <= i < |found| && found[i].len >= n && found[i].x >= y;
      ReportedAt(at, found, i);
      ServedAt(Matches(su, st), p.found, Reported(at, found), i, n, at - y - 1);
    }
  }

  lemma ServedAt(d: seq<(nat, nat)>, a: seq<(nat, nat)>, b: seq<(nat, nat)>, i: nat, len: nat, dist: nat)
    requires d == a + b && i < |b| && Serves(b[i], len, dist)
    ensures exists j :: 0 <= j < |d| && Serves(d[j], len, dist)
  {
    assert d[|a| + i] == b[i];
  }

  /**
   `y` agrees in no more bytes than the last match reported, and no match from `from` on is farther
   away than `y` when `y` agrees in at least as many bytes.
   */
  ghost predicate Outdone(su: Setup, at: nat, d: seq<(nat, nat)>, from: nat, best: nat, y: nat)
    requires at + Limit(su, at) <= |su.data|
  {
    && y < at
    && var n := Common(su.data, y, at, Limit(su, at));
       && (n <= best || (d != [] && n <= d[|d| - 1].0))
       && forall i :: from <= i < |d| && d[i].0 <= n ==> d[i].1 <= at - y - 1
  }

  /**
   When the number of passes does not run out: the last match is at least as long as any with a
   place of the searched tree, or those of the heads are; and every distance that the search reports
   is the smallest in the tree for a match of that length or more.
   */
  lemma LastIsLongest(su: Setup, st: State)
    requires su.Valid() && Ok(su, st) && 4 <= Limit(su, st.at) && HeadsFit(su, st) && st.at + Limit(su, st.at) <= |su.data|
    requires Finishes(su.data, Limit(su, st.at), st.at, st.trees[Hash4(su.crc, su.data, st.at, su.hashSize)], su.cut)
    ensures var p := FromHeads(su, st.at, Limit(su, st.at), st.heads2[Hash2(su.crc, su.data, st.at)], st.heads3[Hash3(su.crc, su.data, st.at)]);
            forall y :: y in Nodes(st.trees[Hash4(su.crc, su.data, st.at, su.hashSize)]) ==>
              Outdone(su, st.at, Matches(su, st), |p.found|, p.best, y)
  {
    hide Limit, FromHeads, Hash2, Hash3, Hash4, Sorted, Aged, Search, Finishes, Nodes, Outdone, NoBetter;
    var at, limit := st.at, Limit(su, st.at);
    HeadsAreTrue(su, st);
    var p := FromHeads(su, at, limit, st.heads2[Hash2(su.crc, su.data, at)], st.heads3[Hash3(su.crc, su.data, at)]);
    var t := st.trees[Hash4(su.crc, su.data, at, su.hashSize)];
    assert TreeFits(su, at, t);
    var found := Search(su.data, limit, at, t, su.cut, p.best);
    SearchFindsBest(su.data, limit, at, t, su.cut, p.best, at);
    AgedNodes(t, at);
    forall y | y in Nodes(t) ensures Outdone(su, at, Matches(su, st), |p.found|, p.best, y) {
      if p.done {
        FullLength(su, at, p.found, p.best, y);
      } else {
        NoBetterIsOutdone(su, at, p.found, found, p.best, y);
      }
    }
  }

  lemma FullLength(su: Setup, at: nat, d: seq<(nat, nat)>, best: nat, y: nat)
    requires at + Limit(su, at) <= |su.data| && y < at && best == Limit(su, at)
    ensures Outdone(su, at, d, |d|, best, y)
  {
  }

  lemma NoBetterIsOutdone(su: Setup, at: nat, heads: seq<(nat, nat)>, found: seq<Found>, best: nat, y: nat)
    requires at + Limit(su, at) <= |su.data| && y < at && NoBetter(su.data, Limit(su, at), at, best, found, y)
    ensures Outdone(su, at, heads + Reported(at, found), |heads|, best, y)
  {
    hide Common, Limit, Reported;
    var d := heads + Reported(at, found);
    if found == [] {
      NothingReported(at);
    } else {
      ReportedAt(at, found, |found| - 1);
    }
    forall i | |heads| <= i < |d| && d[i].0 <= Common(su.data, y, at, Limit(su, at)) ensures d[i].1 <= at - y - 1 {
      ReportedAt(at, found, i - |heads|);
    }
  }

  lemma NothingReported(at: nat)
    ensures Reported(at, []) == []
  {
  }

  // ---------- Whole runs ----------

  function Start(su: Setup): State {
    State(0, seq(0x400, _ => NoHead), seq(0x1_0000, _ => NoHead), seq(su.hashSize, _ => Leaf))
  }

  lemma StartOk(su: Setup)
    requires su.Valid()
    ensures Ok(su, Start(su))
  {
    forall h | 0 <= h < su.hashSize ensures TreeFits(su, 0, Start(su).trees[h]) {
    }
  }

  /** The state after `n` positions; which of them were searched makes no difference. */
  ghost function After(su: Setup, n: nat): (st: State)
    requires su.Valid() && n <= |su.data|
    ensures Ok(su, st) && st.at == n
  {
    if n == 0 then StartOk(su); Start(su)
    else
      NextKeepsOk(su, After(su, n - 1));
      Next(su, After(su, n - 1))
  }

  /** In every run, at every position, the answer lists true matches in reach, longer and longer. */
  lemma RunIsTrue(su: Setup, n: nat)
    requires su.Valid() && n <= |su.data|
    ensures HeadsFit(su, After(su, n)) && TrueReport(su, n, Matches(su, After(su, n)))
  {
    MatchesAreTrue(su, After(su, n));
  }
}
