/**
 The references of the match finder against the places they mean. A step of the finder, and
 the reduction of all references, keep the two in agreement.
 */
module FinderRefs {
  import opened Bytes
  import opened Suffixes
  import opened MatchTree
  import opened SonArray
  import opened TreeSearch
  import opened Forest
  import opened Hashes
  import opened FinderSpec

  const FIX3 := 0x400
  const FIX4 := 0x1_0400

  /** A reference in a table of heads means its place for as long as it is in reach. */
  ghost predicate HeadMeans(s: Space, r: nat, head: Head)
    requires s.pos <= s.at + 1
  {
    r < s.pos && head == if InUse(s, r) then HeadAt(PlaceOf(s, r)) else NoHead
  }

  ghost predicate HeadsMean(s: Space, refs: seq<nat>, heads: seq<Head>)
    requires s.pos <= s.at + 1
  {
    |refs| == |heads| && forall h :: 0 <= h < |refs| ==> HeadMeans(s, refs[h], heads[h])
  }

  /** The numbers of positions do not run ahead of the places, and all of the array is in reach. */
  ghost predicate Numbered(s: Space) {
    s.size > 1 && s.cyc < s.size && 0 < s.pos <= s.at + 1 && (s.pos == s.at + 1 || s.pos >= s.size)
  }

  /** The arrays hold the state. */
  ghost predicate Means(su: Setup, s: Space, hash: seq<nat>, son: seq<nat>, st: State) {
    && Numbered(s) && s.text == su.data && s.size == su.size && s.limit == Limit(su, s.at) && s.at == st.at
    && |hash| == FIX4 + su.hashSize && |son| == 2 * s.size
    && HeadsMean(s, hash[..FIX3], st.heads2)
    && HeadsMean(s, hash[FIX3..FIX4], st.heads3)
    && ForestOk(s, son, hash[FIX4..], st.trees)
  }

  lemma OldestIsFirst(su: Setup, s: Space)
    requires Numbered(s) && s.size == su.size
    ensures Oldest(su, s.at) == First(s)
  {
  }

  lemma NextNumbered(s: Space, limit: nat)
    requires Numbered(s)
    ensures Numbered(NextSpace(s, limit)) && Lo(s) <= Lo(NextSpace(s, limit)) < s.pos
  {
  }

  lemma HeadNext(su: Setup, s: Space, limit: nat, r: nat, head: Head)
    requires Numbered(s) && s.size == su.size && HeadMeans(s, r, head)
    ensures HeadMeans(NextSpace(s, limit), r, Expire(head, Oldest(su, s.at + 1)))
  {
    NextNumbered(s, limit);
    OldestIsFirst(su, NextSpace(s, limit));
  }

  lemma HeadHere(su: Setup, s: Space, limit: nat)
    requires Numbered(s) && s.size == su.size
    ensures HeadMeans(NextSpace(s, limit), s.pos, Expire(HeadAt(s.at), Oldest(su, s.at + 1)))
  {
    NextNumbered(s, limit);
    OldestIsFirst(su, NextSpace(s, limit));
  }

  lemma HeadsNext(su: Setup, s: Space, limit: nat, refs: seq<nat>, heads: seq<Head>)
    requires Numbered(s) && s.size == su.size && HeadsMean(s, refs, heads)
    ensures HeadsMean(NextSpace(s, limit), refs, ExpireAll(heads, Oldest(su, s.at + 1)))
  {
    hide HeadMeans, Expire, Oldest;
    forall h | 0 <= h < |refs| ensures HeadMeans(NextSpace(s, limit), refs[h], ExpireAll(heads, Oldest(su, s.at + 1))[h]) {
      HeadNext(su, s, limit, refs[h], heads[h]);
    }
  }

  lemma HeadsSetNext(su: Setup, s: Space, limit: nat, refs: seq<nat>, heads: seq<Head>, i: nat)
    requires Numbered(s) && s.size == su.size && HeadsMean(s, refs, heads) && i < |refs|
    ensures HeadsMean(NextSpace(s, limit), refs[i := s.pos], ExpireAll(heads[i := HeadAt(s.at)], Oldest(su, s.at + 1)))
  {
    hide HeadMeans, Expire, Oldest;
    var refs1, heads1 := refs[i := s.pos], ExpireAll(heads[i := HeadAt(s.at)], Oldest(su, s.at + 1));
    forall h | 0 <= h < |refs1| ensures HeadMeans(NextSpace(s, limit), refs1[h], heads1[h]) {
      HeadNext(su, s, limit, refs[h], heads[h]);
      HeadHere(su, s, limit);
    }
  }

  /** A position that is too near the end to be searched. */
  lemma MeansSkipped(su: Setup, s: Space, hash: seq<nat>, son: seq<nat>, st: State)
    requires su.Valid() && Ok(su, st) && HeadsFit(su, st) && Means(su, s, hash, son, st) && s.limit < 4
    ensures Means(su, NextSpace(s, Limit(su, s.at + 1)), hash, son, Next(su, st))
  {
    hide HeadsMean, ForestOk, HeadsFit, Ok, Oldest;
    var limit := Limit(su, s.at + 1);
    NextNumbered(s, limit);
    OldestIsFirst(su, NextSpace(s, limit));
    HeadsNext(su, s, limit, hash[..FIX3], st.heads2);
    HeadsNext(su, s, limit, hash[FIX3..FIX4], st.heads3);
    ForestNext(s, limit, son, hash[FIX4..], st.trees);
  }

  /** The hash table after a position has been entered. */
  function Entered(su: Setup, at: nat, pos: nat, hash: seq<nat>): seq<nat>
    requires |su.crc| == 0x100 && su.hashSize > 0 && at + 4 <= |su.data| && |hash| == FIX4 + su.hashSize
  {
    hash[Hash2(su.crc, su.data, at) := pos]
        [FIX3 + Hash3(su.crc, su.data, at) := pos]
        [FIX4 + Hash4(su.crc, su.data, at, su.hashSize) := pos]
  }

  lemma EnteredParts(su: Setup, at: nat, pos: nat, hash: seq<nat>)
    requires |su.crc| == 0x100 && su.hashSize > 0 && at + 4 <= |su.data| && |hash| == FIX4 + su.hashSize
    ensures var h := Entered(su, at, pos, hash);
      && |h| == |hash|
      && h[..FIX3] == hash[..FIX3][Hash2(su.crc, su.data, at) := pos]
      && h[FIX3..FIX4] == hash[FIX3..FIX4][Hash3(su.crc, su.data, at) := pos]
      && h[FIX4..] == hash[FIX4..][Hash4(su.crc, su.data, at, su.hashSize) := pos]
  {
    hide Hash2, Hash3, Hash4;
    var i, j, k := Hash2(su.crc, su.data, at), Hash3(su.crc, su.data, at), Hash4(su.crc, su.data, at, su.hashSize);
    ThreeParts(hash, i, j, k, pos);
  }

  lemma ThreeParts(hash: seq<nat>, i: nat, j: nat, k: nat, pos: nat)
    requires |hash| > FIX4 && i < FIX3 && j < FIX4 - FIX3 && k < |hash| - FIX4
    ensures var h := hash[i := pos][FIX3 + j := pos][FIX4 + k := pos];
      h[..FIX3] == hash[..FIX3][i := pos] && h[FIX3..FIX4] == hash[FIX3..FIX4][j := pos] && h[FIX4..] == hash[FIX4..][k := pos]
  {
  }

  /** A position that was entered and whose tree was split. */
  lemma MeansEntered(su: Setup, s: Space, hash: seq<nat>, son: seq<nat>, son1: seq<nat>, st: State)
    requires su.Valid() && Ok(su, st) && HeadsFit(su, st) && Means(su, s, hash, son, st) && s.limit >= 4 && s.Valid() && |son1| == |son|
    requires var hv := Hash4(su.crc, su.data, s.at, su.hashSize);
      SplitIn(s, son, son1, FirstWalk(s, hash[FIX4 + hv]), Nodes(st.trees[hv]), Split(su.data, s.limit, s.at, st.trees[hv], su.cut))
    ensures Means(su, NextSpace(s, Limit(su, s.at + 1)), Entered(su, s.at, s.pos, hash), son1, Next(su, st))
  {
    hide HeadsMean, ForestOk, Ok, Oldest, Hash2, Hash3, Hash4, Entered, SplitIn, Sorted;
    var limit, hv := Limit(su, s.at + 1), Hash4(su.crc, su.data, s.at, su.hashSize);
    NextNumbered(s, limit);
    OldestIsFirst(su, NextSpace(s, limit));
    EnteredParts(su, s.at, s.pos, hash);
    HeadsSetNext(su, s, limit, hash[..FIX3], st.heads2, Hash2(su.crc, su.data, s.at));
    HeadsSetNext(su, s, limit, hash[FIX3..FIX4], st.heads3, Hash3(su.crc, su.data, s.at));
    assert hash[FIX4..][hv] == hash[FIX4 + hv];
    ForestInserted(s, limit, son, son1, hash[FIX4..], st.trees, hv, su.cut);
  }

  // ---------- Reducing all references ----------

  lemma HeadsReduced(s: Space, refs: seq<nat>, heads: seq<Head>)
    requires 0 < s.size < s.pos <= s.at + 1 && HeadsMean(s, refs, heads)
    ensures HeadsMean(Reduced(s), SaturatedAll(refs, s.pos - s.size), heads)
  {
    forall h | 0 <= h < |refs| ensures HeadMeans(Reduced(s), SaturatedAll(refs, s.pos - s.size)[h], heads[h]) {
      assert HeadMeans(s, refs[h], heads[h]);
      RefsReduced(s, refs[h]);
    }
  }

  /**
   Renormalization is invisible. After all references and the counter have been reduced, the
   arrays hold the same state, from which alone all later answers follow.
   */
  lemma MeansReduced(su: Setup, s: Space, hash: seq<nat>, son: seq<nat>, st: State)
    requires Means(su, s, hash, son, st) && s.size < s.pos
    ensures var sub := s.pos - s.size;
      Means(su, Reduced(s), SaturatedAll(hash, sub), SaturatedAll(son, sub), st)
  {
    hide HeadsMean, ForestOk;
    var sub := s.pos - s.size;
    HeadsReduced(s, hash[..FIX3], st.heads2);
    HeadsReduced(s, hash[FIX3..FIX4], st.heads3);
    ForestReduced(s, son, hash[FIX4..], st.trees);
    var h := SaturatedAll(hash, sub);
    assert h[..FIX3] == SaturatedAll(hash[..FIX3], sub);
    assert h[FIX3..FIX4] == SaturatedAll(hash[FIX3..FIX4], sub);
    assert h[FIX4..] == SaturatedAll(hash[FIX4..], sub);
  }
}
