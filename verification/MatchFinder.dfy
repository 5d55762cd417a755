/**
 The match finder with four hashed bytes (`Bt4`), in place: its tables, its counters as
 machine words, and the limits up to which it may run without a check.
 */
module MatchFinder {
  import opened Bytes
  import opened Suffixes
  import opened MatchTree
  import opened SonArray
  import opened TreeSearch
  import opened Forest
  import opened Hashes
  import opened FinderSpec
  import opened FinderRefs

  function Minus(a: u32, b: u32): u32 {
    (a - b) % 0x1_0000_0000
  }

  lemma MinusPlus(a: u32, n: u32)
    ensures Minus((a + n) % 0x1_0000_0000, a) == n
  {
  }

  lemma MinusFromZero(size: nat)
    requires 0 < size < 0x1_0000_0000
    ensures Minus(0, size) == 0x1_0000_0000 - size && Minus(0, Minus(0, size)) == size
  {
  }

  lemma MinusNext(a: u32, b: u32)
    ensures Minus(a, b) > 0 ==> Minus(a, (b + 1) % 0x1_0000_0000) == Minus(a, b) - 1
    ensures Minus(a, b) == 1 <==> (b + 1) % 0x1_0000_0000 == a
  {
  }

  lemma MinusBoth(a: u32, b: u32, sub: u32)
    ensures Minus(Minus(a, sub), Minus(b, sub)) == Minus(a, b)
  {
  }

  /** `MatchFinder_Normalize3`: saturating subtraction over a table. */
  method Normalize3(sub: nat, items: array<nat>)
    modifies items
    ensures items[..] == SaturatedAll(old(items[..]), sub)
  {
    var i := 0;
    while i < items.Length
      invariant i <= items.Length
      invariant forall j :: 0 <= j < i ==> items[j] == Saturated(old(items[j]), sub)
      invariant forall j :: i <= j < items.Length ==> items[j] == old(items[j])
    {
      var v := items[i];
      if v < sub { v := sub; }
      items[i] := v - sub;
      i := i + 1;
    }
  }

  /** `UPDATE_maxLen` from three bytes on. */
  method UpdateMaxLen(data: seq<byte>, x: nat, cur: nat, lenLimit: nat) returns (maxLen: nat)
    requires InText(data, x, cur, lenLimit) && lenLimit >= 3
    ensures maxLen == CommonFrom(data, x, cur, 3, lenLimit)
  {
    maxLen := 3;
    while maxLen != lenLimit && data[x + maxLen] == data[cur + maxLen]
      invariant 3 <= maxLen <= lenLimit
      invariant CommonFrom(data, x, cur, maxLen, lenLimit) == CommonFrom(data, x, cur, 3, lenLimit)
      decreases lenLimit - maxLen
    {
      maxLen := maxLen + 1;
    }
  }

  /** The matches of the short hashes, from the references found in their tables. */
  method HeadMatches(s: Space, su: Setup, ref2: nat, ref3: nat, ghost h2: Head, ghost h3: Head)
    returns (d: seq<(nat, nat)>, maxLen: nat, done: bool)
    requires Numbered(s) && s.Valid() && 4 <= s.limit && s.text == su.data
    requires HeadMeans(s, ref2, h2) && HeadMeans(s, ref3, h3)
    ensures HeadPart(d, maxLen, done) == FromHeads(su, s.at, s.limit, h2, h3)
  {
    hide CommonFrom;
    var d2, d3: nat := s.pos - ref2, s.pos - ref3;
    var mmm := if s.pos < s.size then s.pos else s.size;
    HeadDelta(s, ref2, h2);
    HeadDelta(s, ref3, h3);
    hide HeadMeans;
    var data, cur := s.text, s.at;
    d, maxLen, done := [], 3, false;
    var ok3 := d3 < mmm && data[cur - d3] == data[cur];
    var cand := 0;
    if d2 < mmm && data[cur - d2] == data[cur] {
      d := [(2, d2 - 1)];
      if data[cur - d2 + 2] == data[cur + 2] {
        cand := d2;
      } else if ok3 {
        cand := d3;
        maxLen := UpdateMaxLen(data, cur - d3, cur, s.limit);
        return d + [(maxLen, d3 - 1)], maxLen, maxLen == s.limit;
      } else {
        return;
      }
    } else if ok3 {
      cand := d3;
    } else {
      return;
    }
    maxLen := UpdateMaxLen(data, cur - cand, cur, s.limit);
    d := [(maxLen, cand - 1)];
    done := maxLen == s.limit;
  }

  /** A difference below the limit is one to a place in reach. */
  lemma HeadDelta(s: Space, r: nat, h: Head)
    requires Numbered(s) && HeadMeans(s, r, h)
    ensures r < s.pos
    ensures var mmm := if s.pos < s.size then s.pos else s.size;
      && (h.HeadAt? <==> s.pos - r < mmm)
      && (h.HeadAt? ==> h.x < s.at && s.at - h.x == s.pos - r)
  {
  }

  /**
   What the limit `posLimit` allows, `left` being the positions up to it: the cyclic array
   does not end, the counter does not overflow, the number of bytes compared stays what it
   is, and the input at hand does not run out while there is more.
   */
  ghost predicate Allows(su: Setup, at: nat, pos: u32, avail: nat, rem: nat, cyc: nat,
                         lenLimit: nat, keepAfter: nat, over: bool, left: nat) {
    && left >= 1 && cyc + left <= su.size
    && (over || pos + left <= 0x1_0000_0000)
    && (left == 1 || left - 1 + su.maxLen <= avail)
    && (rem > 0 ==> keepAfter + left <= avail)
    && lenLimit == (if su.maxLen < avail then su.maxLen else avail)
  }

  lemma AllowsNext(su: Setup, at: nat, pos: u32, avail: nat, rem: nat, cyc: nat, lenLimit: nat, keepAfter: nat, over: bool, left: nat)
    requires Allows(su, at, pos, avail, rem, cyc, lenLimit, keepAfter, over, left) && left > 1 && avail > 0
    ensures Allows(su, at + 1, (pos + 1) % 0x1_0000_0000, avail - 1, rem, cyc + 1, lenLimit, keepAfter, over, left - 1)
    ensures !over ==> pos + 1 < 0x1_0000_0000
  {
  }

  class MatchFinder {
    const su: Setup
    const keepSizeAfter: nat
    const hash: array<nat>
    const son: array<nat>
    /** The index of the current byte in the data. */
    var buffer: nat
    var pos: u32
    var streamPos: u32
    var directInputRem: nat
    var cyclicBufferPos: nat
    var lenLimit: nat
    var posLimit: u32
    /** What the tables mean; `over` says that the counter has overflowed at the end of the data. */
    ghost var st: State
    ghost var over: bool

    function Avail(): u32
      reads this`streamPos, this`pos
    {
      Minus(streamPos, pos)
    }

    ghost function Here(): Space
      reads this`buffer, this`pos, this`lenLimit, this`cyclicBufferPos
    {
      Space(su.data, buffer, pos, lenLimit, su.size, cyclicBufferPos)
    }

    ghost predicate Fixed() {
      && su.Valid() && su.size < 0x1_0000_0000 && su.maxLen <= keepSizeAfter < 0xFFFF_FFFF
      && hash.Length == FIX4 + su.hashSize && son.Length == 2 * su.size && hash != son
    }

    /** All of the input is either at hand or still to be taken. */
    ghost predicate Input()
      reads this
    {
      buffer + Avail() + directInputRem == |su.data|
    }

    ghost predicate Tables()
      reads this, hash, son
    {
      && st.at == buffer && Ok(su, st)
      && (if over then lenLimit < 4 else pos > 0 && Means(su, Here(), hash[..], son[..], st))
    }

    ghost predicate Valid()
      reads this, hash, son
    {
      && Fixed() && Input() && Tables() && lenLimit == Limit(su, buffer)
      && (buffer < |su.data| ==>
            Allows(su, buffer, pos, Avail(), directInputRem, cyclicBufferPos, lenLimit, keepSizeAfter, over, Minus(posLimit, pos)))
    }

    /** `MatchFinder_Init` on data in memory. The array of pairs need not be cleared. */
    constructor (su: Setup, keepSizeAfter: nat)
      requires su.Valid() && su.size < 0x1_0000_0000 && su.maxLen <= keepSizeAfter < 0xFFFF_FFFF
      ensures Valid() && this.su == su && st == Start(su) && buffer == 0
      ensures fresh(hash) && fresh(son)
    {
      this.su, this.keepSizeAfter := su, keepSizeAfter;
      hash := new nat[FIX4 + su.hashSize](_ => 0);
      son := new nat[2 * su.size];
      buffer, pos, streamPos, directInputRem, cyclicBufferPos := 0, 1, 1, |su.data|, 1;
      lenLimit, posLimit := 0, 0;
      st, over := Start(su), false;
      new;
      ReadBlock();
      SetLimits();
      StartOk(su);
      StartMeans(su, Here(), hash[..], son[..]);
    }

    /** `MatchFinder_ReadBlock` on data in memory: takes as much as the counter can hold. */
    method ReadBlock()
      requires Input()
      modifies `streamPos, `directInputRem
      ensures Input() && Avail() >= old(Avail())
      ensures directInputRem > 0 ==> Avail() == 0xFFFF_FFFF
    {
      var curSize: nat := 0xFFFF_FFFF - Avail();
      if curSize > directInputRem { curSize := directInputRem; }
      TakeIn(streamPos, pos, curSize);
      streamPos := (streamPos + curSize) % 0x1_0000_0000;
      directInputRem := directInputRem - curSize;
    }

    /** `MatchFinder_SetLimits` */
    method SetLimits()
      requires su.Valid() && cyclicBufferPos < su.size && Input() && su.maxLen <= keepSizeAfter
      requires directInputRem > 0 ==> Avail() > keepSizeAfter
      requires !over ==> pos > 0
      modifies `lenLimit, `posLimit
      ensures lenLimit == Limit(su, buffer)
      ensures buffer < |su.data| ==>
        Allows(su, buffer, pos, Avail(), directInputRem, cyclicBufferPos, lenLimit, keepSizeAfter, over, Minus(posLimit, pos))
    {
      var n: nat := Minus(0, pos);
      if n == 0 { n := 0xFFFF_FFFF; }
      var k: nat := su.size - cyclicBufferPos;
      if k < n { n := k; }
      k := Avail();
      var mm := su.maxLen;
      if k > keepSizeAfter {
        k := k - keepSizeAfter;
      } else if k >= mm {
        k := k - mm + 1;
      } else {
        mm := k;
        if k != 0 { k := 1; }
      }
      lenLimit := mm;
      if k < n { n := k; }
      MinusPlus(pos, n);
      posLimit := (pos + n) % 0x1_0000_0000;
    }

    /** The current place right after the counter was advanced; an overflow counts as 2^32. */
    ghost function Advanced(): Space
      reads this`buffer, this`pos, this`cyclicBufferPos
    {
      Space(su.data, buffer, if pos == 0 then 0x1_0000_0000 else pos, Limit(su, buffer), su.size,
            if cyclicBufferPos == su.size then 0 else cyclicBufferPos)
    }

    /** Reduces the counter, and all references with it, when the counter has overflowed. */
    method Normalize()
      requires Fixed() && pos == 0 && Means(su, Advanced(), hash[..], son[..], st)
      modifies `pos, `streamPos, hash, son
      ensures Avail() == old(Avail()) && pos == su.size && Means(su, Advanced(), hash[..], son[..], st)
    {
      hide Means, Minus;
      MeansReduced(su, Advanced(), hash[..], son[..], st);
      MinusFromZero(su.size);
      var sub: u32 := Minus(pos, su.size);
      MinusBoth(streamPos, pos, sub);
      pos := Minus(pos, sub);
      streamPos := Minus(streamPos, sub);
      Normalize3(sub, hash);
      Normalize3(sub, son);
    }

    /** `MatchFinder_CheckLimits`: more input, reduced references, a new turn of the array, new limits. */
    method CheckLimits()
      requires Fixed() && Input() && st.at == buffer && Ok(su, st) && cyclicBufferPos <= su.size
      requires if over then Avail() < 4 && directInputRem == 0 else Means(su, Advanced(), hash[..], son[..], st)
      requires directInputRem > 0 ==> Avail() >= keepSizeAfter
      modifies this, hash, son
      ensures Valid() && st == old(st) && buffer == old(buffer)
    {
      hide Means, Ok;
      if keepSizeAfter == Avail() {
        ReadBlock();
      }
      if pos == 0 && Avail() >= 4 {
        Normalize();
      } else if pos == 0 {
        over := true;
      }
      if cyclicBufferPos == su.size { cyclicBufferPos := 0; }
      SetLimits();
    }

    /** `MOVE_POS`, the tables being those of the next position already. */
    method MovePos()
      requires Fixed() && Input() && buffer < |su.data| && st.at == buffer + 1 && Ok(su, st)
      requires Allows(su, buffer, pos, Avail(), directInputRem, cyclicBufferPos, lenLimit, keepSizeAfter, over, Minus(posLimit, pos))
      requires if over then lenLimit < 4 else pos > 0 && Means(su, NextSpace(Here(), Limit(su, buffer + 1)), hash[..], son[..], st)
      modifies this, hash, son
      ensures Valid() && st == old(st) && buffer == old(buffer) + 1
    {
      hide Means, Ok, Limit, Minus;
      ghost var left: nat := Minus(posLimit, pos);
      MinusNext(posLimit, pos);
      MinusNext(streamPos, pos);
      AvailThere(su, buffer, Avail(), directInputRem, keepSizeAfter, lenLimit, left);
      if left > 1 { AllowsNext(su, buffer, pos, Avail(), directInputRem, cyclicBufferPos, lenLimit, keepSizeAfter, over, left); }
      cyclicBufferPos := cyclicBufferPos + 1;
      buffer := buffer + 1;
      var pos1 := (pos + 1) % 0x1_0000_0000;
      pos := pos1;
      if pos1 == posLimit {
        CheckLimits();
      }
    }

    /** Moves past a position that has too few bytes after it to be entered. */
    method MoveUnsearched()
      requires Valid() && buffer < |su.data| && lenLimit < 4
      modifies this, hash, son
      ensures Valid() && HeadsFit(su, old(st)) && st == Next(su, old(st)) && buffer == old(buffer) + 1
    {
      hide Means, Ok, Next, HeadsFit;
      OkFits(su, st);
      NextKeepsOk(su, st);
      if !over { MeansSkipped(su, Here(), hash[..], son[..], st); }
      NextAt(su, st);
      st := Next(su, st);
      MovePos();
    }

    /** The head of `Bt4_MatchFinder_GetMatches` and `Bt4_MatchFinder_Skip`: enters the position in the tables. */
    method Enter(ghost s: Space) returns (ref2: nat, ref3: nat, curMatch: nat)
      requires Fixed() && buffer + 4 <= |su.data|
      modifies hash
      ensures hash[..] == Entered(su, buffer, pos, old(hash[..]))
      ensures ref2 == old(hash[Hash2(su.crc, su.data, buffer)])
      ensures ref3 == old(hash[FIX3 + Hash3(su.crc, su.data, buffer)])
      ensures curMatch == old(hash[FIX4 + Hash4(su.crc, su.data, buffer, su.hashSize)])
    {
      hide Hash2, Hash3, Hash4;
      var h2, h3 := Hash2(su.crc, su.data, buffer), Hash3(su.crc, su.data, buffer);
      var hv := Hash4(su.crc, su.data, buffer, su.hashSize);
      ghost var was: seq<nat> := hash[..];
      ref2, ref3, curMatch := hash[h2], hash[FIX3 + h3], hash[FIX4 + hv];
      hash[h2] := pos;
      hash[FIX3 + h3] := pos;
      hash[FIX4 + hv] := pos;
      assert hash[..] == was[h2 := pos][FIX3 + h3 := pos][FIX4 + hv := pos];
    }

    /** The matches of the heads, and the search in the tree behind them. */
    method SearchHere(s: Space, ref2: nat, ref3: nat, curMatch: nat, ghost h2: Head, ghost h3: Head, ghost t: Tree)
      returns (d: seq<(nat, nat)>)
      requires su.Valid() && Numbered(s) && 4 <= s.limit && s.text == su.data
      requires HeadMeans(s, ref2, h2) && HeadMeans(s, ref3, h3) && Asked(s, son[..], curMatch, t)
      modifies son
      ensures var p := FromHeads(su, s.at, s.limit, h2, h3);
        d == if p.done then p.found else p.found + Reported(s.at, Search(su.data, s.limit, s.at, t, su.cut, p.best))
      ensures SplitIn(s, old(son[..]), son[..], FirstWalk(s, curMatch), Nodes(t), Split(su.data, s.limit, s.at, t, su.cut))
    {
      hide Shows, Sorted, Aged, Search, Split, Reported, SplitIn, Descend, FromHeads;
      var maxLen, done, more;
      d, maxLen, done := HeadMatches(s, su, ref2, ref3, h2, h3);
      HeadsStop(su, s, h2, h3);
      if done {
        SkipMatchesSpec(s, curMatch, son, su.cut, t);
      } else {
        more := GetMatchesSpec1(s, curMatch, son, su.cut, maxLen, t);
        d := d + more;
      }
    }

    /** Leaves a position that has been entered and whose tree has been split. */
    method Leave(ghost s: Space, ghost hash0: seq<nat>, ghost son0: seq<nat>)
      requires Fixed() && Input() && buffer < |su.data| && st.at == buffer && Ok(su, st) && HeadsFit(su, st) && !over && pos > 0
      requires Allows(su, buffer, pos, Avail(), directInputRem, cyclicBufferPos, lenLimit, keepSizeAfter, over, Minus(posLimit, pos))
      requires s == Here() && s.Valid() && s.limit >= 4 && Means(su, s, hash0, son0, st) && hash[..] == Entered(su, buffer, pos, hash0)
      requires |son0| == son.Length
      requires var hv := Hash4(su.crc, su.data, s.at, su.hashSize);
        SplitIn(s, son0, son[..], FirstWalk(s, hash0[FIX4 + hv]), Nodes(st.trees[hv]), Split(su.data, s.limit, s.at, st.trees[hv], su.cut))
      modifies this, hash, son
      ensures Valid() && st == Next(su, old(st)) && buffer == old(buffer) + 1
    {
      hide Means, Ok, Next, HeadsFit, SplitIn, Entered;
      MeansEntered(su, s, hash0, son0, son[..], st);
      NextKeepsOk(su, st);
      NextAt(su, st);
      st := Next(su, st);
      MovePos();
    }

    /**
     `Bt4_MatchFinder_GetMatches`: the answer of the specification, which knows only places in
     the data. Every match reported is true, and each is longer than the one before.
     */
    method GetMatches() returns (d: seq<(nat, nat)>)
      requires Valid() && buffer < |su.data|
      modifies this, hash, son
      ensures Valid() && HeadsFit(su, old(st)) && st == Next(su, old(st)) && buffer == old(buffer) + 1
      ensures d == Matches(su, old(st)) && TrueReport(su, old(buffer), d)
    {
      hide Means, Ok, Next, HeadsFit, TrueReport, Entered, SplitIn, Asked, HeadMeans, Sorted;
      hide Allows, FromHeads, Search, Reported, Split, Matches, Nodes, Hash2, Hash3, Hash4, Minus, Limit;
      OkFits(su, st);
      MatchesAreTrue(su, st);
      if lenLimit < 4 {
        NoMatchesNearEnd(su, st);
        MoveUnsearched();
        return [];
      }
      var s := Space(su.data, buffer, pos, lenLimit, su.size, cyclicBufferPos);
      ghost var hash0, son0 := hash[..], son[..];
      ghost var h2, h3, t := Asks(su, s, hash0, son0, st);
      var ref2, ref3, curMatch := Enter(s);
      d := SearchHere(s, ref2, ref3, curMatch, h2, h3, t);
      AnswerIs(su, st, h2, h3, t);
      Leave(s, hash0, son0);
    }

    /** `Bt4_MatchFinder_Skip`: leaves the tables exactly as `GetMatches` does. */
    method Skip(num: nat)
      requires Valid() && buffer + num <= |su.data|
      modifies this, hash, son
      ensures Valid() && buffer == old(buffer) + num && Steps(su, old(st), num, st)
    {
      hide Means, Ok, Next, HeadsFit, Entered, SplitIn, Asked, HeadMeans, Sorted;
      hide Allows, Split, Nodes, Hash2, Hash3, Hash4, Minus, Limit;
      var left: nat := num;
      while left > 0
        invariant Valid() && left <= num && buffer == old(buffer) + (num - left)
        invariant Steps(su, old(st), num - left, st)
      {
        ghost var was := st;
        OkFits(su, st);
        if lenLimit < 4 {
          MoveUnsearched();
        } else {
          var s := Space(su.data, buffer, pos, lenLimit, su.size, cyclicBufferPos);
          ghost var hash0, son0 := hash[..], son[..];
          ghost var h2, h3, t := Asks(su, s, hash0, son0, st);
          var ref2, ref3, curMatch := Enter(s);
          SkipMatchesSpec(s, curMatch, son, su.cut, t);
          Leave(s, hash0, son0);
        }
        StepsOn(su, old(st), num - left, was, st);
        left := left - 1;
      }
    }
  }

  /** So many positions lead from one state to the other. */
  ghost predicate Steps(su: Setup, a: State, n: nat, b: State) {
    if n == 0 then a == b else exists c :: Steps(su, a, n - 1, c) && su.Valid() && HeadsFit(su, c) && b == Next(su, c)
  }

  lemma StepsOn(su: Setup, a: State, n: nat, b: State, c: State)
    requires Steps(su, a, n, b) && su.Valid() && HeadsFit(su, b) && c == Next(su, b)
    ensures Steps(su, a, n + 1, c)
  {
  }

  lemma HeadsStop(su: Setup, s: Space, h2: Head, h3: Head)
    requires 4 <= s.limit && s.at + s.limit <= |su.data|
    requires (h2.HeadAt? ==> h2.x < s.at) && (h3.HeadAt? ==> h3.x < s.at)
    ensures var p := FromHeads(su, s.at, s.limit, h2, h3); !p.done ==> p.best < s.limit
  {
  }

  /** There is input at hand as long as there is input at all. */
  lemma AvailThere(su: Setup, at: nat, avail: nat, rem: nat, keepAfter: nat, lenLimit: nat, left: nat)
    requires su.Valid() && at + avail + rem == |su.data| && at < |su.data| && left >= 1 && su.maxLen <= keepAfter
    requires rem > 0 ==> keepAfter + left <= avail
    ensures avail > 0
    ensures left > 1 && left - 1 + su.maxLen <= avail ==> Limit(su, at + 1) == su.maxLen == Limit(su, at)
    ensures rem > 0 ==> Limit(su, at) == su.maxLen
    ensures Limit(su, at) < 4 ==> rem == 0 && avail < 4
  {
  }

  lemma TakeIn(streamPos: u32, pos: u32, n: nat)
    requires Minus(streamPos, pos) + n < 0x1_0000_0000
    ensures Minus((streamPos + n) % 0x1_0000_0000, pos) == Minus(streamPos, pos) + n
  {
  }

  lemma NextAt(su: Setup, st: State)
    requires su.Valid() && HeadsFit(su, st)
    ensures Next(su, st).at == st.at + 1
  {
  }

  lemma NoMatchesNearEnd(su: Setup, st: State)
    requires su.Valid() && HeadsFit(su, st) && Limit(su, st.at) < 4
    ensures Matches(su, st) == []
  {
  }

  /** What the tables are asked at the current place, and that the tree there can be searched. */
  lemma Asks(su: Setup, s: Space, hash: seq<nat>, son: seq<nat>, st: State) returns (h2: Head, h3: Head, t: Tree)
    requires su.Valid() && Ok(su, st) && HeadsFit(su, st) && Means(su, s, hash, son, st) && s.limit >= 4
    ensures s.Valid() && s.at + 4 <= |su.data| && Numbered(s)
    ensures var i, j, k := Hash2(su.crc, su.data, s.at), Hash3(su.crc, su.data, s.at), Hash4(su.crc, su.data, s.at, su.hashSize);
      && h2 == st.heads2[i] && h3 == st.heads3[j] && t == st.trees[k]
      && HeadMeans(s, hash[i], h2) && HeadMeans(s, hash[FIX3 + j], h3) && Asked(s, son, hash[FIX4 + k], t)
  {
    hide Hash2, Hash3, Hash4, HeadMeans, Shows, Sorted, Aged;
    var i, j, k := Hash2(su.crc, su.data, s.at), Hash3(su.crc, su.data, s.at), Hash4(su.crc, su.data, s.at, su.hashSize);
    h2, h3, t := st.heads2[i], st.heads3[j], st.trees[k];
    assert hash[..FIX3][i] == hash[i];
    assert hash[FIX3..FIX4][j] == hash[FIX3 + j];
    assert hash[FIX4..][k] == hash[FIX4 + k];
    assert TreeOk(s, son, hash[FIX4..][k], t);
  }

  lemma AnswerIs(su: Setup, st: State, h2: Head, h3: Head, t: Tree)
    requires su.Valid() && HeadsFit(su, st) && Limit(su, st.at) >= 4
    requires h2 == st.heads2[Hash2(su.crc, su.data, st.at)] && h3 == st.heads3[Hash3(su.crc, su.data, st.at)]
    requires t == st.trees[Hash4(su.crc, su.data, st.at, su.hashSize)]
    ensures var p := FromHeads(su, st.at, Limit(su, st.at), h2, h3);
      Matches(su, st) == if p.done then p.found
        else p.found + Reported(st.at, Search(su.data, Limit(su, st.at), st.at, t, su.cut, p.best))
  {
  }

  lemma StartMeans(su: Setup, s: Space, hash: seq<nat>, son: seq<nat>)
    requires su.Valid() && s.text == su.data && s.size == su.size && s.at == 0 && s.pos == 1 && s.cyc == 1 && s.limit == Limit(su, 0)
    requires |hash| == FIX4 + su.hashSize && |son| == 2 * su.size && forall i :: 0 <= i < |hash| ==> hash[i] == 0
    ensures Means(su, s, hash, son, Start(su))
  {
    forall h | 0 <= h < su.hashSize ensures TreeOk(s, son, hash[FIX4..][h], Leaf) {
    }
  }
}
