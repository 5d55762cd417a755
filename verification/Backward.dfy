/**
 `Backward`: the optimal parse is found as a chain of back references and turned into a list of
 choices in the same table, front to back.
 */
module Backward {

  const MARK_LIT := 0xFFFF_FFFF

  /**
   An entry of the table: how its position is reached. `extra` of 1 puts a literal before the
   match; a larger one puts a match of `extra - 1` bytes and a literal before a repetition.
   */
  datatype Optimal = Optimal(price: nat, extra: nat, len: nat, dist: nat)

  /** A choice as the emission loop takes it. */
  datatype Step = Step(len: nat, dist: nat)

  /** How far an entry reaches back. */
  function Reach(e: Optimal): nat {
    e.len + e.extra
  }

  /** The choices that an entry stands for, in order. */
  function Expand(e: Optimal): seq<Step> {
    if e.extra == 0 then [Step(e.len, e.dist)]
    else if e.extra == 1 then [Step(1, MARK_LIT), Step(e.len, e.dist)]
    else [Step(e.extra - 1, e.dist), Step(1, MARK_LIT), Step(e.len, 0)]
  }

  /** From `cur` on, the entries lead back to position 0. */
  ghost predicate Chain(opt: seq<Optimal>, cur: nat)
    decreases cur
  {
    cur < |opt| && (cur > 0 ==> opt[cur].len >= 1 && Reach(opt[cur]) <= cur && Chain(opt, cur - Reach(opt[cur])))
  }

  /** The choices along the chain, from position 0 forwards. */
  ghost function Path(opt: seq<Optimal>, cur: nat): seq<Step>
    requires Chain(opt, cur)
    decreases cur
  {
    if cur == 0 then [] else Path(opt, cur - Reach(opt[cur])) + Expand(opt[cur])
  }

  function Total(steps: seq<Step>): nat {
    if steps == [] then 0 else Total(steps[..|steps| - 1]) + steps[|steps| - 1].len
  }

  lemma {:induction false} TotalJoins(a: seq<Step>, b: seq<Step>)
    ensures Total(a + b) == Total(a) + Total(b)
  {
    if b == [] {
      assert a + b == a;
    } else {
      assert (a + b)[..|a + b| - 1] == a + b[..|b| - 1];
      TotalJoins(a, b[..|b| - 1]);
    }
  }

  /** The choices add up to the position they lead to. */
  lemma {:induction false} PathTotal(opt: seq<Optimal>, cur: nat)
    requires Chain(opt, cur)
    ensures Total(Path(opt, cur)) == cur
    decreases cur
  {
    if cur > 0 {
      var e := opt[cur];
      PathTotal(opt, cur - Reach(e));
      TotalJoins(Path(opt, cur - Reach(e)), Expand(e));
      ExpandTotal(e);
    }
  }

  lemma OneTotal(step: Step)
    ensures Total([step]) == step.len
  {
  }

  lemma ExpandTotal(e: Optimal)
    ensures Total(Expand(e)) == Reach(e)
  {
    var s := Expand(e);
    if |s| == 1 {
      assert s[..0] == [];
    } else if |s| == 2 {
      OneTotal(s[0]);
      assert s == [s[0]] + [s[1]];
      OneTotal(s[1]);
      TotalJoins([s[0]], [s[1]]);
    } else {
      OneTotal(s[0]);
      OneTotal(s[1]);
      OneTotal(s[2]);
      TotalJoins([s[0]], [s[1]]);
      TotalJoins([s[0]] + [s[1]], [s[2]]);
      assert s == [s[0]] + [s[1]] + [s[2]];
    }
  }

  /** The choices stored in a stretch of the table. */
  function Stored(opt: seq<Optimal>): (r: seq<Step>)
    ensures |r| == |opt| && forall i :: 0 <= i < |opt| ==> r[i] == Step(opt[i].len, opt[i].dist)
  {
    seq(|opt|, i requires 0 <= i < |opt| => Step(opt[i].len, opt[i].dist))
  }

  /** One more choice in front of a stretch. */
  lemma StoredOne(opt: seq<Optimal>, wr: nat, end: nat)
    requires wr < end <= |opt|
    ensures Stored(opt[wr..end]) == [Step(opt[wr].len, opt[wr].dist)] + Stored(opt[wr + 1..end])
  {
  }

  /** Writes a choice into an entry; the other fields stay. */
  method Put(opt: array<Optimal>, wr: nat, len: nat, dist: nat, ghost end: nat)
    requires wr < end <= opt.Length
    modifies opt
    ensures Stored(opt[wr..end]) == [Step(len, dist)] + Stored(old(opt[wr + 1..end]))
    ensures opt[..wr] == old(opt[..wr])
    ensures forall i :: end <= i < opt.Length ==> opt[i] == old(opt[i])
  {
    opt[wr] := opt[wr].(len := len, dist := dist);
    StoredOne(opt[..], wr, end);
    assert opt[wr..end] == opt[..][wr..end];
    assert opt[wr + 1..end] == opt[..][wr + 1..end] == old(opt[wr + 1..end]);
  }

  /** The choices of one entry: the first is returned, the others are written in front of `wr`. */
  method Unpack(opt: array<Optimal>, cur: nat, wr: nat, ghost end: nat) returns (len: nat, dist: nat, wr1: nat, prev: nat)
    requires 0 < cur < wr <= end <= opt.Length && opt[cur].len >= 1 && Reach(opt[cur]) <= cur
    modifies opt
    ensures prev == cur - Reach(old(opt[cur])) && prev + 2 <= wr1 <= wr
    ensures [Step(len, dist)] + Stored(opt[wr1..end]) == Expand(old(opt[cur])) + Stored(old(opt[wr..end]))
    ensures opt[..wr1] == old(opt[..wr1])
    ensures forall i :: end <= i < opt.Length ==> opt[i] == old(opt[i])
  {
    hide Stored;
    var extra := opt[cur].extra;
    len, dist, wr1, prev := opt[cur].len, opt[cur].dist, wr, cur - opt[cur].len;
    ghost var was := opt[..];
    if extra != 0 {
      wr1 := wr1 - 1;
      prev := prev - extra;
      if extra == 1 {
        Put(opt, wr1, len, dist, end);
        dist, len := MARK_LIT, extra;
      } else {
        Put(opt, wr1, len, 0, end);
        len := extra - 1;
        wr1 := wr1 - 1;
        Put(opt, wr1, 1, MARK_LIT, end);
        assert opt[..wr1] == was[..wr1 + 1][..wr1];
      }
      Together(was[cur], Stored(was[wr..end]));
      assert was[wr..end] == old(opt[wr..end]);
    }
  }

  /** The parts of an entry with more than one choice, put in front of a list. */
  lemma Together(e: Optimal, rest: seq<Step>)
    requires e.extra > 0
    ensures e.extra == 1 ==> [Step(1, MARK_LIT)] + ([Step(e.len, e.dist)] + rest) == Expand(e) + rest
    ensures e.extra > 1 ==>
              [Step(e.extra - 1, e.dist)] + ([Step(1, MARK_LIT)] + ([Step(e.len, 0)] + rest)) == Expand(e) + rest
  {
  }

  ghost predicate Halfway(was: seq<Optimal>, opt: seq<Optimal>, start: nat, cur: nat, wr: nat)
    requires Chain(was, start)
  {
    && 0 < cur < wr <= start + 1 <= |opt| == |was| && Chain(was, cur)
    && opt[..cur + 1] == was[..cur + 1]
    && Path(was, cur) + Stored(opt[wr..start + 1]) == Path(was, start)
    && opt[start + 1..] == was[start + 1..]
  }

  lemma HalfwayHas(was: seq<Optimal>, opt: seq<Optimal>, start: nat, cur: nat, wr: nat)
    requires Chain(was, start) && Halfway(was, opt, start, cur, wr)
    ensures opt[cur] == was[cur] && was[cur].len >= 1 && Reach(was[cur]) <= cur && Chain(was, cur - Reach(was[cur]))
  {
    assert opt[cur] == opt[..cur + 1][cur];
  }

  lemma HalfwayOn(was: seq<Optimal>, opt: seq<Optimal>, opt1: seq<Optimal>, start: nat, cur: nat, wr: nat, len: nat, dist: nat, wr1: nat)
    requires Chain(was, start) && Halfway(was, opt, start, cur, wr) && |opt1| == |opt| && wr1 <= wr
    requires [Step(len, dist)] + Stored(opt1[wr1..start + 1]) == Expand(was[cur]) + Stored(opt[wr..start + 1])
    ensures Path(was, cur - Reach(was[cur])) + ([Step(len, dist)] + Stored(opt1[wr1..start + 1])) == Path(was, start)
  {
    var prev, e, rest := Path(was, cur - Reach(was[cur])), Expand(was[cur]), Stored(opt[wr..start + 1]);
    assert prev + (e + rest) == (prev + e) + rest;
  }

  /**
   `Backward`: the first choice is returned and the others are left in the table from `optCur`
   to `optEnd`; together they are the path. No entry is overwritten before it has been read.
   */
  method Backward(opt: array<Optimal>, start: nat) returns (len: nat, backRes: nat, optCur: nat, optEnd: nat)
    requires 0 < start < opt.Length && Chain(opt[..], start)
    modifies opt
    ensures 0 < optCur <= optEnd == start + 1
    ensures [Step(len, backRes)] + Stored(opt[optCur..optEnd]) == Path(old(opt[..]), start)
    ensures opt[optEnd..] == old(opt[optEnd..])
  {
    hide Path, Stored, Expand, Chain;
    var cur, wr := start, start + 1;
    optEnd := wr;
    ghost var was := opt[..];
    NothingStored(was, start);
    while true
      invariant opt.Length == |was| && was == old(opt[..]) && Chain(was, start)
      invariant Halfway(was, opt[..], start, cur, wr)
      decreases cur
    {
      ghost var before, entry := opt[..], cur;
      HalfwayHas(was, before, start, cur, wr);
      assert opt[wr..optEnd] == before[wr..optEnd];
      var dist, prev, wr0: nat;
      wr0 := wr;
      len, dist, wr, prev := Unpack(opt, cur, wr, optEnd);
      assert opt[wr..optEnd] == opt[..][wr..optEnd];
      HalfwayOn(was, before, opt[..], start, entry, wr0, len, dist, wr);
      cur := prev;
      if cur == 0 {
        PathStarts(was);
        backRes, optCur := dist, wr;
        assert [] + ([Step(len, dist)] + Stored(opt[wr..optEnd])) == [Step(len, dist)] + Stored(opt[wr..optEnd]);
        return;
      }
      wr := wr - 1;
      ghost var middle := opt[..];
      assert opt[wr + 1..optEnd] == middle[wr + 1..optEnd];
      Put(opt, wr, len, dist, optEnd);
      assert opt[wr..optEnd] == opt[..][wr..optEnd];
      assert opt[..][..cur + 1] == opt[..wr][..cur + 1] == middle[..cur + 1] == before[..cur + 1] == was[..cur + 1];
    }
  }

  lemma NothingStored(was: seq<Optimal>, start: nat)
    requires 0 < start < |was| && Chain(was, start)
    ensures Halfway(was, was, start, start, start + 1)
  {
    assert Path(was, start) + Stored(was[start + 1..start + 1]) == Path(was, start);
  }

  lemma PathStarts(was: seq<Optimal>)
    requires Chain(was, 0)
    ensures Path(was, 0) == []
  {
  }
}
