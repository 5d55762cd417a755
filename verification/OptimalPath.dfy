/**
 What `Backward` hands over is a parse of the data: if every entry of the chain is true of the data,
 so are the choices it is turned into.
 */
module OptimalPath {

  import opened Bytes
  import opened Symbols
  import opened Lz
  import opened History
  import opened Decoder
  import opened EncoderSteps
  import opened LzmaEncoder
  import opened Stream
  import B = Backward

  // ---------- What an entry says ----------

  /** From `pos` on, `len` bytes repeat those `d` before them. */
  ghost predicate Repeats(src: seq<byte>, pos: nat, d: nat, len: nat) {
    0 < d <= pos && pos + len <= |src| && forall k :: pos <= k < pos + len ==> src[k] == src[k - d]
  }

  /** The distance of a code: one of the last four, or a new one. */
  function DistOfCode(r: Reps, code: nat): nat {
    if code < 4 then Listed(r)[code] else code - 3
  }

  /** `len` bytes at the place where the machine stands: a literal, or a copy at the distance of the code. */
  ghost predicate IsTrue(cfg: Config, m: Machine, src: seq<byte>, len: nat, code: nat) {
    && m.out <= src && |m.out| < |src|
    && if code == B.MARK_LIT then len == 1
       else
         && Repeats(src, |m.out|, DistOfCode(m.reps, code), len)
         && ((2 <= len <= 273 && code < 4 + 0x1_0000_0000) || (len == 1 && code == 0))
         && (code >= 4 ==> DistOfCode(m.reps, code) <= cfg.dicSize)
  }

  /** Where the machine stands behind that. */
  function Behind(m: Machine, src: seq<byte>, len: nat, code: nat): Machine {
    if |m.out| < |src| && MayApply(m, ChoiceSym(src[|m.out|], len, code)) then Apply(m, ChoiceSym(src[|m.out|], len, code)) else m
  }

  predicate MayApply(m: Machine, sym: Sym) {
    sym.Literal? || 0 < NextReps(m.reps, sym).r0 <= |m.out|
  }

  /**
   An entry is true of the data: it is one symbol; or with `extra` of 1, a literal and then that symbol;
   or with a larger one, a symbol of one byte less, a literal, and a copy at the same distance again.
   */
  ghost predicate EntryIsTrue(cfg: Config, m: Machine, src: seq<byte>, e: B.Optimal) {
    if e.extra == 0 then IsTrue(cfg, m, src, e.len, e.dist)
    else if e.extra == 1 then
      IsTrue(cfg, m, src, 1, B.MARK_LIT) && IsTrue(cfg, Behind(m, src, 1, B.MARK_LIT), src, e.len, e.dist)
    else
      && IsTrue(cfg, m, src, e.extra - 1, e.dist) && e.dist != B.MARK_LIT
      && 1 <= e.len <= 273 && Repeats(src, |m.out| + e.extra, DistOfCode(m.reps, e.dist), e.len)
  }

  function BehindEntry(m: Machine, src: seq<byte>, e: B.Optimal): Machine {
    if e.extra == 0 then Behind(m, src, e.len, e.dist)
    else if e.extra == 1 then Behind(Behind(m, src, 1, B.MARK_LIT), src, e.len, e.dist)
    else Behind(Behind(Behind(m, src, e.extra - 1, e.dist), src, 1, B.MARK_LIT), src, e.len, 0)
  }

  /** Where the machine stands at an entry, when it stands at `m` before the first. */
  ghost function MachineAt(m: Machine, src: seq<byte>, opt: seq<B.Optimal>, cur: nat): Machine
    requires B.Chain(opt, cur)
    decreases cur
  {
    if cur == 0 then m else BehindEntry(MachineAt(m, src, opt, cur - B.Reach(opt[cur])), src, opt[cur])
  }

  /** Every entry of the chain is true of the data. */
  ghost predicate ChainIsTrue(cfg: Config, m: Machine, src: seq<byte>, opt: seq<B.Optimal>, cur: nat)
    requires B.Chain(opt, cur)
    decreases cur
  {
    cur > 0 ==>
      var prev := cur - B.Reach(opt[cur]);
      ChainIsTrue(cfg, m, src, opt, prev) && EntryIsTrue(cfg, MachineAt(m, src, opt, prev), src, opt[cur])
  }

  // ---------- Choices that lead somewhere ----------

  /** The choices lead from `m` to `m1`, all of them true of the data. */
  ghost predicate Leads(cfg: Config, m: Machine, src: seq<byte>, choices: seq<Choice>, m1: Machine)
    decreases |choices|
  {
    if choices == [] then m == m1
    else One(cfg, m, src, choices[0]) && Leads(cfg, Behind(m, src, choices[0].len, choices[0].back), src, choices[1..], m1)
  }

  /** One choice that the emission loop may be given */
  ghost predicate One(cfg: Config, m: Machine, src: seq<byte>, c: Choice) {
    && |m.out| < |src|
    && var sym := ChoiceSym(src[|m.out|], c.len, c.back);
       && c.len == SymLen(sym) && ValidSym(sym) && CanApply(m, sym) && (sym.Match? ==> sym.dist < Reach(cfg, m))
       && |m.out| + c.len <= |src| && Apply(m, sym).out == src[..|m.out| + c.len]
  }

  lemma {:induction false} LeadsJoin(cfg: Config, m: Machine, src: seq<byte>, a: seq<Choice>, m1: Machine, b: seq<Choice>, m2: Machine)
    requires Leads(cfg, m, src, a, m1) && Leads(cfg, m1, src, b, m2)
    ensures Leads(cfg, m, src, a + b, m2)
    decreases |a|
  {
    hide One, Behind;
    if a == [] {
      assert a + b == b;
    } else {
      LeadsJoin(cfg, Behind(m, src, a[0].len, a[0].back), src, a[1..], m1, b, m2);
      assert (a + b)[1..] == a[1..] + b;
    }
  }

  /** What an entry or a code says is a choice. */
  lemma TrueIsOne(cfg: Config, m: Machine, src: seq<byte>, len: nat, code: nat)
    requires IsTrue(cfg, m, src, len, code)
    ensures One(cfg, m, src, Choice(len, code))
    ensures |m.out| + len <= |src| && Behind(m, src, len, code).out == src[..|m.out| + len]
    ensures code != B.MARK_LIT ==> Listed(Behind(m, src, len, code).reps)[0] == DistOfCode(m.reps, code)
  {
    var pos := |m.out|;
    var sym := ChoiceSym(src[pos], len, code);
    assert m.out == src[..pos];
    if code == B.MARK_LIT {
      assert src[..pos] + [src[pos]] == src[..pos + 1];
    } else {
      assert ValidSym(sym);
      RepsMove(m.reps, sym);
      assert NextReps(m.reps, sym).r0 == DistOfCode(m.reps, code);
      hide NextReps, NextState, Copy;
      CopyReproduces(src, pos, DistOfCode(m.reps, code), len);
    }
  }

  function AsChoices(steps: seq<B.Step>): (choices: seq<Choice>)
    ensures |choices| == |steps| && forall i :: 0 <= i < |steps| ==> choices[i] == Choice(steps[i].len, steps[i].dist)
  {
    seq(|steps|, i requires 0 <= i < |steps| => Choice(steps[i].len, steps[i].dist))
  }

  lemma LeadsOne(cfg: Config, m: Machine, src: seq<byte>, len: nat, code: nat)
    requires One(cfg, m, src, Choice(len, code))
    ensures Leads(cfg, m, src, [Choice(len, code)], Behind(m, src, len, code))
  {
    hide One, Behind;
    assert [Choice(len, code)][1..] == [];
  }

  /** The choices of a true entry */
  lemma EntryLeads(cfg: Config, m: Machine, src: seq<byte>, e: B.Optimal)
    requires EntryIsTrue(cfg, m, src, e)
    ensures Leads(cfg, m, src, AsChoices(B.Expand(e)), BehindEntry(m, src, e))
    ensures |m.out| + B.Reach(e) <= |src| && BehindEntry(m, src, e).out == src[..|m.out| + B.Reach(e)]
  {
    hide IsTrue, One, Behind, Leads;
    if e.extra == 0 {
      TrueIsOne(cfg, m, src, e.len, e.dist);
      LeadsOne(cfg, m, src, e.len, e.dist);
      assert AsChoices(B.Expand(e)) == [Choice(e.len, e.dist)];
    } else if e.extra == 1 {
      var m1 := Behind(m, src, 1, B.MARK_LIT);
      TrueIsOne(cfg, m, src, 1, B.MARK_LIT);
      TrueIsOne(cfg, m1, src, e.len, e.dist);
      LeadsOne(cfg, m, src, 1, B.MARK_LIT);
      LeadsOne(cfg, m1, src, e.len, e.dist);
      LeadsJoin(cfg, m, src, [Choice(1, B.MARK_LIT)], m1, [Choice(e.len, e.dist)], Behind(m1, src, e.len, e.dist));
      assert AsChoices(B.Expand(e)) == [Choice(1, B.MARK_LIT)] + [Choice(e.len, e.dist)];
    } else {
      LongEntryLeads(cfg, m, src, e);
    }
  }

  lemma LongEntryLeads(cfg: Config, m: Machine, src: seq<byte>, e: B.Optimal)
    requires EntryIsTrue(cfg, m, src, e) && e.extra > 1
    ensures Leads(cfg, m, src, AsChoices(B.Expand(e)), BehindEntry(m, src, e))
    ensures |m.out| + B.Reach(e) <= |src| && BehindEntry(m, src, e).out == src[..|m.out| + B.Reach(e)]
  {
    hide One, Leads;
    var n := e.extra - 1;
    var m1 := Behind(m, src, n, e.dist);
    var m2 := Behind(m1, src, 1, B.MARK_LIT);
    TrueIsOne(cfg, m, src, n, e.dist);
    assert IsTrue(cfg, m1, src, 1, B.MARK_LIT);
    TrueIsOne(cfg, m1, src, 1, B.MARK_LIT);
    SameReps(m1, src);
    assert IsTrue(cfg, m2, src, e.len, 0);
    TrueIsOne(cfg, m2, src, e.len, 0);
    hide IsTrue, Behind;
    LeadsOne(cfg, m, src, n, e.dist);
    LeadsOne(cfg, m1, src, 1, B.MARK_LIT);
    LeadsOne(cfg, m2, src, e.len, 0);
    var a, b, c := [Choice(n, e.dist)], [Choice(1, B.MARK_LIT)], [Choice(e.len, 0)];
    LeadsJoin(cfg, m, src, a, m1, b, m2);
    LeadsJoin(cfg, m, src, a + b, m2, c, Behind(m2, src, e.len, 0));
    assert AsChoices(B.Expand(e)) == a + b + c;
  }

  /** A literal leaves the distances as they are. */
  lemma SameReps(m: Machine, src: seq<byte>)
    ensures Behind(m, src, 1, B.MARK_LIT).reps == m.reps
  {
  }

  lemma {:induction false} PathLeads(cfg: Config, m: Machine, src: seq<byte>, opt: seq<B.Optimal>, cur: nat)
    requires B.Chain(opt, cur) && ChainIsTrue(cfg, m, src, opt, cur) && m.out <= src
    ensures Leads(cfg, m, src, AsChoices(B.Path(opt, cur)), MachineAt(m, src, opt, cur))
    ensures |m.out| + cur <= |src| && MachineAt(m, src, opt, cur).out == src[..|m.out| + cur]
    decreases cur
  {
    hide EntryIsTrue, BehindEntry, B.Expand, Leads, B.Path, MachineAt;
    if cur > 0 {
      var prev := cur - B.Reach(opt[cur]);
      PathLeads(cfg, m, src, opt, prev);
      var m1 := MachineAt(m, src, opt, prev);
      EntryLeads(cfg, m1, src, opt[cur]);
      LeadsJoin(cfg, m, src, AsChoices(B.Path(opt, prev)), m1, AsChoices(B.Expand(opt[cur])), BehindEntry(m1, src, opt[cur]));
      PathStep(m, src, opt, cur);
    } else {
      PathStarts(cfg, m, src, opt);
    }
  }

  lemma PathStep(m: Machine, src: seq<byte>, opt: seq<B.Optimal>, cur: nat)
    requires B.Chain(opt, cur) && cur > 0
    ensures var prev := cur - B.Reach(opt[cur]);
            && AsChoices(B.Path(opt, cur)) == AsChoices(B.Path(opt, prev)) + AsChoices(B.Expand(opt[cur]))
            && MachineAt(m, src, opt, cur) == BehindEntry(MachineAt(m, src, opt, prev), src, opt[cur])
  {
    hide B.Expand, BehindEntry;
  }

  lemma PathStarts(cfg: Config, m: Machine, src: seq<byte>, opt: seq<B.Optimal>)
    requires B.Chain(opt, 0)
    ensures MachineAt(m, src, opt, 0) == m && Leads(cfg, m, src, AsChoices(B.Path(opt, 0)), m)
  {
    assert AsChoices([]) == [];
  }

  /** Choices that lead somewhere cover the data up to there. */
  lemma {:induction false} LeadsCovers(cfg: Config, m: Machine, src: seq<byte>, choices: seq<Choice>, m1: Machine)
    requires Leads(cfg, m, src, choices, m1) && m.out <= src
    ensures Covers(cfg, m, m1.out, choices) && m.out <= m1.out <= src
    decreases |choices|
  {
    if choices != [] {
      var c := choices[0];
      var sym := ChoiceSym(src[|m.out|], c.len, c.back);
      OneGrows(m, sym);
      hide ValidSym, CanApply, Apply, ChoiceSym, SymLen;
      var next := Behind(m, src, c.len, c.back);
      assert next == Apply(m, sym) && next.out == src[..|m.out| + c.len];
      LeadsCovers(cfg, next, src, choices[1..], m1);
      assert m1.out[|m.out|] == src[|m.out|];
    }
  }

  lemma OneGrows(m: Machine, sym: Sym)
    requires ValidSym(sym) && CanApply(m, sym)
    ensures m.out <= Apply(m, sym).out && |Apply(m, sym).out| == |m.out| + SymLen(sym) && SymLen(sym) >= 1
    ensures MayApply(m, sym)
  {
  }

  /**
   The path along a true chain is a parse of the data: the emission loop, going on where the machine
   stands, may be given these choices, and they cover the data up to the last entry.
   */
  lemma PathIsAParse(cfg: Config, m: Machine, src: seq<byte>, opt: seq<B.Optimal>, start: nat)
    requires B.Chain(opt, start) && ChainIsTrue(cfg, m, src, opt, start) && m.out <= src
    ensures |m.out| + start <= |src| && Covers(cfg, m, src[..|m.out| + start], AsChoices(B.Path(opt, start)))
  {
    hide Leads, Covers, B.Path, ChainIsTrue, MachineAt;
    PathLeads(cfg, m, src, opt, start);
    LeadsCovers(cfg, m, src, AsChoices(B.Path(opt, start)), MachineAt(m, src, opt, start));
  }

  /** Taking the choices one by one, as `GetOptimum` hands them over: the first at once, the others from the table. */
  method TakeChoices(opt: array<B.Optimal>, start: nat, ghost cfg: Config, ghost m: Machine, ghost src: seq<byte>)
    returns (choices: seq<Choice>)
    requires 0 < start < opt.Length && B.Chain(opt[..], start) && m.out <= src && ChainIsTrue(cfg, m, src, opt[..], start)
    modifies opt
    ensures |m.out| + start <= |src| && Covers(cfg, m, src[..|m.out| + start], choices)
  {
    hide Covers, ChainIsTrue, B.Chain, B.Path;
    ghost var path := B.Path(opt[..], start);
    PathIsAParse(cfg, m, src, opt[..], start);
    var len, backRes, optCur, optEnd := B.Backward(opt, start);
    choices := [Choice(len, backRes)];
    ghost var stored := B.Stored(opt[optCur..optEnd]);
    assert path == [B.Step(len, backRes)] + stored;
    ghost var first := optCur;
    while optCur != optEnd
      invariant first <= optCur <= optEnd
      invariant choices == [Choice(len, backRes)] + AsChoices(stored[..optCur - first])
      decreases optEnd - optCur
    {
      assert stored[..optCur + 1 - first] == stored[..optCur - first] + [stored[optCur - first]];
      choices := choices + [Choice(opt[optCur].len, opt[optCur].dist)];
      optCur := optCur + 1;
    }
    assert stored[..|stored|] == stored;
    assert choices == AsChoices(path);
  }
}
