/**
 Parses, choices and decoders against plain lists of symbols: a valid parse is a list that spells
 the source, and whatever a decoder has produced, on any input, is what a list of symbols spells.
 */
module ToldRuns {

  import opened Bytes
  import opened RangeCoder
  import opened Symbols
  import opened SymbolCoder
  import opened Lz
  import opened History
  import opened Decoder
  import opened Chunking
  import opened Stream
  import opened EncoderSteps
  import opened LzmaEncoder

  // ---------- Parses ----------

  /** The distance that the last symbol copies from. */
  function LastDist(syms: seq<Sym>): nat {
    if Uses(syms) == [] then 0 else Uses(syms)[0].dist
  }

  /** Every symbol is valid, and copies from within the text before it and within reach. */
  ghost predicate Spellable(cfg: Config, syms: seq<Sym>) {
    syms == [] ||
    var n := |syms| - 1;
    var before, sym := Text(syms[..n]), syms[n];
    && Spellable(cfg, syms[..n]) && ValidSym(sym)
    && (sym.Literal? || 0 < LastDist(syms) <= |before|)
    && (sym.Match? ==> LastDist(syms) <= cfg.dicSize)
  }

  lemma {:induction false} SpellablePrefix(cfg: Config, syms: seq<Sym>, n: nat)
    requires Spellable(cfg, syms) && n <= |syms|
    ensures Spellable(cfg, syms[..n])
    decreases |syms|
  {
    if n < |syms| {
      SpellablePrefix(cfg, syms[..|syms| - 1], n);
      assert syms[..|syms| - 1][..n] == syms[..n];
    } else {
      assert syms[..n] == syms;
    }
  }

  /** For one symbol, the condition on the machine is that on the list. */
  lemma OneIsSpellable(cfg: Config, m: Machine, done: seq<Sym>, sym: Sym)
    requires Told(m, done) && Spellable(cfg, done) && ValidSym(sym)
    ensures Spellable(cfg, done + [sym]) <==> CanApply(m, sym) && (sym.Match? ==> sym.dist < Reach(cfg, m))
    ensures CanApply(m, sym) ==> Told(Apply(m, sym), done + [sym])
  {
    hide Uses, Latest, Copy, NextState, StateTells;
    var syms := done + [sym];
    assert syms[..|done|] == done;
    if !sym.Literal? {
      RemembersMore(m.reps, done, sym);
      assert Dists(Latest(Uses(syms)))[..4][0] == Listed(NextReps(m.reps, sym))[0];
    }
    if CanApply(m, sym) {
      ToldMore(m, done, sym);
    }
  }

  /** Valid parses are the lists of symbols that spell the source. */
  lemma {:induction false} ParseSpells(cfg: Config, m: Machine, done: seq<Sym>, syms: seq<Sym>, src: seq<byte>)
    requires Told(m, done) && Spellable(cfg, done)
    ensures Parse(cfg, m, syms, src) <==> Spellable(cfg, done + syms) && Text(done + syms) == src
    decreases |syms|
  {
    hide Told, Text, Apply, CanApply, ValidSym, Reach, Spellable;
    if syms == [] {
      assert done + syms == done;
      OutIsText(m, done);
    } else {
      var done1 := done + [syms[0]];
      assert done + syms == done1 + syms[1..];
      assert (done + syms)[..|done1|] == done1;
      if Spellable(cfg, done + syms) {
        SpellablePrefix(cfg, done + syms, |done1|);
        LastIsValid(cfg, done, syms[0]);
      }
      if ValidSym(syms[0]) {
        OneIsSpellable(cfg, m, done, syms[0]);
        if Spellable(cfg, done1) {
          ParseSpells(cfg, Apply(m, syms[0]), done1, syms[1..], src);
        }
      }
    }
  }

  lemma LastIsValid(cfg: Config, done: seq<Sym>, sym: Sym)
    requires Spellable(cfg, done + [sym])
    ensures ValidSym(sym)
  {
  }

  lemma OutIsText(m: Machine, done: seq<Sym>)
    requires Told(m, done)
    ensures m.out == Text(done)
  {
  }

  /** From the start of a stream. */
  lemma ParseIsSpelling(cfg: Config, syms: seq<Sym>, src: seq<byte>)
    ensures Parse(cfg, START, syms, src) <==> Spellable(cfg, syms) && Text(syms) == src
  {
    hide Told, Text, Parse;
    StartTold();
    ParseSpells(cfg, START, [], syms, src);
    assert [] + syms == syms;
  }

  lemma {:induction false} MachineIsTold(cfg: Config, m: Machine, done: seq<Sym>, syms: seq<Sym>, src: seq<byte>)
    requires Told(m, done) && Parse(cfg, m, syms, src)
    ensures Told(MachineAfter(cfg, m, syms, src), done + syms)
    decreases |syms|
  {
    hide Told, Apply, CanApply, ValidSym, Reach;
    if syms == [] {
      assert done + syms == done;
    } else {
      ToldMore(m, done, syms[0]);
      MachineIsTold(cfg, Apply(m, syms[0]), done + [syms[0]], syms[1..], src);
      assert done + [syms[0]] + syms[1..] == done + syms;
    }
  }

  // ---------- Choices ----------

  /** After the symbols `done`, the choices name symbols that spell the rest of `src`. */
  ghost predicate ChoicesSpell(cfg: Config, done: seq<Sym>, src: seq<byte>, choices: seq<Choice>)
    decreases |choices|
  {
    if choices == [] then Text(done) == src
    else
      && |Text(done)| < |src|
      && var sym := ChoiceSym(src[|Text(done)|], choices[0].len, choices[0].back);
         && choices[0].len == SymLen(sym) && ValidSym(sym)
         && Spellable(cfg, done + [sym]) && Text(done + [sym]) <= src
         && ChoicesSpell(cfg, done + [sym], src, choices[1..])
  }

  lemma {:induction false} CoversIsSpelling(cfg: Config, m: Machine, done: seq<Sym>, src: seq<byte>, choices: seq<Choice>)
    requires Told(m, done) && Spellable(cfg, done)
    ensures Covers(cfg, m, src, choices) <==> ChoicesSpell(cfg, done, src, choices)
    ensures Covers(cfg, m, src, choices) ==>
              var syms := done + SymsOf(cfg, m, src, choices); Spellable(cfg, syms) && Text(syms) == src
    decreases |choices|
  {
    hide Told, Text, Apply, CanApply, ValidSym, Reach, Spellable, ChoiceSym, SymLen;
    OutIsText(m, done);
    if choices == [] {
      assert done + [] == done;
    } else if |m.out| < |src| {
      var sym := ChoiceSym(src[|m.out|], choices[0].len, choices[0].back);
      if ValidSym(sym) {
        OneIsSpellable(cfg, m, done, sym);
        if Spellable(cfg, done + [sym]) {
          OutIsText(Apply(m, sym), done + [sym]);
          CoversIsSpelling(cfg, Apply(m, sym), done + [sym], src, choices[1..]);
          if Covers(cfg, m, src, choices) {
            assert done + SymsOf(cfg, m, src, choices) == done + [sym] + SymsOf(cfg, Apply(m, sym), src, choices[1..]);
          }
        }
      }
    }
  }

  // ---------- Decoders ----------

  /** The machine once the rest of the last match is written */
  function Finished(s: Session): Machine
    requires 0 < s.remainLen < 274 ==> 0 < s.machine.reps.r0 <= |s.machine.out|
  {
    if 0 < s.remainLen < 274 then s.machine.(out := Copy(s.machine.out, s.machine.reps.r0, s.remainLen)) else s.machine
  }

  /**
   The symbols that a decoder has read. What is still to be written of the last one belongs to their
   text; after an error in the data only the text is that of the symbols before it.
   */
  ghost predicate Tells(cfg: Config, s: Session, syms: seq<Sym>) {
    && Spellable(cfg, syms)
    && (0 < s.remainLen < 274 ==> 0 < s.machine.reps.r0 <= |s.machine.out|)
    && if s.remainLen == 512 then s.machine.out == Text(syms) else Told(Finished(s), syms)
  }

  lemma WriteRemTells(cfg: Config, s: Session, limit: nat, syms: seq<Sym>)
    requires Sound(s) && s.remainLen < 274 && |s.machine.out| <= limit && Tells(cfg, s, syms)
    ensures Tells(cfg, WriteRem(s, limit), syms)
  {
    hide Told, Text, Spellable;
    if s.remainLen > 0 {
      var n := Min(s.remainLen, limit - |s.machine.out|);
      CopySplits(s.machine.out, s.machine.reps.r0, n, s.remainLen - n);
      hide Copy;
    }
  }

  /** A symbol is one more in the list, unless it is the end mark or in error. */
  lemma TakeTells(cfg: Config, s: Session, sym: Sym, limit: nat, syms: seq<Sym>) returns (r: seq<Sym>)
    requires Sound(s) && s.remainLen == 0 && ValidSym(sym) && |s.machine.out| <= limit
    requires IsRepSym(sym) ==> s.machine.out != []
    requires Tells(cfg, s, syms)
    ensures syms <= r && Tells(cfg, Take(cfg, s, sym, limit), r)
  {
    hide Told, Text, Spellable, Sound, ValidSym;
    if sym.Match? && (sym.dist == 0xFFFF_FFFF || sym.dist >= Reach(cfg, s.machine)) {
      r := syms;
      OutIsText(s.machine, syms);
    } else {
      r := syms + [sym];
      MayApply(s, sym);
      OneIsSpellable(cfg, s.machine, syms, sym);
      TakeApplies(cfg, s, sym, limit);
    }
  }

  /** What is written and what is still to be written make the whole symbol. */
  lemma TakeApplies(cfg: Config, s: Session, sym: Sym, limit: nat)
    requires Sound(s) && s.remainLen == 0 && ValidSym(sym) && |s.machine.out| <= limit && CanApply(s.machine, sym)
    requires IsRepSym(sym) ==> s.machine.out != []
    requires sym.Match? ==> sym.dist != 0xFFFF_FFFF && sym.dist < Reach(cfg, s.machine)
    ensures var t := Take(cfg, s, sym, limit);
            && t.remainLen < 274 && (t.remainLen > 0 ==> 0 < t.machine.reps.r0 <= |t.machine.out|)
            && Finished(t) == Apply(s.machine, sym)
  {
    hide Sound, Copy, NextReps, NextState;
    if sym.Match? || sym.Rep? {
      TakeCopies(cfg, s, sym, limit);
    }
  }

  lemma TakeCopies(cfg: Config, s: Session, sym: Sym, limit: nat)
    requires Sound(s) && s.remainLen == 0 && ValidSym(sym) && |s.machine.out| <= limit && CanApply(s.machine, sym)
    requires IsRepSym(sym) ==> s.machine.out != []
    requires sym.Match? ==> sym.dist != 0xFFFF_FFFF && sym.dist < Reach(cfg, s.machine)
    requires sym.Match? || sym.Rep?
    ensures var t := Take(cfg, s, sym, limit);
            && t.remainLen < 274 && (t.remainLen > 0 ==> 0 < t.machine.reps.r0 <= |t.machine.out|)
            && Finished(t) == Apply(s.machine, sym)
  {
    hide Sound, Copy, NextReps, NextState, Take, ValidSym, Finished;
    var m, n := s.machine, Min(SymLen(sym), limit - |s.machine.out|);
    TakenPart(cfg, s, sym, limit);
    CopySplits(m.out, NextReps(m.reps, sym).r0, n, SymLen(sym) - n);
    FinishedIs(Take(cfg, s, sym, limit), Apply(m, sym), n, SymLen(sym));
  }

  lemma TakenPart(cfg: Config, s: Session, sym: Sym, limit: nat)
    requires Sound(s) && s.remainLen == 0 && ValidSym(sym) && |s.machine.out| <= limit && CanApply(s.machine, sym)
    requires IsRepSym(sym) ==> s.machine.out != []
    requires sym.Match? ==> sym.dist != 0xFFFF_FFFF && sym.dist < Reach(cfg, s.machine)
    requires sym.Match? || sym.Rep?
    ensures SymLen(sym) <= 273
    ensures var m, n := s.machine, Min(SymLen(sym), limit - |s.machine.out|);
            var reps := NextReps(m.reps, sym);
            Take(cfg, s, sym, limit) ==
            s.(machine := Machine(NextState(m.state, sym), reps, Copy(m.out, reps.r0, n)), remainLen := SymLen(sym) - n)
  {
    hide Sound, Copy, NextReps, NextState;
  }

  lemma FinishedIs(s: Session, m: Machine, n: nat, len: nat)
    requires n <= len <= 273 && s.remainLen == len - n && 0 < s.machine.reps.r0 <= |s.machine.out|
    requires m == s.machine.(out := Copy(s.machine.out, s.machine.reps.r0, len - n))
    ensures Finished(s) == m
  {
  }

  lemma MayApply(s: Session, sym: Sym)
    requires Sound(s) && ValidSym(sym) && (IsRepSym(sym) ==> s.machine.out != [])
    ensures (sym.Match? && sym.dist >= |s.machine.out|) || CanApply(s.machine, sym)
  {
  }

  lemma {:induction false} ResumeTells(cfg: Config, s: Session, input: seq<byte>, pos: nat, limit: nat, any: bool, syms: seq<Sym>)
    returns (r: seq<Sym>)
    requires cfg.Valid() && Sound(s) && |s.machine.out| <= limit && pos <= |input| && Tells(cfg, s, syms)
    ensures syms <= r && Tells(cfg, Resume(cfg, s, input, pos, limit, any).session, r)
    decreases limit - |s.machine.out|, if s.remainLen == 0 then 1 else 0
  {
    hide Sound, Tells, Next, EndOf, ValidSym, WriteRem, AfterSymbol;
    r := syms;
    if s.remainLen < 274 {
      WriteRemTells(cfg, s, limit, syms);
    }
    BeginWrites(s, pos, limit, any);
    var h := Begin(s, pos, limit, any);
    if h.Go? {
      var s1 := h.session;
      NextIsUsable(cfg, s1, input, pos);
      var d := Next(cfg, s1, input, pos);
      var end := EndOf(d, input);
      if end <= |input| && !(h.full && !d.sym.Match?) {
        AfterSymbolSound(cfg, s1, d, input, limit);
        var s2 := AfterSymbol(cfg, s1, d, input, limit);
        r := TakeTells(cfg, s1, d.sym, limit, syms);
        SameTells(cfg, Take(cfg, s1, d.sym, limit), s2, r) by {
          TakenIs(cfg, s1, d, input, limit);
        }
        if s2.remainLen != 512 {
          r := ResumeTells(cfg, s2, input, end, limit, any, r);
        }
      }
    }
  }

  lemma BeginWrites(s: Session, pos: nat, limit: nat, any: bool)
    requires Sound(s) && |s.machine.out| <= limit
    ensures var h := Begin(s, pos, limit, any);
            (if h.Stop? then h.outcome.session else h.session) == (if s.remainLen < 274 then WriteRem(s, limit) else s)
    ensures Begin(s, pos, limit, any).Go? ==> s.remainLen < 274
  {
    hide WriteRem;
  }

  lemma TakenIs(cfg: Config, s: Session, d: Decoded, input: seq<byte>, limit: nat)
    requires Sound(s) && s.remainLen == 0 && ValidSym(d.sym) && |s.machine.out| <= limit
    requires IsRepSym(d.sym) ==> s.machine.out != []
    ensures var a, b := Take(cfg, s, d.sym, limit), AfterSymbol(cfg, s, d, input, limit);
            a.machine == b.machine && a.remainLen == b.remainLen
  {
    hide Take, Sound;
  }

  lemma SameTells(cfg: Config, a: Session, b: Session, syms: seq<Sym>)
    requires Tells(cfg, a, syms) && a.machine == b.machine && a.remainLen == b.remainLen
    ensures Tells(cfg, b, syms)
  {
    hide Told, Text, Spellable, Copy;
  }

  /** The symbols that a reader has read, over all its calls */
  ghost predicate ReaderTells(cfg: Config, r: Reader, syms: seq<Sym>) {
    match r
    case Fresh(_) => syms == []
    case Reading(s, _) => Tells(cfg, s, syms)
  }

  /**
   On any input, a call goes on with the list of symbols: what has been produced is the beginning of
   the text of valid symbols, and the distances and the state are those that these symbols leave.
   */
  lemma DecodeToDicTells(cfg: Config, r: Reader, src: seq<byte>, limit: nat, any: bool, syms: seq<Sym>) returns (more: seq<Sym>)
    requires Usable(cfg, r, limit) && ReaderTells(cfg, r, syms)
    ensures var a := DecodeToDic(cfg, r, src, limit, any);
            && ReaderTells(cfg, a.reader, syms + more) && OutOf(a.reader) <= Text(syms + more)
  {
    hide Sound, Tells, Resume, FreshSession, Hungry;
    var all := syms;
    match r {
      case Fresh(temp) =>
        var n := Min(5 - |temp|, |src|);
        var head := temp + src[..n];
        if |head| == 5 {
          FreshIsSound(head);
          FreshTells(cfg, head);
          if head[0] == 0 && FreshSession(head).code < BAD_REP_CODE {
            all := ResumeTells(cfg, FreshSession(head), [] + src[n..], 0, limit, any, []);
          }
        }
      case Reading(s, temp) =>
        if s.remainLen != 512 {
          all := ResumeTells(cfg, s, temp + src, 0, limit, any, syms);
        }
    }
    more := all[|syms|..];
    assert syms + more == all;
    var a := DecodeToDic(cfg, r, src, limit, any);
    if a.reader.Reading? {
      TellsText(cfg, a.reader.session, all);
    }
  }

  lemma FreshTells(cfg: Config, head: seq<byte>)
    requires |head| == 5
    ensures Tells(cfg, FreshSession(head), [])
  {
    StartTold();
  }

  lemma TellsText(cfg: Config, s: Session, syms: seq<Sym>)
    requires Tells(cfg, s, syms)
    ensures s.machine.out <= Text(syms)
  {
    hide Spellable, Text;
  }
}
