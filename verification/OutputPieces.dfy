/**
 Taking the output in pieces. A decoder stopped at one output limit and continued to a
 further one does what it would have done with the further limit from the start; so a
 dictionary that is filled in a circle gives the bytes of one that is long enough.
 */
module OutputPieces {
  import opened Bytes
  import opened RangeCoder
  import opened Symbols
  import opened SymbolCoder
  import opened Lz
  import opened Decoder
  import opened Chunking
  import opened DecoderSteps

  lemma RemInTwo(s: Session, cut: nat, limit: nat)
    requires Sound(s) && s.remainLen < 274 && |s.machine.out| <= cut <= limit
    ensures var s1 := WriteRem(s, cut);
      && Sound(s1) && s1.remainLen < 274 && |s1.machine.out| <= cut
      && WriteRem(s1, limit) == WriteRem(s, limit)
      && (s1.remainLen == 0 ==> WriteRem(s, limit) == s1)
  {
    hide Sound, Copy, WriteRem;
    WriteRemSound(s, cut);
    WriteRemSound(s, limit);
    WriteRemSound(WriteRem(s, cut), limit);
    if s.remainLen > 0 {
      RemOfRem(s, cut, limit);
      CopyCut(s.machine.out, s.machine.reps.r0, s.remainLen, cut, limit);
    }
  }

  lemma RemOfRem(s: Session, cut: nat, limit: nat)
    requires Sound(s) && 0 < s.remainLen < 274 && |s.machine.out| <= cut <= limit
    requires Sound(WriteRem(s, cut)) && |WriteRem(s, cut).machine.out| <= limit
    ensures 0 < s.machine.reps.r0 <= |s.machine.out|
    ensures var out, dist, len := s.machine.out, s.machine.reps.r0, s.remainLen;
      var k, all := Min(len, cut - |out|), Min(len, limit - |out|);
      && WriteRem(s, limit) == s.(machine := s.machine.(out := Copy(out, dist, all)), remainLen := len - all)
      && WriteRem(s, cut) == s.(machine := s.machine.(out := Copy(out, dist, k)), remainLen := len - k)
      && (len - k > 0 ==>
            WriteRem(WriteRem(s, cut), limit) ==
              s.(machine := s.machine.(out := Copy(Copy(out, dist, k), dist, Min(len - k, limit - (|out| + k)))),
                 remainLen := len - k - Min(len - k, limit - (|out| + k))))
  {
    hide Copy;
  }

  /** Stopped because the output was full, and in good order. */
  ghost predicate StoppedFull(o: Outcome, limit: nat) {
    o.res == SzOk && |o.session.machine.out| == limit && o.session.remainLen != 274
  }

  /** A session whose output has reached a nearer limit goes on towards a further one. */
  lemma FullGoesOn(cfg: Config, s: Session, input: seq<byte>, pos: nat, cut: nat, limit: nat, any: bool)
    requires cfg.Valid() && Sound(s) && s.remainLen < 274 && |s.machine.out| <= cut <= limit && pos <= |input|
    ensures var s1 := WriteRem(s, cut);
      Sound(s1) && |s1.machine.out| <= limit
      && Resume(cfg, s, input, pos, limit, any) == Resume(cfg, s1, input, pos, limit, any)
  {
    RemInTwo(s, cut, limit);
    hide Sound, Resume, WriteRem;
    BeginDependsOnRem(WriteRem(s, cut), s, pos, limit, any);
    ResumeDependsOnBegin(cfg, WriteRem(s, cut), s, input, pos, limit, any);
  }

  /** How a call begins under a nearer limit that may be stopped at, and under a further one. */
  lemma BeginUnderCut(s: Session, pos: nat, cut: nat, limit: nat, any: bool)
    requires Sound(s) && |s.machine.out| <= cut <= limit
    ensures s.remainLen <= 274
    ensures var a := Begin(s, pos, cut, true);
      && (s.remainLen == 274 ==> Begin(s, pos, limit, any) == a && a.Stop? && a.outcome.session == s)
      && (s.remainLen < 274 && a.Stop? ==>
            StoppedFull(a.outcome, cut) && a.outcome.session == WriteRem(s, cut) && a.outcome.pos == pos && a.outcome.held == [])
      && (a.Go? ==> s.remainLen < 274 && Begin(s, pos, limit, any) == a && !a.full && a.session == WriteRem(s, cut))
  {
    if s.remainLen < 274 {
      RemInTwo(s, cut, limit);
    }
    hide Sound, WriteRem;
  }

  /**
   The outcome under a nearer limit, against that under a further one: either the output
   was filled, and the further call does the same and then goes on; or they are equal.
   */
  lemma {:induction false} ResumeWidens(cfg: Config, s: Session, input: seq<byte>, pos: nat, cut: nat, limit: nat, any: bool)
    requires cfg.Valid() && Sound(s) && |s.machine.out| <= cut <= limit && pos <= |input|
    ensures var o1, o2 := Resume(cfg, s, input, pos, cut, true), Resume(cfg, s, input, pos, limit, any);
      if StoppedFull(o1, cut) then
        && o1.held == [] && o1.pos <= |input| && Sound(o1.session) && |o1.session.machine.out| <= limit
        && o2 == Resume(cfg, o1.session, input, o1.pos, limit, any)
      else o2 == o1
    decreases cut - |s.machine.out|, if s.remainLen == 0 then 1 else 0
  {
    hide Begin, Next, AfterSymbol, EndOf, Sound, ValidSym, DecNormalize, IsRepSym, WriteRem;
    BeginUnderCut(s, pos, cut, limit, any);
    var a := Begin(s, pos, cut, true);
    if a.Stop? {
      if s.remainLen != 274 { WidensStopped(cfg, s, input, pos, cut, limit, any); }
    } else {
      var s1 := a.session;
      NextIsUsable(cfg, s1, input, pos);
      var d := Next(cfg, s1, input, pos);
      var end := EndOf(d, input);
      if end <= |input| {
        CutAfterSymbol(cfg, s1, d, input, cut, limit, end, any);
        AfterSymbolSound(cfg, s1, d, input, cut);
        var s2 := AfterSymbol(cfg, s1, d, input, cut);
        if s2.remainLen != 512 {
          ResumeWidens(cfg, s2, input, end, cut, limit, any);
        }
      }
    }
  }

  lemma WidensStopped(cfg: Config, s: Session, input: seq<byte>, pos: nat, cut: nat, limit: nat, any: bool)
    requires cfg.Valid() && Sound(s) && s.remainLen < 274 && |s.machine.out| <= cut <= limit && pos <= |input|
    requires Begin(s, pos, cut, true).Stop?
    ensures var o1 := Resume(cfg, s, input, pos, cut, true);
      && StoppedFull(o1, cut) && o1.held == [] && o1.pos == pos && Sound(o1.session) && |o1.session.machine.out| <= limit
      && Resume(cfg, s, input, pos, limit, any) == Resume(cfg, o1.session, input, o1.pos, limit, any)
  {
    BeginUnderCut(s, pos, cut, limit, any);
    FullGoesOn(cfg, s, input, pos, cut, limit, any);
    ResumeIsStop(cfg, s, input, pos, cut, true);
    hide Begin, Sound, WriteRem, Resume;
  }

  lemma ResumeIsStop(cfg: Config, s: Session, input: seq<byte>, pos: nat, limit: nat, any: bool)
    requires cfg.Valid() && Sound(s) && |s.machine.out| <= limit && pos <= |input| && Begin(s, pos, limit, any).Stop?
    ensures Resume(cfg, s, input, pos, limit, any) == Begin(s, pos, limit, any).outcome
  {
    hide Begin, Sound;
  }

  /** An answer given because the output was full, and in good order. */
  ghost predicate FullAnswer(a: Answer, limit: nat) {
    a.res == SzOk && a.reader.Reading? && |a.reader.session.machine.out| == limit && a.reader.session.remainLen != 274
  }

  lemma ContinueWidens(cfg: Config, s: Session, temp: seq<byte>, src: seq<byte>, cut: nat, limit: nat, any: bool)
    requires cfg.Valid() && Sound(s) && |s.machine.out| <= cut <= limit && Hungry(cfg, s, temp)
    ensures var a1, a2 := Continue(cfg, s, temp, src, cut, true), Continue(cfg, s, temp, src, limit, any);
      if FullAnswer(a1, cut) then
        && a1.used <= |src| && Sound(a1.reader.session)
        && var b := Continue(cfg, a1.reader.session, a1.reader.temp, src[a1.used..], limit, any);
           a2 == b.(used := a1.used + b.used)
      else a2 == a1
  {
    hide Sound, Resume, Hungry;
    var x := temp + src;
    ResumeWidens(cfg, s, x, 0, cut, limit, any);
    ResumeUsesHeld(cfg, s, temp, src, cut, true);
    var o1 := Resume(cfg, s, x, 0, cut, true);
    if StoppedFull(o1, cut) {
      if o1.pos < |temp| {
        assert src[0..] == src;
      } else {
        ContinueAfter(cfg, s, temp, src, o1.session, o1.pos, limit, any);
      }
    }
  }

  /** The answer `a2` under a further limit is that of `a1` and what is done after it. */
  ghost predicate WidensTo(cfg: Config, a1: Answer, a2: Answer, src: seq<byte>, cut: nat, limit: nat, any: bool) {
    if FullAnswer(a1, cut) then
      && a1.used <= |src| && Usable(cfg, a1.reader, limit)
      && var b := DecodeToDic(cfg, a1.reader, src[a1.used..], limit, any);
         a2 == b.(used := a1.used + b.used)
    else a2 == a1
  }

  lemma ReadingWidens(cfg: Config, s: Session, temp: seq<byte>, src: seq<byte>, cut: nat, limit: nat, any: bool)
    requires cfg.Valid() && Sound(s) && |s.machine.out| <= cut <= limit && Hungry(cfg, s, temp) && |temp| <= 20
    ensures WidensTo(cfg, Continue(cfg, s, temp, src, cut, true), Continue(cfg, s, temp, src, limit, any), src, cut, limit, any)
  {
    hide Continue, Hungry;
    ContinueWidens(cfg, s, temp, src, cut, limit, any);
    ContinueKeepsUsable(cfg, s, temp, src, cut, true);
    hide Sound;
    SoundHasNoError(Continue(cfg, s, temp, src, cut, true).reader, cut);
  }

  lemma SoundHasNoError(r: Reader, cut: nat)
    ensures r.Reading? && Sound(r.session) ==> r.session.remainLen != 512
  {
  }

  lemma FreshWidens(cfg: Config, temp: seq<byte>, src: seq<byte>, cut: nat, limit: nat, any: bool)
    requires cfg.Valid() && |temp| <= 5 && cut <= limit
    ensures WidensTo(cfg, DecodeToDic(cfg, Fresh(temp), src, cut, true), DecodeToDic(cfg, Fresh(temp), src, limit, any), src, cut, limit, any)
  {
    hide Sound, Continue, Hungry, FreshSession, Usable, DecodeToDic;
    var n := Min(5 - |temp|, |src|);
    var head := temp + src[..n];
    FreshGoesOn(cfg, temp, src, cut, true);
    FreshGoesOn(cfg, temp, src, limit, any);
    if |head| == 5 && head[0] == 0 && FreshSession(head).code < BAD_REP_CODE {
      FreshHungry(cfg, FreshSession(head));
      ReadingWidens(cfg, FreshSession(head), [], src[n..], cut, limit, any);
      var a := Continue(cfg, FreshSession(head), [], src[n..], cut, true);
      if FullAnswer(a, cut) {
        assert src[n..][a.used..] == src[n + a.used..];
      }
    }
  }

  /**
   Output pieces. A call that fills the output up to `cut` and a second call up to `limit`
   do together what one call up to `limit` does; a call that does not fill it comes to the
   same end under either limit.
   */
  lemma DecodeToDicWidens(cfg: Config, r: Reader, src: seq<byte>, cut: nat, limit: nat, any: bool)
    requires Usable(cfg, r, cut) && |r.temp| <= 20 && cut <= limit
    ensures Usable(cfg, r, limit)
    ensures WidensTo(cfg, DecodeToDic(cfg, r, src, cut, true), DecodeToDic(cfg, r, src, limit, any), src, cut, limit, any)
  {
    hide Sound, Continue, Hungry, FreshSession;
    match r
    case Fresh(temp) => FreshWidens(cfg, temp, src, cut, limit, any);
    case Reading(s, temp) =>
      if s.remainLen != 512 { ReadingWidens(cfg, s, temp, src, cut, limit, any); }
  }

  // ---------- Calling again ----------

  ghost predicate AtEndMark(o: Outcome) {
    o.status == FinishedWithMark && o.session.remainLen == 274 && o.session.code == 0 && o.held == []
  }

  /** A call in good order that did not fill the output wants more input or has seen the end mark. */
  lemma {:induction false} NotFullMeans(cfg: Config, s: Session, input: seq<byte>, pos: nat, limit: nat, any: bool)
    requires cfg.Valid() && Sound(s) && |s.machine.out| <= limit && pos <= |input|
    ensures var o := Resume(cfg, s, input, pos, limit, any);
      o.res == SzOk && !StoppedFull(o, limit) ==> o.status == NeedsMoreInput || AtEndMark(o)
    decreases limit - |s.machine.out|, if s.remainLen == 0 then 1 else 0
  {
    hide Next, AfterSymbol, EndOf, Sound, ValidSym, DecNormalize, IsRepSym, WriteRem;
    var h := Begin(s, pos, limit, any);
    if h.Go? {
      hide Begin;
      NextIsUsable(cfg, h.session, input, pos);
      var d := Next(cfg, h.session, input, pos);
      var end := EndOf(d, input);
      if end <= |input| && !(h.full && !d.sym.Match?) {
        AfterSymbolSound(cfg, h.session, d, input, limit);
        var s2 := AfterSymbol(cfg, h.session, d, input, limit);
        if s2.remainLen != 512 {
          NotFullMeans(cfg, s2, input, end, limit, any);
        }
      }
    } else {
      WriteRemBound(s, limit);
    }
  }

  lemma WriteRemBound(s: Session, limit: nat)
    requires Sound(s) && |s.machine.out| <= limit
    ensures s.remainLen <= 274 && (s.remainLen < 274 ==> WriteRem(s, limit).remainLen < 274)
  {
    if s.remainLen < 274 { WriteRemSound(s, limit); }
  }

  lemma EndMarkAgain(cfg: Config, s: Session, src: seq<byte>, limit: nat, any: bool)
    requires cfg.Valid() && Sound(s) && s.remainLen == 274 && s.code == 0 && |s.machine.out| <= limit
    ensures Continue(cfg, s, [], src, limit, any) == Answer(SzOk, FinishedWithMark, Reading(s, []), 0)
  {
    ResumeStops(cfg, s, [] + src, limit, any);
    hide Resume, Sound;
  }

  /** The session, called again with the rest of the input, has nothing to add. */
  ghost predicate NothingToAdd(cfg: Config, a: Answer, src: seq<byte>, limit: nat, any: bool) {
    && a.used <= |src| && Usable(cfg, a.reader, limit)
    && var b := DecodeToDic(cfg, a.reader, src[a.used..], limit, any);
       a == b.(used := a.used + b.used)
  }

  lemma ContinueAgain(cfg: Config, s: Session, temp: seq<byte>, src: seq<byte>, limit: nat, any: bool)
    requires cfg.Valid() && Sound(s) && |s.machine.out| <= limit && Hungry(cfg, s, temp) && |temp| <= 20
    requires Continue(cfg, s, temp, src, limit, any).res == SzOk && !FullAnswer(Continue(cfg, s, temp, src, limit, any), limit)
    ensures NothingToAdd(cfg, Continue(cfg, s, temp, src, limit, any), src, limit, any)
  {
    var a := Continue(cfg, s, temp, src, limit, any);
    ContinueKeepsUsable(cfg, s, temp, src, limit, any);
    NotFullMeans(cfg, s, temp + src, 0, limit, any);
    ResumeUsesHeld(cfg, s, temp, src, limit, any);
    if a.status == NeedsMoreInput {
      ContinueSplits(cfg, s, temp, src, [], limit, any);
      assert src + [] == src && src[a.used..] == [];
    } else {
      EndMarkAgain(cfg, a.reader.session, src[a.used..], limit, any);
    }
    hide Resume, Sound;
  }

  lemma AgainAddsNothing(cfg: Config, r: Reader, src: seq<byte>, limit: nat, any: bool)
    requires Usable(cfg, r, limit) && |r.temp| <= 20
    requires DecodeToDic(cfg, r, src, limit, any).res == SzOk && !FullAnswer(DecodeToDic(cfg, r, src, limit, any), limit)
    ensures NothingToAdd(cfg, DecodeToDic(cfg, r, src, limit, any), src, limit, any)
  {
    var a := DecodeToDic(cfg, r, src, limit, any);
    if a.status == NeedsMoreInput {
      ChunkingIndependent(cfg, r, src, [], limit, any);
      assert src + [] == src && src[a.used..] == [];
      hide DecodeToDic;
    } else if r.Fresh? {
      FreshAgain(cfg, r.temp, src, limit, any);
    } else {
      ContinueAgain(cfg, r.session, r.temp, src, limit, any);
      hide Continue;
    }
  }

  lemma FreshAgain(cfg: Config, temp: seq<byte>, src: seq<byte>, limit: nat, any: bool)
    requires cfg.Valid() && |temp| <= 5
    requires var a := DecodeToDic(cfg, Fresh(temp), src, limit, any);
      a.res == SzOk && !FullAnswer(a, limit) && a.status != NeedsMoreInput
    ensures NothingToAdd(cfg, DecodeToDic(cfg, Fresh(temp), src, limit, any), src, limit, any)
  {
    hide Sound, Continue, Hungry, FreshSession, Resume, Begin, NothingToAdd;
    var n := Min(5 - |temp|, |src|);
    var head := temp + src[..n];
    FreshIsSound(head);
    FreshHungry(cfg, FreshSession(head));
    ContinueAgain(cfg, FreshSession(head), [], src[n..], limit, any);
    NothingBehind(cfg, Continue(cfg, FreshSession(head), [], src[n..], limit, any), src, n, limit, any);
  }

  lemma NothingBehind(cfg: Config, a: Answer, src: seq<byte>, n: nat, limit: nat, any: bool)
    requires n <= |src| && NothingToAdd(cfg, a, src[n..], limit, any)
    ensures NothingToAdd(cfg, a.(used := n + a.used), src, limit, any)
  {
    hide DecodeToDic, Usable;
    assert src[n..][a.used..] == src[n + a.used..];
  }

  // ---------- What was produced stays ----------

  lemma TakeExtends(cfg: Config, s: Session, sym: Sym, limit: nat)
    requires Sound(s) && s.remainLen == 0 && ValidSym(sym) && |s.machine.out| <= limit
    requires IsRepSym(sym) ==> s.machine.out != []
    ensures s.machine.out <= Take(cfg, s, sym, limit).machine.out
  {
    hide NextState;
  }

  lemma BeginExtends(s: Session, pos: nat, limit: nat, any: bool)
    requires Sound(s) && |s.machine.out| <= limit
    ensures var h := Begin(s, pos, limit, any);
      s.machine.out <= (if h.Stop? then h.outcome.session else h.session).machine.out
  {
    hide Copy;
    if 0 < s.remainLen < 274 {
      var n := Min(s.remainLen, limit - |s.machine.out|);
      assert s.machine.out <= Copy(s.machine.out, s.machine.reps.r0, n);
    }
  }

  /** A call only adds to what was produced. */
  lemma {:induction false} ResumeExtends(cfg: Config, s: Session, input: seq<byte>, pos: nat, limit: nat, any: bool)
    requires cfg.Valid() && Sound(s) && |s.machine.out| <= limit && pos <= |input|
    ensures s.machine.out <= Resume(cfg, s, input, pos, limit, any).session.machine.out
    decreases limit - |s.machine.out|, if s.remainLen == 0 then 1 else 0
  {
    hide Begin, Next, EndOf, Sound, ValidSym, DecNormalize, IsRepSym, Take;
    BeginExtends(s, pos, limit, any);
    var h := Begin(s, pos, limit, any);
    if h.Go? {
      NextIsUsable(cfg, h.session, input, pos);
      var d := Next(cfg, h.session, input, pos);
      var end := EndOf(d, input);
      if end <= |input| && !(h.full && !d.sym.Match?) {
        AfterSymbolSound(cfg, h.session, d, input, limit);
        TakeExtends(cfg, h.session, d.sym, limit);
        var s2 := AfterSymbol(cfg, h.session, d, input, limit);
        if s2.remainLen != 512 {
          ResumeExtends(cfg, s2, input, end, limit, any);
        }
      }
    }
  }

  lemma DecodeToDicExtends(cfg: Config, r: Reader, src: seq<byte>, limit: nat, any: bool)
    requires Usable(cfg, r, limit)
    ensures OutOf(r) <= OutOf(DecodeToDic(cfg, r, src, limit, any).reader)
  {
    if r.Reading? && r.session.remainLen != 512 {
      ResumeExtends(cfg, r.session, r.temp + src, 0, limit, any);
    }
    hide Resume;
  }
}
