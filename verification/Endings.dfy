/**
 How a call on a stream ends: what each status says, and what comes of a stream that is cut off, of one
 that is not wanted in full, and of one that has an end mark.
 */
module Endings {

  import opened Bytes
  import opened RangeCoder
  import opened Symbols
  import opened SymbolCoder
  import opened SymbolBounds
  import opened Lz
  import opened Decoder
  import opened Chunking
  import opened Stream

  // ---------- What a status says ----------

  /** `full` says that the output has reached the limit, `atEnd` that all input was taken. */
  ghost predicate SaysTruly(res: Res, status: Status, s: Session, full: bool, atEnd: bool, any: bool) {
    match status
    case FinishedWithMark => res == SzOk && s.remainLen == 274 && s.code == 0
    case MaybeFinishedWithoutMark => res == SzOk && full && s.remainLen == 0 && s.code == 0
    case NotFinished => full && res == (if any then SzOk else SzErrorData)
    case NeedsMoreInput => res == SzOk && atEnd && s.remainLen == 0 && (full ==> !any)
    case NotSpecified => res == SzErrorData && (s.remainLen == 512 || (s.remainLen == 274 && s.code != 0))
  }

  lemma {:induction false} ResumeSaysTruly(cfg: Config, s: Session, input: seq<byte>, pos: nat, limit: nat, any: bool)
    requires cfg.Valid() && Sound(s) && |s.machine.out| <= limit && pos <= |input|
    ensures var o := Resume(cfg, s, input, pos, limit, any);
      SaysTruly(o.res, o.status, o.session, |o.session.machine.out| == limit, o.pos == |input|, any)
    decreases limit - |s.machine.out|, if s.remainLen == 0 then 1 else 0
  {
    hide Next, AfterSymbol, EndOf, Sound, ValidSym, DecNormalize, IsRepSym;
    match Begin(s, pos, limit, any) {
      case Stop(_) =>
      case Go(s1, full) =>
        NextIsUsable(cfg, s1, input, pos);
        var d := Next(cfg, s1, input, pos);
        var end := EndOf(d, input);
        if end <= |input| && !(full && !d.sym.Match?) {
          AfterSymbolSound(cfg, s1, d, input, limit);
          var s2 := AfterSymbol(cfg, s1, d, input, limit);
          if s2.remainLen != 512 {
            ResumeSaysTruly(cfg, s2, input, end, limit, any);
          }
        }
    }
  }

  lemma ContinueSaysTruly(cfg: Config, s: Session, temp: seq<byte>, src: seq<byte>, limit: nat, any: bool)
    requires cfg.Valid() && Sound(s) && |s.machine.out| <= limit && Hungry(cfg, s, temp)
    ensures var a := Continue(cfg, s, temp, src, limit, any);
      && a.reader.Reading? && a.used <= |src|
      && SaysTruly(a.res, a.status, a.reader.session, |OutOf(a.reader)| == limit, a.used == |src|, any)
  {
    hide Resume, Sound, Hungry, Begin;
    ResumeSaysTruly(cfg, s, temp + src, 0, limit, any);
    ResumeUsesHeld(cfg, s, temp, src, limit, any);
    ResumeKeepsUsable(cfg, s, temp + src, 0, limit, any);
  }

  /** A new decoder wants more for as long as it has seen no more than part of a good head. */
  ghost predicate HeadSaysTruly(res: Res, status: Status, head: seq<byte>, atEnd: bool) {
    if |head| < 5 && (head == [] || head[0] == 0) then res == SzOk && status == NeedsMoreInput && atEnd
    else
      && res == SzErrorData && status == NotSpecified
      && (head[0] != 0 || (|head| == 5 && Code32(head[1], head[2], head[3], head[4]) >= 0xBFFF_FC00))
  }

  /** On any input and after any calls, the status says what it is documented to say. */
  lemma StatusIsTrue(cfg: Config, r: Reader, src: seq<byte>, limit: nat, any: bool)
    requires Usable(cfg, r, limit) && |r.temp| <= 20
    ensures var a := DecodeToDic(cfg, r, src, limit, any);
      if a.reader.Fresh? then HeadSaysTruly(a.res, a.status, a.reader.temp, a.used == |src|)
      else SaysTruly(a.res, a.status, a.reader.session, |OutOf(a.reader)| == limit, a.used == |src|, any)
  {
    hide Sound, Continue, Hungry, SaysTruly;
    match r
    case Fresh(temp) =>
      HeadIsTrue(cfg, temp, src, limit, any);
    case Reading(s, temp) =>
      if s.remainLen == 512 {
        FailedSaysTruly(s, |s.machine.out| == limit, 0 == |src|, any);
      } else {
        ContinueSaysTruly(cfg, s, temp, src, limit, any);
      }
  }

  lemma FailedSaysTruly(s: Session, full: bool, atEnd: bool, any: bool)
    requires s.remainLen == 512
    ensures SaysTruly(SzErrorData, NotSpecified, s, full, atEnd, any)
  {
  }

  lemma HeadIsTrue(cfg: Config, temp: seq<byte>, src: seq<byte>, limit: nat, any: bool)
    requires cfg.Valid() && |temp| <= 5
    ensures var a := DecodeToDic(cfg, Fresh(temp), src, limit, any);
      if a.reader.Fresh? then HeadSaysTruly(a.res, a.status, a.reader.temp, a.used == |src|)
      else SaysTruly(a.res, a.status, a.reader.session, |OutOf(a.reader)| == limit, a.used == |src|, any)
  {
    hide Sound, Continue, Hungry, SaysTruly;
    var n := Min(5 - |temp|, |src|);
    var head := temp + src[..n];
    if |head| == 5 && head[0] == 0 && FreshSession(head).code < BAD_REP_CODE {
      FreshIsSound(head);
      FreshHungry(cfg, FreshSession(head));
      ContinueSaysTruly(cfg, FreshSession(head), [], src[n..], limit, any);
    }
  }

  // ---------- Too little input ----------

  /** Cut off anywhere, a stream leaves the decoder wanting more, with all it was given taken. */
  lemma TruncatedWantsMore(cfg: Config, syms: seq<Sym>, src: seq<byte>, k: nat, any: bool)
    requires cfg.Valid() && Parse(cfg, START, syms, src) && src != [] && k < |LzmaStream(cfg, syms, src)|
    ensures var a := DecodeToDic(cfg, NEW, LzmaStream(cfg, syms, src)[..k], |src|, any);
      a.res == SzOk && a.status == NeedsMoreInput && a.used == k
  {
    hide Parse, LzmaStream, Sound, Continue, FreshSession, EncodeSyms, MachineAfter;
    var z := LzmaStream(cfg, syms, src);
    StreamRoundTrip(cfg, syms, src, [], any);
    assert z + [] == z && z == z[..k] + z[k..];
    DecodeToDicKeepsUsable(cfg, NEW, z[..k], |src|, any);
    StatusIsTrue(cfg, NEW, z[..k], |src|, any);
    if DecodeToDic(cfg, NEW, z[..k], |src|, any).status != NeedsMoreInput {
      SettledIgnoresMore(cfg, NEW, z[..k], z[k..], |src|, any);
    }
  }

  // ---------- An end mark ----------

  const END_MARK := Match(2, 0xFFFF_FFFF)

  function CodeMark(cfg: Config, syms: seq<Sym>, src: seq<byte>): Encoded
    requires cfg.Valid() && Parse(cfg, START, syms, src)
  {
    var r := EncodeSyms(cfg, START, syms, src, ENC_INIT, map[]);
    ContextStays(cfg, START, syms, src);
    EncodeSymbol(CtxOf(cfg.props, MachineAfter(cfg, START, syms, src)), END_MARK, r.enc, r.model)
  }

  lemma {:induction false} ContextStays(cfg: Config, m: Machine, syms: seq<Sym>, src: seq<byte>)
    requires HasContext(m) && Parse(cfg, m, syms, src)
    ensures HasContext(MachineAfter(cfg, m, syms, src)) && MachineAfter(cfg, m, syms, src).out == src
    decreases |syms|
  {
    hide HasContext, CanApply, ValidSym;
    if syms != [] {
      ApplyHasContext(m, syms[0]);
      ContextStays(cfg, Apply(m, syms[0]), syms[1..], src);
    }
  }

  /** A stream that ends with the end mark. */
  function MarkedStream(cfg: Config, syms: seq<Sym>, src: seq<byte>): seq<byte>
    requires cfg.Valid() && Parse(cfg, START, syms, src)
  {
    Flush(CodeMark(cfg, syms, src).enc).out
  }

  /** One symbol read in lockstep, whatever it would do to the output. */
  lemma SymbolIsRead(cfg: Config, m: Machine, sym: Sym, e: Enc, model: Model, s: Session, pos: nat, stream: seq<byte>)
    requires cfg.Valid() && HasContext(m) && ValidSym(sym) && pos <= |stream|
    requires Valid(e) && e.range >= 0x100_0000
    requires Sound(s) && Lockstep(m, e, model, s, pos, stream)
    requires Window(EncodeSymbol(CtxOf(cfg.props, m), sym, e, model).enc, stream)
    ensures var enc := EncodeSymbol(CtxOf(cfg.props, m), sym, e, model);
      var d := Next(cfg, s, stream, pos);
      && d.sym == sym && (IsRepSym(sym) ==> m.out != [])
      && EndOf(d, stream) <= |stream| && DecNormalize(d.dec, stream).range >= 0x100_0000
      && InStep(enc.enc, DecNormalize(d.dec, stream), stream)
  {
    SymbolFollows(AtIsMatch, CtxOf(cfg.props, m), sym, e, Dec(s.range, s.code, pos), model, stream);
    NextIsUsable(cfg, s, stream, pos);
    hide DecodeSymbol, EncodeSymbol, CtxOf, Sound, Valid, Window;
    NormalizedInStep(EncodeSymbol(CtxOf(cfg.props, m), sym, e, model).enc, Next(cfg, s, stream, pos).dec, stream);
  }

  /** In step behind all that was coded, the code is zero and the stream is used up. */
  lemma FlushedIsUsedUp(e: Enc, d: Dec, stream: seq<byte>, tail: seq<byte>)
    requires Valid(e) && InStep(e, d, stream) && d.range >= 0x100_0000 && stream == Flush(e).out + tail
    ensures d.code == 0 && d.pos == |stream| - |tail|
  {
    FlushWindow(e, tail);
    assert stream[..|stream| - |tail|] == Flush(e).out;
    hide Num, Value, Flush;
  }

  lemma MarkFollows(cfg: Config, m: Machine, e: Enc, model: Model, s: Session, pos: nat,
                    stream: seq<byte>, tail: seq<byte>, limit: nat, any: bool)
    requires cfg.Valid() && HasContext(m) && pos <= |stream| && |m.out| <= limit
    requires Valid(e) && e.range >= 0x100_0000
    requires Sound(s) && Lockstep(m, e, model, s, pos, stream)
    requires stream == Flush(EncodeSymbol(CtxOf(cfg.props, m), END_MARK, e, model).enc).out + tail
    requires Begin(s, pos, limit, any).Go?
    ensures var o := Resume(cfg, s, stream, pos, limit, any);
      && o.res == SzOk && o.status == FinishedWithMark && o.held == [] && o.pos == |stream| - |tail|
      && o.session.machine == m
  {
    hide EncodeSymbol, CtxOf, Valid, Window, InStep, Sound, Next, DecNormalize, Flush, Resume, Begin;
    var r := EncodeSymbol(CtxOf(cfg.props, m), END_MARK, e, model);
    SymbolKeepsValid(CtxOf(cfg.props, m), END_MARK, e, model);
    FlushWindow(r.enc, tail);
    SymbolIsRead(cfg, m, END_MARK, e, model, s, pos, stream);
    var d := Next(cfg, s, stream, pos);
    NextIsUsable(cfg, s, stream, pos);
    FlushedIsUsedUp(r.enc, DecNormalize(d.dec, stream), stream, tail);
    MarkEnds(cfg, s, d, pos, stream, limit, any);
  }

  lemma MarkEnds(cfg: Config, s: Session, d: Decoded, pos: nat, stream: seq<byte>, limit: nat, any: bool)
    requires cfg.Valid() && Sound(s) && s.remainLen == 0 && pos <= |stream| && |s.machine.out| <= limit
    requires Begin(s, pos, limit, any).Go? && d == Next(cfg, s, stream, pos) && d.sym == END_MARK
    requires DecNormalize(d.dec, stream).code == 0 && EndOf(d, stream) <= |stream|
    ensures var o := Resume(cfg, s, stream, pos, limit, any);
      && o.res == SzOk && o.status == FinishedWithMark && o.held == [] && o.pos == EndOf(d, stream)
      && o.session.machine == s.machine
  {
    hide Sound, Next, DecNormalize;
    NextIsUsable(cfg, s, stream, pos);
    AfterSymbolSound(cfg, s, d, stream, limit);
    var s2 := AfterSymbol(cfg, s, d, stream, limit);
    assert s2.remainLen == 274 && s2.code == 0;
  }

  /**
   A stream with an end mark, given more room than its data take, restores the data, ends at the mark
   and uses exactly the stream. Without more room the mark is read if the data must end there, except
   where the code is zero before it.
   */
  lemma MarkIsRead(cfg: Config, syms: seq<Sym>, src: seq<byte>, tail: seq<byte>, limit: nat, any: bool)
    requires cfg.Valid() && Parse(cfg, START, syms, src) && |src| <= limit
    ensures var z := MarkedStream(cfg, syms, src);
      var a := DecodeToDic(cfg, NEW, z + tail, limit, any);
      && a.res == SzOk && OutOf(a.reader) == src
      && (|src| < limit || (!any && a.status != MaybeFinishedWithoutMark) ==>
            a.status == FinishedWithMark && a.used == |z| && a.reader.temp == [])
  {
    hide EncodeSyms, Parse, Sound, InStep, Resume, EncodeSymbol, CtxOf, Valid, Window, Flush, MachineAfter;
    var stream := MarkedStream(cfg, syms, src) + tail;
    var r := EncodeSyms(cfg, START, syms, src, ENC_INIT, map[]);
    var m := MachineAfter(cfg, START, syms, src);
    ContextStays(cfg, START, syms, src);
    MarkedWindow(cfg, syms, src, tail);
    StartIsValid();
    var s := MarkedReady(cfg, syms, src, tail);
    var s2, pos2 := ParseFollows(cfg, START, syms, src, ENC_INIT, map[], s, 5, stream, limit, any);
    NewReads(cfg, stream, limit, any);
    FullOrGoes(cfg, s2, stream, pos2, limit, any);
    if Begin(s2, pos2, limit, any).Go? {
      MarkFollows(cfg, m, r.enc, r.model, s2, pos2, stream, tail, limit, any);
    }
  }

  lemma FullOrGoes(cfg: Config, s: Session, stream: seq<byte>, pos: nat, limit: nat, any: bool)
    requires cfg.Valid() && Sound(s) && s.remainLen == 0 && |s.machine.out| <= limit && pos <= |stream|
    ensures match Begin(s, pos, limit, any)
      case Stop(o) =>
        && o == Resume(cfg, s, stream, pos, limit, any) && |s.machine.out| == limit
        && o.res == SzOk && o.session == s && o.status == (if s.code == 0 then MaybeFinishedWithoutMark else NotFinished)
        && (s.code != 0 ==> any)
      case Go(s1, full) => s1 == s && full == (|s.machine.out| == limit) && (full ==> !any)
  {
    hide Sound;
  }

  lemma MarkedWindow(cfg: Config, syms: seq<Sym>, src: seq<byte>, tail: seq<byte>)
    requires cfg.Valid() && Parse(cfg, START, syms, src)
    ensures var r := EncodeSyms(cfg, START, syms, src, ENC_INIT, map[]);
      && Valid(r.enc) && r.enc.range >= 0x100_0000
      && |MarkedStream(cfg, syms, src)| >= 5
      && Window(CodeMark(cfg, syms, src).enc, MarkedStream(cfg, syms, src) + tail)
      && Window(r.enc, MarkedStream(cfg, syms, src) + tail)
  {
    hide EncodeSyms, Parse, EncodeSymbol, CtxOf, Valid, Window, Flush, MachineAfter;
    var r := EncodeSyms(cfg, START, syms, src, ENC_INIT, map[]);
    ContextStays(cfg, START, syms, src);
    var ctx := CtxOf(cfg.props, MachineAfter(cfg, START, syms, src));
    StartIsValid();
    EncodeSymsKeepsValid(cfg, START, syms, src, ENC_INIT, map[]);
    SymbolKeepsValid(ctx, END_MARK, r.enc, r.model);
    FlushWindow(CodeMark(cfg, syms, src).enc, tail);
    SymbolWindow(AtIsMatch, ctx, END_MARK, r.enc, r.model, MarkedStream(cfg, syms, src) + tail);
  }

  lemma StartIsValid()
    ensures Valid(ENC_INIT) && HasContext(START)
  {
  }

  lemma MarkedReady(cfg: Config, syms: seq<Sym>, src: seq<byte>, tail: seq<byte>) returns (s: Session)
    requires cfg.Valid() && Parse(cfg, START, syms, src)
    ensures Ready(MarkedStream(cfg, syms, src) + tail, s)
  {
    hide EncodeSymbol, CtxOf, InStep, Ready, Window, Valid, MarkedStream;
    var stream := MarkedStream(cfg, syms, src) + tail;
    MarkedWindow(cfg, syms, src, tail);
    StartIsValid();
    ContextStays(cfg, START, syms, src);
    if syms == [] {
      s := FirstReady(cfg, END_MARK, stream);
    } else {
      ApplyHasContext(START, syms[0]);
      var ctx := CtxOf(cfg.props, START);
      SymbolKeepsValid(ctx, syms[0], ENC_INIT, map[]);
      var r := EncodeSymbol(ctx, syms[0], ENC_INIT, map[]);
      EncodeSymsWindow(cfg, Apply(START, syms[0]), syms[1..], src, r.enc, r.model, stream);
      s := FirstReady(cfg, syms[0], stream);
    }
  }

  // ---------- Too little room ----------

  lemma TakeIsCut(cfg: Config, s: Session, sym: Sym, limit: nat)
    requires Sound(s) && s.remainLen == 0 && ValidSym(sym) && CanApply(s.machine, sym)
    requires |s.machine.out| <= limit < |Apply(s.machine, sym).out|
    requires sym.Rep? || sym.Match?
    requires IsRepSym(sym) ==> s.machine.out != []
    requires sym.Match? ==> sym.dist < Reach(cfg, s.machine) && sym.dist < 0xFFFF_FFFF
    ensures var r := Take(cfg, s, sym, limit);
      r.machine.out == Apply(s.machine, sym).out[..limit] && 0 < r.remainLen < 274
  {
    var m := s.machine;
    var n := limit - |m.out|;
    CopySplits(m.out, NextReps(m.reps, sym).r0, n, SymLen(sym) - n);
    hide Copy, NextState, Sound;
  }

  lemma CutStops(cfg: Config, s: Session, stream: seq<byte>, pos: nat, limit: nat, any: bool)
    requires cfg.Valid() && Sound(s) && |s.machine.out| == limit && 0 < s.remainLen < 274 && pos <= |stream|
    ensures var o := Resume(cfg, s, stream, pos, limit, any);
      o.status == NotFinished && o.session.machine.out == s.machine.out
  {
    hide Sound;
  }

  /** One symbol that does not fit. */
  lemma SymbolIsCut(cfg: Config, m: Machine, sym: Sym, e: Enc, model: Model, s: Session, pos: nat,
                    stream: seq<byte>, limit: nat, any: bool)
    requires cfg.Valid() && HasContext(m) && ValidSym(sym) && CanApply(m, sym) && pos <= |stream|
    requires sym.Match? ==> sym.dist < Reach(cfg, m)
    requires Valid(e) && e.range >= 0x100_0000
    requires Sound(s) && Lockstep(m, e, model, s, pos, stream) && |m.out| <= limit < |Apply(m, sym).out|
    requires Window(EncodeSymbol(CtxOf(cfg.props, m), sym, e, model).enc, stream)
    ensures var o := Resume(cfg, s, stream, pos, limit, any);
      && (o.status == NotFinished || o.status == MaybeFinishedWithoutMark)
      && o.session.machine.out == Apply(m, sym).out[..limit]
  {
    hide EncodeSymbol, CtxOf, Valid, Window, InStep, Sound, Next, EndOf, DecNormalize, Begin, Take, Apply, HasContext;
    FullOrGoes(cfg, s, stream, pos, limit, any);
    ApplyExtends(m, sym);
    if Begin(s, pos, limit, any).Go? {
      SymbolIsRead(cfg, m, sym, e, model, s, pos, stream);
      var d := Next(cfg, s, stream, pos);
      NextIsUsable(cfg, s, stream, pos);
      if |m.out| < limit || sym.Match? {
        TakeIsCut(cfg, s, sym, limit);
        AfterSymbolSound(cfg, s, d, stream, limit);
        CutStops(cfg, AfterSymbol(cfg, s, d, stream, limit), stream, EndOf(d, stream), limit, any);
      }
    }
  }

  lemma ApplyExtends(m: Machine, sym: Sym)
    requires CanApply(m, sym) && ValidSym(sym)
    ensures m.out <= Apply(m, sym).out && |Apply(m, sym).out| == |m.out| + SymLen(sym)
    ensures SymLen(sym) == 1 || sym.Rep? || sym.Match?
  {
  }

  lemma {:induction false} ParseIsCut(cfg: Config, m: Machine, syms: seq<Sym>, src: seq<byte>, e: Enc, model: Model,
                                      s: Session, pos: nat, stream: seq<byte>, limit: nat, any: bool)
    requires cfg.Valid() && HasContext(m) && Parse(cfg, m, syms, src)
    requires Valid(e) && e.range >= 0x100_0000
    requires Sound(s) && Lockstep(m, e, model, s, pos, stream) && pos <= |stream| && |m.out| <= limit < |src|
    requires Window(EncodeSyms(cfg, m, syms, src, e, model).enc, stream)
    ensures var o := Resume(cfg, s, stream, pos, limit, any);
      && (o.status == NotFinished || o.status == MaybeFinishedWithoutMark)
      && o.session.machine.out == src[..limit]
    decreases |syms|
  {
    hide EncodeSymbol, CtxOf, Valid, ValidSym, CanApply, Window, InStep, Sound, Next, AfterSymbol, EndOf, DecNormalize, IsRepSym;
    ParseGrows(cfg, m, syms, src);
    var sym := syms[0];
    ApplyHasContext(m, sym);
    var r := EncodeSymbol(CtxOf(cfg.props, m), sym, e, model);
    SymbolKeepsValid(CtxOf(cfg.props, m), sym, e, model);
    EncodeSymsWindow(cfg, Apply(m, sym), syms[1..], src, r.enc, r.model, stream);
    ParseGrows(cfg, Apply(m, sym), syms[1..], src);
    if |Apply(m, sym).out| <= limit {
      SymbolInStream(cfg, m, sym, e, model, s, pos, stream, limit);
      var d := Next(cfg, s, stream, pos);
      NextIsUsable(cfg, s, stream, pos);
      AfterSymbolSound(cfg, s, d, stream, limit);
      BeginGoes(s, pos, limit, any);
      ParseIsCut(cfg, Apply(m, sym), syms[1..], src, r.enc, r.model,
                 AfterSymbol(cfg, s, d, stream, limit), EndOf(d, stream), stream, limit, any);
    } else {
      SymbolIsCut(cfg, m, sym, e, model, s, pos, stream, limit, any);
      assert Apply(m, sym).out[..limit] == src[..limit];
    }
  }

  /**
   Given less room than the data take, a call gives as many bytes as there is room for. It is content
   with them if it may stop anywhere; if the data must end there it reports an error, except where
   the code is zero.
   */
  lemma ShortOfRoom(cfg: Config, syms: seq<Sym>, src: seq<byte>, tail: seq<byte>, limit: nat, any: bool)
    requires cfg.Valid() && Parse(cfg, START, syms, src) && limit < |src|
    ensures var a := DecodeToDic(cfg, NEW, LzmaStream(cfg, syms, src) + tail, limit, any);
      && OutOf(a.reader) == src[..limit]
      && (a.status == NotFinished || (a.status == MaybeFinishedWithoutMark && a.reader.session.code == 0))
      && a.res == (if any || a.status == MaybeFinishedWithoutMark then SzOk else SzErrorData)
  {
    hide EncodeSyms, Parse, Sound, InStep, Resume, Valid, Window, Flush;
    var stream := LzmaStream(cfg, syms, src) + tail;
    StartIsValid();
    EncodeSymsKeepsValid(cfg, START, syms, src, ENC_INIT, map[]);
    FlushWindow(EncodeSyms(cfg, START, syms, src, ENC_INIT, map[]).enc, tail);
    var s := FirstSymbolReady(cfg, syms, src, tail);
    ParseIsCut(cfg, START, syms, src, ENC_INIT, map[], s, 5, stream, limit, any);
    ResumeSaysTruly(cfg, s, stream, 5, limit, any);
    NewReads(cfg, stream, limit, any);
  }
}
