/**
 Feeding a stream to the resumable decoder in pieces gives what feeding it at once gives.
 */
module Chunking {
  import opened Bytes
  import opened RangeCoder
  import opened Symbols
  import opened SymbolCoder
  import opened SymbolBounds
  import opened Lookahead
  import opened Lz
  import opened Decoder

  /** A decoder between calls: before the five starting bytes, or after them. */
  datatype Reader =
    | Fresh(temp: seq<byte>)
    | Reading(session: Session, temp: seq<byte>)

  datatype Answer = Answer(res: Res, status: Status, reader: Reader, used: nat)

  const NEW: Reader := Fresh([])

  /** What has been produced so far */
  function OutOf(r: Reader): seq<byte> {
    if r.Fresh? then [] else r.session.machine.out
  }

  function FreshSession(head: seq<byte>): Session
    requires |head| == 5
  {
    Session(START, map[], 0xFFFF_FFFF, Code32(head[1], head[2], head[3], head[4]), 0)
  }

  /** Buffered bytes do not hold a whole symbol and something more. */
  ghost predicate Hungry(cfg: Config, s: Session, temp: seq<byte>)
    requires cfg.Valid() && Sound(s)
  {
    temp != [] ==> s.remainLen == 0 && EndOf(Next(cfg, s, temp, 0), temp) >= |temp|
  }

  ghost predicate Usable(cfg: Config, r: Reader, limit: nat) {
    && cfg.Valid()
    && match r
       case Fresh(temp) => |temp| <= 5
       case Reading(s, temp) =>
         s.remainLen == 512 || (Sound(s) && |s.machine.out| <= limit && Hungry(cfg, s, temp))
  }

  function Continue(cfg: Config, s: Session, temp: seq<byte>, src: seq<byte>, limit: nat, any: bool): Answer
    requires cfg.Valid() && Sound(s) && |s.machine.out| <= limit
  {
    var o := Resume(cfg, s, temp + src, 0, limit, any);
    if o.pos < |temp| then Answer(o.res, o.status, Reading(o.session, temp), 0)
    else Answer(o.res, o.status, Reading(o.session, o.held), o.pos - |temp|)
  }

  /** `LzmaDec_DecodeToDic`. `limit` is the number of bytes the dictionary may hold in all. */
  function DecodeToDic(cfg: Config, r: Reader, src: seq<byte>, limit: nat, any: bool): Answer
    requires Usable(cfg, r, limit)
  {
    match r
    case Fresh(temp) =>
      var n := Min(5 - |temp|, |src|);
      var head := temp + src[..n];
      if head != [] && head[0] != 0 then Answer(SzErrorData, NotSpecified, Fresh(head), n)
      else if |head| < 5 then Answer(SzOk, NeedsMoreInput, Fresh(head), n)
      else
        var s := FreshSession(head);
        if s.code >= BAD_REP_CODE then Answer(SzErrorData, NotSpecified, Fresh(head), n)
        else
          var a := Continue(cfg, s, [], src[n..], limit, any);
          a.(used := n + a.used)
    case Reading(s, temp) =>
      if s.remainLen == 512 then Answer(SzErrorData, NotSpecified, r, 0)
      else Continue(cfg, s, temp, src, limit, any)
  }

  // ---------- One symbol in a longer or a shifted buffer ----------

  lemma NextExtends(cfg: Config, s: Session, input: seq<byte>, more: seq<byte>, pos: nat)
    requires cfg.Valid() && Sound(s) && s.remainLen == 0
    requires EndOf(Next(cfg, s, input, pos), input) <= |input|
    ensures var a, b := Next(cfg, s, input, pos), Next(cfg, s, input + more, pos);
      a == b && DecNormalize(a.dec, input) == DecNormalize(b.dec, input + more)
  {
    hide DecodeFrom;
    var ctx := CtxOf(cfg.props, s.machine);
    var d := Dec(s.range, s.code, pos);
    ReadsOnlyItsBytes(AtIsMatch, ctx, d, s.model, input, input + more, 0, |input|);
    hide DecNormalize, CtxOf;
  }

  lemma ReadsOnlyItsBytes(p: Phase, ctx: Ctx, d: Dec, m: Model, s: seq<byte>, t: seq<byte>, shift: int, n: nat)
    requires p == AtIsMatch && d.range >= 0x100_0000 && d.pos + shift >= 0
    requires SameBytes(s, t, shift, n)
    requires DecNormalize(DecodeFrom(p, ctx, d, m, s).dec, s).pos <= n
    ensures DecodeFrom(p, ctx, d, m, s).dec.pos >= d.pos
    ensures var a, b := DecodeFrom(p, ctx, d, m, s), DecodeFrom(p, ctx, Moved(d, shift), m, t);
      && b == a.(dec := Moved(a.dec, shift))
      && DecNormalize(b.dec, t) == Moved(DecNormalize(a.dec, s), shift)
  {
    WalkReadsOnlyItsBytes(p, ctx, d, m, s, t, shift, n);
  }

  /** Two readings of one symbol that differ only in where their buffers begin. */
  ghost predicate SameReading(a: Decoded, s: seq<byte>, b: Decoded, t: seq<byte>, cut: nat) {
    && b.sym == a.sym && b.model == a.model
    && cut <= a.dec.pos
    && b.dec == Moved(a.dec, -(cut as int))
    && DecNormalize(b.dec, t) == Moved(DecNormalize(a.dec, s), -(cut as int))
  }

  /** Dropping the bytes before the read position changes positions only. */
  lemma NextMoved(cfg: Config, s: Session, input: seq<byte>, cut: nat, pos: nat)
    requires cfg.Valid() && Sound(s) && s.remainLen == 0 && cut <= pos <= |input|
    ensures SameReading(Next(cfg, s, input, pos), input, Next(cfg, s, input[cut..], pos - cut), input[cut..], cut)
  {
    hide DecodeFrom;
    var ctx := CtxOf(cfg.props, s.machine);
    var d := Dec(s.range, s.code, pos);
    NextIsUsable(cfg, s, input, pos);
    var shift: int := -(cut as int);
    assert SameBytes(input, input[cut..], shift, pos + 20);
    ReadsOnlyItsBytes(AtIsMatch, ctx, d, s.model, input, input[cut..], shift, pos + 20);
    hide DecNormalize, CtxOf;
  }

  lemma SameReadingSameSession(cfg: Config, s: Session, a: Decoded, x: seq<byte>, b: Decoded, y: seq<byte>, cut: nat, limit: nat)
    requires Sound(s) && s.remainLen == 0 && ValidSym(a.sym) && |s.machine.out| <= limit
    requires IsRepSym(a.sym) ==> s.machine.out != []
    requires SameReading(a, x, b, y, cut)
    ensures AfterSymbol(cfg, s, b, y, limit) == AfterSymbol(cfg, s, a, x, limit)
    ensures EndOf(b, y) + cut == EndOf(a, x) && b.sym == a.sym
  {
    hide DecNormalize, Take;
  }

  lemma BeginMoved(s: Session, pos: nat, to: nat, limit: nat, any: bool)
    requires Sound(s) && |s.machine.out| <= limit
    ensures var a, b := Begin(s, pos, limit, any), Begin(s, to, limit, any);
      b == if a.Go? then a else Stop(a.outcome.(pos := to))
  {
    hide WriteRem;
  }

  /** A call may start in the middle of a buffer, or in one that begins there. */
  lemma {:induction false} ResumeMoved(cfg: Config, s: Session, input: seq<byte>, cut: nat, pos: nat, limit: nat, any: bool)
    requires cfg.Valid() && Sound(s) && |s.machine.out| <= limit && cut <= pos <= |input|
    ensures var o := Resume(cfg, s, input, pos, limit, any);
      o.pos >= cut && Resume(cfg, s, input[cut..], pos - cut, limit, any) == o.(pos := o.pos - cut)
    decreases limit - |s.machine.out|, if s.remainLen == 0 then 1 else 0
  {
    hide Begin, Next, AfterSymbol, EndOf, SameReading, Sound, ValidSym, DecNormalize, IsRepSym;
    BeginMoved(s, pos, pos - cut, limit, any);
    match Begin(s, pos, limit, any) {
      case Stop(_) =>
      case Go(s1, full) =>
        NextIsUsable(cfg, s1, input, pos);
        NextMoved(cfg, s1, input, cut, pos);
        var d := Next(cfg, s1, input, pos);
        var d' := Next(cfg, s1, input[cut..], pos - cut);
        SameReadingSameSession(cfg, s1, d, input, d', input[cut..], cut, limit);
        var end := EndOf(d, input);
        assert end <= |input| ==> input[cut..][pos - cut..end - cut] == input[pos..end];
        assert input[cut..][pos - cut..] == input[pos..];
        if end <= |input| && !(full && !d.sym.Match?) {
          AfterSymbolSound(cfg, s1, d, input, limit);
          var s2 := AfterSymbol(cfg, s1, d, input, limit);
          if s2.remainLen != 512 {
            ResumeMoved(cfg, s2, input, cut, end, limit, any);
          }
        }
    }
  }

  lemma BeginAgain(s: Session, pos: nat, limit: nat, any: bool)
    requires Sound(s) && |s.machine.out| <= limit
    ensures Begin(s, pos, limit, any).Go? ==>
      Begin(Begin(s, pos, limit, any).session, pos, limit, any) == Begin(s, pos, limit, any)
  {
    hide Sound;
  }

  ghost predicate Interrupted(cfg: Config, o: Outcome, input: seq<byte>, limit: nat, any: bool) {
    && cfg.Valid()
    && Sound(o.session) && o.session.remainLen == 0 && |o.session.machine.out| <= limit
    && Begin(o.session, 0, limit, any).Go?
    && o.pos == |input| && |o.held| <= |input|
    && EndOf(Next(cfg, o.session, o.held, 0), o.held) > |o.held|
  }

  /**
   A call that runs out of input has lost nothing: taken up again on what it holds and the
   rest, it does what it would have done with everything at once.
   */
  lemma {:induction false} ResumeSplits(cfg: Config, s: Session, input: seq<byte>, more: seq<byte>, pos: nat, limit: nat, any: bool)
    requires cfg.Valid() && Sound(s) && |s.machine.out| <= limit && pos <= |input|
    requires Resume(cfg, s, input, pos, limit, any).status == NeedsMoreInput
    ensures var o := Resume(cfg, s, input, pos, limit, any);
      && o.res == SzOk
      && Interrupted(cfg, o, input, limit, any)
      && var o2 := Resume(cfg, o.session, o.held + more, 0, limit, any);
         Resume(cfg, s, input + more, pos, limit, any) == o2.(pos := o2.pos + |input| - |o.held|)
    decreases limit - |s.machine.out|, if s.remainLen == 0 then 1 else 0
  {
    hide Begin, Next, AfterSymbol, EndOf, SameReading, Sound, ValidSym, DecNormalize, IsRepSym;
    var h := Begin(s, pos, limit, any);
    var s1, full := h.session, h.full;
    NextIsUsable(cfg, s1, input, pos);
    var d := Next(cfg, s1, input, pos);
    var end := EndOf(d, input);
    if end > |input| {
      ResumeInterrupted(cfg, s, s1, input, more, pos, limit, any);
    } else {
      NextExtendsEnd(cfg, s1, input, more, pos, limit);
      AfterSymbolSound(cfg, s1, d, input, limit);
      ResumeSplits(cfg, AfterSymbol(cfg, s1, d, input, limit), input, more, end, limit, any);
    }
  }

  lemma NextExtendsEnd(cfg: Config, s: Session, input: seq<byte>, more: seq<byte>, pos: nat, limit: nat)
    requires cfg.Valid() && Sound(s) && s.remainLen == 0 && |s.machine.out| <= limit
    requires EndOf(Next(cfg, s, input, pos), input) <= |input|
    ensures var a, b := Next(cfg, s, input, pos), Next(cfg, s, input + more, pos);
      && a == b && EndOf(a, input) == EndOf(b, input + more)
      && ValidSym(a.sym) && (IsRepSym(a.sym) ==> s.machine.out != [])
      && AfterSymbol(cfg, s, a, input, limit) == AfterSymbol(cfg, s, b, input + more, limit)
  {
    NextIsUsable(cfg, s, input, pos);
    NextExtends(cfg, s, input, more, pos);
    hide Next, DecNormalize, Take, ValidSym, Sound;
  }

  lemma ResumeInterrupted(cfg: Config, s: Session, s1: Session, input: seq<byte>, more: seq<byte>, pos: nat, limit: nat, any: bool)
    requires cfg.Valid() && Sound(s) && |s.machine.out| <= limit && pos <= |input|
    requires Begin(s, pos, limit, any).Go? && Begin(s, pos, limit, any).session == s1
    requires EndOf(Next(cfg, s1, input, pos), input) > |input|
    ensures var o := Resume(cfg, s, input, pos, limit, any);
      && o == Outcome(SzOk, NeedsMoreInput, s1, input[pos..], |input|)
      && Interrupted(cfg, o, input, limit, any)
      && var o2 := Resume(cfg, s1, input[pos..] + more, 0, limit, any);
         Resume(cfg, s, input + more, pos, limit, any) == o2.(pos := o2.pos + |input| - |o.held|)
  {
    hide Begin, Next, AfterSymbol, EndOf, SameReading, Sound, DecNormalize;
    BeginAgain(s, pos, limit, any);
    BeginMoved(s1, pos, 0, limit, any);
    NextIsUsable(cfg, s1, input, pos);
    NextMovedEnd(cfg, s1, input, pos);
    assert (input + more)[pos..] == input[pos..] + more;
    ResumeMoved(cfg, s1, input + more, pos, pos, limit, any);
    assert Resume(cfg, s, input + more, pos, limit, any) == Resume(cfg, s1, input + more, pos, limit, any);
  }

  lemma NextMovedEnd(cfg: Config, s: Session, input: seq<byte>, pos: nat)
    requires cfg.Valid() && Sound(s) && s.remainLen == 0 && pos <= |input|
    ensures EndOf(Next(cfg, s, input[pos..], 0), input[pos..]) == EndOf(Next(cfg, s, input, pos), input) - pos
  {
    NextMoved(cfg, s, input, pos, pos);
    hide Next, DecNormalize, Sound;
  }

  /** What a call leaves behind can be taken up again, and the buffer of 20 bytes is large enough. */
  ghost predicate Resumable(cfg: Config, o: Outcome, from: nat, size: nat, limit: nat) {
    && cfg.Valid()
    && from <= o.pos <= size && |o.held| <= o.pos - from && |o.held| <= 20
    && (o.session.remainLen == 512 ||
          (Sound(o.session) && |o.session.machine.out| <= limit && Hungry(cfg, o.session, o.held)))
    && (o.session.remainLen == 512 ==> o.held == [] && o.res == SzErrorData)
    && o.res != SzErrorFail
  }

  lemma NextCutEnd(cfg: Config, s: Session, input: seq<byte>, pos: nat)
    requires cfg.Valid() && Sound(s) && s.remainLen == 0 && pos <= |input|
    requires pos <= EndOf(Next(cfg, s, input, pos), input) <= |input|
    ensures var end := EndOf(Next(cfg, s, input, pos), input);
      EndOf(Next(cfg, s, input[pos..end], 0), input[pos..end]) == end - pos
  {
    hide DecodeFrom;
    var end := EndOf(Next(cfg, s, input, pos), input);
    var ctx := CtxOf(cfg.props, s.machine);
    var shift: int := -(pos as int);
    assert SameBytes(input, input[pos..end], shift, end);
    ReadsOnlyItsBytes(AtIsMatch, ctx, Dec(s.range, s.code, pos), s.model, input, input[pos..end], shift, end);
    hide DecNormalize, CtxOf;
  }

  lemma BeginKeepsSound(s: Session, pos: nat, limit: nat, any: bool)
    requires Sound(s) && |s.machine.out| <= limit
    ensures var h := Begin(s, pos, limit, any);
      h.Stop? ==> Sound(h.outcome.session) && |h.outcome.session.machine.out| <= limit && h.outcome.res != SzErrorFail
                  && h.outcome.session.remainLen <= 274
  {
  }

  lemma {:induction false} ResumeKeepsUsable(cfg: Config, s: Session, input: seq<byte>, pos: nat, limit: nat, any: bool)
    requires cfg.Valid() && Sound(s) && |s.machine.out| <= limit && pos <= |input|
    ensures Resumable(cfg, Resume(cfg, s, input, pos, limit, any), pos, |input|, limit)
    decreases limit - |s.machine.out|, if s.remainLen == 0 then 1 else 0
  {
    hide Begin, Next, AfterSymbol, EndOf, Sound, ValidSym, DecNormalize, IsRepSym;
    BeginKeepsSound(s, pos, limit, any);
    match Begin(s, pos, limit, any) {
      case Stop(_) =>
      case Go(s1, full) =>
        NextIsUsable(cfg, s1, input, pos);
        var d := Next(cfg, s1, input, pos);
        var end := EndOf(d, input);
        if end > |input| {
          NextMovedEnd(cfg, s1, input, pos);
        } else if full && !d.sym.Match? {
          NextCutEnd(cfg, s1, input, pos);
        } else {
          AfterSymbolSound(cfg, s1, d, input, limit);
          var s2 := AfterSymbol(cfg, s1, d, input, limit);
          if s2.remainLen != 512 {
            ResumeKeepsUsable(cfg, s2, input, end, limit, any);
          }
        }
    }
  }

  /** Bytes that were buffered are used up by the first symbol that is read. */
  lemma HeldIsUsed(cfg: Config, s: Session, temp: seq<byte>, src: seq<byte>)
    requires cfg.Valid() && Sound(s) && s.remainLen == 0 && Hungry(cfg, s, temp)
    ensures EndOf(Next(cfg, s, temp + src, 0), temp + src) >= |temp|
  {
    hide DecodeFrom;
    var x := temp + src;
    if EndOf(Next(cfg, s, x, 0), x) < |temp| {
      assert SameBytes(x, temp, 0, |temp|);
      ReadsOnlyItsBytes(AtIsMatch, CtxOf(cfg.props, s.machine), Dec(s.range, s.code, 0), s.model, x, temp, 0, |temp|);
      hide DecNormalize, CtxOf;
    }
  }

  lemma ResumeUsesHeld(cfg: Config, s: Session, temp: seq<byte>, src: seq<byte>, limit: nat, any: bool)
    requires cfg.Valid() && Sound(s) && |s.machine.out| <= limit && Hungry(cfg, s, temp)
    ensures var o := Resume(cfg, s, temp + src, 0, limit, any);
      || o.pos >= |temp|
      || (o.pos == 0 && o.held == [] && o.session == s && temp != [] && Begin(s, 0, limit, any).Stop?
          && o.status != NeedsMoreInput)
  {
    if temp != [] {
      HeldIsUsed(cfg, s, temp, src);
      ResumeUsesNext(cfg, s, temp + src, limit, any);
    }
    hide Hungry, Sound;
  }

  lemma ResumeUsesNext(cfg: Config, s: Session, input: seq<byte>, limit: nat, any: bool)
    requires cfg.Valid() && Sound(s) && |s.machine.out| <= limit && s.remainLen == 0
    ensures var o := Resume(cfg, s, input, 0, limit, any);
      var end := EndOf(Next(cfg, s, input, 0), input);
      || o.pos >= Min(end, |input|)
      || (o.pos == 0 && o.held == [] && o.session == s && Begin(s, 0, limit, any).Stop? && o.status != NeedsMoreInput)
  {
    BeginSame(s, limit, any);
    hide Begin, Next, AfterSymbol, EndOf, Sound, ValidSym, DecNormalize, IsRepSym;
    match Begin(s, 0, limit, any) {
      case Stop(_) =>
      case Go(s1, full) =>
        NextIsUsable(cfg, s1, input, 0);
        var d := Next(cfg, s1, input, 0);
        var end := EndOf(d, input);
        if end <= |input| && !(full && !d.sym.Match?) {
          AfterSymbolSound(cfg, s1, d, input, limit);
          var s2 := AfterSymbol(cfg, s1, d, input, limit);
          if s2.remainLen != 512 {
            ResumeKeepsUsable(cfg, s2, input, end, limit, any);
          }
        }
    }
  }

  lemma BeginSame(s: Session, limit: nat, any: bool)
    requires Sound(s) && |s.machine.out| <= limit && s.remainLen == 0
    ensures match Begin(s, 0, limit, any)
      case Stop(o) => o.session == s && o.pos == 0 && o.held == []
      case Go(s1, _) => s1 == s
  {
    hide Sound;
  }

  /**
   After any call, whatever the input, the decoder can be called again; it never reports an
   internal failure, never holds more than 20 bytes and never uses more than it was given.
   */
  lemma DecodeToDicKeepsUsable(cfg: Config, r: Reader, src: seq<byte>, limit: nat, any: bool)
    requires Usable(cfg, r, limit) && |r.temp| <= 20
    ensures var a := DecodeToDic(cfg, r, src, limit, any);
      Usable(cfg, a.reader, limit) && |a.reader.temp| <= 20 && a.used <= |src| && a.res != SzErrorFail
  {
    match r
    case Fresh(temp) =>
      var n := Min(5 - |temp|, |src|);
      var head := temp + src[..n];
      if |head| == 5 && head[0] == 0 && FreshSession(head).code < BAD_REP_CODE {
        ContinueKeepsUsable(cfg, FreshSession(head), [], src[n..], limit, any);
      }
    case Reading(s, temp) =>
      if s.remainLen != 512 {
        ContinueKeepsUsable(cfg, s, temp, src, limit, any);
      }
  }

  lemma ContinueKeepsUsable(cfg: Config, s: Session, temp: seq<byte>, src: seq<byte>, limit: nat, any: bool)
    requires cfg.Valid() && Sound(s) && |s.machine.out| <= limit && Hungry(cfg, s, temp) && |temp| <= 20
    ensures var a := Continue(cfg, s, temp, src, limit, any);
      Usable(cfg, a.reader, limit) && |a.reader.temp| <= 20 && a.used <= |src| && a.res != SzErrorFail
  {
    hide Sound, Resume, Hungry;
    ResumeKeepsUsable(cfg, s, temp + src, 0, limit, any);
    ResumeUsesHeld(cfg, s, temp, src, limit, any);
  }

  lemma ContinueSplits(cfg: Config, s: Session, temp: seq<byte>, x: seq<byte>, y: seq<byte>, limit: nat, any: bool)
    requires cfg.Valid() && Sound(s) && |s.machine.out| <= limit && Hungry(cfg, s, temp)
    requires Continue(cfg, s, temp, x, limit, any).status == NeedsMoreInput
    ensures var a := Continue(cfg, s, temp, x, limit, any);
      && a.used == |x| && Usable(cfg, a.reader, limit) && a.reader.Reading? && a.reader.session.remainLen != 512
      && var b := Continue(cfg, a.reader.session, a.reader.temp, y, limit, any);
         Continue(cfg, s, temp, x + y, limit, any) == b.(used := |x| + b.used)
  {
    hide Sound, Resume, Hungry, EndOf, Next;
    var o := Resume(cfg, s, temp + x, 0, limit, any);
    ResumeUsesHeld(cfg, s, temp, x, limit, any);
    ResumeKeepsUsable(cfg, s, temp + x, 0, limit, any);
    ResumeSplits(cfg, s, temp + x, y, 0, limit, any);
    assert temp + x + y == temp + (x + y);
    ResumeUsesHeld(cfg, o.session, o.held, y, limit, any);
    ResumeUsesHeld(cfg, s, temp, x + y, limit, any);
  }

  /**
   Chunking independence. If the decoder asks for more input after `x`, then going on with
   `y` gives the answer, and leaves the state, that one call on `x + y` gives.
   */
  lemma ChunkingIndependent(cfg: Config, r: Reader, x: seq<byte>, y: seq<byte>, limit: nat, any: bool)
    requires Usable(cfg, r, limit) && |r.temp| <= 20
    requires DecodeToDic(cfg, r, x, limit, any).status == NeedsMoreInput
    ensures var a := DecodeToDic(cfg, r, x, limit, any);
      && a.used == |x| && Usable(cfg, a.reader, limit)
      && var b := DecodeToDic(cfg, a.reader, y, limit, any);
         DecodeToDic(cfg, r, x + y, limit, any) == b.(used := |x| + b.used)
  {
    match r
    case Fresh(temp) => FreshSplits(cfg, temp, x, y, limit, any);
    case Reading(s, temp) => ContinueSplits(cfg, s, temp, x, y, limit, any);
  }

  /** A new decoder that is given a good head goes on behind it; otherwise the output plays no part. */
  lemma FreshGoesOn(cfg: Config, temp: seq<byte>, src: seq<byte>, limit: nat, any: bool)
    requires cfg.Valid() && |temp| <= 5
    ensures var n := Min(5 - |temp|, |src|);
            var head := temp + src[..n];
            var a := DecodeToDic(cfg, Fresh(temp), src, limit, any);
            if |head| == 5 && head[0] == 0 && FreshSession(head).code < BAD_REP_CODE then
              && Sound(FreshSession(head)) && FreshSession(head).machine.out == []
              && var b := Continue(cfg, FreshSession(head), [], src[n..], limit, any);
                 a == b.(used := n + b.used)
            else
              && a.reader == Fresh(head) && a.used == n && a == DecodeToDic(cfg, Fresh(temp), src, 0, true)
              && (a.status == NeedsMoreInput <==> |head| < 5 && (head != [] ==> head[0] == 0))
              && (a.status == NeedsMoreInput ==> a.res == SzOk)
  {
    hide Continue, FreshSession, Sound;
    var n := Min(5 - |temp|, |src|);
    var head := temp + src[..n];
    if |head| == 5 {
      FreshIsSound(head);
    }
  }

  lemma FreshSplits(cfg: Config, temp: seq<byte>, x: seq<byte>, y: seq<byte>, limit: nat, any: bool)
    requires cfg.Valid() && |temp| <= 5
    requires DecodeToDic(cfg, Fresh(temp), x, limit, any).status == NeedsMoreInput
    ensures var a := DecodeToDic(cfg, Fresh(temp), x, limit, any);
      && a.used == |x| && Usable(cfg, a.reader, limit)
      && var b := DecodeToDic(cfg, a.reader, y, limit, any);
         DecodeToDic(cfg, Fresh(temp), x + y, limit, any) == b.(used := |x| + b.used)
  {
    hide Continue, Sound, FreshSession;
    var n := Min(5 - |temp|, |x|);
    var head := temp + x[..n];
    if |head| < 5 {
      var k := Min(5 - |head|, |y|);
      assert x[..n] == x;
      assert temp + (x + y)[..n + k] == head + y[..k];
      assert (x + y)[n + k..] == y[k..];
    } else {
      GoodHeadSplits(cfg, temp, x, y, limit, any);
    }
  }

  lemma GoodHeadSplits(cfg: Config, temp: seq<byte>, x: seq<byte>, y: seq<byte>, limit: nat, any: bool)
    requires cfg.Valid() && |temp| <= 5 && |temp| + |x| >= 5
    requires DecodeToDic(cfg, Fresh(temp), x, limit, any).status == NeedsMoreInput
    ensures var a := DecodeToDic(cfg, Fresh(temp), x, limit, any);
      && a.used == |x| && Usable(cfg, a.reader, limit)
      && var b := DecodeToDic(cfg, a.reader, y, limit, any);
         DecodeToDic(cfg, Fresh(temp), x + y, limit, any) == b.(used := |x| + b.used)
  {
    hide Continue, Sound, FreshSession, DecodeToDic, Hungry;
    var n := 5 - |temp|;
    var head := temp + x[..n];
    assert (x + y)[..n] == x[..n];
    assert (x + y)[n..] == x[n..] + y;
    FreshGoesOn(cfg, temp, x, limit, any);
    FreshGoesOn(cfg, temp, x + y, limit, any);
    FreshHungry(cfg, FreshSession(head));
    ContinueSplits(cfg, FreshSession(head), [], x[n..], y, limit, any);
    ReadingGoesOn(cfg, DecodeToDic(cfg, Fresh(temp), x, limit, any).reader, y, limit, any);
  }

  lemma FreshHungry(cfg: Config, s: Session)
    requires cfg.Valid() && Sound(s)
    ensures Hungry(cfg, s, [])
  {
  }

  lemma ReadingGoesOn(cfg: Config, r: Reader, src: seq<byte>, limit: nat, any: bool)
    requires Usable(cfg, r, limit) && r.Reading? && r.session.remainLen != 512
    ensures DecodeToDic(cfg, r, src, limit, any) == Continue(cfg, r.session, r.temp, src, limit, any)
  {
    hide Continue, Sound, Hungry;
  }

  lemma FreshIsSound(head: seq<byte>)
    requires |head| == 5
    ensures FreshSession(head).code < BAD_REP_CODE ==> Sound(FreshSession(head))
    ensures FreshSession(head).machine.out == [] && FreshSession(head).remainLen == 0
  {
  }

  /** A stream with a good start, given at once. */
  lemma NewReads(cfg: Config, stream: seq<byte>, limit: nat, any: bool)
    requires cfg.Valid() && |stream| >= 5 && stream[0] == 0
    requires FreshSession(stream[..5]).code < BAD_REP_CODE && Sound(FreshSession(stream[..5]))
    ensures var o := Resume(cfg, FreshSession(stream[..5]), stream, 5, limit, any);
      DecodeToDic(cfg, NEW, stream, limit, any) == Answer(o.res, o.status, Reading(o.session, o.held), o.pos)
  {
    hide Resume, Sound;
    var s := FreshSession(stream[..5]);
    assert [] + stream[..5] == stream[..5];
    assert [] + stream[5..] == stream[5..];
    ResumeMoved(cfg, s, stream, 5, 5, limit, any);
  }

  /** A call that came to a verdict comes to the same verdict with more input behind. */
  lemma {:induction false} ResumeSettled(cfg: Config, s: Session, input: seq<byte>, more: seq<byte>, pos: nat, limit: nat, any: bool)
    requires cfg.Valid() && Sound(s) && |s.machine.out| <= limit && pos <= |input|
    requires Resume(cfg, s, input, pos, limit, any).status != NeedsMoreInput
    ensures Resume(cfg, s, input + more, pos, limit, any) == Resume(cfg, s, input, pos, limit, any)
    decreases limit - |s.machine.out|, if s.remainLen == 0 then 1 else 0
  {
    hide Begin, Next, AfterSymbol, EndOf, Sound, ValidSym, DecNormalize, IsRepSym;
    match Begin(s, pos, limit, any) {
      case Stop(_) =>
      case Go(s1, full) =>
        NextIsUsable(cfg, s1, input, pos);
        var d := Next(cfg, s1, input, pos);
        var end := EndOf(d, input);
        NextExtendsEnd(cfg, s1, input, more, pos, limit);
        assert (input + more)[pos..end] == input[pos..end];
        if !(full && !d.sym.Match?) {
          AfterSymbolSound(cfg, s1, d, input, limit);
          var s2 := AfterSymbol(cfg, s1, d, input, limit);
          if s2.remainLen != 512 {
            ResumeSettled(cfg, s2, input, more, end, limit, any);
          }
        }
    }
  }

  lemma ContinueSettled(cfg: Config, s: Session, temp: seq<byte>, x: seq<byte>, y: seq<byte>, limit: nat, any: bool)
    requires cfg.Valid() && Sound(s) && |s.machine.out| <= limit
    requires Continue(cfg, s, temp, x, limit, any).status != NeedsMoreInput
    ensures Continue(cfg, s, temp, x + y, limit, any) == Continue(cfg, s, temp, x, limit, any)
  {
    hide Sound, Resume;
    assert temp + x + y == temp + (x + y);
    ResumeSettled(cfg, s, temp + x, y, 0, limit, any);
  }

  /** The same verdict; after a good verdict also the same state and the same use of the input. */
  ghost predicate SameVerdict(a: Answer, b: Answer) {
    a.res == b.res && a.status == b.status && (a.res == SzOk ==> a == b)
  }

  lemma SettledIgnoresMore(cfg: Config, r: Reader, x: seq<byte>, y: seq<byte>, limit: nat, any: bool)
    requires Usable(cfg, r, limit)
    requires DecodeToDic(cfg, r, x, limit, any).status != NeedsMoreInput
    ensures SameVerdict(DecodeToDic(cfg, r, x + y, limit, any), DecodeToDic(cfg, r, x, limit, any))
  {
    hide Sound, Continue, FreshSession;
    match r
    case Fresh(temp) =>
      var n := Min(5 - |temp|, |x|);
      var head := temp + x[..n];
      if |head| == 5 {
        assert (x + y)[..n] == x[..n];
        assert (x + y)[n..] == x[n..] + y;
        FreshIsSound(head);
        if head[0] == 0 && FreshSession(head).code < BAD_REP_CODE {
          ContinueSettled(cfg, FreshSession(head), [], x[n..], y, limit, any);
        }
      } else {
        var n' := Min(5 - |temp|, |x + y|);
        assert (temp + (x + y)[..n'])[0] == head[0];
      }
    case Reading(s, temp) =>
      if s.remainLen != 512 {
        ContinueSettled(cfg, s, temp, x, y, limit, any);
      }
  }

  // ---------- Any number of pieces ----------

  function Concat(chunks: seq<seq<byte>>): seq<byte> {
    if chunks == [] then [] else chunks[0] + Concat(chunks[1..])
  }

  /** A caller that hands over one piece after the other for as long as more input is asked for. */
  function FeedAll(cfg: Config, r: Reader, chunks: seq<seq<byte>>, limit: nat, any: bool): Answer
    requires Usable(cfg, r, limit) && |r.temp| <= 20 && chunks != []
    decreases |chunks|
  {
    DecodeToDicKeepsUsable(cfg, r, chunks[0], limit, any);
    var a := DecodeToDic(cfg, r, chunks[0], limit, any);
    if a.status != NeedsMoreInput || |chunks| == 1 then a
    else
      var b := FeedAll(cfg, a.reader, chunks[1..], limit, any);
      b.(used := a.used + b.used)
  }

  /** However a stream is cut into pieces, the outcome is that of one call. */
  lemma {:induction false} AnyChunking(cfg: Config, r: Reader, chunks: seq<seq<byte>>, limit: nat, any: bool)
    requires Usable(cfg, r, limit) && |r.temp| <= 20 && chunks != []
    ensures SameVerdict(FeedAll(cfg, r, chunks, limit, any), DecodeToDic(cfg, r, Concat(chunks), limit, any))
    decreases |chunks|
  {
    hide DecodeToDic, Usable;
    var x, rest := chunks[0], chunks[1..];
    DecodeToDicKeepsUsable(cfg, r, x, limit, any);
    var a := DecodeToDic(cfg, r, x, limit, any);
    if |chunks| == 1 {
      assert Concat(rest) == [] && x + [] == x;
    } else if a.status != NeedsMoreInput {
      SettledIgnoresMore(cfg, r, x, Concat(rest), limit, any);
    } else {
      AnyChunking(cfg, a.reader, rest, limit, any);
      ChunkingIndependent(cfg, r, x, Concat(rest), limit, any);
    }
  }
}
