/**
 The resumable decoder as a function: what `LzmaDec_DecodeToDic` does with the bytes it
 has buffered and the bytes it is given, symbol by symbol.
 */
module Decoder {
  import opened Bytes
  import opened RangeCoder
  import opened Symbols
  import opened SymbolCoder
  import opened SymbolBounds
  import opened Lookahead
  import opened Lz

  datatype Config = Config(props: Props, dicSize: nat) {
    ghost predicate Valid() {
      props.Valid() && 0x1000 <= dicSize < 0x1_0000_0000
    }
  }

  /**
   A decoder between symbols. `remainLen` counts the bytes of the last match still to be
   copied; 274 says that the end mark was read and 512 that the data are in error.
   */
  datatype Session = Session(machine: Machine, model: Model, range: u32, code: u32, remainLen: nat)

  datatype Res = SzOk | SzErrorData | SzErrorFail

  datatype Status = NotSpecified | FinishedWithMark | NotFinished | NeedsMoreInput | MaybeFinishedWithoutMark

  /** What a call returns: `held` bytes stay buffered, `pos` is the read position in the input. */
  datatype Outcome = Outcome(res: Res, status: Status, session: Session, held: seq<byte>, pos: nat)

  /** A stream whose first symbol repeats a distance has a code from here on. */
  const BAD_REP_CODE := 0xBFFF_FC00

  ghost predicate RepsReach(r: Reps, n: nat) {
    1 <= r.r0 <= n && 1 <= r.r1 <= n && 1 <= r.r2 <= n && 1 <= r.r3 <= n
  }

  /** Every distance a symbol can name without a check reaches back into the data produced. */
  ghost predicate Sound(s: Session) {
    && s.remainLen <= 274
    && s.range >= 0x100_0000
    && s.machine.state < 12
    && (s.machine.out == [] ==>
          && s.machine == START
          && (s.remainLen == 0 || s.remainLen == 274)
          && (s.remainLen == 0 ==> s.model == map[] && s.range == 0xFFFF_FFFF && s.code < 0xBFFF_FC00))
    && (s.machine.out != [] ==> RepsReach(s.machine.reps, |s.machine.out|))
  }

  ghost predicate IsRepSym(sym: Sym) {
    sym.ShortRep? || sym.Rep?
  }

  /** `LzmaDec_WriteRem`: copy on what the last match left over, up to `limit`. */
  function WriteRem(s: Session, limit: nat): Session
    requires Sound(s) && s.remainLen < 274 && |s.machine.out| <= limit
  {
    if s.remainLen == 0 then s
    else
      var n := Min(s.remainLen, limit - |s.machine.out|);
      s.(machine := s.machine.(out := Copy(s.machine.out, s.machine.reps.r0, n)), remainLen := s.remainLen - n)
  }

  function Next(cfg: Config, s: Session, input: seq<byte>, pos: nat): Decoded
    requires cfg.Valid() && Sound(s)
  {
    DecodeSymbol(CtxOf(cfg.props, s.machine), Dec(s.range, s.code, pos), s.model, input)
  }

  /** How far back a new distance may reach. */
  function Reach(cfg: Config, m: Machine): nat {
    Min(|m.out|, cfg.dicSize)
  }

  /** The effect of a symbol, the copy cut at `limit`. */
  function Take(cfg: Config, s: Session, sym: Sym, limit: nat): Session
    requires Sound(s) && s.remainLen == 0 && ValidSym(sym) && |s.machine.out| <= limit
    requires IsRepSym(sym) ==> s.machine.out != []
  {
    var m := s.machine;
    if sym.Literal? || sym.ShortRep? then s.(machine := Apply(m, sym))
    else
      var reps, state := NextReps(m.reps, sym), NextState(m.state, sym);
      if sym.Match? && sym.dist == 0xFFFF_FFFF then s.(remainLen := 274)
      else if sym.Match? && sym.dist >= Reach(cfg, m) then
        s.(machine := Machine(state, reps, m.out), remainLen := 512)
      else
        var n := Min(SymLen(sym), limit - |m.out|);
        s.(machine := Machine(state, reps, Copy(m.out, reps.r0, n)), remainLen := SymLen(sym) - n)
  }

  lemma WriteRemSound(s: Session, limit: nat)
    requires Sound(s) && s.remainLen < 274 && |s.machine.out| <= limit
    ensures var r := WriteRem(s, limit);
      && Sound(r)
      && |s.machine.out| <= |r.machine.out| <= limit
      && (r.remainLen == 0 || |r.machine.out| == limit)
      && r.remainLen <= s.remainLen
      && (|r.machine.out| == |s.machine.out| ==> r.remainLen == s.remainLen)
      && (|s.machine.out| < limit && s.remainLen > 0 ==> |r.machine.out| > |s.machine.out|)
      && r == s.(machine := r.machine, remainLen := r.remainLen)
      && (s.remainLen == 0 ==> r == s)
  {
  }

  lemma TakeSound(cfg: Config, s: Session, sym: Sym, limit: nat)
    requires Sound(s) && s.remainLen == 0 && ValidSym(sym) && |s.machine.out| <= limit
    requires IsRepSym(sym) ==> s.machine.out != []
    requires |s.machine.out| < limit || sym.Match?
    ensures var r := Take(cfg, s, sym, limit);
      && (r.remainLen == 512 || Sound(r))
      && |s.machine.out| <= |r.machine.out| <= limit
      && (|s.machine.out| < |r.machine.out| || r.remainLen > 0)
  {
  }

  // ---------- The first symbol ----------

  /** Phases from which only one kind of symbol can be reached. */
  predicate OnlyMatch(p: Phase) {
    match p
    case AtLenChoice(src) => src.MatchLen?
    case AtLenChoice2(src) => src.MatchLen?
    case AtLenTree(src, _, _, _) => src.MatchLen?
    case AtSlot(_, _, _) => true
    case AtSpec(_, _, _, _) => true
    case AtDirect(_, _, _) => true
    case AtAlign(_, _, _, _) => true
    case Done(sym) => sym.Match?
    case _ => false
  }

  predicate OnlyLiteral(p: Phase) {
    p.AtLiteral? || (p.Done? && p.sym.Literal?)
  }

  predicate OnlyRep(p: Phase) {
    match p
    case AtIsRepG0 => true
    case AtIsRep0Long => true
    case AtIsRepG1 => true
    case AtIsRepG2 => true
    case AtLenChoice(src) => src.RepLen?
    case AtLenChoice2(src) => src.RepLen?
    case AtLenTree(src, _, _, _) => src.RepLen?
    case Done(sym) => sym.ShortRep? || sym.Rep?
    case _ => false
  }

  lemma {:induction false} KindIsSettled(p: Phase, ctx: Ctx, d: Dec, m: Model, s: seq<byte>)
    ensures var sym := DecodeFrom(p, ctx, d, m, s).sym;
      && (OnlyMatch(p) ==> sym.Match?)
      && (OnlyLiteral(p) ==> sym.Literal?)
      && (OnlyRep(p) ==> IsRepSym(sym))
    decreases Stage(p), Left(p)
  {
    hide AnswerAt, ModelAfter;
    if !p.Done? {
      var (bit, d1) := AnswerAt(p, ctx, d, m, s);
      AdvanceDescends(p, ctx, bit);
      KindIsSettled(Advance(p, ctx, bit), ctx, d1, ModelAfter(p, ctx, m, bit), s);
    }
  }

  /**
   The early check on the code: in a fresh decoder the first symbol is a repetition
   exactly when the code has reached `BAD_REP_CODE`.
   */
  lemma BadRepCodeIsExact(ctx: Ctx, code: u32, pos: nat, s: seq<byte>)
    ensures IsRepSym(DecodeSymbol(ctx, Dec(0xFFFF_FFFF, code, pos), map[], s).sym) <==> code >= BAD_REP_CODE
  {
    FreshSymbol(AtIsMatch, ctx, Dec(0xFFFF_FFFF, code, pos), s);
  }

  lemma FreshSymbol(p: Phase, ctx: Ctx, d: Dec, s: seq<byte>)
    requires p == AtIsMatch && d.range == 0xFFFF_FFFF
    ensures IsRepSym(DecodeFrom(p, ctx, d, map[], s).sym) <==> d.code >= 0xBFFF_FC00
  {
    var (bit, d1) := AnswerAt(p, ctx, d, map[], s);
    assert Bound(0xFFFF_FFFF, 1024) == 0x7FFF_FC00;
    assert bit == (d.code >= 0x7FFF_FC00);
    var p1, m1 := Advance(p, ctx, bit), ModelAfter(p, ctx, map[], bit);
    KindIsSettled(p1, ctx, d1, m1, s);
    if bit {
      assert d1 == Dec(0x8000_03FF, d.code - 0x7FFF_FC00, d.pos);
      SecondBit(p1, ctx, d1, m1, s);
    }
  }

  lemma SecondBit(p: Phase, ctx: Ctx, d: Dec, m: Model, s: seq<byte>)
    requires p == AtIsRep && d.range == 0x8000_03FF && IsRep(ctx.state) !in m
    ensures IsRepSym(DecodeFrom(p, ctx, d, m, s).sym) <==> d.code >= 0x4000_0000
  {
    var (bit, d1) := AnswerAt(p, ctx, d, m, s);
    assert Bound(0x8000_03FF, 1024) == 0x4000_0000;
    KindIsSettled(Advance(p, ctx, bit), ctx, d1, ModelAfter(p, ctx, m, bit), s);
  }

  /** The session after a symbol: what it means, and the range coder where the symbol ended. */
  function AfterSymbol(cfg: Config, s: Session, d: Decoded, input: seq<byte>, limit: nat): Session
    requires Sound(s) && s.remainLen == 0 && ValidSym(d.sym) && |s.machine.out| <= limit
    requires IsRepSym(d.sym) ==> s.machine.out != []
  {
    var n := DecNormalize(d.dec, input);
    Take(cfg, s, d.sym, limit).(model := d.model, range := n.range, code := n.code)
  }

  function EndOf(d: Decoded, input: seq<byte>): nat {
    DecNormalize(d.dec, input).pos
  }

  lemma NextIsUsable(cfg: Config, s: Session, input: seq<byte>, pos: nat)
    requires cfg.Valid() && Sound(s) && s.remainLen == 0
    ensures var d := Next(cfg, s, input, pos);
      && ValidSym(d.sym)
      && pos <= EndOf(d, input) <= pos + 20
      && DecNormalize(d.dec, input).range >= 0x100_0000
      && (IsRepSym(d.sym) ==> s.machine.out != [])
  {
    var ctx := CtxOf(cfg.props, s.machine);
    SymbolTakesAtMost20Bytes(AtIsMatch, ctx, Dec(s.range, s.code, pos), s.model, input);
    if s.machine.out == [] {
      BadRepCodeIsExact(ctx, s.code, pos, input);
    }
    hide DecodeFrom, CtxOf, ValidSym, DecNormalize;
  }

  lemma AfterSymbolSound(cfg: Config, s: Session, d: Decoded, input: seq<byte>, limit: nat)
    requires Sound(s) && s.remainLen == 0 && ValidSym(d.sym) && |s.machine.out| <= limit
    requires IsRepSym(d.sym) ==> s.machine.out != []
    requires DecNormalize(d.dec, input).range >= 0x100_0000
    requires |s.machine.out| < limit || d.sym.Match?
    ensures var r := AfterSymbol(cfg, s, d, input, limit);
      && (r.remainLen == 512 || Sound(r))
      && |s.machine.out| <= |r.machine.out| <= limit
      && (|s.machine.out| < |r.machine.out| || r.remainLen > 0)
  {
    TakeSound(cfg, s, d.sym, limit);
  }

  /** What is decided before a symbol is read: to stop, or to go on with what is left to write written. */
  datatype Head = Stop(outcome: Outcome) | Go(session: Session, full: bool)

  function Begin(s: Session, pos: nat, limit: nat, any: bool): (h: Head)
    requires Sound(s) && |s.machine.out| <= limit
    ensures h.Stop? ==> h.outcome.status != NeedsMoreInput && h.outcome.pos == pos && h.outcome.held == []
    ensures h.Go? ==>
      && Sound(h.session) && h.session.remainLen == 0
      && |s.machine.out| <= |h.session.machine.out| <= limit
      && h.full == (|h.session.machine.out| == limit)
      && (|h.session.machine.out| == |s.machine.out| ==> s.remainLen == 0)
      && (s.remainLen == 0 ==> h.session == s)
  {
    if s.remainLen == 274 then
      Stop(if s.code != 0 then Outcome(SzErrorData, NotSpecified, s, [], pos)
           else Outcome(SzOk, FinishedWithMark, s, [], pos))
    else
      WriteRemSound(s, limit);
      var s1 := WriteRem(s, limit);
      var full := |s1.machine.out| == limit;
      if full && s1.remainLen == 0 && s1.code == 0 then Stop(Outcome(SzOk, MaybeFinishedWithoutMark, s1, [], pos))
      else if full && any then Stop(Outcome(SzOk, NotFinished, s1, [], pos))
      else if full && s1.remainLen != 0 then Stop(Outcome(SzErrorData, NotFinished, s1, [], pos))
      else Go(s1, full)
  }

  /** The part of a call that comes after the five bytes that start a stream. */
  function Resume(cfg: Config, s: Session, input: seq<byte>, pos: nat, limit: nat, any: bool): Outcome
    requires cfg.Valid() && Sound(s) && |s.machine.out| <= limit && pos <= |input|
    decreases limit - |s.machine.out|, if s.remainLen == 0 then 1 else 0
  {
    match Begin(s, pos, limit, any)
    case Stop(outcome) => outcome
    case Go(s1, full) =>
      NextIsUsable(cfg, s1, input, pos);
      var d := Next(cfg, s1, input, pos);
      var end := EndOf(d, input);
      if end > |input| then Outcome(SzOk, NeedsMoreInput, s1, input[pos..], |input|)
      else if full && !d.sym.Match? then Outcome(SzErrorData, NotFinished, s1, input[pos..end], end)
      else
        AfterSymbolSound(cfg, s1, d, input, limit);
        var s2 := AfterSymbol(cfg, s1, d, input, limit);
        if s2.remainLen == 512 then Outcome(SzErrorData, NotSpecified, s2, [], end)
        else Resume(cfg, s2, input, end, limit, any)
  }
}
