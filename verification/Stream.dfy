/**
 Whole LZMA streams: coding a parse of a source and decoding it again.
 */
module Stream {
  import opened Bytes
  import opened RangeCoder
  import opened Symbols
  import opened SymbolCoder
  import opened SymbolBounds
  import opened Lz
  import opened Decoder
  import opened Chunking

  /** From machine `m`, the symbols are valid and produce exactly `src`. */
  ghost predicate Parse(cfg: Config, m: Machine, syms: seq<Sym>, src: seq<byte>)
    decreases |syms|
  {
    if syms == [] then m.out == src
    else
      && ValidSym(syms[0]) && CanApply(m, syms[0])
      && (syms[0].Match? ==> syms[0].dist < Reach(cfg, m))
      && Parse(cfg, Apply(m, syms[0]), syms[1..], src)
  }

  /** Where the symbols lead the machine. */
  function MachineAfter(cfg: Config, m: Machine, syms: seq<Sym>, src: seq<byte>): Machine
    requires Parse(cfg, m, syms, src)
    decreases |syms|
  {
    if syms == [] then m else MachineAfter(cfg, Apply(m, syms[0]), syms[1..], src)
  }

  /** A machine whose context can be formed. */
  ghost predicate HasContext(m: Machine) {
    m.state < 12 && (m.state >= 7 ==> 0 < m.reps.r0 <= |m.out|)
  }

  lemma ApplyHasContext(m: Machine, sym: Sym)
    requires HasContext(m) && CanApply(m, sym)
    ensures HasContext(Apply(m, sym))
  {
  }

  /** What the encoder does with the symbols of a parse. */
  function EncodeSyms(cfg: Config, m: Machine, syms: seq<Sym>, src: seq<byte>, e: Enc, model: Model): Encoded
    requires cfg.Valid() && HasContext(m) && Parse(cfg, m, syms, src)
    decreases |syms|
  {
    if syms == [] then Encoded(e, model)
    else
      ApplyHasContext(m, syms[0]);
      var r := EncodeSymbol(CtxOf(cfg.props, m), syms[0], e, model);
      EncodeSyms(cfg, Apply(m, syms[0]), syms[1..], src, r.enc, r.model)
  }

  function LzmaStream(cfg: Config, syms: seq<Sym>, src: seq<byte>): seq<byte>
    requires cfg.Valid() && Parse(cfg, START, syms, src)
  {
    Flush(EncodeSyms(cfg, START, syms, src, ENC_INIT, map[]).enc).out
  }

  lemma SymbolKeepsValid(ctx: Ctx, sym: Sym, e: Enc, m: Model)
    requires Valid(e) && e.range >= 0x100_0000
    ensures var r := EncodeSymbol(ctx, sym, e, m).enc; Valid(r) && r.range >= 0x100_0000 && e.out <= r.out
  {
    KeepsValidFrom(AtIsMatch, ctx, sym, e, m);
  }

  lemma KeepsValidFrom(p: Phase, ctx: Ctx, sym: Sym, e: Enc, m: Model)
    requires Valid(e) && e.range >= 0x100_0000
    ensures var r := EncodeFrom(p, ctx, sym, e, m).enc; Valid(r) && r.range >= 0x100_0000 && e.out <= r.out
  {
    EncodeFromKeepsValid(p, ctx, sym, e, m);
  }

  lemma SymbolWindow(p: Phase, ctx: Ctx, sym: Sym, e: Enc, m: Model, s: seq<byte>)
    requires Valid(e) && e.range >= 0x100_0000 && p == AtIsMatch
    requires Window(EncodeSymbol(ctx, sym, e, m).enc, s)
    ensures Window(e, s)
  {
    EncodeFromWindow(p, ctx, sym, e, m, s);
  }

  lemma SymbolFollows(p: Phase, ctx: Ctx, sym: Sym, e: Enc, d: Dec, m: Model, s: seq<byte>)
    requires p == AtIsMatch && ValidSym(sym)
    requires Valid(e) && e.range >= 0x100_0000
    requires InStep(e, d, s)
    requires Window(EncodeSymbol(ctx, sym, e, m).enc, s)
    ensures var enc := EncodeSymbol(ctx, sym, e, m);
      var dec := DecodeSymbol(ctx, d, m, s);
      dec.sym == sym && dec.model == enc.model && InStep(enc.enc, dec.dec, s)
  {
    assert OnPath(p, sym);
    SymbolRoundTrip(p, ctx, sym, e, d, m, s);
  }

  lemma {:induction false} EncodeSymsKeepsValid(cfg: Config, m: Machine, syms: seq<Sym>, src: seq<byte>, e: Enc, model: Model)
    requires cfg.Valid() && HasContext(m) && Parse(cfg, m, syms, src)
    requires Valid(e) && e.range >= 0x100_0000
    ensures var r := EncodeSyms(cfg, m, syms, src, e, model).enc; Valid(r) && r.range >= 0x100_0000
    decreases |syms|
  {
    hide EncodeSymbol, CtxOf, Valid, ValidSym, CanApply;
    if syms != [] {
      ApplyHasContext(m, syms[0]);
      var ctx := CtxOf(cfg.props, m);
      SymbolKeepsValid(ctx, syms[0], e, model);
      var r := EncodeSymbol(ctx, syms[0], e, model);
      EncodeSymsKeepsValid(cfg, Apply(m, syms[0]), syms[1..], src, r.enc, r.model);
    }
  }

  lemma {:induction false} EncodeSymsWindow(cfg: Config, m: Machine, syms: seq<Sym>, src: seq<byte>, e: Enc, model: Model, s: seq<byte>)
    requires cfg.Valid() && HasContext(m) && Parse(cfg, m, syms, src)
    requires Valid(e) && e.range >= 0x100_0000
    requires Window(EncodeSyms(cfg, m, syms, src, e, model).enc, s)
    ensures Window(e, s)
    decreases |syms|
  {
    hide EncodeSymbol, CtxOf, Valid, ValidSym, CanApply, Window;
    if syms != [] {
      ApplyHasContext(m, syms[0]);
      var ctx := CtxOf(cfg.props, m);
      SymbolKeepsValid(ctx, syms[0], e, model);
      var r := EncodeSymbol(ctx, syms[0], e, model);
      EncodeSymsWindow(cfg, Apply(m, syms[0]), syms[1..], src, r.enc, r.model, s);
      SymbolWindow(AtIsMatch, ctx, syms[0], e, model, s);
    }
  }

  lemma {:induction false} ParseGrows(cfg: Config, m: Machine, syms: seq<Sym>, src: seq<byte>)
    requires Parse(cfg, m, syms, src)
    ensures m.out <= src && (syms != [] ==> |m.out| < |src|)
    decreases |syms|
  {
    if syms != [] {
      ParseGrows(cfg, Apply(m, syms[0]), syms[1..], src);
    }
  }

  /** A decoder session that stands where the encoder stands. */
  ghost predicate Lockstep(m: Machine, e: Enc, model: Model, s: Session, pos: nat, stream: seq<byte>) {
    && s.machine == m && s.model == model && s.remainLen == 0
    && s.range >= 0x100_0000
    && InStep(e, Dec(s.range, s.code, pos), stream)
  }

  lemma TakeWhole(cfg: Config, s: Session, sym: Sym, limit: nat)
    requires Sound(s) && s.remainLen == 0 && ValidSym(sym) && CanApply(s.machine, sym)
    requires |Apply(s.machine, sym).out| <= limit
    requires IsRepSym(sym) ==> s.machine.out != []
    requires sym.Match? ==> sym.dist < Reach(cfg, s.machine) && sym.dist < 0xFFFF_FFFF
    ensures |s.machine.out| < |Apply(s.machine, sym).out|
    ensures Take(cfg, s, sym, limit) == s.(machine := Apply(s.machine, sym))
  {
  }

  /** One symbol of the stream, read by a session in lockstep. */
  lemma SymbolInStream(cfg: Config, m: Machine, sym: Sym, e: Enc, model: Model, s: Session, pos: nat, stream: seq<byte>, limit: nat)
    requires cfg.Valid() && HasContext(m) && ValidSym(sym) && CanApply(m, sym)
    requires sym.Match? ==> sym.dist < Reach(cfg, m)
    requires Valid(e) && e.range >= 0x100_0000
    requires Sound(s) && Lockstep(m, e, model, s, pos, stream)
    requires |Apply(m, sym).out| <= limit
    requires Window(EncodeSymbol(CtxOf(cfg.props, m), sym, e, model).enc, stream)
    ensures var enc := EncodeSymbol(CtxOf(cfg.props, m), sym, e, model);
      var d := Next(cfg, s, stream, pos);
      && d.sym == sym && (IsRepSym(sym) ==> m.out != []) && |m.out| < |Apply(m, sym).out|
      && EndOf(d, stream) <= |stream|
      && Lockstep(Apply(m, sym), enc.enc, enc.model, AfterSymbol(cfg, s, d, stream, limit), EndOf(d, stream), stream)
  {
    SymbolFollows(AtIsMatch, CtxOf(cfg.props, m), sym, e, Dec(s.range, s.code, pos), model, stream);
    NextIsUsable(cfg, s, stream, pos);
    TakeWhole(cfg, s, sym, limit);
    hide DecodeSymbol, EncodeSymbol, CtxOf, Take, Sound, Valid, Window, Apply;
    NormalizedInStep(EncodeSymbol(CtxOf(cfg.props, m), sym, e, model).enc, Next(cfg, s, stream, pos).dec, stream);
  }

  /** Being in step does not depend on when the decoder normalizes. */
  lemma NormalizedInStep(e: Enc, d: Dec, s: seq<byte>)
    requires InStep(e, d, s) && DecNormalize(d, s).range >= 0x100_0000
    ensures InStep(e, DecNormalize(d, s), s)
    ensures DecNormalize(d, s).pos <= |s|
  {
    hide Num, Value;
  }

  /**
   A session in lockstep that is given the symbols of a parse, and room for them, goes through all of
   them and is in lockstep behind them.
   */
  lemma {:induction false} ParseFollows(cfg: Config, m: Machine, syms: seq<Sym>, src: seq<byte>, e: Enc, model: Model,
                                        s: Session, pos: nat, stream: seq<byte>, limit: nat, any: bool)
    returns (s2: Session, pos2: nat)
    requires cfg.Valid() && HasContext(m) && Parse(cfg, m, syms, src)
    requires Valid(e) && e.range >= 0x100_0000
    requires Sound(s) && Lockstep(m, e, model, s, pos, stream) && pos <= |stream| && |m.out| <= |src| <= limit
    requires Window(EncodeSyms(cfg, m, syms, src, e, model).enc, stream)
    ensures var r := EncodeSyms(cfg, m, syms, src, e, model);
      Lockstep(MachineAfter(cfg, m, syms, src), r.enc, r.model, s2, pos2, stream)
    ensures Sound(s2) && s2.machine.out == src && pos2 <= |stream|
    ensures Resume(cfg, s, stream, pos, limit, any) == Resume(cfg, s2, stream, pos2, limit, any)
    decreases |syms|
  {
    hide EncodeSymbol, CtxOf, Valid, ValidSym, CanApply, Window, InStep, Sound, Next, AfterSymbol, EndOf, DecNormalize, IsRepSym;
    ParseGrows(cfg, m, syms, src);
    if syms == [] {
      s2, pos2 := s, pos;
    } else {
      var sym := syms[0];
      ApplyHasContext(m, sym);
      var r := EncodeSymbol(CtxOf(cfg.props, m), sym, e, model);
      SymbolKeepsValid(CtxOf(cfg.props, m), sym, e, model);
      EncodeSymsWindow(cfg, Apply(m, sym), syms[1..], src, r.enc, r.model, stream);
      ParseGrows(cfg, Apply(m, sym), syms[1..], src);
      SymbolInStream(cfg, m, sym, e, model, s, pos, stream, limit);
      var d := Next(cfg, s, stream, pos);
      NextIsUsable(cfg, s, stream, pos);
      AfterSymbolSound(cfg, s, d, stream, limit);
      BeginGoes(s, pos, limit, any);
      s2, pos2 := ParseFollows(cfg, Apply(m, sym), syms[1..], src, r.enc, r.model,
                               AfterSymbol(cfg, s, d, stream, limit), EndOf(d, stream), stream, limit, any);
    }
  }

  lemma StreamFollows(cfg: Config, m: Machine, syms: seq<Sym>, src: seq<byte>, e: Enc, model: Model,
                      s: Session, pos: nat, stream: seq<byte>, tail: seq<byte>, any: bool)
    requires cfg.Valid() && HasContext(m) && Parse(cfg, m, syms, src)
    requires Valid(e) && e.range >= 0x100_0000
    requires Sound(s) && Lockstep(m, e, model, s, pos, stream) && pos <= |stream| && |m.out| <= |src|
    requires stream == Flush(EncodeSyms(cfg, m, syms, src, e, model).enc).out + tail
    ensures var o := Resume(cfg, s, stream, pos, |src|, any);
      && o.res == SzOk && o.status == MaybeFinishedWithoutMark && o.held == []
      && o.pos == |stream| - |tail|
      && o.session.machine.out == src && o.session.remainLen == 0
      && o.session.machine == MachineAfter(cfg, m, syms, src)
      && o.session.model == EncodeSyms(cfg, m, syms, src, e, model).model
  {
    hide EncodeSyms, Parse, Valid, Window, InStep, Sound, Flush, Resume;
    var r := EncodeSyms(cfg, m, syms, src, e, model);
    EncodeSymsKeepsValid(cfg, m, syms, src, e, model);
    FlushWindow(r.enc, tail);
    var s2, pos2 := ParseFollows(cfg, m, syms, src, e, model, s, pos, stream, |src|, any);
    StreamEnds(cfg, s2.machine, r.enc, r.model, s2, pos2, stream, tail, |src|, any);
  }

  lemma BeginGoes(s: Session, pos: nat, limit: nat, any: bool)
    requires Sound(s) && s.remainLen == 0 && |s.machine.out| < limit
    ensures Begin(s, pos, limit, any) == Go(s, false)
  {
    hide Sound;
  }

  lemma StreamEnds(cfg: Config, m: Machine, e: Enc, model: Model, s: Session, pos: nat, stream: seq<byte>,
                   tail: seq<byte>, limit: nat, any: bool)
    requires cfg.Valid() && Valid(e) && Sound(s) && pos <= |stream|
    requires Lockstep(m, e, model, s, pos, stream) && |m.out| == limit
    requires stream == Flush(e).out + tail
    ensures Resume(cfg, s, stream, pos, limit, any) ==
            Outcome(SzOk, MaybeFinishedWithoutMark, s, [], |stream| - |tail|)
  {
    FlushWindow(e, tail);
    assert stream[..|stream| - |tail|] == Flush(e).out;
    hide Num, Value, Flush, Sound;
    assert s.code == 0 && pos == |stream| - |tail|;
  }

  lemma FirstSession(e: Enc, d: Dec, stream: seq<byte>)
    requires e == ENC_INIT && Window(e, stream) && |stream| >= 5
    ensures stream[0] == 0
    ensures var s := FreshSession(stream[..5]);
      && Dec(s.range, s.code, 5) == DecInit(stream)
      && InStep(e, Dec(s.range, s.code, 5), stream)
  {
    InitInStep(stream);
    hide Num, Value, Window;
  }

  /** A stream that does not start with a repetition passes the early check of the code. */
  lemma FirstCodeIsGood(cfg: Config, sym: Sym, code: u32, stream: seq<byte>)
    requires cfg.Valid() && ValidSym(sym) && !IsRepSym(sym)
    requires InStep(ENC_INIT, Dec(0xFFFF_FFFF, code, 5), stream)
    requires Window(EncodeSymbol(CtxOf(cfg.props, START), sym, ENC_INIT, map[]).enc, stream)
    ensures code < BAD_REP_CODE
  {
    var ctx := CtxOf(cfg.props, START);
    SymbolFollows(AtIsMatch, ctx, sym, ENC_INIT, Dec(0xFFFF_FFFF, code, 5), map[], stream);
    BadRepCodeIsExact(ctx, code, 5, stream);
    hide EncodeSymbol, DecodeSymbol, InStep, Window, CtxOf;
  }

  /**
   The round trip. Decoding the stream of a parse, whatever follows it, restores the source
   and the model the encoder ended with, uses exactly the stream and reports that the data
   may be complete.
   */
  lemma StreamRoundTrip(cfg: Config, syms: seq<Sym>, src: seq<byte>, tail: seq<byte>, any: bool)
    requires cfg.Valid() && Parse(cfg, START, syms, src) && src != []
    ensures var z := LzmaStream(cfg, syms, src);
      var a := DecodeToDic(cfg, NEW, z + tail, |src|, any);
      && a.res == SzOk && a.status == MaybeFinishedWithoutMark && a.used == |z|
      && a.reader.Reading? && a.reader.temp == []
      && a.reader.session.machine.out == src && a.reader.session.remainLen == 0
      && a.reader.session.machine == MachineAfter(cfg, START, syms, src)
      && a.reader.session.model == EncodeSyms(cfg, START, syms, src, ENC_INIT, map[]).model
  {
    hide EncodeSyms, Parse, Sound, InStep, Resume;
    var stream := LzmaStream(cfg, syms, src) + tail;
    var s := FirstSymbolReady(cfg, syms, src, tail);
    StreamFollows(cfg, START, syms, src, ENC_INIT, map[], s, 5, stream, tail, any);
    NewReads(cfg, stream, |src|, any);
    hide DecodeToDic, FreshSession;
  }

  /** A decoder that has read the head of a stream stands where the encoder started. */
  ghost predicate Ready(stream: seq<byte>, s: Session) {
    && |stream| >= 5 && stream[0] == 0
    && s == FreshSession(stream[..5]) && s.code < BAD_REP_CODE
    && Sound(s) && Lockstep(START, ENC_INIT, map[], s, 5, stream)
  }

  lemma FirstReady(cfg: Config, sym: Sym, stream: seq<byte>) returns (s: Session)
    requires cfg.Valid() && ValidSym(sym) && !IsRepSym(sym) && |stream| >= 5
    requires Window(EncodeSymbol(CtxOf(cfg.props, START), sym, ENC_INIT, map[]).enc, stream)
    ensures Ready(stream, s)
  {
    hide EncodeSymbol, CtxOf, ValidSym, InStep;
    SymbolWindow(AtIsMatch, CtxOf(cfg.props, START), sym, ENC_INIT, map[], stream);
    FirstSession(ENC_INIT, DecInit(stream), stream);
    s := FreshSession(stream[..5]);
    FirstCodeIsGood(cfg, sym, s.code, stream);
    FreshIsSound(stream[..5]);
  }

  lemma FirstSymbolReady(cfg: Config, syms: seq<Sym>, src: seq<byte>, tail: seq<byte>) returns (s: Session)
    requires cfg.Valid() && Parse(cfg, START, syms, src) && src != []
    ensures Ready(LzmaStream(cfg, syms, src) + tail, s)
  {
    hide EncodeSymbol, CtxOf, ValidSym, InStep, Ready;
    var stream := LzmaStream(cfg, syms, src) + tail;
    EncodeSymsKeepsValid(cfg, START, syms, src, ENC_INIT, map[]);
    FlushWindow(EncodeSyms(cfg, START, syms, src, ENC_INIT, map[]).enc, tail);
    ApplyHasContext(START, syms[0]);
    var ctx := CtxOf(cfg.props, START);
    SymbolKeepsValid(ctx, syms[0], ENC_INIT, map[]);
    var r := EncodeSymbol(ctx, syms[0], ENC_INIT, map[]);
    EncodeSymsWindow(cfg, Apply(START, syms[0]), syms[1..], src, r.enc, r.model, stream);
    s := FirstReady(cfg, syms[0], stream);
  }
}
