/** Whole streams as the format has them: contexts and bits from nothing but the list of symbols. */
module StreamFormat {

  import opened Bytes
  import opened Powers
  import opened RangeCoder
  import opened Symbols
  import opened SymbolCoder
  import opened SymbolFormat
  import opened Lz
  import opened History
  import opened Decoder
  import opened Stream
  import opened ToldRuns

  /**
   What the next symbol is coded under: the kinds of the last symbols; the position, the low bits of the
   position with the high bits of the byte before; and behind a symbol that was no literal, the byte at
   the distance used last.
   */
  function ContextAfter(props: Props, syms: seq<Sym>): Ctx
    requires props.lc <= 8
  {
    var text, n := Text(syms), |Text(syms)|;
    var d := if |Latest(Uses(syms))| > 0 then Latest(Uses(syms))[0].dist else 0;
    DivNat(if n > 0 then text[n - 1] else 0, Pow2(8 - props.lc));
    Ctx(StateOf(KindBack(syms, 0), KindBack(syms, 1), KindBack(syms, 2), KindBack(syms, 3)),
        n % Pow2(props.pb),
        if n == 0 then 0 else n % Pow2(props.lp) * Pow2(props.lc) + text[n - 1] / Pow2(8 - props.lc),
        if KindBack(syms, 0) != Lit && 0 < d <= n then text[n - d] else 0)
  }

  /** The symbols `syms`, coded behind the symbols `done` */
  function CodeSyms(props: Props, done: seq<Sym>, syms: seq<Sym>, e: Enc, m: Model): Encoded
    requires props.lc <= 8
    decreases |syms|
  {
    if syms == [] then Encoded(e, m)
    else
      var r := CodeAsks(SymbolAsks(ContextAfter(props, done), syms[0]), e, m);
      CodeSyms(props, done + [syms[0]], syms[1..], r.enc, r.model)
  }

  lemma ContextIs(props: Props, m: Machine, syms: seq<Sym>)
    requires props.lc <= 8 && Told(m, syms) && HasContext(m)
    ensures CtxOf(props, m) == ContextAfter(props, syms)
  {
    hide Uses, Latest, Text, Pow2, StateTells, KindBack;
    var l := Latest(Uses(syms));
    assert Dists(l)[..4][0] == Listed(m.reps)[0];
    StateShows(m.state, syms);
  }

  /** The states from 7 on are those behind a symbol that was no literal. */
  lemma StateShows(state: nat, syms: seq<Sym>)
    requires StateTells(state, syms)
    ensures state == StateOf(KindBack(syms, 0), KindBack(syms, 1), KindBack(syms, 2), KindBack(syms, 3))
    ensures state >= 7 <==> KindBack(syms, 0) != Lit
  {
  }

  lemma {:induction false} SymsAreFormat(cfg: Config, m: Machine, done: seq<Sym>, syms: seq<Sym>, src: seq<byte>, e: Enc, model: Model)
    requires cfg.Valid() && HasContext(m) && Parse(cfg, m, syms, src) && Told(m, done)
    ensures EncodeSyms(cfg, m, syms, src, e, model) == CodeSyms(cfg.props, done, syms, e, model)
    decreases |syms|
  {
    hide Told, EncodeSymbol, CtxOf, ContextAfter, CodeAsks, SymbolAsks, ValidSym, CanApply, Apply, Reach;
    if syms != [] {
      var sym := syms[0];
      ContextIs(cfg.props, m, done);
      SymbolIsFormat(CtxOf(cfg.props, m), sym, e, model);
      ApplyHasContext(m, sym);
      ToldMore(m, done, sym);
      var r := EncodeSymbol(CtxOf(cfg.props, m), sym, e, model);
      SymsAreFormat(cfg, Apply(m, sym), done + [sym], syms[1..], src, r.enc, r.model);
    }
  }

  /** The stream of a parse is that of its symbols, bit by bit. */
  lemma StreamIsFormat(cfg: Config, syms: seq<Sym>, src: seq<byte>)
    requires cfg.Valid() && Spellable(cfg, syms) && Text(syms) == src
    ensures Parse(cfg, START, syms, src)
    ensures LzmaStream(cfg, syms, src) == Flush(CodeSyms(cfg.props, [], syms, ENC_INIT, map[]).enc).out
  {
    hide Told, Parse, EncodeSyms, CodeSyms, Text, Spellable;
    ParseIsSpelling(cfg, syms, src);
    StartTold();
    SymsAreFormat(cfg, START, [], syms, src, ENC_INIT, map[]);
  }
}
