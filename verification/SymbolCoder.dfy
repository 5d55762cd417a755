/**
 Walking the symbol machine with the range coder, in both directions. The decoder's walk
 retraces the encoder's, and the adaptive models of the two stay equal cell by cell.
 */
module SymbolCoder {
  import opened Bytes
  import opened RangeCoder
  import opened Symbols

  /** The adaptive model: cells not yet touched have probability one half. */
  type Model = map<Cell, Prob>

  function Get(m: Model, c: Cell): Prob {
    if c in m then m[c] else 1024
  }

  function Learn(m: Model, c: Cell, bit: bool): Model {
    m[c := Adapt(Get(m, c), bit)]
  }

  datatype Encoded = Encoded(enc: Enc, model: Model)
  datatype Decoded = Decoded(sym: Sym, dec: Dec, model: Model)

  /** The coin tossed at phase `p` for the bit `bit`. */
  function CoinAt(p: Phase, ctx: Ctx, m: Model, bit: bool): Coin
    requires !p.Done?
  {
    match Query(p, ctx)
    case Model(c) => Modelled(Get(m, c), bit)
    case Raw => Direct(bit)
  }

  function ModelAfter(p: Phase, ctx: Ctx, m: Model, bit: bool): Model
    requires !p.Done?
  {
    match Query(p, ctx)
    case Model(c) => Learn(m, c, bit)
    case Raw => m
  }

  function EncodeFrom(p: Phase, ctx: Ctx, sym: Sym, e: Enc, m: Model): Encoded
    decreases Stage(p), Left(p)
  {
    if p.Done? then Encoded(e, m)
    else
      var bit := BitFor(p, sym);
      AdvanceDescends(p, ctx, bit);
      EncodeFrom(Advance(p, ctx, bit), ctx, sym, Encode(e, CoinAt(p, ctx, m, bit)), ModelAfter(p, ctx, m, bit))
  }

  function AnswerAt(p: Phase, ctx: Ctx, d: Dec, m: Model, s: seq<byte>): (bool, Dec)
    requires !p.Done?
  {
    match Query(p, ctx)
    case Model(c) => DecodeModelled(d, Get(m, c), s)
    case Raw => DecodeDirect(d, s)
  }

  function DecodeFrom(p: Phase, ctx: Ctx, d: Dec, m: Model, s: seq<byte>): Decoded
    decreases Stage(p), Left(p)
  {
    if p.Done? then Decoded(p.sym, d, m)
    else
      var (bit, d1) := AnswerAt(p, ctx, d, m, s);
      AdvanceDescends(p, ctx, bit);
      DecodeFrom(Advance(p, ctx, bit), ctx, d1, ModelAfter(p, ctx, m, bit), s)
  }

  /** One whole symbol. */
  function EncodeSymbol(ctx: Ctx, sym: Sym, e: Enc, m: Model): Encoded {
    EncodeFrom(AtIsMatch, ctx, sym, e, m)
  }

  function DecodeSymbol(ctx: Ctx, d: Dec, m: Model, s: seq<byte>): Decoded {
    DecodeFrom(AtIsMatch, ctx, d, m, s)
  }

  lemma {:induction false} EncodeFromKeepsValid(p: Phase, ctx: Ctx, sym: Sym, e: Enc, m: Model)
    requires Valid(e) && e.range >= 0x100_0000
    ensures var r := EncodeFrom(p, ctx, sym, e, m).enc;
      Valid(r) && r.range >= 0x100_0000 && e.out <= r.out
    decreases Stage(p), Left(p)
  {
    if !p.Done? {
      var bit := BitFor(p, sym);
      AdvanceDescends(p, ctx, bit);
      var c := CoinAt(p, ctx, m, bit);
      EncodeKeepsValid(e, c);
      EncodeFromKeepsValid(Advance(p, ctx, bit), ctx, sym, Encode(e, c), ModelAfter(p, ctx, m, bit));
    }
  }

  lemma {:induction false} EncodeFromWindow(p: Phase, ctx: Ctx, sym: Sym, e: Enc, m: Model, s: seq<byte>)
    requires Valid(e) && e.range >= 0x100_0000
    requires Window(EncodeFrom(p, ctx, sym, e, m).enc, s)
    ensures Window(e, s)
    decreases Stage(p), Left(p)
  {
    if !p.Done? {
      var bit := BitFor(p, sym);
      AdvanceDescends(p, ctx, bit);
      var c := CoinAt(p, ctx, m, bit);
      EncodeKeepsValid(e, c);
      EncodeFromWindow(Advance(p, ctx, bit), ctx, sym, Encode(e, c), ModelAfter(p, ctx, m, bit), s);
      WindowBack(e, c, s);
    }
  }

  /**
   One symbol. A decoder in step with the encoder before a symbol reads that symbol, is
   in step after it, and both have learned the same model.
   */
  lemma {:induction false} SymbolRoundTrip(p: Phase, ctx: Ctx, sym: Sym, e: Enc, d: Dec, m: Model, s: seq<byte>)
    requires OnPath(p, sym)
    requires Valid(e) && e.range >= 0x100_0000
    requires InStep(e, d, s)
    requires Window(EncodeFrom(p, ctx, sym, e, m).enc, s)
    ensures var enc := EncodeFrom(p, ctx, sym, e, m);
      var dec := DecodeFrom(p, ctx, d, m, s);
      dec.sym == sym && dec.model == enc.model && InStep(enc.enc, dec.dec, s)
    decreases Stage(p), Left(p)
  {
    hide InStep, Window, Valid, Encode, BitFor, Advance, DecodeModelled, DecodeDirect;
    if !p.Done? {
      var bit := BitFor(p, sym);
      AdvanceDescends(p, ctx, bit);
      StaysOnPath(p, ctx, sym);
      var c := CoinAt(p, ctx, m, bit);
      var next, m1 := Advance(p, ctx, bit), ModelAfter(p, ctx, m, bit);
      EncodeKeepsValid(e, c);
      EncodeFromWindow(next, ctx, sym, Encode(e, c), m1, s);
      match c {
        case Modelled(q, _) => TossModelled(e, d, q, bit, s);
        case Direct(_) => TossHalf(e, d, bit, s);
      }
      SymbolRoundTrip(next, ctx, sym, Encode(e, c), AnswerAt(p, ctx, d, m, s).1, m1, s);
    }
  }
}
