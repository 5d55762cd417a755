/**
 A file that an LZMA archive loses: twenty zero bytes, coded as one literal and one repetition,
 make a block of twenty bytes.
 */
module LostFile {

  import opened Bytes
  import opened Powers
  import opened RangeCoder
  import opened Symbols
  import opened SymbolCoder
  import opened SymbolBounds
  import opened Lookahead
  import opened Lz
  import opened Decoder
  import opened Stream
  import opened BlockFraming
  import opened Container
  import opened FileBlocks
  import opened LzmaBlocks
  import opened FileContents
  import opened ArchiveRoundTrip

  // ---------- A coder that knows runs ----------

  /** A run of equal bytes is one literal and one repetition of it, anything else is all literals. */
  function Runs(x: seq<byte>): seq<Sym> {
    if 3 <= |x| <= 274 && x == Repeat(x[0], |x|) then [Literal(x[0]), Rep(0, |x| - 1)] else Literals(x)
  }

  lemma RunIsAParse(cfg: Config, b: byte, n: nat)
    requires 3 <= n <= 274
    ensures Parse(cfg, START, [Literal(b), Rep(0, n - 1)], Repeat(b, n))
  {
    hide Repeat;
    var x, syms := Repeat(b, n), [Literal(b), Rep(0, n - 1)];
    var m := RunApplied(b, n);
    assert syms[1..] == [Rep(0, n - 1)] && syms[1..][1..] == [];
    hide Copy;
    assert Parse(cfg, Apply(m, Rep(0, n - 1)), [], x);
    assert Parse(cfg, m, syms[1..], x);
  }

  /** After the literal, the repetition makes the run. */
  lemma RunApplied(b: byte, n: nat) returns (m: Machine)
    requires 3 <= n <= 274
    ensures m == Machine(0, Reps(1, 1, 1, 1), [b]) == Apply(START, Literal(b))
    ensures CanApply(m, Rep(0, n - 1)) && Apply(m, Rep(0, n - 1)).out == Repeat(b, n)
  {
    var x := Repeat(b, n);
    CopyReproduces(x, 1, 1, n - 1);
    m := Machine(0, Reps(1, 1, 1, 1), [b]);
    hide Repeat, Copy;
    assert x[..1] == [b] && x[..n] == x;
  }

  lemma RunsAreAParse(cfg: Config, x: seq<byte>)
    requires x != []
    ensures Parse(cfg, START, Runs(x), x)
  {
    hide Parse, Repeat;
    if 3 <= |x| <= 274 && x == Repeat(x[0], |x|) {
      RunIsAParse(cfg, x[0], |x|);
    } else {
      LiteralsAreAParse(cfg, START, x);
      assert START.out + x == x;
    }
  }

  function RunCoder(dicSize: nat): Coder {
    Coder(Props(3, 0, 2), dicSize, Runs)
  }

  lemma RunCoderIsUsual(dicSize: nat)
    requires 0x1000 <= dicSize < 0x1_0000_0000
    ensures UsualCoder(RunCoder(dicSize))
  {
    hide Parse, Runs;
    var coder := RunCoder(dicSize);
    forall x: seq<byte> ensures coder.Chooses(x) {
      if x != [] {
        RunsAreAParse(coder.Settings(), x);
      }
    }
  }

  // ---------- How long its block is ----------

  const FIRST: seq<nat> :=
    [0xFFFF_FFFF, 0x7FFF_FC00, 0x3FFF_FC00, 0x1FFF_FC00, 0x0FFF_FC00, 0x07FF_FC00, 0x03FF_FC00, 0x01FF_FC00]
  const LATER: seq<nat> :=
    [0xFFFC_0000, 0x7FFE_0000, 0x3FFF_0000, 0x1FFF_8000, 0x0FFF_C000, 0x07FF_E000, 0x03FF_F000, 0x01FF_F800]

  /** The range after `n` bits of probability one half, of which the first eight are zeros. */
  function RangeAfter(n: nat): nat {
    if n < 8 then FIRST[n] else LATER[n % 8]
  }

  /** The encoder after `n` such bits. */
  ghost predicate Fair(e: Enc, n: nat) {
    Valid(e) && e.range == RangeAfter(n) && Shifts(e) == n / 8
  }

  lemma FairBit(e: Enc, n: nat, bit: bool)
    requires Fair(e, n) && (n < 8 ==> !bit)
    ensures Fair(Encode(e, Modelled(1024, bit)), n + 1)
  {
    var c := Modelled(1024, bit);
    RangeHalves(n);
    EncodeKeepsValid(e, c);
    NarrowNests(e, c);
    NormalizeExact(Narrow(e, c));
    hide RangeAfter, Pending, Num, ShiftLow;
    assert Shifts(Narrow(e, c)) == Shifts(e);
  }

  lemma RangeHalves(n: nat)
    ensures var r := RangeAfter(n);
            var half := r / 2048 * 1024;
            && r >= 0x100_0000 && (n >= 8 ==> r - half == half)
            && RangeAfter(n + 1) == (if half < 0x100_0000 then half * 0x100 else half)
            && (half < 0x100_0000 <==> (n + 1) % 8 == 0)
  {
    var k := n % 8;
    assert k == 0 || k == 1 || k == 2 || k == 3 || k == 4 || k == 5 || k == 6 || k == 7;
  }

  /** The bits left of a literal, or of a long repetition at the last distance. */
  function BitsLeft(p: Phase, sym: Sym): nat {
    match p
    case AtIsMatch => if sym.Literal? then 9 else 14
    case AtIsRep => 13
    case AtIsRepG0 => 12
    case AtIsRep0Long => 11
    case AtLenChoice(_) => 10
    case AtLenChoice2(_) => 9
    case AtLenTree(_, _, left, _) => left
    case AtLiteral(left, _, _, _) => left
    case _ => 0
  }

  /** The cells that `sym` may ask about from `p` on. */
  predicate Asks(p: Phase, ctx: Ctx, sym: Sym, c: Cell) {
    Ahead(p, c) && (c.LitNode? ==> sym.Literal?) && (c.IsMatch? ==> c == IsMatch(ctx.state, ctx.posState))
  }

  ghost predicate Fresh(p: Phase, ctx: Ctx, sym: Sym, m: Model) {
    forall c :: Asks(p, ctx, sym, c) ==> Get(m, c) == 1024
  }

  ghost predicate ZeroOrLong(sym: Sym) {
    sym == Literal(0) || (sym.Rep? && sym.index == 0 && 18 <= sym.len <= 273)
  }

  /** A literal learns nothing about other symbols. */
  ghost predicate SameElsewhere(ctx: Ctx, m: Model, m1: Model) {
    forall c: Cell :: !c.LitNode? && c != IsMatch(ctx.state, ctx.posState) ==> Get(m1, c) == Get(m, c)
  }

  lemma SameTwice(ctx: Ctx, m: Model, m1: Model, m2: Model)
    requires SameElsewhere(ctx, m, m1) && SameElsewhere(ctx, m1, m2)
    ensures SameElsewhere(ctx, m, m2)
  {
    hide Get;
  }

  lemma DoneHasNoBits(p: Phase, ctx: Ctx, sym: Sym, m: Model)
    ensures SameElsewhere(ctx, m, m) && (p.Done? ==> BitsLeft(p, sym) == 0)
  {
  }

  lemma LearnsFresh(p: Phase, q: Phase, ctx: Ctx, sym: Sym, m: Model, cell: Cell, bit: bool)
    requires Fresh(p, ctx, sym, m) && !Ahead(q, cell) && forall c :: Ahead(q, c) ==> Ahead(p, c)
    ensures Fresh(q, ctx, sym, Learn(m, cell, bit))
  {
    hide Ahead, Adapt;
    forall c | Asks(q, ctx, sym, c) ensures Get(Learn(m, cell, bit), c) == 1024 {
      assert Asks(p, ctx, sym, c);
    }
  }

  /** On its way such a symbol asks about cells that it has not asked about before, and has one bit less to go. */
  lemma NextQuestion(p: Phase, ctx: Ctx, sym: Sym)
    requires Wf(p) && OnPath(p, sym) && !p.Done? && ZeroOrLong(sym)
    ensures Query(p, ctx).Model? && Asks(p, ctx, sym, Query(p, ctx).cell)
    ensures var q := Advance(p, ctx, BitFor(p, sym));
            !Ahead(q, Query(p, ctx).cell) && BitsLeft(q, sym) + 1 == BitsLeft(p, sym)
    ensures var cell := Query(p, ctx).cell;
            sym.Literal? ==> cell.LitNode? || cell == IsMatch(ctx.state, ctx.posState)
  {
    AskedIsBehind(p, ctx, BitFor(p, sym));
  }

  lemma FreshStep(p: Phase, ctx: Ctx, sym: Sym, m: Model)
    requires Wf(p) && OnPath(p, sym) && !p.Done? && ZeroOrLong(sym) && Fresh(p, ctx, sym, m)
    ensures var bit := BitFor(p, sym);
            var q := Advance(p, ctx, bit);
            && CoinAt(p, ctx, m, bit) == Modelled(1024, bit)
            && BitsLeft(q, sym) + 1 == BitsLeft(p, sym)
            && Fresh(q, ctx, sym, ModelAfter(p, ctx, m, bit))
            && (sym.Literal? ==> SameElsewhere(ctx, m, ModelAfter(p, ctx, m, bit)))
  {
    hide Ahead, Advance, BitFor, OnPath, Wf, Adapt, ZeroOrLong, BitsLeft, Query, Asks;
    NextQuestion(p, ctx, sym);
    var bit := BitFor(p, sym);
    LearnsFresh(p, Advance(p, ctx, bit), ctx, sym, m, Query(p, ctx).cell, bit) by {
      forall c | Ahead(Advance(p, ctx, bit), c) ensures Ahead(p, c) {
        AheadShrinks(p, ctx, bit, c);
      }
    }
  }

  lemma ZeroBit(p: Phase, sym: Sym)
    requires OnPath(p, sym) && sym == Literal(0) && !p.Done?
    ensures !BitFor(p, sym)
  {
    if p.AtLiteral? {
      var left := p.left;
      assert Pow2(8) == 0x100;
      assert 0x100 / Pow2(left - 1) % 2 == 0;
    }
  }

  /** A symbol of `BitsLeft` bits, all of them of probability one half. */
  lemma {:induction false} FairSymbol(p: Phase, ctx: Ctx, sym: Sym, e: Enc, m: Model, n: nat)
    requires Wf(p) && OnPath(p, sym) && ZeroOrLong(sym) && Fresh(p, ctx, sym, m)
    requires Fair(e, n) && (n < 8 ==> sym.Literal?)
    ensures var r := EncodeFrom(p, ctx, sym, e, m);
            && Fair(r.enc, n + BitsLeft(p, sym))
            && (sym.Literal? ==> SameElsewhere(ctx, m, r.model))
    decreases Stage(p), Left(p)
  {
    hide Wf, OnPath, Fair, Encode, BitFor, Advance, Fresh, Asks, SameElsewhere, ModelAfter, BitsLeft;
    DoneHasNoBits(p, ctx, sym, m);
    if !p.Done? {
      var bit := BitFor(p, sym);
      AdvanceDescends(p, ctx, bit);
      AdvanceKeepsWf(p, ctx, bit);
      StaysOnPath(p, ctx, sym);
      FreshStep(p, ctx, sym, m);
      if sym.Literal? { ZeroBit(p, sym); }
      FairBit(e, n, bit);
      FairSymbol(Advance(p, ctx, bit), ctx, sym, Encode(e, Modelled(1024, bit)), ModelAfter(p, ctx, m, bit), n + 1);
      if sym.Literal? { SameTwice(ctx, m, ModelAfter(p, ctx, m, bit), EncodeFrom(p, ctx, sym, e, m).model); }
    }
  }

  lemma FreshAfterLiteral(ctx: Ctx, ctx1: Ctx, sym: Sym, m: Model, p: Phase)
    requires SameElsewhere(ctx, map[], m) && sym.Rep? && ctx.posState != ctx1.posState
    ensures Fresh(p, ctx1, sym, m)
  {
    hide Ahead;
  }

  lemma FairFrom(p: Phase, ctx: Ctx, sym: Sym, e: Enc, m: Model, n: nat)
    requires p == AtIsMatch && ZeroOrLong(sym) && Fresh(p, ctx, sym, m) && Fair(e, n) && (n < 8 ==> sym.Literal?)
    ensures var r := EncodeSymbol(ctx, sym, e, m);
            && Fair(r.enc, n + BitsLeft(p, sym)) && (sym.Literal? ==> SameElsewhere(ctx, m, r.model))
  {
    hide Fair, Fresh, EncodeFrom, SameElsewhere;
    assert OnPath(p, sym) && Wf(p);
    FairSymbol(p, ctx, sym, e, m, n);
  }

  lemma TwoSymbols(cfg: Config, m: Machine, a: Sym, b: Sym, src: seq<byte>)
    requires cfg.Valid() && Parse(cfg, START, [a, b], src) && m == Apply(START, a) && HasContext(m)
    ensures var r := EncodeSymbol(CtxOf(cfg.props, START), a, ENC_INIT, map[]);
            && EncodeSyms(cfg, START, [a, b], src, ENC_INIT, map[]) == EncodeSymbol(CtxOf(cfg.props, m), b, r.enc, r.model)
  {
    hide EncodeSymbol, CtxOf, Copy, CanApply, ValidSym, Reach;
    var r := EncodeSymbol(CtxOf(cfg.props, START), a, ENC_INIT, map[]);
    assert [a, b][1..] == [b] && [b][1..] == [];
    assert EncodeSyms(cfg, m, [b], src, r.enc, r.model) == EncodeSymbol(CtxOf(cfg.props, m), b, r.enc, r.model);
  }

  /** The stream of a run of zeros has seven bytes, five of them from the flush. */
  lemma RunTakesSevenBytes(cfg: Config, n: nat)
    requires cfg.Valid() && cfg.props == Props(3, 0, 2) && 19 <= n <= 274
    ensures Parse(cfg, START, [Literal(0), Rep(0, n - 1)], Repeat(0, n))
    ensures |LzmaStream(cfg, [Literal(0), Rep(0, n - 1)], Repeat(0, n))| == 7
  {
    hide EncodeSymbol, Repeat, SameElsewhere, Fresh, Flush, Copy, CtxOf;
    RunIsAParse(cfg, 0, n);
    var zero, rep := Literal(0), Rep(0, n - 1);
    var m := RunApplied(0, n);
    var ctx, ctx1 := CtxOf(cfg.props, START), CtxOf(cfg.props, m);
    Positions(cfg.props, m);
    StartsFair(ctx, zero);
    FairFrom(AtIsMatch, ctx, zero, ENC_INIT, map[], 0);
    var r := EncodeSymbol(ctx, zero, ENC_INIT, map[]);
    FreshAfterLiteral(ctx, ctx1, rep, r.model, AtIsMatch);
    FairFrom(AtIsMatch, ctx1, rep, r.enc, r.model, 9);
    var r1 := EncodeSymbol(ctx1, rep, r.enc, r.model);
    TwoSymbols(cfg, m, zero, rep, Repeat(0, n));
    FlushWindow(r1.enc, []);
  }

  lemma Positions(props: Props, m: Machine)
    requires props == Props(3, 0, 2) && m == Machine(0, Reps(1, 1, 1, 1), [0])
    ensures CtxOf(props, START).posState == 0 && CtxOf(props, m).posState == 1
  {
    assert Pow2(2) == 4;
  }

  lemma StartsFair(ctx: Ctx, sym: Sym)
    ensures Fair(ENC_INIT, 0) && Fresh(AtIsMatch, ctx, sym, map[])
  {
    hide Asks;
  }

  /** A block of 19 to 274 zeros is packed into twenty bytes. */
  lemma RunTakesTwentyBytes(dicSize: nat, n: nat, cap: nat)
    requires 0x1000 <= dicSize < 0x1_0000_0000 && 19 <= n <= 274 && cap >= 20
    ensures RunCoder(dicSize).Valid()
    ensures var z := PackLzma(RunCoder(dicSize), Repeat(0, n), cap); z.Some? && |z.value| == 20
  {
    hide LzmaStream, Parse;
    RunCoderIsUsual(dicSize);
    RunTakesSevenBytes(RunCoder(dicSize).Settings(), n);
    assert Runs(Repeat(0, n)) == [Literal(0), Rep(0, n - 1)];
  }

  /** Twenty zeros do not come back. */
  lemma TwentyZerosAreLost(dicSize: nat, blockSize: nat)
    requires 0x1000 <= dicSize < 0x1_0000_0000 && blockSize >= 20
    ensures UsualCoder(RunCoder(dicSize)) && !Harmless(LzmaCodec(RunCoder(dicSize)), Repeat(0, 20), blockSize)
    ensures LzmaReread(LzmaCodec(RunCoder(dicSize)), Repeat(0, 20), blockSize) != Repeat(0, 20)
  {
    hide PackLzma, UnpackLzma, Harmless, LzmaReread;
    RunCoderIsUsual(dicSize);
    RunTakesTwentyBytes(dicSize, 20, blockSize);
    var c, x := LzmaCodec(RunCoder(dicSize)), Repeat(0, 20);
    assert x[..20] == x;
    assert LosesABlock(c, x, blockSize);
    LostIsHarmed(RunCoder(dicSize), x, blockSize);
    HarmlessIsExact(c, x, blockSize);
  }

  // ---------- A whole archive ----------

  const SETTINGS := Settings(1, 4, Lzma, 0x1_0000, ENTRY_SIZE, 0, true)

  /** A manifest that lists the file "a", and that file, which is twenty zeros. */
  function TwoItems(): (items: seq<Item>)
    ensures |items| == 2
  {
    [Item([], Repeat(0, 16), [0x61]), Item([0x61], Repeat(0, 16), Repeat(0, 20))]
  }

  lemma OneBlockEach(c: Codec, x: seq<byte>)
    requires Faithful(c) && 0 < |x| <= 0x1_0000
    ensures var f := InBlocks(c, x, 0x1_0000, 0x1_0000); |f.sizes| == 1 && |f.bytes| <= 0x1_0000
  {
    hide Faithful;
    OneBlockIsRestored(c, x, 0x1_0000, 0x1_0000, [], []);
    SizesAreBounded(c, x, 0x1_0000);
    assert x[..|x|] == x && x[|x|..] == [];
    var one := OneBlock(c, x, 0x1_0000, 0x1_0000);
    var f := InBlocks(c, x, 0x1_0000, 0x1_0000);
    assert f == Joined(one, InBlocks(c, [], 0x1_0000, 0x1_0000));
    assert f.sizes[0] == one.sizes[0] <= 0x1_0000;
  }

  lemma TwoItemsAreWritable(c: Codec)
    requires Faithful(c)
    ensures Writable(SETTINGS, c, TwoItems())
  {
    hide Faithful, InBlocks, Repeat;
    var items := TwoItems();
    var files := PackedItems(c, 0x1_0000, items);
    OneBlockEach(c, items[0].content);
    OneBlockEach(c, items[1].content);
    assert files == [files[0], files[1]];
    assert files[..1] == [files[0]] && files[..0] == [] && [files[0]][..0] == [];
    assert |AllSizes([files[0]])| == 1 && |AllSizes(files)| == 2;
    assert |AllBytes([files[0]])| <= 0x1_0000;
  }

  /** This archive can be written, and its file does not come back. */
  lemma AnArchiveLosesItsFile(beyond: byte, tail: seq<byte>)
    ensures UsualCoder(RunCoder(0x1_0000))
    ensures var c, items := LzmaCodec(RunCoder(0x1_0000)), TwoItems();
            && Writable(SETTINGS, c, items) && Hashed(PackedItems(c, 0x1_0000, items))
            && var d := DataOfItem(SETTINGS, c, items, 1, beyond);
               && d.Some? && |d.value.flags| <= |d.value.sizes|
               && Decompressed(c, d.value.bytes, d.value.sizes, d.value.flags, tail) != Some(items[1].content)
  {
    hide Writable, Decompressed, DataOfItem, Harmless, LzmaReread, LzmaCodec, InBlocks, Repeat;
    var coder := RunCoder(0x1_0000);
    TwentyZerosAreLost(0x1_0000, 0x1_0000);
    LzmaIsFaithful(coder);
    TwoItemsAreWritable(LzmaCodec(coder));
    LzmaArchiveRoundTrip(SETTINGS, coder, TwoItems(), 1, beyond, tail);
  }
}
