/**
 The bits of every symbol, written out as the format has them: which probability each bit is coded
 under, and its value. The symbol machine is proved to give exactly these.
 */
module SymbolFormat {

  import opened Bytes
  import opened Powers
  import opened RangeCoder
  import opened Symbols
  import opened SymbolCoder

  /** One bit, and what it is coded under. */
  datatype Ask = Ask(q: Question, bit: bool)

  function Asked(c: Cell, bit: bool): Ask {
    Ask(Model(c), bit)
  }

  /** Bit number `k` of a number */
  function Bit(x: nat, k: nat): bool {
    x / Pow2(k) % 2 == 1
  }

  /** The last `n` bits of a number, highest first; the node is the number that was read so far. */
  function TreeAsks(node: nat -> Cell, x: nat, n: nat): seq<Ask> {
    DivNat(x, Pow2(n));
    if n == 0 then [] else [Asked(node(x / Pow2(n)), Bit(x, n - 1))] + TreeAsks(node, x, n - 1)
  }

  /** Bits `k` to `n` of a number, lowest first. */
  function ReverseAsks(node: (nat, nat) -> Cell, x: nat, k: nat, n: nat): seq<Ask>
    decreases if k < n then n - k else 0
  {
    if k >= n then [] else [Asked(node(k, x % Pow2(k)), Bit(x, k))] + ReverseAsks(node, x, k + 1, n)
  }

  /** The bits of a number above its last four, highest first, each with an even chance */
  function DirectAsks(x: nat, n: nat): seq<Ask> {
    if n == 0 then [] else [Ask(Raw, Bit(x, n + 3))] + DirectAsks(x, n - 1)
  }

  /**
   The last `n` bits of a literal. After a match, and for as long as the bits are those of the match
   byte, the next bit of that byte chooses between two further trees.
   */
  function LiteralAsks(ctx: Ctx, b: byte, n: nat): seq<Ask>
    requires n <= 8
  {
    if n == 0 then []
    else
      DivNat(0x100 + b, Pow2(n));
      var node := (0x100 + b) / Pow2(n);
      var agrees := ctx.state >= 7 && ctx.matchByte / Pow2(n) == b / Pow2(n);
      var cell := if !agrees then node else if Bit(ctx.matchByte, n - 1) then 0x200 + node else 0x100 + node;
      [Asked(LitNode(ctx.litCtx, cell), Bit(b, n - 1))] + LiteralAsks(ctx, b, n - 1)
  }

  /** Lengths from 2 to 9, to 17 and to 273; the last tree does not depend on the position. */
  function LengthAsks(rep: bool, posState: nat, len: nat): seq<Ask>
    requires 2 <= len <= 273
  {
    if len < 10 then
      [Asked(LenChoice(rep), false)] + TreeAsks((n: nat) => LenNode(rep, Low, posState, n), 8 + (len - 2), 3)
    else if len < 18 then
      [Asked(LenChoice(rep), true), Asked(LenChoice2(rep), false)]
      + TreeAsks((n: nat) => LenNode(rep, Mid, posState, n), 8 + (len - 10), 3)
    else
      [Asked(LenChoice(rep), true), Asked(LenChoice2(rep), true)]
      + TreeAsks((n: nat) => LenNode(rep, High, 0, n), 0x100 + (len - 18), 8)
  }

  /** The slot of a distance, and the rest of its bits: by trees of their own, or all but four of them direct. */
  function DistanceAsks(len: nat, dist: nat): seq<Ask>
    requires len >= 2
  {
    var slot := PosSlot(dist);
    TreeAsks((n: nat) => SlotNode(Min(len, 5) - 2, n), 64 + slot, 6)
    + (if slot < 4 then []
       else if slot < 14 then ReverseAsks((k: nat, low: nat) => SpecNode(slot, k, low), dist, 0, slot / 2 - 1)
       else DirectAsks(dist, slot / 2 - 5) + ReverseAsks((k: nat, low: nat) => AlignNode(k, low), dist, 0, 4))
  }

  /** Which of the last four distances */
  function RepAsks(ctx: Ctx, index: nat, long: bool): seq<Ask> {
    if index == 0 then [Asked(IsRepG0(ctx.state), false), Asked(IsRep0Long(ctx.state, ctx.posState), long)]
    else
      [Asked(IsRepG0(ctx.state), true), Asked(IsRepG1(ctx.state), index != 1)]
      + (if index == 1 then [] else [Asked(IsRepG2(ctx.state), index == 3)])
  }

  function SymbolAsks(ctx: Ctx, sym: Sym): seq<Ask> {
    match sym
    case Literal(b) => [Asked(IsMatch(ctx.state, ctx.posState), false)] + LiteralAsks(ctx, b, 8)
    case ShortRep => CopyAsks(ctx, true) + RepAsks(ctx, 0, false)
    case Rep(index, len) =>
      CopyAsks(ctx, true) + RepAsks(ctx, index, true) + (if 2 <= len <= 273 then LengthAsks(true, ctx.posState, len) else [])
    case Match(len, dist) =>
      CopyAsks(ctx, false) + (if 2 <= len <= 273 then LengthAsks(false, ctx.posState, len) + DistanceAsks(len, dist) else [])
  }

  function CopyAsks(ctx: Ctx, rep: bool): seq<Ask> {
    [Asked(IsMatch(ctx.state, ctx.posState), true), Asked(IsRep(ctx.state), rep)]
  }

  // ---------- The machine ----------

  /** What the machine asks from phase `p` on, and what it is answered. */
  function Walk(p: Phase, ctx: Ctx, sym: Sym): seq<Ask>
    decreases Stage(p), Left(p)
  {
    if p.Done? then []
    else
      var bit := BitFor(p, sym);
      AdvanceDescends(p, ctx, bit);
      [Ask(Query(p, ctx), bit)] + Walk(Advance(p, ctx, bit), ctx, sym)
  }

  lemma WalkStep(p: Phase, ctx: Ctx, sym: Sym)
    requires !p.Done?
    ensures Walk(p, ctx, sym) == [Ask(Query(p, ctx), BitFor(p, sym))] + Walk(Advance(p, ctx, BitFor(p, sym)), ctx, sym)
  {
    AdvanceDescends(p, ctx, BitFor(p, sym));
  }

  lemma WalkEnds(p: Phase, ctx: Ctx, sym: Sym)
    requires p.Done?
    ensures Walk(p, ctx, sym) == []
  {
  }

  /** The bits of a match byte that has been shifted up, and of its comparison with a literal */
  lemma LiteralBits(m: byte, b: byte, n: nat, rest: byte)
    requires 1 <= n <= 8 && rest == m * Pow2(8 - n) % 0x100
    ensures rest >= 0x80 <==> Bit(m, n - 1)
    ensures 2 * rest % 0x100 == m * Pow2(9 - n) % 0x100
    ensures BitAt(0x100 + b, n) == Bit(b, n - 1)
    ensures m / Pow2(n - 1) == b / Pow2(n - 1) <==> m / Pow2(n) == b / Pow2(n) && Bit(m, n - 1) == Bit(b, n - 1)
  {
    var half, q := Pow2(n - 1), Pow2(8 - n);
    Pow2Add(n - 1, 8 - n);
    Pow2Step(n - 1);
    Pow2Step(8 - n);
    Pow2Add(n - 1, 9 - n);
    SmallPowers();
    assert Pow2(7) == 0x80;
    hide Pow2;
    ShiftedByte(m, half, q);
    HighBit(b, half, q);
    PrefixBit(m, n);
    PrefixBit(b, n);
  }

  lemma ShiftedByte(m: byte, half: nat, q: nat)
    requires half > 0 && q > 0 && half * q == 0x80
    ensures m * q % 0x100 >= 0x80 <==> m / half % 2 == 1
    ensures 2 * (m * q % 0x100) % 0x100 == m * (2 * q) % 0x100
  {
    var d, r := m / half, m % half;
    DivNat(m, half);
    ProductOf(m, half, q, d, r);
    HighOfByte(m * q, d, r * q);
    TwiceByte(m * q);
    assert 2 * (m * q) == m * (2 * q);
  }

  lemma HighOfByte(x: nat, d: nat, low: nat)
    requires x == 0x80 * d + low && low < 0x80
    ensures x % 0x100 >= 0x80 <==> d % 2 == 1
  {
  }

  lemma TwiceByte(x: nat)
    ensures 2 * (x % 0x100) % 0x100 == 2 * x % 0x100
  {
    var q, r := x / 0x100, x % 0x100;
    assert 2 * x == 0x100 * (2 * q) + 2 * r;
    ModIs(2 * x, 0x100, if r < 0x80 then 2 * q else 2 * q + 1, if r < 0x80 then 2 * r else 2 * r - 0x100);
  }

  lemma ProductOf(m: nat, half: nat, q: nat, d: nat, r: nat)
    requires m == half * d + r && r < half && q > 0 && half * q == 0x80
    ensures m * q == 0x80 * d + r * q && 0 <= r * q < 0x80
  {
    assert half * d * q == half * q * d;
    MulMonotone(q, r + 1, half);
    assert r * q == q * r && q * (r + 1) == q * r + q;
    MulMonotone(q, 0, r);
  }

  lemma HighBit(b: byte, half: nat, q: nat)
    requires half > 0 && q > 0 && half * q == 0x80
    ensures (0x100 + b) / half % 2 == b / half % 2
  {
    var d, r := b / half, b % half;
    assert 0x100 + b == half * (2 * q + d) + r;
    ModIs(0x100 + b, half, 2 * q + d, r);
  }

  lemma {:induction false} LiteralWalk(ctx: Ctx, b: byte, n: nat, agree: bool, rest: byte)
    requires 1 <= n <= 8
    requires agree <==> ctx.state >= 7 && ctx.matchByte / Pow2(n) == b / Pow2(n)
    requires rest == ctx.matchByte * Pow2(8 - n) % 0x100
    ensures Walk(AtLiteral(n, (0x100 + b) / Pow2(n), agree, rest), ctx, Literal(b)) == LiteralAsks(ctx, b, n)
    decreases n
  {
    hide Walk, Pow2, Bit, BitAt;
    var p := AtLiteral(n, (0x100 + b) / Pow2(n), agree, rest);
    WalkStep(p, ctx, Literal(b));
    NextNode(0x100 + b, n);
    LiteralBits(ctx.matchByte, b, n, rest);
    var q := Advance(p, ctx, BitFor(p, Literal(b)));
    if n == 1 {
      WalkEnds(q, ctx, Literal(b));
    } else {
      LiteralWalk(ctx, b, n - 1, agree && BitFor(p, Literal(b)) == (rest >= 0x80), 2 * rest % 0x100);
    }
  }

  /** The whole tree of a length, from its root */
  lemma {:induction false} LengthWalk(src: LenSource, bank: Bank, n: nat, ctx: Ctx, sym: Sym, mk: nat -> Cell)
    requires SourceFits(src, sym) && ValidSym(sym) && bank == BankFor(SymLen(sym)) && 1 <= n <= BankBits(bank)
    requires forall x: nat :: mk(x) == LenNode(src.RepLen?, bank, if bank == High then 0 else ctx.posState, x)
    ensures var leaf := LenLeaf(SymLen(sym));
            Walk(AtLenTree(src, bank, n, Prefix(leaf, n)), ctx, sym) ==
            TreeAsks(mk, leaf, n) + Walk(AfterLength(src, SymLen(sym)), ctx, sym)
    decreases n
  {
    hide Walk, LenLeaf, BankFor, Pow2, ValidSym, AfterLength, SourceFits;
    LengthInLimits(src, sym);
    var leaf := LenLeaf(SymLen(sym));
    WalkStep(AtLenTree(src, bank, n, Prefix(leaf, n)), ctx, sym);
    LenNext(SymLen(sym), n);
    if n > 1 {
      LengthWalk(src, bank, n - 1, ctx, sym, mk);
    }
  }

  lemma {:induction false} SlotWalk(n: nat, ctx: Ctx, sym: Sym, mk: nat -> Cell)
    requires sym.Match? && ValidSym(sym) && 1 <= n <= 6
    requires forall x: nat :: mk(x) == SlotNode(Min(sym.len, 5) - 2, x)
    ensures var leaf := 64 + PosSlot(sym.dist);
            Walk(AtSlot(sym.len, n, Prefix(leaf, n)), ctx, sym) ==
            TreeAsks(mk, leaf, n) + Walk(AfterSlot(sym.len, PosSlot(sym.dist)), ctx, sym)
    decreases n
  {
    hide Walk, PosSlot, AfterSlot;
    var leaf := 64 + PosSlot(sym.dist);
    WalkStep(AtSlot(sym.len, n, Prefix(leaf, n)), ctx, sym);
    NextNode(leaf, n);
    PosSlotFits(sym.dist);
    assert leaf % 64 == PosSlot(sym.dist);
    if n > 1 {
      SlotWalk(n - 1, ctx, sym, mk);
    }
  }

  lemma {:induction false} SpecWalk(k: nat, ctx: Ctx, sym: Sym, mk: (nat, nat) -> Cell)
    requires sym.Match? && ValidSym(sym) && 4 <= PosSlot(sym.dist) < 14 && k < FooterBits(PosSlot(sym.dist))
    requires forall i: nat, low: nat :: mk(i, low) == SpecNode(PosSlot(sym.dist), i, low)
    ensures var slot := PosSlot(sym.dist);
            Walk(AtSpec(sym.len, slot, k, Suffix(sym.dist, k)), ctx, sym) == ReverseAsks(mk, sym.dist, k, FooterBits(slot))
    decreases FooterBits(PosSlot(sym.dist)) - k
  {
    hide Walk, PosSlot, Pow2;
    var slot := PosSlot(sym.dist);
    var p := AtSpec(sym.len, slot, k, Suffix(sym.dist, k));
    WalkStep(p, ctx, sym);
    NextLow(sym.dist, k);
    if k + 1 >= FooterBits(slot) {
      WalkEnds(Advance(p, ctx, BitFor(p, sym)), ctx, sym);
    } else {
      SpecWalk(k + 1, ctx, sym, mk);
    }
  }

  lemma {:induction false} AlignWalk(hi: nat, k: nat, ctx: Ctx, sym: Sym, mk: (nat, nat) -> Cell)
    requires sym.Match? && k < 4 && forall i: nat, low: nat :: mk(i, low) == AlignNode(i, low)
    ensures Walk(AtAlign(sym.len, hi, k, Suffix(sym.dist, k)), ctx, sym) == ReverseAsks(mk, sym.dist, k, 4)
    decreases 4 - k
  {
    hide Walk, Pow2;
    var p := AtAlign(sym.len, hi, k, Suffix(sym.dist, k));
    WalkStep(p, ctx, sym);
    NextLow(sym.dist, k);
    if k == 3 {
      WalkEnds(Advance(p, ctx, BitFor(p, sym)), ctx, sym);
    } else {
      AlignWalk(hi, k + 1, ctx, sym, mk);
    }
  }

  lemma {:induction false} DirectWalk(n: nat, acc: nat, ctx: Ctx, sym: Sym, mk: (nat, nat) -> Cell)
    requires sym.Match? && n >= 1 && forall i: nat, low: nat :: mk(i, low) == AlignNode(i, low)
    ensures Walk(AtDirect(sym.len, n, acc), ctx, sym) == DirectAsks(sym.dist, n) + ReverseAsks(mk, sym.dist, 0, 4)
    decreases n
  {
    hide Walk, Pow2, ReverseAsks;
    var p := AtDirect(sym.len, n, acc);
    WalkStep(p, ctx, sym);
    var next := 2 * acc + B(BitFor(p, sym));
    if n == 1 {
      assert Suffix(sym.dist, 0) == 0 by { SmallPowers(); }
      AlignWalk(next, 0, ctx, sym, mk);
      assert DirectAsks(sym.dist, 0) == [];
    } else {
      DirectWalk(n - 1, next, ctx, sym, mk);
    }
  }

  lemma LengthFormat(src: LenSource, ctx: Ctx, sym: Sym)
    requires SourceFits(src, sym) && ValidSym(sym)
    ensures 2 <= SymLen(sym) <= 273
    ensures Walk(AtLenChoice(src), ctx, sym) ==
            LengthAsks(src.RepLen?, ctx.posState, SymLen(sym)) + Walk(AfterLength(src, SymLen(sym)), ctx, sym)
  {
    hide Walk, TreeAsks, AfterLength, Pow2, SourceFits;
    LengthInLimits(src, sym);
    var len, rep := SymLen(sym), src.RepLen?;
    var bank := BankFor(len);
    LenLeafShape(len);
    WalkStep(AtLenChoice(src), ctx, sym);
    if bank == Low {
      LengthWalk(src, bank, 3, ctx, sym, (n: nat) => LenNode(rep, Low, ctx.posState, n));
    } else {
      WalkStep(AtLenChoice2(src), ctx, sym);
      if bank == Mid {
        LengthWalk(src, bank, 3, ctx, sym, (n: nat) => LenNode(rep, Mid, ctx.posState, n));
      } else {
        LengthWalk(src, bank, 8, ctx, sym, (n: nat) => LenNode(rep, High, 0, n));
      }
    }
  }

  lemma LengthInLimits(src: LenSource, sym: Sym)
    requires SourceFits(src, sym) && ValidSym(sym)
    ensures 2 <= SymLen(sym) <= 273
  {
  }

  lemma DistanceFormat(ctx: Ctx, sym: Sym)
    requires sym.Match? && ValidSym(sym)
    ensures Walk(AtSlot(sym.len, 6, 1), ctx, sym) == DistanceAsks(sym.len, sym.dist)
  {
    hide Walk, TreeAsks, ReverseAsks, DirectAsks, PosSlot, Pow2;
    var slot := PosSlot(sym.dist);
    PosSlotFits(sym.dist);
    SmallPowers();
    assert Prefix(64 + slot, 6) == 1;
    SlotWalk(6, ctx, sym, (n: nat) => SlotNode(Min(sym.len, 5) - 2, n));
    if slot < 4 {
      WalkEnds(AfterSlot(sym.len, slot), ctx, sym);
    } else if slot < 14 {
      assert Suffix(sym.dist, 0) == 0;
      SpecWalk(0, ctx, sym, (k: nat, low: nat) => SpecNode(slot, k, low));
    } else {
      DirectWalk(slot / 2 - 5, 2 + slot % 2, ctx, sym, (k: nat, low: nat) => AlignNode(k, low));
    }
  }

  lemma RepFormat(ctx: Ctx, sym: Sym)
    requires sym.Rep? && ValidSym(sym)
    ensures Walk(AtIsRepG0, ctx, sym) == RepAsks(ctx, sym.index, true) + LengthAsks(true, ctx.posState, sym.len)
  {
    hide Walk, LengthAsks;
    var i := sym.index;
    WalkStep(AtIsRepG0, ctx, sym);
    LengthFormat(RepLen(i), ctx, sym);
    WalkEnds(AfterLength(RepLen(i), sym.len), ctx, sym);
    if i == 0 {
      WalkStep(AtIsRep0Long, ctx, sym);
    } else {
      WalkStep(AtIsRepG1, ctx, sym);
      if i > 1 {
        WalkStep(AtIsRepG2, ctx, sym);
      }
    }
  }

  /** The machine asks for the bits of the format, in their order. */
  lemma WalkIsFormat(p: Phase, ctx: Ctx, sym: Sym)
    requires p == AtIsMatch && ValidSym(sym)
    ensures Walk(p, ctx, sym) == SymbolAsks(ctx, sym)
  {
    hide Walk, LengthAsks, DistanceAsks, LiteralAsks, Pow2;
    WalkStep(p, ctx, sym);
    if sym.Literal? {
      SmallPowers();
      LiteralWalk(ctx, sym.b, 8, ctx.state >= 7, ctx.matchByte);
    } else {
      WalkStep(AtIsRep, ctx, sym);
      if sym.Match? {
        LengthFormat(MatchLen, ctx, sym);
        DistanceFormat(ctx, sym);
      } else if sym.Rep? {
        RepFormat(ctx, sym);
      } else {
        WalkStep(AtIsRepG0, ctx, sym);
        WalkStep(AtIsRep0Long, ctx, sym);
        WalkEnds(Done(ShortRep), ctx, sym);
      }
    }
  }

  // ---------- Coding ----------

  /** Coding a list of bits: each under its probability, which then adapts. */
  function CodeAsks(asks: seq<Ask>, e: Enc, m: Model): Encoded {
    if asks == [] then Encoded(e, m)
    else
      match asks[0].q
      case Model(c) => CodeAsks(asks[1..], Encode(e, Modelled(Get(m, c), asks[0].bit)), Learn(m, c, asks[0].bit))
      case Raw => CodeAsks(asks[1..], Encode(e, Direct(asks[0].bit)), m)
  }

  lemma {:induction false} WalkIsCoded(p: Phase, ctx: Ctx, sym: Sym, e: Enc, m: Model)
    ensures EncodeFrom(p, ctx, sym, e, m) == CodeAsks(Walk(p, ctx, sym), e, m)
    decreases Stage(p), Left(p)
  {
    hide Encode, BitFor, Advance, Query;
    if !p.Done? {
      var bit := BitFor(p, sym);
      AdvanceDescends(p, ctx, bit);
      var rest := Walk(Advance(p, ctx, bit), ctx, sym);
      assert ([Ask(Query(p, ctx), bit)] + rest)[1..] == rest;
      WalkIsCoded(Advance(p, ctx, bit), ctx, sym, Encode(e, CoinAt(p, ctx, m, bit)), ModelAfter(p, ctx, m, bit));
    }
  }

  /** A symbol is coded bit by bit as the format has it. */
  lemma SymbolIsFormat(ctx: Ctx, sym: Sym, e: Enc, m: Model)
    requires ValidSym(sym)
    ensures EncodeSymbol(ctx, sym, e, m) == CodeAsks(SymbolAsks(ctx, sym), e, m)
  {
    hide EncodeFrom, CodeAsks, SymbolAsks;
    FromTheRoot(AtIsMatch, ctx, sym, e, m);
  }

  lemma FromTheRoot(p: Phase, ctx: Ctx, sym: Sym, e: Enc, m: Model)
    requires p == AtIsMatch && ValidSym(sym)
    ensures EncodeFrom(p, ctx, sym, e, m) == CodeAsks(SymbolAsks(ctx, sym), e, m)
  {
    hide EncodeFrom, CodeAsks, SymbolAsks, Walk;
    WalkIsCoded(p, ctx, sym, e, m);
    WalkIsFormat(p, ctx, sym);
  }
}
