/**
 `LzmaDec_TryDummy`: the look-ahead over one symbol. It changes neither the decoder nor its
 probabilities, and gives up when the input ends. It is proved to take the look-ahead walk
 of the symbol machine, which in turn is that of the real decoder.
 */
module DummyDecoder {
  import opened Bytes
  import opened Powers
  import opened RangeCoder
  import opened Symbols
  import opened SymbolCoder
  import opened SymbolBounds
  import opened Lookahead
  import opened Layout
  import opened Cells
  import opened Lz
  import opened DecoderSteps

  datatype Dummy = InputEof | DummyLit | DummyMatch | DummyRep

  function KindOf(sym: Sym): Dummy {
    match sym
    case Literal(_) => DummyLit
    case Match(_, _) => DummyMatch
    case _ => DummyRep
  }

  /** What a look-ahead depends on besides its position. */
  datatype View = View(props: Props, ctx: Ctx, model: Model, src: seq<byte>)

  function Onward(p: Phase, d: Dec, v: View): Looked {
    LookFrom(p, v.ctx, d, v.model, v.src)
  }

  /** The symbol ends behind the end of the input. */
  predicate RunsOut(p: Phase, d: Dec, v: View) {
    DecNormalize(Onward(p, d, v).dec, v.src).pos > |v.src|
  }

  ghost predicate Reads(probs: array<Prob>, v: View)
    reads probs
  {
    v.props.Valid() && Holds(Decoder, v.props, probs[..], v.model)
  }

  lemma {:induction false} LooksForward(p: Phase, ctx: Ctx, d: Dec, m: Model, s: seq<byte>)
    ensures LookFrom(p, ctx, d, m, s).dec.pos >= d.pos
    ensures !p.Done? ==> DecNormalize(d, s).pos <= LookFrom(p, ctx, d, m, s).dec.pos
    decreases Stage(p), Left(p)
  {
    hide Advance, Toss, TossDirect;
    if !p.Done? {
      var (bit, d1) := AnswerAt(p, ctx, d, m, s);
      AnswerForward(p, ctx, d, m, s);
      AdvanceDescends(p, ctx, bit);
      LooksForward(Advance(p, ctx, bit), ctx, d1, m, s);
    }
  }

  lemma LookDone(sym: Sym, d: Dec, v: View)
    ensures Onward(Done(sym), d, v) == Looked(sym, d)
  {
  }

  lemma StopsEarly(p: Phase, d: Dec, v: View)
    requires !p.Done? && d.range < 0x100_0000 && d.pos >= |v.src|
    ensures RunsOut(p, d, v)
  {
    hide LookFrom;
    LooksForward(p, v.ctx, d, v.model, v.src);
    NormalizePos(Onward(p, d, v).dec, v.src);
  }

  /** `NORMALIZE_CHECK` */
  method NormalizeCheck(d: Dec, src: seq<byte>) returns (ok: bool, d1: Dec)
    ensures ok <==> d.range >= 0x100_0000 || d.pos < |src|
    ensures ok ==> d1 == DecNormalize(d, src) && (d.pos <= |src| ==> d1.pos <= |src|)
  {
    if d.range < 0x100_0000 {
      if d.pos >= |src| { return false, d; }
      return true, Dec(d.range * 0x100, (d.code * 0x100 + src[d.pos]) % 0x1_0000_0000, d.pos + 1);
    }
    return true, d;
  }

  /** `IF_BIT_0_CHECK`, `UPDATE_0_CHECK` and `UPDATE_1_CHECK`: a bit is read and nothing is learned. */
  method CheckBit(probs: array<Prob>, i: nat, d: Dec, src: seq<byte>, ghost p: Phase, ghost v: View) returns (ok: bool, bit: bool, d1: Dec)
    requires Reads(probs, v) && v.src == src && d.pos <= |src|
    requires !p.Done? && Query(p, v.ctx).Model? && ValidCell(v.props, Query(p, v.ctx).cell)
    requires i == Index(Decoder, v.props, Query(p, v.ctx).cell)
    ensures ok ==> Onward(Advance(p, v.ctx, bit), d1, v) == Onward(p, d, v)
    ensures ok ==> d1.pos <= |src|
    ensures !ok ==> RunsOut(p, d, v)
  {
    hide ValidCell, Holds, DecNormalize, Advance, Toss, LookFrom, Index;
    HoldsAt(v.props, probs[..], v.model, Query(p, v.ctx).cell);
    var ttt := probs[i];
    ok, d1 := NormalizeCheck(d, src);
    bit := false;
    if !ok {
      StopsEarly(p, d, v);
    } else {
      ModelAhead(p, d, v);
      bit, d1 := CheckToss(d1, ttt);
    }
  }

  method CheckToss(d: Dec, ttt: Prob) returns (bit: bool, d1: Dec)
    ensures (bit, d1) == Toss(d, ttt) && d1.pos == d.pos
  {
    BoundFits(d.range, ttt);
    var bound := d.range / 2048 * ttt;
    if d.code < bound {
      return false, d.(range := bound);
    } else {
      return true, d.(range := d.range - bound, code := d.code - bound);
    }
  }

  lemma ModelAhead(p: Phase, d: Dec, v: View)
    requires !p.Done? && Query(p, v.ctx).Model?
    ensures var (bit, d1) := Toss(DecNormalize(d, v.src), Get(v.model, Query(p, v.ctx).cell));
      Onward(p, d, v) == Onward(Advance(p, v.ctx, bit), d1, v)
  {
    hide Toss, Advance, DecNormalize;
  }

  /** `TREE_DECODE_CHECK`; the result is the leaf, not yet less the limit. */
  method CheckTree(probs: array<Prob>, base: nat, bits: nat, d: Dec, src: seq<byte>, ghost p: Phase, ghost v: View)
    returns (ok: bool, i: nat, d1: Dec)
    requires Reads(probs, v) && v.src == src && d.pos <= |src| && InTree(p) && 1 <= bits && p == AtNode(p, bits, 1)
    requires TreeAt(Decoder, v.props, base, bits, p, v.ctx)
    ensures ok ==> Pow2(bits) <= i < 2 * Pow2(bits) && Onward(TreeEnd(p, i), d1, v) == Onward(p, d, v)
    ensures ok ==> d1.pos <= |src|
    ensures !ok ==> RunsOut(p, d, v)
  {
    hide Pow2, LookFrom, Holds, TreeEnd, AtNode, NodeAt, NodeVars, ValidCell, Index;
    ghost var left: nat := bits;
    NodeStart(bits);
    NodeGuard(bits, bits, 1);
    i, ok, d1 := 1, true, d;
    while i < Pow2(bits)
      invariant ok && d1.pos <= |src| && NodeVars(bits, left, i) && (i < Pow2(bits) <==> left > 0)
      invariant Onward(if left > 0 then AtNode(p, left, i) else TreeEnd(p, i), d1, v) == Onward(p, d, v)
      decreases left
    {
      NodeStep(bits, left, i);
      CellInTree(Decoder, v.props, base, bits, p, v.ctx, left, i);
      var bit;
      ok, bit, d1 := CheckBit(probs, base + i, d1, src, AtNode(p, left, i), v);
      if !ok { return; }
      TreeAdvance(p, v.ctx, left, i, bit);
      i := 2 * i + (if bit then 1 else 0);
      left := left - 1;
      NodeGuard(bits, left, i);
    }
    NodeEnd(bits, i);
  }

  method CheckMatched(probs: array<Prob>, base: nat, matchByte: byte, d: Dec, src: seq<byte>, ghost v: View)
    returns (ok: bool, ghost b: byte, d1: Dec)
    requires Reads(probs, v) && v.src == src && d.pos <= |src| && v.ctx.litCtx < Pow2(v.props.lc + v.props.lp)
    requires base == Start(Decoder, 11) + 0x300 * v.ctx.litCtx
    ensures ok ==> Onward(Done(Literal(b)), d1, v) == Onward(AtLiteral(8, 1, true, matchByte), d, v)
    ensures ok ==> d1.pos <= |src|
    ensures !ok ==> RunsOut(AtLiteral(8, 1, true, matchByte), d, v)
  {
    hide Pow2, LookFrom, Holds, And100, Start, NextOffs, ValidCell, Index, NodeVars;
    var symbol: nat, mb: nat, offs: nat := 1, matchByte, 0x100;
    ghost var left: nat := 8;
    ok, d1, b := true, d, 0;
    NodeStart(8);
    LiteralGuard(8, 1);
    assert MatchedAt(left, symbol, offs, mb) == AtLiteral(8, 1, true, matchByte);
    while symbol < 0x100
      invariant ok && d1.pos <= |src| && (offs == 0x100 || offs == 0)
      invariant NodeVars(8, left, symbol) && (symbol < 0x100 <==> left > 0) && left <= 8
      invariant Onward(MatchedAt(left, symbol, offs, mb), d1, v) == Onward(AtLiteral(8, 1, true, matchByte), d, v)
      decreases left
    {
      NodeStep(8, left, symbol);
      MatchedCell(v.props, v.ctx, left, symbol, mb, offs);
      ghost var p := MatchedAt(left, symbol, offs, mb);
      var masked := And100(2 * mb, offs);
      var bit;
      ok, bit, d1 := CheckBit(probs, base + masked + offs + symbol, d1, src, p, v);
      if !ok { return; }
      MatchedAdvance(v.ctx, left, symbol, offs, mb, bit);
      offs := NextOffs(offs, masked, bit);
      mb := 2 * mb;
      symbol := 2 * symbol + (if bit then 1 else 0);
      left := left - 1;
      LiteralGuard(left, symbol);
    }
    LiteralGuard(left, symbol);
    b := symbol - 0x100;
  }

  method CheckLength(probs: array<Prob>, base: nat, posState: nat, d: Dec, src: seq<byte>, ghost ls: LenSource, ghost v: View)
    returns (ok: bool, len: nat, d1: Dec)
    requires Reads(probs, v) && v.src == src && d.pos <= |src|
    requires base == LenRegion(Decoder, ls) && v.ctx.posState < 16 && posState == 16 * v.ctx.posState
    ensures ok ==> len + 2 <= 273 && Onward(AfterLength(ls, len + 2), d1, v) == Onward(AtLenChoice(ls), d, v)
    ensures ok ==> d1.pos <= |src|
    ensures !ok ==> RunsOut(AtLenChoice(ls), d, v)
  {
    hide Pow2, LookFrom, Holds, ValidCell, Index, TreeAt, TreeEnd, AfterLength, Start;
    LenCells(Decoder, v.props, ls, v.ctx);
    TreeLimits();
    len := 0;
    var bit;
    ok, bit, d1 := CheckBit(probs, base, d, src, AtLenChoice(ls), v);
    if !ok { return; }
    if !bit {
      LenTreeAt(Decoder, v.props, ls, Low, v.ctx);
      ok, len, d1 := CheckTree(probs, base + posState, 3, d1, src, AtLenTree(ls, Low, 3, 1), v);
      if !ok { return; }
      LenTreeEnds(ls, len);
      len := len - 8;
    } else {
      ok, bit, d1 := CheckBit(probs, base + 8, d1, src, AtLenChoice2(ls), v);
      if !ok { return; }
      if !bit {
        LenTreeAt(Decoder, v.props, ls, Mid, v.ctx);
        ok, len, d1 := CheckTree(probs, base + posState + 8, 3, d1, src, AtLenTree(ls, Mid, 3, 1), v);
        if !ok { return; }
        LenTreeEnds(ls, len);
        len := len - 8 + 8;
      } else {
        LenTreeAt(Decoder, v.props, ls, High, v.ctx);
        ok, len, d1 := CheckTree(probs, base + 256, 8, d1, src, AtLenTree(ls, High, 8, 1), v);
        if !ok { return; }
        LenTreeEnds(ls, len);
        len := len - 0x100 + 16;
      }
    }
  }

  /** `REV_BIT_CHECK`, once per bit. */
  method CheckReverse(probs: array<Prob>, base: nat, numBits: nat, d: Dec, src: seq<byte>, ghost p: Phase, ghost v: View)
    returns (ok: bool, ghost low: nat, d1: Dec)
    requires Reads(probs, v) && v.src == src && d.pos <= |src| && InReverse(p) && p == AtDepth(p, 0, 0) && numBits == ReverseBits(p)
    requires base == ReverseBase(Decoder, p)
    ensures ok ==> low < Pow2(numBits) && Onward(ReverseEnd(p, low), d1, v) == Onward(p, d, v)
    ensures ok ==> d1.pos <= |src|
    ensures !ok ==> RunsOut(p, d, v)
  {
    hide LookFrom, Holds, ValidCell, Index, ReverseBase, Start, ReverseEnd, AtDepth;
    var i: nat, m: nat, left: nat := 1, 1, numBits;
    ghost var k: nat := 0;
    low, ok, d1 := 0, true, d;
    ReverseHasBits(p);
    assert Pow2(0) == 1;
    hide Pow2;
    while left > 0
      invariant ok && d1.pos <= |src| && k + left == numBits && m == Pow2(k) && low < m && i == m + low
      invariant Onward(if left > 0 then AtDepth(p, k, low) else ReverseEnd(p, low), d1, v) == Onward(p, d, v)
    {
      ReverseCell(v.props, p, v.ctx, k, low);
      var bit;
      ok, bit, d1 := CheckBit(probs, base + i, d1, src, AtDepth(p, k, low), v);
      if !ok { return; }
      ReverseAdvance(p, v.ctx, k, low, bit);
      Pow2Step(k);
      if !bit {
        i := i + m;
        m := m + m;
      } else {
        low := low + m;
        m := m + m;
        i := i + m;
      }
      k, left := k + 1, left - 1;
    }
  }

  method CheckDirectBits(numDirectBits: nat, d: Dec, src: seq<byte>, ghost len: nat, ghost top: nat, ghost v: View)
    returns (ok: bool, ghost hi: nat, d1: Dec)
    requires v.src == src && d.pos <= |src| && 1 <= numDirectBits
    ensures ok ==> Onward(AtAlign(len, hi, 0, 0), d1, v) == Onward(AtDirect(len, numDirectBits, top), d, v)
    ensures ok ==> d1.pos <= |src|
    ensures !ok ==> RunsOut(AtDirect(len, numDirectBits, top), d, v)
  {
    hide LookFrom;
    var left: nat := numDirectBits;
    ok, d1, hi := true, d, top;
    while left > 0
      invariant ok && d1.pos <= |src| && left <= numDirectBits
      invariant Onward(if left > 0 then AtDirect(len, left, hi) else AtAlign(len, hi, 0, 0), d1, v)
                == Onward(AtDirect(len, numDirectBits, top), d, v)
    {
      ghost var bit;
      ok, bit, d1 := CheckDirectBit(d1, src, AtDirect(len, left, hi), v);
      if !ok { return; }
      DirectAdvance(len, left, hi, v.ctx, bit);
      hi := 2 * hi + B(bit);
      left := left - 1;
    }
  }

  method CheckDirectBit(d: Dec, src: seq<byte>, ghost p: Phase, ghost v: View) returns (ok: bool, ghost bit: bool, d1: Dec)
    requires v.src == src && d.pos <= |src| && p.AtDirect?
    ensures ok ==> Onward(Advance(p, v.ctx, bit), d1, v) == Onward(p, d, v)
    ensures ok ==> d1.pos <= |src|
    ensures !ok ==> RunsOut(p, d, v)
  {
    hide Advance;
    ok, d1 := NormalizeCheck(d, src);
    bit := false;
    if !ok {
      StopsEarly(p, d, v);
    } else {
      hide LookFrom;
      ghost var n := d1;
      assert n == DecNormalize(d, src);
      assert Onward(p, d, v) == Onward(Advance(p, v.ctx, TossDirect(n).0), TossDirect(n).1, v) by { DirectAhead(p, d, v); }
      hide DecNormalize;
      var half := d1.range / 2;
      var diff := (d1.code - half) % 0x1_0000_0000;
      d1 := d1.(range := half, code := d1.code - (if diff >= 0x8000_0000 then 0 else half));
      bit := diff < 0x8000_0000;
      assert (bit, d1) == TossDirect(n);
    }
  }

  lemma DirectAhead(p: Phase, d: Dec, v: View)
    requires p.AtDirect?
    ensures var (bit, d1) := TossDirect(DecNormalize(d, v.src)); Onward(p, d, v) == Onward(Advance(p, v.ctx, bit), d1, v)
  {
  }

  /** The slot tree and the footer behind it. */
  method CheckDistance(probs: array<Prob>, len: nat, d: Dec, src: seq<byte>, ghost v: View)
    returns (ok: bool, ghost sym: Sym, d1: Dec)
    requires Reads(probs, v) && v.src == src && d.pos <= |src| && 2 <= len <= 273
    ensures ok ==> sym.Match? && Onward(Done(sym), d1, v) == Onward(AtSlot(len, 6, 1), d, v)
    ensures ok ==> d1.pos <= |src|
    ensures !ok ==> RunsOut(AtSlot(len, 6, 1), d, v)
  {
    hide Pow2, LookFrom, Holds, TreeAt, TreeEnd, AfterSlot, Start, ReverseBase, SpecBase;
    sym := Match(len, 0);
    SlotCells(Decoder, v.props, len, v.ctx);
    TreeLimits();
    var posSlot;
    ok, posSlot, d1 := CheckTree(probs, Start(Decoder, 10) + 64 * LenState(len), 6, d, src, AtSlot(len, 6, 1), v);
    if !ok { return; }
    SlotTreeEnds(len, posSlot);
    posSlot := posSlot - 0x40;
    FooterOf(len, posSlot);
    if posSlot < 4 {
      sym := Match(len, posSlot);
    } else {
      var numDirectBits: nat := posSlot / 2 - 1;
      ghost var low;
      if posSlot < 14 {
        ghost var p := AtSpec(len, posSlot, 0, 0);
        ok, low, d1 := CheckReverse(probs, SpecBase(posSlot), numDirectBits, d1, src, p, v);
        if !ok { return; }
        sym := ReverseEnd(p, low).sym;
      } else {
        ghost var hi;
        ok, hi, d1 := CheckDirectBits(numDirectBits - 4, d1, src, len, 2 + posSlot % 2, v);
        if !ok { return; }
        AlignEnds(len, hi, 0);
        ghost var p := AtAlign(len, hi, 0, 0);
        ok, low, d1 := CheckReverse(probs, Start(Decoder, 5), 4, d1, src, p, v);
        if !ok { return; }
        sym := ReverseEnd(p, low).sym;
      }
    }
  }

  /** Which distance is repeated does not matter here, only how many bits say so. */
  method CheckRepKind(probs: array<Prob>, state: nat, posState: nat, d: Dec, src: seq<byte>, ghost v: View)
    returns (ok: bool, short: bool, ghost index: nat, d1: Dec)
    requires Reads(probs, v) && v.src == src && d.pos <= |src|
    requires v.ctx.state == state < 12 && v.ctx.posState < 16 && posState == 16 * v.ctx.posState
    ensures ok ==> index < 4 && Onward(if short then Done(ShortRep) else AtLenChoice(RepLen(index)), d1, v) == Onward(AtIsRepG0, d, v)
    ensures ok ==> d1.pos <= |src|
    ensures !ok ==> RunsOut(AtIsRepG0, d, v)
  {
    hide LookFrom, Holds, Index, ValidCell;
    FlagCell(Decoder, v.props, AtIsRepG0, v.ctx);
    var bit;
    short, index := false, 0;
    ok, bit, d1 := CheckBit(probs, Start(Decoder, 7) + state, d, src, AtIsRepG0, v);
    if !ok { return; }
    if !bit {
      FlagCell(Decoder, v.props, AtIsRep0Long, v.ctx);
      ok, bit, d1 := CheckBit(probs, Start(Decoder, 1) + posState + state, d1, src, AtIsRep0Long, v);
      short := !bit;
    } else {
      FlagCell(Decoder, v.props, AtIsRepG1, v.ctx);
      ok, bit, d1 := CheckBit(probs, Start(Decoder, 8) + state, d1, src, AtIsRepG1, v);
      if !ok { return; }
      index := 1;
      if bit {
        FlagCell(Decoder, v.props, AtIsRepG2, v.ctx);
        ok, bit, d1 := CheckBit(probs, Start(Decoder, 9) + state, d1, src, AtIsRepG2, v);
        index := if bit then 3 else 2;
      }
    }
  }

  /** Everything behind the match flag. */
  method CheckCopy(probs: array<Prob>, state: nat, posState: nat, d: Dec, src: seq<byte>, ghost v: View)
    returns (ok: bool, res: Dummy, ghost sym: Sym, d1: Dec)
    requires Reads(probs, v) && v.src == src && d.pos <= |src|
    requires v.ctx.state == state < 12 && v.ctx.posState < 16 && posState == 16 * v.ctx.posState
    ensures ok ==> res == KindOf(sym) && Onward(Done(sym), d1, v) == Onward(AtIsRep, d, v)
    ensures ok ==> d1.pos <= |src|
    ensures !ok ==> RunsOut(AtIsRep, d, v)
  {
    hide LookFrom, Holds, Index, ValidCell, AfterLength;
    sym, res := ShortRep, DummyRep;
    FlagCell(Decoder, v.props, AtIsRep, v.ctx);
    var bit, len;
    ok, bit, d1 := CheckBit(probs, Start(Decoder, 6) + state, d, src, AtIsRep, v);
    if !ok { return; }
    if !bit {
      res := DummyMatch;
      ok, len, d1 := CheckLength(probs, Start(Decoder, 3), posState, d1, src, MatchLen, v);
      if !ok { return; }
      AfterLengthIs(MatchLen, len + 2);
      ok, sym, d1 := CheckDistance(probs, len + 2, d1, src, v);
    } else {
      ghost var index;
      var short;
      ok, short, index, d1 := CheckRepKind(probs, state, posState, d1, src, v);
      if !ok || short { return; }
      ok, len, d1 := CheckLength(probs, Start(Decoder, 2), posState, d1, src, RepLen(index), v);
      AfterLengthIs(RepLen(index), len + 2);
      sym := Rep(index, len + 2);
    }
  }

  method CheckLiteral(probs: array<Prob>, base: nat, d: Dec, src: seq<byte>, ghost v: View) returns (ok: bool, ghost b: byte, d1: Dec)
    requires Reads(probs, v) && v.src == src && d.pos <= |src| && v.ctx.litCtx < Pow2(v.props.lc + v.props.lp)
    requires base == Start(Decoder, 11) + 0x300 * v.ctx.litCtx
    ensures ok ==> Onward(Done(Literal(b)), d1, v) == Onward(AtLiteral(8, 1, false, 0), d, v)
    ensures ok ==> d1.pos <= |src|
    ensures !ok ==> RunsOut(AtLiteral(8, 1, false, 0), d, v)
  {
    hide Pow2, LookFrom, Holds, Start, TreeAt, TreeEnd;
    LiteralTreeAt(Decoder, v.props, v.ctx);
    var leaf;
    ok, leaf, d1 := CheckTree(probs, base, 8, d, src, AtLiteral(8, 1, false, 0), v);
    TreeLimits();
    LiteralTreeEnds(leaf);
    b := if ok then leaf - 0x100 else 0;
  }
}
