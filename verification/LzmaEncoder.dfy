/**
 The emission loop of the encoder, in place: which probabilities are touched with which
 bits, for every symbol of a parse. Each method is proved to take the walk of the symbol
 machine from one phase to another.
 */
module LzmaEncoder {
  import opened Bytes
  import opened Powers
  import opened RangeCoder
  import opened Symbols
  import opened SymbolCoder
  import opened SymbolBounds
  import opened Layout
  import opened Masks
  import opened Cells
  import opened EncoderSteps
  import opened Lz
  import opened History
  import opened RangeEncoder
  import opened Distances
  import opened Decoder
  import opened Stream

  // ---------- The choices of the parser ----------

  /** A length and the code of a distance, as the parser hands them to the emission loop. */
  datatype Choice = Choice(len: nat, back: nat)

  /** From machine `m` on, the choices are true of `src` and cover it to its end. */
  ghost predicate Covers(cfg: Config, m: Machine, src: seq<byte>, choices: seq<Choice>)
    decreases |choices|
  {
    if choices == [] then m.out == src
    else
      && |m.out| < |src|
      && var sym := ChoiceSym(src[|m.out|], choices[0].len, choices[0].back);
         && choices[0].len == SymLen(sym)
         && ValidSym(sym) && CanApply(m, sym) && (sym.Match? ==> sym.dist < Reach(cfg, m))
         && Apply(m, sym).out <= src
         && Covers(cfg, Apply(m, sym), src, choices[1..])
  }

  function SymsOf(cfg: Config, m: Machine, src: seq<byte>, choices: seq<Choice>): seq<Sym>
    requires Covers(cfg, m, src, choices)
    decreases |choices|
  {
    if choices == [] then []
    else
      var sym := ChoiceSym(src[|m.out|], choices[0].len, choices[0].back);
      [sym] + SymsOf(cfg, Apply(m, sym), src, choices[1..])
  }

  lemma {:induction false} CoversIsParse(cfg: Config, m: Machine, src: seq<byte>, choices: seq<Choice>)
    requires Covers(cfg, m, src, choices)
    ensures Parse(cfg, m, SymsOf(cfg, m, src, choices), src)
    decreases |choices|
  {
    if choices != [] {
      var sym := ChoiceSym(src[|m.out|], choices[0].len, choices[0].back);
      CoversIsParse(cfg, Apply(m, sym), src, choices[1..]);
      hide ValidSym, CanApply, Apply;
    }
  }

  lemma CoversSome(cfg: Config, m: Machine, src: seq<byte>, choices: seq<Choice>)
    requires Covers(cfg, m, src, choices) && choices != []
    ensures |m.out| < |src|
  {
  }

  lemma CoversEnd(cfg: Config, m: Machine, src: seq<byte>, choices: seq<Choice>, e: Enc, model: Model)
    requires cfg.Valid() && HasContext(m) && choices == [] && Covers(cfg, m, src, choices)
    requires Parse(cfg, m, SymsOf(cfg, m, src, choices), src)
    ensures EncodeSyms(cfg, m, SymsOf(cfg, m, src, choices), src, e, model) == Encoded(e, model)
  {
  }

  lemma CoversStep(cfg: Config, m: Machine, src: seq<byte>, choices: seq<Choice>, e: Enc, model: Model)
    requires cfg.Valid() && HasContext(m) && choices != [] && Covers(cfg, m, src, choices)
    requires Parse(cfg, m, SymsOf(cfg, m, src, choices), src)
    ensures var sym := ChoiceSym(src[|m.out|], choices[0].len, choices[0].back);
      var r := EncodeSymbol(CtxOf(cfg.props, m), sym, e, model);
      && ValidSym(sym) && CanApply(m, sym) && |Apply(m, sym).out| == |m.out| + choices[0].len && Apply(m, sym).out <= src
      && Covers(cfg, Apply(m, sym), src, choices[1..])
      && HasContext(Apply(m, sym)) && Parse(cfg, Apply(m, sym), SymsOf(cfg, Apply(m, sym), src, choices[1..]), src)
      && EncodeSyms(cfg, m, SymsOf(cfg, m, src, choices), src, e, model) ==
         EncodeSyms(cfg, Apply(m, sym), SymsOf(cfg, Apply(m, sym), src, choices[1..]), src, r.enc, r.model)
  {
    var sym := ChoiceSym(src[|m.out|], choices[0].len, choices[0].back);
    ApplyHasContext(m, sym);
    hide ValidSym, CanApply, Apply, EncodeSymbol, HasContext;
    assert SymsOf(cfg, m, src, choices)[1..] == SymsOf(cfg, Apply(m, sym), src, choices[1..]);
  }

  class LzmaEnc {
    const props: Props
    const rc: RangeEnc
    const probs: array<Prob>
    const fastPos: array<nat>
    var state: nat
    var reps: Reps
    ghost var model: Model

    ghost predicate Valid()
      reads this, probs, fastPos
    {
      && props.Valid() && Holds(Encoder, props, probs[..], model)
      && TableReady() && probs as object != fastPos
    }

    ghost predicate TableReady()
      reads fastPos
    {
      fastPos.Length == 0x4000 && forall i :: 0 <= i < 0x4000 ==> fastPos[i] == PosSlot(i)
    }

    constructor (props: Props)
      requires props.Valid()
      ensures Valid() && this.props == props
      ensures rc.State() == ENC_INIT && model == map[]
      ensures state == START.state && reps == START.reps
      ensures fresh(rc) && fresh(probs) && fresh(fastPos)
    {
      this.props := props;
      rc := new RangeEnc();
      probs := new Prob[NumProbs(Encoder, props)](_ => 1024);
      var table := new nat[0x4000];
      FastPosInit(table);
      fastPos := table;
      state, reps := 0, Reps(1, 1, 1, 1);
      model := map[];
      new;
      HoldsInitially(Encoder, props, probs[..]);
    }

    /** What is still to be coded from phase `p` on. */
    ghost function Rest(p: Phase, g: Goal): Encoded
      reads this, rc
    {
      EncodeFrom(p, g.ctx, g.sym, rc.State(), model)
    }

    /** A bit that the code branches on: the element `i` of the array is the cell that phase `p` asks about. */
    method Flag(i: nat, bit: bool, ghost p: Phase, ghost g: Goal)
      requires Valid() && !p.Done? && Query(p, g.ctx).Model? && ValidCell(props, Query(p, g.ctx).cell)
      requires i == Index(Encoder, props, Query(p, g.ctx).cell)
      requires bit == BitFor(p, g.sym)
      modifies `model, rc, probs
      ensures Valid()
      ensures Rest(Advance(p, g.ctx, bit), g) == old(Rest(p, g))
    {
      ghost var c := Query(p, g.ctx).cell;
      HoldsLearned(Encoder, props, probs[..], model, c, bit);
      rc.EncodeFlag(probs, i, bit);
      model := Learn(model, c, bit);
    }

    /** A bit of a tree: the element `i` of the array is the cell that phase `p` asks about. */
    method Code(i: nat, bit: bool, ghost p: Phase, ghost g: Goal)
      requires Valid() && !p.Done? && Query(p, g.ctx).Model? && ValidCell(props, Query(p, g.ctx).cell)
      requires i == Index(Encoder, props, Query(p, g.ctx).cell)
      requires bit == BitFor(p, g.sym)
      modifies `model, rc, probs
      ensures Valid()
      ensures Rest(Advance(p, g.ctx, bit), g) == old(Rest(p, g))
    {
      ghost var c := Query(p, g.ctx).cell;
      HoldsLearned(Encoder, props, probs[..], model, c, bit);
      rc.EncodeBit(probs, i, B(bit));
      model := Learn(model, c, bit);
    }

    /**
     A tree of `bits` levels, highest bit first: `LitEnc_Encode` and the inlined loops of
     the same form. `leaf` is the symbol with a one bit in front of it.
     */
    method EncodeTree(base: nat, bits: nat, leaf: nat, ghost p: Phase, ghost g: Goal)
      requires Valid() && InTree(p) && 1 <= bits && p == AtNode(p, bits, 1)
      requires leaf == LeafOf(p, g.sym) && Pow2(bits) <= leaf < 2 * Pow2(bits)
      requires p.AtLiteral? ==> g.sym.Literal?
      requires TreeAt(Encoder, props, base, bits, p, g.ctx)
      modifies `model, rc, probs
      ensures Valid()
      ensures Rest(TreeEnd(p, leaf), g) == old(Rest(p, g))
    {
      hide Prefix, BitAt, Shifted, Pow2, EncodeFrom, LeafOf, TreeEnd, Advance, BitFor, Query, Holds;
      var sym := leaf;
      ghost var left: nat := bits;
      ShiftedStart(leaf, bits);
      while sym < Pow2(2 * bits)
        invariant Valid()
        invariant left <= bits && sym == Shifted(leaf, bits - left)
        invariant left > 0 ==> Rest(AtNode(p, left, Prefix(leaf, left)), g) == old(Rest(p, g))
        invariant left == 0 ==> Rest(TreeEnd(p, leaf), g) == old(Rest(p, g))
        decreases left
      {
        ShiftedGuard(leaf, bits, bits - left);
        var node, bit := Prefix(sym, bits), BitAt(sym, bits);
        ShiftedSteps(leaf, bits, left);
        TreeStep(p, g.ctx, g.sym, left, leaf);
        NodeQuery(p, g.ctx, left, node);
        assert NodeAt(Encoder, props, base, p, g.ctx, node);
        sym := 2 * sym;
        Code(base + node, bit, AtNode(p, left, node), g);
        left := left - 1;
      }
      ShiftedGuard(leaf, bits, bits - left);
    }

    /** `LitEnc_EncodeMatched`: the literal tree has three branches for as long as the match byte agrees. */
    method EncodeMatched(base: nat, curByte: byte, matchByte: byte, ghost g: Goal)
      requires Valid() && g.sym == Literal(curByte)
      requires g.ctx.litCtx < Pow2(props.lc + props.lp)
      requires base == Start(Encoder, 11) + 0x300 * g.ctx.litCtx
      modifies `model, rc, probs
      ensures Valid()
      ensures Rest(Done(g.sym), g) == old(Rest(AtLiteral(8, 1, true, matchByte), g))
    {
      hide Prefix, BitAt, Shifted, Pow2, EncodeFrom, Advance, BitFor, Holds, Bit8, ValidCell, Index;
      hide StillAgreeing, MatchedPhase, MatchedVars, Start, And100, NumProbs;
      var sym: nat, mb: nat, offs: nat := 0x100 + curByte, matchByte, 0x100;
      ghost var left: nat := 8;
      MatchedStart(curByte, matchByte);
      MatchedGuard(curByte, left, sym, mb, offs);
      while sym < 0x1_0000
        invariant Valid()
        invariant MatchedVars(curByte, left, sym, offs) && (left > 0 <==> sym < 0x1_0000)
        invariant Rest(MatchedPhase(0x100 + curByte, left, mb, offs), g) == old(Rest(AtLiteral(8, 1, true, matchByte), g))
        decreases left
      {
        MatchedIteration(g.ctx, curByte, left, sym, mb, offs);
        MatchedIndex(props, g.ctx, left, Prefix(sym, 8), mb, offs);
        ghost var p := MatchedPhase(0x100 + curByte, left, mb, offs);
        mb := 2 * mb;
        var i, bit := base + offs + And100(mb, offs) + Prefix(sym, 8), BitAt(sym, 8);
        sym := 2 * sym;
        offs := StillAgreeing(offs, mb, sym);
        left := left - 1;
        Code(i, bit, p, g);
        MatchedGuard(curByte, left, sym, mb, offs);
      }
      MatchedGuard(curByte, left, sym, mb, offs);
    }

    /** `LenEnc_Encode`; `sym` is the length less two. */
    method EncodeLength(sym: nat, posState: nat, ghost src: LenSource, base: nat, ghost g: Goal)
      requires Valid() && sym + 2 == SymLen(g.sym) <= 273
      requires base == LenRegion(Encoder, src) && g.ctx.posState == posState < 16
      modifies `model, rc, probs
      ensures Valid()
      ensures Rest(AfterLength(src, sym + 2), g) == old(Rest(AtLenChoice(src), g))
    {
      hide Pow2, EncodeFrom, AfterLength, Holds, Index, ValidCell, Start, LenLeaf, TreeAt, TreeEnd;
      LenCells(Encoder, props, src, g.ctx);
      LenLeaves(sym + 2);
      LenTreeAt(Encoder, props, src, BankFor(sym + 2), g.ctx);
      if sym < 8 {
        Flag(base, false, AtLenChoice(src), g);
        EncodeTree(base + 16 * posState, 3, 8 + sym, AtLenTree(src, Low, 3, 1), g);
      } else {
        Flag(base, true, AtLenChoice(src), g);
        if sym < 16 {
          Flag(base + 8, false, AtLenChoice2(src), g);
          EncodeTree(base + 8 + 16 * posState, 3, 8 + (sym - 8), AtLenTree(src, Mid, 3, 1), g);
        } else {
          Flag(base + 8, true, AtLenChoice2(src), g);
          EncodeTree(base + 256, 8, 0x100 + (sym - 16), AtLenTree(src, High, 8, 1), g);
        }
      }
    }

    /** `RcTree_ReverseEncode`: lowest bit first, the node numbered in the order of arrival. */
    method EncodeReverse(base: nat, numBits: nat, sym: nat, ghost p: Phase, ghost g: Goal)
      requires Valid() && InReverse(p) && p == AtDepth(p, 0, 0)
      requires numBits == ReverseBits(p) && base == ReverseBase(Encoder, p)
      requires g.sym.Match? && sym == g.sym.dist
      modifies `model, rc, probs
      ensures Valid()
      ensures Rest(ReverseEnd(p, Suffix(sym, numBits)), g) == old(Rest(p, g))
    {
      var rest, m: nat, left := sym, 1, numBits;
      ghost var k: nat := 0;
      ReverseStart(p, sym);
      hide Prefix, Suffix, BitAt, Pow2, EncodeFrom, Advance, BitFor, Holds, Query, ReverseNode, AtDepth, ReverseEnd;
      while left > 0
        invariant Valid() && k + left == numBits && rest == Prefix(sym, k)
        invariant m == ReverseNode(Encoder, k, Suffix(sym, k))
        invariant Rest(if left > 0 then AtDepth(p, k, Suffix(sym, k)) else ReverseEnd(p, Suffix(sym, k)), g) == old(Rest(p, g))
      {
        ReverseIteration(props, p, g, k);
        var bit := rest % 2 == 1;
        rest := rest / 2;
        Code(base + m, bit, AtDepth(p, k, Suffix(sym, k)), g);
        m := 2 * m + (if bit then 1 else 0);
        left := left - 1;
        k := k + 1;
      }
    }

    /** The direct bits of a long distance, from the top; the mark in the last four bits ends the loop. */
    method EncodeDirectBits(dist: nat, footerBits: nat, ghost len: nat, ghost g: Goal)
      requires Valid() && 5 <= footerBits <= 30
      requires g.sym.Match? && dist == g.sym.dist
      modifies `model, rc, probs
      ensures Valid()
      ensures Rest(AtAlign(len, Prefix(dist, 4), 0, 0), g) ==
              old(Rest(AtDirect(len, footerBits - 4, Prefix(dist, footerBits)), g))
    {
      hide Prefix, TopAligned, Pow2, EncodeFrom, Advance, BitFor, Holds, Marked, ShiftLeft32;
      var pos2 := ShiftLeft32(Marked(dist), 32 - footerBits);
      TopAlignedIs(Marked(dist), footerBits);
      ghost var n: nat := footerBits;
      var more := true;
      assert DirectVars(dist, n, pos2);
      hide DirectVars;
      while more
        invariant Valid() && DirectVars(dist, n, pos2) && (more <==> n >= 5)
        invariant n >= 5 ==>
                    Rest(AtDirect(len, n - 4, Prefix(dist, n)), g) ==
                    old(Rest(AtDirect(len, footerBits - 4, Prefix(dist, footerBits)), g))
        invariant n < 5 ==>
                    Rest(AtAlign(len, Prefix(dist, 4), 0, 0), g) ==
                    old(Rest(AtDirect(len, footerBits - 4, Prefix(dist, footerBits)), g))
        decreases n
      {
        DirectIteration(AtDirect(len, n - 4, Prefix(dist, n)), g.ctx, g.sym, n, pos2);
        var bit := pos2 >= 0x8000_0000;
        CodeDirect(bit, AtDirect(len, n - 4, Prefix(dist, n)), g);
        pos2 := 2 * pos2 % 0x1_0000_0000;
        more := pos2 != 0xF000_0000;
        n := n - 1;
      }
    }

    method CodeDirect(bit: bool, ghost p: Phase, ghost g: Goal)
      requires Valid() && p.AtDirect? && bit == BitFor(p, g.sym)
      modifies rc
      ensures Valid()
      ensures Rest(Advance(p, g.ctx, bit), g) == old(Rest(p, g))
    {
      rc.EncodeDirect(bit);
    }

    method EncodeDistance(len: nat, dist: nat, ghost g: Goal)
      requires Valid() && g.sym == Match(len, dist) && ValidSym(g.sym)
      modifies `model, rc, probs
      ensures Valid()
      ensures Rest(Done(g.sym), g) == old(Rest(AtSlot(len, 6, 1), g))
    {
      hide Prefix, Suffix, Pow2, EncodeFrom, Holds, PosSlot, AfterSlot, SpecBase, ReverseEnd, TreeAt, TreeEnd, LeafOf, Start;
      var posSlot := GetPosSlot(fastPos, dist);
      SlotLeaf(len, dist);
      SlotCells(Encoder, props, len, g.ctx);
      AfterSlotOf(len, dist);
      EncodeTree(Start(Encoder, 10) + 64 * LenState(len), 6, 64 + posSlot, AtSlot(len, 6, 1), g);
      if dist >= 4 {
        var footerBits := posSlot / 2 - 1;
        if dist < 128 {
          ghost var p := AtSpec(len, posSlot, 0, 0);
          ReverseEndIs(p, g.sym);
          EncodeReverse(Start(Encoder, 0) + SpecBase(posSlot), footerBits, dist, p, g);
        } else {
          EncodeDirectBits(dist, footerBits, len, g);
          ghost var p := AtAlign(len, Prefix(dist, 4), 0, 0);
          ReverseEndIs(p, g.sym);
          EncodeReverse(Start(Encoder, 5), 4, dist, p, g);
        }
      }
    }

    method EncodeLiteral(curByte: byte, matchByte: byte, offset: nat, ghost g: Goal)
      requires Valid() && g.sym == Literal(curByte) && offset == 0x300 * g.ctx.litCtx && g.ctx.matchByte == matchByte
      requires g.ctx.litCtx < Pow2(props.lc + props.lp) && g.ctx.state == state && (state < 7 ==> matchByte == 0)
      modifies this, rc, probs
      ensures Valid()
      ensures Rest(Done(g.sym), g) == old(Rest(AtLiteral(8, 1, state >= 7, matchByte), g))
      ensures state == NextState(old(state), g.sym) && reps == old(reps)
    {
      hide EncodeFrom, Holds, Prefix, TreeAt, NodeAt, Pow2;
      var base := Start(Encoder, 11) + offset;
      if state < 7 {
        LiteralTreeAt(Encoder, props, g.ctx);
        LiteralLeaf(curByte);
        EncodeTree(base, 8, 0x100 + curByte, AtLiteral(8, 1, false, 0), g);
      } else {
        EncodeMatched(base, curByte, matchByte, g);
      }
      state := if state < 4 then 0 else if state < 10 then state - 3 else state - 6;
    }

    /** A repeated distance: which of the last four, and whether one byte or more. */
    method EncodeRep(back: nat, len: nat, posState: nat, ghost g: Goal)
      requires Valid() && back < 4 && ValidSym(g.sym)
      requires g.sym == (if len == 1 then ShortRep else Rep(back, len)) && (len == 1 ==> back == 0)
      requires g.ctx.state == state < 12 && g.ctx.posState == posState < 16
      modifies this, rc, probs
      ensures Valid()
      ensures Rest(Done(g.sym), g) == old(Rest(AtIsRepG0, g))
      ensures state == NextState(old(state), g.sym) && reps == NextReps(old(reps), g.sym)
      ensures Listed(reps) == MovedFront(old(Listed(reps)), g.sym, 0)
    {
      hide EncodeFrom, Holds, Index, ValidCell, Pow2, FlagIndex;
      FlagCell(Encoder, props, AtIsRepG0, g.ctx);
      if back == 0 {
        FlagCell(Encoder, props, AtIsRep0Long, g.ctx);
        Flag(FlagIndex(Encoder, AtIsRepG0, state, posState), false, AtIsRepG0, g);
        if len != 1 {
          Flag(FlagIndex(Encoder, AtIsRep0Long, state, posState), true, AtIsRep0Long, g);
        } else {
          Flag(FlagIndex(Encoder, AtIsRep0Long, state, posState), false, AtIsRep0Long, g);
          state := if state < 7 then 9 else 11;
        }
      } else {
        Flag(FlagIndex(Encoder, AtIsRepG0, state, posState), true, AtIsRepG0, g);
        var dist := reps.r1;
        FlagCell(Encoder, props, AtIsRepG1, g.ctx);
        FlagCell(Encoder, props, AtIsRepG2, g.ctx);
        if back == 1 {
          Flag(FlagIndex(Encoder, AtIsRepG1, state, posState), false, AtIsRepG1, g);
        } else {
          Flag(FlagIndex(Encoder, AtIsRepG1, state, posState), true, AtIsRepG1, g);
          if back == 2 {
            Flag(FlagIndex(Encoder, AtIsRepG2, state, posState), false, AtIsRepG2, g);
            dist := reps.r2;
          } else {
            Flag(FlagIndex(Encoder, AtIsRepG2, state, posState), true, AtIsRepG2, g);
            dist := reps.r3;
            reps := reps.(r3 := reps.r2);
          }
          reps := reps.(r2 := reps.r1);
        }
        reps := reps.(r1 := reps.r0);
        reps := reps.(r0 := dist);
      }
      if len != 1 {
        EncodeLength(len - 2, posState, RepLen(back), LenRegion(Encoder, RepLen(back)), g);
        state := if state < 7 then 8 else 11;
      }
      RepsMove(old(reps), g.sym);
    }

    /** A match at a new distance. */
    method EncodeMatch(len: nat, dist: nat, posState: nat, ghost g: Goal)
      requires Valid() && g.sym == Match(len, dist) && ValidSym(g.sym)
      requires g.ctx.posState == posState < 16
      modifies this, rc, probs
      ensures Valid()
      ensures Rest(Done(g.sym), g) == old(Rest(AtLenChoice(MatchLen), g))
      ensures state == NextState(old(state), g.sym) && reps == NextReps(old(reps), g.sym)
    {
      hide EncodeFrom, Holds, Pow2;
      state := if state < 7 then 7 else 10;
      EncodeLength(len - 2, posState, MatchLen, LenRegion(Encoder, MatchLen), g);
      reps := reps.(r3 := reps.r2);
      reps := reps.(r2 := reps.r1);
      reps := reps.(r1 := reps.r0);
      reps := reps.(r0 := dist + 1);
      EncodeDistance(len, dist, g);
    }

    method EncodeCopy(len: nat, back: nat, posState: nat, ghost g: Goal)
      requires Valid() && ValidSym(g.sym) && g.ctx.state == state < 12 && g.ctx.posState == posState < 16
      requires g.sym == (if back >= 4 then Match(len, back - 4) else if back == 0 && len == 1 then ShortRep else Rep(back, len))
      modifies this, rc, probs
      ensures Valid()
      ensures Rest(Done(g.sym), g) == old(Rest(AtIsRep, g))
      ensures state == NextState(old(state), g.sym) && reps == NextReps(old(reps), g.sym)
    {
      hide EncodeFrom, Holds, Index, ValidCell, FlagIndex, Pow2, NextState, NextReps;
      FlagCell(Encoder, props, AtIsRep, g.ctx);
      if back < 4 {
        Flag(FlagIndex(Encoder, AtIsRep, state, posState), true, AtIsRep, g);
        EncodeRep(back, len, posState, g);
      } else {
        Flag(FlagIndex(Encoder, AtIsRep, state, posState), false, AtIsRep, g);
        EncodeMatch(len, back - 4, posState, g);
      }
    }

    method EncodeKind(curByte: byte, matchByte: byte, offset: nat, posState: nat, len: nat, back: nat, ghost g: Goal)
      requires Valid() && ValidSym(g.sym)
      requires g.ctx == Ctx(state, posState, g.ctx.litCtx, matchByte) && state < 12 && posState < 16
      requires offset == 0x300 * g.ctx.litCtx && g.ctx.litCtx < Pow2(props.lc + props.lp) && (state < 7 ==> matchByte == 0)
      requires g.sym == ChoiceSym(curByte, len, back)
      modifies this, rc, probs
      ensures Valid()
      ensures Rest(Done(g.sym), g) == old(Rest(AtIsMatch, g))
      ensures state == NextState(old(state), g.sym) && reps == NextReps(old(reps), g.sym)
    {
      hide EncodeFrom, Holds, Index, ValidCell, FlagIndex, Pow2, NextState;
      FlagCell(Encoder, props, AtIsMatch, g.ctx);
      if back == 0xFFFF_FFFF {
        Flag(FlagIndex(Encoder, AtIsMatch, state, posState), false, AtIsMatch, g);
        EncodeLiteral(curByte, matchByte, offset, g);
      } else {
        Flag(FlagIndex(Encoder, AtIsMatch, state, posState), true, AtIsMatch, g);
        EncodeCopy(len, back, posState, g);
      }
    }

    /** `LIT_PROBS`; the first byte uses the first coder. */
    method LiteralProbs(src: seq<byte>, pos: nat, nowPos32: u32) returns (offset: nat)
      requires props.Valid() && pos < |src| && Wraps(nowPos32, pos)
      ensures offset == 0x300 * LitCtx(props, src[..pos])
    {
      hide LiteralOffset, Wraps;
      if pos == 0 {
        return 0;
      }
      MaskedIsLitCtx(props, src[..pos], nowPos32);
      return LiteralOffset(props, nowPos32, src[pos - 1]);
    }

    /**
     One pass of the emission loop of `LzmaEnc_CodeOneBlock`: codes the choice `len`, `back`
     of the parser at `pos`, exactly as the walk of its symbol prescribes.
     */
    method EncodeOp(src: seq<byte>, pos: nat, len: nat, back: nat, ghost m: Machine)
      requires Valid() && pos < |src| && m == Machine(state, reps, src[..pos]) && state < 12
      requires state >= 7 ==> 0 < reps.r0 <= pos
      requires ValidSym(ChoiceSym(src[pos], len, back))
      modifies this, rc, probs
      ensures Valid()
      ensures Encoded(rc.State(), model) ==
              EncodeSymbol(CtxOf(props, m), ChoiceSym(src[pos], len, back), old(rc.State()), old(model))
      ensures state == NextState(m.state, ChoiceSym(src[pos], len, back))
      ensures reps == NextReps(m.reps, ChoiceSym(src[pos], len, back))
    {
      hide Holds, And, Pow2, NextState, NextReps, ChoiceSym, ValidSym, LitCtx;
      ghost var g := Goal(CtxOf(props, m), ChoiceSym(src[pos], len, back));
      ContextFits(props, m);
      var nowPos32: u32 := pos % 0x1_0000_0000;
      MaskedPosState(nowPos32, pos, props.pb);
      var posState := And(nowPos32, Pow2(props.pb) - 1);
      var matchByte := if state >= 7 then src[pos - reps.r0] else 0;
      var offset := LiteralProbs(src, pos, nowPos32);
      EncodeKind(src[pos], matchByte, offset, posState, len, back, g);
    }

    /** The emission loop and the final flush: the stream of the parse that the choices describe. */
    method EncodeChoices(src: seq<byte>, choices: seq<Choice>, ghost cfg: Config)
      requires Valid() && cfg.Valid() && cfg.props == props
      requires state == START.state && reps == START.reps && rc.State() == ENC_INIT && model == map[]
      requires Covers(cfg, START, src, choices)
      modifies this, rc, probs
      ensures Valid()
      ensures Parse(cfg, START, SymsOf(cfg, START, src, choices), src)
      ensures rc.out == LzmaStream(cfg, SymsOf(cfg, START, src, choices), src)
      ensures model == EncodeSyms(cfg, START, SymsOf(cfg, START, src, choices), src, ENC_INIT, map[]).model
    {
      hide EncodeFrom, Holds, EncodeSyms, SymsOf, Parse, Flush, EncodeSymbol, Covers, ValidSym, CanApply, ChoiceSym;
      CoversIsParse(cfg, START, src, choices);
      ghost var whole := EncodeSyms(cfg, START, SymsOf(cfg, START, src, choices), src, ENC_INIT, map[]);
      ghost var m := START;
      var pos, i := 0, 0;
      while i < |choices|
        invariant Valid() && i <= |choices| && pos == |m.out| && HasContext(m)
        invariant m.out <= src && state == m.state && reps == m.reps
        invariant Covers(cfg, m, src, choices[i..])
        invariant Parse(cfg, m, SymsOf(cfg, m, src, choices[i..]), src)
        invariant EncodeSyms(cfg, m, SymsOf(cfg, m, src, choices[i..]), src, rc.State(), model) == whole
      {
        CoversSome(cfg, m, src, choices[i..]);
        ghost var sym := ChoiceSym(src[pos], choices[i].len, choices[i].back);
        CoversStep(cfg, m, src, choices[i..], rc.State(), model);
        EncodeOp(src, pos, choices[i].len, choices[i].back, m);
        pos := pos + choices[i].len;
        m := Apply(m, sym);
        i := i + 1;
        assert choices[i - 1..][1..] == choices[i..];
      }
      CoversEnd(cfg, m, src, choices[i..], rc.State(), model);
      rc.FlushData();
    }
  }
}
