/**
 The decoder in place. The methods that read bits take the walk of the symbol machine from
 one phase to another; the methods above them are proved against the resumable decoder on
 values.
 */
module LzmaDecoder {
  import opened Bytes
  import opened Powers
  import opened RangeCoder
  import opened Symbols
  import opened SymbolCoder
  import opened SymbolBounds
  import opened Lookahead
  import opened Layout
  import opened Cells
  import opened Lz
  import opened Decoder
  import opened Chunking
  import opened Masks
  import opened DecoderSteps
  import opened DummyDecoder

  class LzmaDec {
    const cfg: Config
    const probs: array<Prob>
    const dic: array<byte>
    var dicPos: nat
    var range: u32
    var code: u32
    var processedPos: u32
    var checkDicSize: u32
    var reps: Reps
    var state: nat
    var remainLen: nat
    /** The read position in the buffer at hand. */
    var buf: nat
    const tempBuf: array<byte>
    var tempBufSize: nat
    ghost var model: Model
    /** Everything produced so far; the dictionary keeps the end of it. */
    ghost var out: seq<byte>

    /** `LzmaDec_Init` on buffers of the right size: the coder and the state are still to be set up. */
    constructor (cfg: Config, dic: array<byte>)
      requires cfg.Valid()
      ensures Callable() && this.cfg == cfg && this.dic == dic
      ensures AsReader() == NEW && out == [] && dicPos == 0
      ensures fresh(probs) && fresh(tempBuf)
    {
      this.cfg, this.dic := cfg, dic;
      probs := new Prob[NumProbs(Decoder, cfg.props)];
      tempBuf := new byte[20];
      dicPos, range, code, processedPos, checkDicSize := 0, 0, 0, 0, 0;
      reps, state, remainLen, buf, tempBufSize := Reps(1, 1, 1, 1), 0, 276, 0, 0;
      model, out := map[], [];
    }

    ghost predicate HasModel()
      reads this`model, probs
    {
      cfg.Valid() && Holds(Decoder, cfg.props, probs[..], model)
    }

    function Coder(): Dec
      reads this
    {
      Dec(range, code, buf)
    }

    /** What the walk from phase `p` will decode. */
    ghost function Rest(p: Phase, ctx: Ctx, src: seq<byte>): Decoded
      reads this
    {
      DecodeFrom(p, ctx, Coder(), model, src)
    }

    /** The symbol of that walk ends within the input. */
    ghost predicate Fits(p: Phase, ctx: Ctx, src: seq<byte>)
      reads this
    {
      EndOf(Rest(p, ctx, src), src) <= |src|
    }

    /** `NORMALIZE` */
    method Normalize(src: seq<byte>)
      requires range < 0x100_0000 ==> buf < |src|
      modifies `range, `code, `buf
      ensures Coder() == DecNormalize(old(Coder()), src)
    {
      if range < 0x100_0000 {
        range := range * 0x100;
        code := (code * 0x100 + src[buf]) % 0x1_0000_0000;
        buf := buf + 1;
      }
    }

    /** `IF_BIT_0`, `UPDATE_0`, `UPDATE_1` after `NORMALIZE`. */
    method TossBit(i: nat) returns (bit: bool)
      requires i < probs.Length
      modifies `range, `code, probs
      ensures (bit, Coder()) == Toss(old(Coder()), old(probs[i]))
      ensures probs[..] == old(probs[..])[i := Adapt(old(probs[i]), bit)]
    {
      var ttt := probs[i];
      var bound := range / 2048 * ttt;
      BoundFits(range, ttt);
      if code < bound {
        range := bound;
        probs[i] := Adapt(ttt, false);
        bit := false;
      } else {
        range := range - bound;
        code := code - bound;
        probs[i] := Adapt(ttt, true);
        bit := true;
      }
    }

    /** One modelled bit: the element `i` of the array is the cell that phase `p` asks about. */
    method Bit(i: nat, src: seq<byte>, ghost p: Phase, ghost ctx: Ctx) returns (bit: bool)
      requires HasModel() && !p.Done? && Query(p, ctx).Model? && ValidCell(cfg.props, Query(p, ctx).cell)
      requires i == Index(Decoder, cfg.props, Query(p, ctx).cell)
      requires Fits(p, ctx, src)
      modifies `range, `code, `buf, `model, probs
      ensures HasModel()
      ensures Rest(Advance(p, ctx, bit), ctx, src) == old(Rest(p, ctx, src))
    {
      ghost var c := Query(p, ctx).cell;
      ReadsForward(p, ctx, Coder(), model, src);
      HoldsAt(cfg.props, probs[..], model, c);
      hide Toss, Adapt, Holds, ValidCell;
      Normalize(src);
      bit := TossBit(i);
      HoldsLearned(Decoder, cfg.props, old(probs[..]), old(model), c, bit);
      model := Learn(model, c, bit);
    }

    /** `TREE_DECODE` and its unrolled forms; the result is the leaf, not yet less the limit. */
    method DecodeTree(base: nat, bits: nat, src: seq<byte>, ghost p: Phase, ghost ctx: Ctx) returns (i: nat)
      requires HasModel() && InTree(p) && 1 <= bits && p == AtNode(p, bits, 1)
      requires TreeAt(Decoder, cfg.props, base, bits, p, ctx)
      requires Fits(p, ctx, src)
      modifies `range, `code, `buf, `model, probs
      ensures HasModel() && Pow2(bits) <= i < 2 * Pow2(bits)
      ensures Rest(TreeEnd(p, i), ctx, src) == old(Rest(p, ctx, src))
    {
      hide Pow2, DecodeFrom, Holds, TreeEnd, AtNode, NodeAt, NodeVars, ValidCell, Index;
      ghost var left: nat := bits;
      NodeStart(bits);
      NodeGuard(bits, bits, 1);
      i := 1;
      while i < Pow2(bits)
        invariant HasModel() && NodeVars(bits, left, i) && (i < Pow2(bits) <==> left > 0)
        invariant Rest(if left > 0 then AtNode(p, left, i) else TreeEnd(p, i), ctx, src) == old(Rest(p, ctx, src))
        decreases left
      {
        NodeStep(bits, left, i);
        CellInTree(Decoder, cfg.props, base, bits, p, ctx, left, i);
        var bit := Bit(base + i, src, AtNode(p, left, i), ctx);
        TreeAdvance(p, ctx, left, i, bit);
        i := 2 * i + (if bit then 1 else 0);
        left := left - 1;
        NodeGuard(bits, left, i);
      }
      NodeEnd(bits, i);
    }

    /** A literal in the tree at `base`. */
    method DecodePlain(base: nat, src: seq<byte>, ghost ctx: Ctx) returns (symbol: byte)
      requires HasModel() && ctx.litCtx < Pow2(cfg.props.lc + cfg.props.lp)
      requires base == Start(Decoder, 11) + 0x300 * ctx.litCtx
      requires Fits(AtLiteral(8, 1, false, 0), ctx, src)
      modifies `range, `code, `buf, `model, probs
      ensures HasModel()
      ensures Rest(Done(Literal(symbol)), ctx, src) == old(Rest(AtLiteral(8, 1, false, 0), ctx, src))
    {
      hide Pow2, DecodeFrom, Holds, Start, TreeAt, TreeEnd;
      LiteralTreeAt(Decoder, cfg.props, ctx);
      var leaf := DecodeTree(base, 8, src, AtLiteral(8, 1, false, 0), ctx);
      TreeLimits();
      LiteralTreeEnds(leaf);
      symbol := leaf - 0x100;
    }

    /** The literal after a match: `offs` selects the branch of the tree while the match byte agrees. */
    method DecodeMatched(base: nat, matchByte: byte, src: seq<byte>, ghost ctx: Ctx) returns (r: byte)
      requires HasModel() && ctx.litCtx < Pow2(cfg.props.lc + cfg.props.lp)
      requires base == Start(Decoder, 11) + 0x300 * ctx.litCtx
      requires Fits(AtLiteral(8, 1, true, matchByte), ctx, src)
      modifies `range, `code, `buf, `model, probs
      ensures HasModel()
      ensures Rest(Done(Literal(r)), ctx, src) == old(Rest(AtLiteral(8, 1, true, matchByte), ctx, src))
    {
      hide Pow2, DecodeFrom, Holds, And100, Start, NextOffs, ValidCell, Index, NodeVars;
      var symbol: nat, mb: nat, offs: nat := 1, matchByte, 0x100;
      ghost var left: nat := 8;
      assert MatchedAt(left, symbol, offs, mb) == AtLiteral(8, 1, true, matchByte);
      NodeStart(8);
      LiteralGuard(8, 1);
      while symbol < 0x100
        invariant HasModel() && (offs == 0x100 || offs == 0)
        invariant NodeVars(8, left, symbol) && (symbol < 0x100 <==> left > 0) && left <= 8
        invariant Rest(MatchedAt(left, symbol, offs, mb), ctx, src) == old(Rest(AtLiteral(8, 1, true, matchByte), ctx, src))
        decreases left
      {
        NodeStep(8, left, symbol);
        MatchedCell(cfg.props, ctx, left, symbol, mb, offs);
        ghost var p := MatchedAt(left, symbol, offs, mb);
        var masked := And100(2 * mb, offs);
        var bit := Bit(base + masked + offs + symbol, src, p, ctx);
        MatchedAdvance(ctx, left, symbol, offs, mb, bit);
        offs := NextOffs(offs, masked, bit);
        mb := 2 * mb;
        symbol := 2 * symbol + (if bit then 1 else 0);
        left := left - 1;
        LiteralGuard(left, symbol);
      }
      LiteralGuard(left, symbol);
      r := symbol - 0x100;
    }

    /** The length coder at `base`; `posState` comes multiplied by 16. The result is the length less two. */
    method DecodeLength(base: nat, posState: nat, src: seq<byte>, ghost ls: LenSource, ghost ctx: Ctx) returns (len: nat)
      requires HasModel() && base == LenRegion(Decoder, ls) && ctx.posState < 16 && posState == 16 * ctx.posState
      requires Fits(AtLenChoice(ls), ctx, src)
      modifies `range, `code, `buf, `model, probs
      ensures HasModel() && len + 2 <= 273
      ensures Rest(AfterLength(ls, len + 2), ctx, src) == old(Rest(AtLenChoice(ls), ctx, src))
    {
      hide Pow2, DecodeFrom, Holds, ValidCell, Index, TreeAt, TreeEnd, AfterLength, Start;
      LenCells(Decoder, cfg.props, ls, ctx);
      var bit := Bit(base, src, AtLenChoice(ls), ctx);
      if !bit {
        LenTreeAt(Decoder, cfg.props, ls, Low, ctx);
        len := DecodeTree(base + posState, 3, src, AtLenTree(ls, Low, 3, 1), ctx);
        TreeLimits();
        LenTreeEnds(ls, len);
        len := len - 8;
      } else {
        bit := Bit(base + 8, src, AtLenChoice2(ls), ctx);
        if !bit {
          LenTreeAt(Decoder, cfg.props, ls, Mid, ctx);
          len := DecodeTree(base + posState + 8, 3, src, AtLenTree(ls, Mid, 3, 1), ctx);
          TreeLimits();
          LenTreeEnds(ls, len);
        } else {
          LenTreeAt(Decoder, cfg.props, ls, High, ctx);
          len := DecodeTree(base + 256, 8, src, AtLenTree(ls, High, 8, 1), ctx);
          TreeLimits();
          LenTreeEnds(ls, len);
          len := len - 0x100 + 16;
        }
      }
    }

    /** `REV_BIT`: a reverse tree, its nodes numbered by place value from `first` on. */
    method DecodeReverse(start: nat, first: nat, numBits: nat, src: seq<byte>, ghost p: Phase, ghost ctx: Ctx) returns (i: nat)
      requires HasModel() && InReverse(p) && p == AtDepth(p, 0, 0) && numBits == ReverseBits(p)
      requires start + first == ReverseBase(Decoder, p)
      requires Fits(p, ctx, src)
      modifies `range, `code, `buf, `model, probs
      ensures HasModel() && first <= i < first + Pow2(numBits)
      ensures Rest(ReverseEnd(p, i - first), ctx, src) == old(Rest(p, ctx, src))
    {
      hide DecodeFrom, Holds, ValidCell, Index, ReverseBase, Start, ReverseEnd, AtDepth;
      var m, left := 1, numBits;
      ghost var k: nat, low: nat := 0, 0;
      ReverseHasBits(p);
      assert Pow2(0) == 1;
      hide Pow2;
      i := first + 1;
      while left > 0
        invariant HasModel() && k + left == numBits && m == Pow2(k) && low < m && i == first + m + low
        invariant Rest(if left > 0 then AtDepth(p, k, low) else ReverseEnd(p, low), ctx, src) == old(Rest(p, ctx, src))
      {
        ReverseCell(cfg.props, p, ctx, k, low);
        var bit := Bit(start + i, src, AtDepth(p, k, low), ctx);
        ReverseAdvance(p, ctx, k, low, bit);
        Pow2Step(k);
        if !bit {
          i := i + m;
          m := m + m;
        } else {
          low := low + m;
          m := m + m;
          i := i + m;
        }
        k, left := k + 1, left - 1;
      }
      i := i - m;
    }

    /** The direct bits; the sign of the difference decides, and a mask undoes it. */
    method DecodeDirectBits(numDirectBits: nat, distance: nat, src: seq<byte>, ghost len: nat, ghost ctx: Ctx) returns (r: nat)
      requires HasModel() && 1 <= numDirectBits <= 26 && distance < Pow2(28 - numDirectBits)
      requires Fits(AtDirect(len, numDirectBits, distance), ctx, src)
      modifies `range, `code, `buf
      ensures HasModel() && r < 0x1000_0000
      ensures Rest(AtAlign(len, r, 0, 0), ctx, src) == old(Rest(AtDirect(len, numDirectBits, distance), ctx, src))
    {
      hide Pow2, DecodeFrom, Holds;
      r := distance;
      var left := numDirectBits;
      while left > 0
        invariant HasModel() && 0 <= left <= numDirectBits
        invariant left > 0 ==> r < Pow2(28 - left)
        invariant left == 0 ==> r < 0x1000_0000
        invariant Rest(if left > 0 then AtDirect(len, left, r) else AtAlign(len, r, 0, 0), ctx, src)
                  == old(Rest(AtDirect(len, numDirectBits, distance), ctx, src))
      {
        DirectNext(left, r, false);
        DirectNext(left, r, true);
        var bit := DirectBit(src, AtDirect(len, left, r), ctx);
        DirectAdvance(len, left, r, ctx, bit);
        r := 2 * r + (if bit then 1 else 0);
        left := left - 1;
      }
    }

    method DirectBit(src: seq<byte>, ghost p: Phase, ghost ctx: Ctx) returns (bit: bool)
      requires HasModel() && p.AtDirect? && Fits(p, ctx, src)
      modifies `range, `code, `buf
      ensures HasModel()
      ensures Rest(Advance(p, ctx, bit), ctx, src) == old(Rest(p, ctx, src))
    {
      hide TossDirect, Holds;
      ReadsForward(p, ctx, Coder(), model, src);
      Normalize(src);
      bit := DirectToss();
    }

    method DirectToss() returns (bit: bool)
      modifies `range, `code
      ensures (bit, Coder()) == TossDirect(old(Coder()))
    {
      range := range / 2;
      ghost var before := code;
      code := (code - range) % 0x1_0000_0000;
      MaskedSubtraction(before, range);
      bit := code < 0x8000_0000;
      code := (code + (if bit then 0 else range)) % 0x1_0000_0000;
    }

    /** The distance of a match less one, from its slot on. */
    method DecodeDistance(len: nat, src: seq<byte>, ghost ctx: Ctx) returns (distance: nat)
      requires HasModel() && 2 <= len <= 273
      requires Fits(AtSlot(len, 6, 1), ctx, src)
      modifies `range, `code, `buf, `model, probs
      ensures HasModel() && distance < 0x1_0000_0000
      ensures Rest(Done(Match(len, distance)), ctx, src) == old(Rest(AtSlot(len, 6, 1), ctx, src))
    {
      hide Pow2, DecodeFrom, Holds, TreeAt, TreeEnd, AfterSlot, Start, ReverseEnd, ReverseBase, SpecBase;
      SlotCells(Decoder, cfg.props, len, ctx);
      distance := DecodeTree(Start(Decoder, 10) + 64 * LenState(len), 6, src, AtSlot(len, 6, 1), ctx);
      TreeLimits();
      SlotTreeEnds(len, distance);
      distance := distance - 0x40;
      FooterOf(len, distance);
      if distance >= 4 {
        var posSlot, numDirectBits := distance, distance / 2 - 1;
        if posSlot < 14 {
          distance := SpecBase(posSlot);
          distance := DecodeReverse(0, distance, numDirectBits, src, AtSpec(len, posSlot, 0, 0), ctx);
          SpecEnds(len, posSlot, distance - SpecBase(posSlot));
        } else {
          distance := DecodeDirectBits(numDirectBits - 4, 2 + posSlot % 2, src, len, ctx);
          AlignEnds(len, distance, 0);
          var i := DecodeReverse(Start(Decoder, 5), 0, 4, src, AtAlign(len, distance, 0, 0), ctx);
          AlignEnds(len, distance, i);
          AlignLimit();
          distance := 16 * distance + i;
        }
      }
    }

    // ---------- The dictionary ----------

    /** The dictionary holds what was produced, and the counters agree with it. */
    ghost predicate Dict()
      reads this`dicPos, this`processedPos, this`out, dic
    {
      && DicHolds(dic[..], dicPos, out)
      && (cfg.dicSize <= dic.Length || dicPos == |out|)
      && Wraps(processedPos, |out|)
    }

    /** The machine that the fields describe. */
    ghost function State(): Machine
      reads this
    {
      Machine(state, reps, out)
    }

    /** A byte `dist` back: `dic[dicPos - rep0 + (dicPos < rep0 ? dicBufSize : 0)]`. */
    method ByteBack(dist: nat) returns (b: byte)
      requires Dict() && 1 <= dist <= |out| && dist <= cfg.dicSize
      ensures b == out[|out| - dist]
    {
      HeldBack(dic[..], dicPos, out, dist);
      hide DicHolds, Wraps;
      b := dic[if dicPos < dist then dicPos - dist + dic.Length else dicPos - dist];
    }

    /** One byte more. */
    method PutByte(b: byte)
      requires Dict() && dicPos < dic.Length
      modifies `dicPos, `processedPos, `out, dic
      ensures Dict() && out == old(out) + [b] && dicPos == old(dicPos) + 1
    {
      DicHoldsMore(dic[..], dicPos, out, b);
      WrapsMore(processedPos, |out|);
      hide DicHolds, Wraps;
      ghost var next := dic[..][dicPos := b];
      dic[dicPos] := b;
      assert dic[..] == next;
      dicPos := dicPos + 1;
      processedPos := (processedPos + 1) % 0x1_0000_0000;
      out := out + [b];
    }

    /** Copies `curLen` bytes from `reps.r0` back, in a straight line or round the end of the buffer. */
    method CopyBytes(curLen: nat)
      requires Dict() && 1 <= reps.r0 <= |out| && reps.r0 <= cfg.dicSize
      requires dicPos + curLen <= dic.Length
      modifies `dicPos, `processedPos, `out, dic
      ensures Dict() && out == Copy(old(out), reps.r0, curLen) && dicPos == old(dicPos) + curLen
    {
      hide DicHolds, Copy, Wraps;
      DicPosFits(dic[..], dicPos, out);
      CopyNone(out, reps.r0);
      var pos := if dicPos < reps.r0 then dicPos - reps.r0 + dic.Length else dicPos - reps.r0;
      ghost var k: nat := 0;
      var straight: bool, left: nat := curLen <= dic.Length - pos, curLen;
      while left > 0
        invariant Dict() && k + left == curLen && dicPos == old(dicPos) + k
        invariant out == Copy(old(out), reps.r0, k)
        invariant straight ==> pos + left <= dic.Length
        invariant left > 0 ==> pos == Back(dic.Length, dicPos, reps.r0) < dic.Length
      {
        HeldBack(dic[..], dicPos, out, reps.r0);
        CopyOne(old(out), reps.r0, k);
        PutByte(dic[pos]);
        pos := pos + 1;
        if !straight && pos == dic.Length { pos := 0; }
        k, left := k + 1, left - 1;
      }
    }

    // ---------- One symbol ----------

    /** `checkDicSize` is 0 for as long as the dictionary size may still be out of reach. */
    ghost predicate Counted()
      reads this`checkDicSize, this`out
    {
      InReach(|out|, cfg.dicSize, checkDicSize)
    }

    ghost predicate Linked()
      reads this, probs, dic
    {
      HasModel() && state < 12 && Dict() && Counted() && RepsReach(reps, cfg.dicSize) && probs as object != dic
    }

    /** Where the literal coder of the current context lies. */
    method LiteralBase() returns (base: nat)
      requires Linked()
      ensures base == Start(Decoder, 11) + 0x300 * LitCtx(cfg.props, out)
    {
      hide DicHolds, Holds, LitCtx, LiteralOffset, Start, RepsReach, Wraps, InReach;
      base := Start(Decoder, 11);
      CountersShow(|out|, cfg.dicSize, processedPos, checkDicSize);
      if processedPos != 0 || checkDicSize != 0 {
        var prev := ByteBack(1);
        MaskedIsLitCtx(cfg.props, out, processedPos);
        base := base + LiteralOffset(cfg.props, processedPos, prev);
      } else {
        NoLitCtx(cfg.props, out);
      }
    }

    /** A literal: the tree of its context, with the match byte when the state asks for it. */
    method DecodeLiteral(src: seq<byte>, ghost ctx: Ctx) returns (symbol: byte)
      requires Linked() && (state >= 7 ==> 1 <= reps.r0 <= |out|)
      requires ctx == CtxOf(cfg.props, State())
      requires Fits(AtLiteral(8, 1, state >= 7, ctx.matchByte), ctx, src)
      modifies `range, `code, `buf, `model, probs
      ensures HasModel()
      ensures Rest(Done(Literal(symbol)), ctx, src) == old(Rest(AtLiteral(8, 1, state >= 7, ctx.matchByte), ctx, src))
    {
      hide Holds, DecodeFrom, Pow2, DicHolds, LitCtx, Start, InReach, CtxOf, Wraps;
      CtxIs(cfg.props, State());
      var base := LiteralBase();
      if state < 7 {
        symbol := DecodePlain(base, src, ctx);
      } else {
        var matchByte := ByteBack(reps.r0);
        symbol := DecodeMatched(base, matchByte, src, ctx);
      }
    }

    /** Which of the last distances is repeated; of the last one a single byte is possible. */
    method DecodeRepKind(posState: nat, src: seq<byte>, ghost ctx: Ctx) returns (short: bool, ghost index: nat)
      requires HasModel() && ctx.state == state < 12 && ctx.posState < 16 && posState == 16 * ctx.posState
      requires Fits(AtIsRepG0, ctx, src)
      modifies `range, `code, `buf, `model, `reps, probs
      ensures HasModel() && index < 4
      ensures short ==> reps == old(reps) && Rest(Done(ShortRep), ctx, src) == old(Rest(AtIsRepG0, ctx, src))
      ensures !short ==>
        && reps == NextReps(old(reps), Rep(index, 2))
        && Rest(AtLenChoice(RepLen(index)), ctx, src) == old(Rest(AtIsRepG0, ctx, src))
    {
      hide Holds, DecodeFrom, Index, ValidCell, Pow2;
      FlagCell(Decoder, cfg.props, AtIsRepG0, ctx);
      var bit := Bit(Start(Decoder, 7) + state, src, AtIsRepG0, ctx);
      if !bit {
        FlagCell(Decoder, cfg.props, AtIsRep0Long, ctx);
        bit := Bit(Start(Decoder, 1) + posState + state, src, AtIsRep0Long, ctx);
        short, index := !bit, 0;
      } else {
        var distance;
        FlagCell(Decoder, cfg.props, AtIsRepG1, ctx);
        bit := Bit(Start(Decoder, 8) + state, src, AtIsRepG1, ctx);
        if !bit {
          distance, index := reps.r1, 1;
        } else {
          FlagCell(Decoder, cfg.props, AtIsRepG2, ctx);
          bit := Bit(Start(Decoder, 9) + state, src, AtIsRepG2, ctx);
          if !bit {
            distance, index := reps.r2, 2;
          } else {
            distance, index := reps.r3, 3;
            reps := reps.(r3 := reps.r2);
          }
          reps := reps.(r2 := reps.r1);
        }
        reps := reps.(r1 := reps.r0);
        reps := reps.(r0 := distance);
        short := false;
      }
    }

    /** What `ReadCopy` has read, as a symbol. */
    ghost predicate HasRead(short: bool, st: nat, len: nat, distance: nat, sym: Sym, m: Machine)
      reads this`reps, this`state
    {
      && state == m.state < 12
      && reps == (if sym.Match? then m.reps else NextReps(m.reps, sym))
      && (short ==> sym == ShortRep && st == NextState(state, sym))
      && (!short && st < 12 ==> sym.Rep? && sym.index < 4 && sym.len == len && 2 <= len <= 273 && st == NextState(state, sym))
      && (!short && st >= 12 ==> sym == Match(len, distance) && 2 <= len <= 273 && distance < 0x1_0000_0000 && st == 12 + state)
    }

    /**
     The bits behind the match flag. `st` is the state with 12 added for a new distance;
     a repeated distance has been moved to the front.
     */
    method ReadCopy(posState: nat, src: seq<byte>, ghost ctx: Ctx)
      returns (short: bool, st: nat, len: nat, distance: nat, ghost sym: Sym)
      requires HasModel() && ctx.state == state < 12 && ctx.posState < 16 && posState == 16 * ctx.posState
      requires Fits(AtIsRep, ctx, src)
      modifies `range, `code, `buf, `model, `reps, probs
      ensures HasModel()
      ensures Rest(Done(sym), ctx, src) == old(Rest(AtIsRep, ctx, src))
      ensures HasRead(short, st, len, distance, sym, old(State()))
    {
      hide Holds, DecodeFrom, Index, ValidCell, Pow2, Start, AfterLength;
      FlagCell(Decoder, cfg.props, AtIsRep, ctx);
      distance := 0;
      var bit := Bit(Start(Decoder, 6) + state, src, AtIsRep, ctx);
      if !bit {
        short, st := false, state + 12;
        len := DecodeLength(Start(Decoder, 3), posState, src, MatchLen, ctx);
        len := len + 2;
        AfterLengthIs(MatchLen, len);
        distance := DecodeDistance(len, src, ctx);
        sym := Match(len, distance);
      } else {
        ghost var index;
        short, index := DecodeRepKind(posState, src, ctx);
        if short {
          st, len, sym := if state < 7 then 9 else 11, 1, ShortRep;
        } else {
          st := if state < 7 then 8 else 11;
          len := DecodeLength(Start(Decoder, 2), posState, src, RepLen(index), ctx);
          len := len + 2;
          AfterLengthIs(RepLen(index), len);
          sym := Rep(index, len);
        }
      }
    }

    /** Copies a match as far as `limit` allows; what is left of it is returned. */
    method CopyMatch(len: nat, limit: nat) returns (left: nat)
      requires Dict() && 1 <= reps.r0 <= |out| && reps.r0 <= cfg.dicSize
      requires dicPos <= limit <= dic.Length
      modifies `dicPos, `processedPos, `out, dic
      ensures Dict() && dicPos == old(dicPos) + Min(len, limit - old(dicPos))
      ensures out == Copy(old(out), reps.r0, Min(len, limit - old(dicPos)))
      ensures left == len - Min(len, limit - old(dicPos))
    {
      hide DicHolds, Wraps, Copy;
      var rem := limit - dicPos;
      if rem == 0 {
        CopyNone(out, reps.r0);
        return len;
      }
      var curLen := if rem < len then rem else len;
      CopyBytes(curLen);
      left := len - curLen;
    }

    /** There is room up to `limit`, and a limit beyond the dictionary size is not passed unnoticed. */
    ghost predicate InsideLimit(limit: nat)
      reads this`dicPos, this`out, this`checkDicSize
    {
      && dicPos <= limit <= dic.Length
      && (checkDicSize == 0 ==> |out| + (limit - dicPos) <= cfg.dicSize)
    }

    /** A match at a new distance: the end mark, a distance that reaches too far, or a copy. */
    method TakeMatch(st: nat, len: nat, distance: nat, limit: nat, ghost s: Session) returns (left: nat)
      requires cfg.Valid() && Dict() && Counted() && InsideLimit(limit)
      requires Sound(s) && s.remainLen == 0 && s.machine == State() && RepsReach(reps, cfg.dicSize)
      requires 2 <= len <= 273 && distance < 0x1_0000_0000 && st == 12 + state < 24
      modifies `state, `reps, `dicPos, `processedPos, `out, dic
      ensures Dict() && Counted() && InsideLimit(limit) && |out| - |old(out)| == dicPos - old(dicPos) >= 0
      ensures Took(cfg, s, Match(len, distance), |old(out)| + (limit - old(dicPos)), State(), left)
      ensures left < 512 ==> RepsReach(reps, cfg.dicSize) && state < 12
    {
      hide DicHolds, Wraps, Copy, Sound, InReach, CopiesSome;
      ghost var total := |out| + (limit - dicPos);
      CountersShow(|out|, cfg.dicSize, processedPos, checkDicSize);
      TakeMatchIs(cfg, s, len, distance, total);
      hide Take;
      if distance == 0xFFFF_FFFF {
        return 274;
      }
      reps := reps.(r3 := reps.r2);
      reps := reps.(r2 := reps.r1);
      reps := reps.(r1 := reps.r0);
      reps := reps.(r0 := distance + 1);
      state := if st < 12 + 7 then 7 else 10;
      if distance >= (if checkDicSize == 0 then processedPos else checkDicSize) {
        return len + 512;
      }
      InReachMore(|out|, |out| + Min(len, limit - dicPos), cfg.dicSize, checkDicSize);
      left := CopyMatch(len, limit);
    }

    /**
     The effect of a copying symbol. The result is the number of bytes still to be copied,
     274 for the end mark, and 512 or more for a distance that reaches too far back.
     */
    method TakeCopy(short: bool, st: nat, len: nat, distance: nat, limit: nat, ghost sym: Sym, ghost s: Session) returns (left: nat)
      requires cfg.Valid() && Dict() && Counted() && InsideLimit(limit)
      requires Sound(s) && s.remainLen == 0 && s.machine.out == out && RepsReach(s.machine.reps, cfg.dicSize)
      requires HasRead(short, st, len, distance, sym, s.machine)
      requires IsRepSym(sym) ==> out != []
      requires dicPos < limit || sym.Match?
      modifies `state, `reps, `dicPos, `processedPos, `out, dic
      ensures Dict() && Counted() && InsideLimit(limit) && |out| - |old(out)| == dicPos - old(dicPos) >= 0
      ensures Took(cfg, s, sym, |old(out)| + (limit - old(dicPos)), State(), left)
      ensures left < 512 ==> RepsReach(reps, cfg.dicSize) && state < 12
    {
      hide DicHolds, Wraps, Copy, Sound, InReach;
      ghost var total := |out| + (limit - dicPos);
      if short {
        TakeShort(cfg, s, sym, total);
        InReachMore(|out|, |out| + 1, cfg.dicSize, checkDicSize);
        var b := ByteBack(reps.r0);
        PutByte(b);
        state, left := st, 0;
      } else if st >= 12 {
        left := TakeMatch(st, len, distance, limit, s);
      } else {
        TakeCopies(cfg, s, sym, total);
        InReachMore(|out|, |out| + Min(len, limit - dicPos), cfg.dicSize, checkDicSize);
        state := st;
        left := CopyMatch(len, limit);
      }
    }

    /** A literal is written and the state follows it. */
    method TakeLiteral(symbol: byte, limit: nat, ghost s: Session)
      requires cfg.Valid() && Dict() && Counted() && InsideLimit(limit) && dicPos < limit
      requires Sound(s) && s.remainLen == 0 && s.machine == State() && state < 12
      modifies `state, `dicPos, `processedPos, `out, dic
      ensures Dict() && Counted() && InsideLimit(limit) && |out| - |old(out)| == dicPos - old(dicPos) >= 0
      ensures Took(cfg, s, Literal(symbol), |old(out)| + (limit - old(dicPos)), State(), 0)
      ensures state < 12
    {
      hide DicHolds, Wraps, Copy, Sound, InReach;
      InReachMore(|out|, |out| + 1, cfg.dicSize, checkDicSize);
      PutByte(symbol);
      state := if state < 7 then state - (if state < 4 then state else 3) else state - (if state < 10 then 3 else 6);
    }

    /** A symbol that copies, from the bit behind the match flag on. */
    method DecodeCopy(posState: nat, limit: nat, src: seq<byte>, ghost ctx: Ctx, ghost d: Decoded, ghost s: Session) returns (len: nat)
      requires Linked() && InsideLimit(limit)
      requires Sound(s) && s.remainLen == 0 && s.machine == State()
      requires ctx.state == state && ctx.posState < 16 && posState == 16 * ctx.posState
      requires d == Rest(AtIsRep, ctx, src) && EndOf(d, src) <= |src|
      requires ValidSym(d.sym) && (IsRepSym(d.sym) ==> out != []) && (dicPos < limit || d.sym.Match?)
      modifies `range, `code, `buf, `model, `state, `reps, `dicPos, `processedPos, `out, probs, dic
      ensures Coder() == d.dec && model == d.model
      ensures Dict() && Counted() && InsideLimit(limit) && |out| - |old(out)| == dicPos - old(dicPos) >= 0
      ensures Took(cfg, s, d.sym, |old(out)| + (limit - old(dicPos)), State(), len)
      ensures len < 512 ==> Linked()
    {
      hide DicHolds, Wraps, InReach, DecodeFrom, Holds, Took, RepsReach, Sound, EndOf;
      var short, st, len0, distance;
      ghost var sym;
      short, st, len0, distance, sym := ReadCopy(posState, src, ctx);
      DoneIs(sym, ctx, Coder(), model, src);
      hide HasRead;
      len := TakeCopy(short, st, len0, distance, limit, sym, s);
    }

    /** One pass of the decoding loop: one symbol is read and takes effect. */
    method DecodeOne(limit: nat, src: seq<byte>, ghost ctx: Ctx, ghost d: Decoded, ghost s: Session) returns (len: nat)
      requires Linked() && InsideLimit(limit)
      requires Sound(s) && s.remainLen == 0 && s.machine == State() && ctx == CtxOf(cfg.props, State())
      requires d == Rest(AtIsMatch, ctx, src) && EndOf(d, src) <= |src|
      requires ValidSym(d.sym) && (IsRepSym(d.sym) ==> out != []) && (dicPos < limit || d.sym.Match?)
      modifies `range, `code, `buf, `model, `state, `reps, `dicPos, `processedPos, `out, probs, dic
      ensures Coder() == d.dec && model == d.model
      ensures Dict() && Counted() && InsideLimit(limit) && |out| - |old(out)| == dicPos - old(dicPos) >= 0
      ensures Took(cfg, s, d.sym, |old(out)| + (limit - old(dicPos)), State(), len)
      ensures len < 512 ==> Linked()
    {
      hide DicHolds, Wraps, Copy, InReach, DecodeFrom, Holds, CtxOf, Took, ValidCell, Index, RepsReach, InsideLimit, Sound, EndOf;
      SoundReaches(s);
      CtxIs(cfg.props, State());
      PosStateIs(cfg.props, State(), processedPos);
      FlagCell(Decoder, cfg.props, AtIsMatch, ctx);
      var posState := 16 * (processedPos % Pow2(cfg.props.pb));
      hide Pow2;
      var bit := Bit(Start(Decoder, 4) + posState + state, src, AtIsMatch, ctx);
      if !bit {
        var symbol := DecodeLiteral(src, ctx);
        DoneIs(Literal(symbol), ctx, Coder(), model, src);
        TakeLiteral(symbol, limit, s);
        len := 0;
      } else {
        len := DecodeCopy(posState, limit, src, ctx, d, s);
      }
    }

    // ---------- The decoding loop ----------

    /** The session that the fields describe. */
    ghost function Sess(): Session
      reads this
    {
      Session(State(), model, range, code, remainLen)
    }

    /** Between two passes, going on as the resumable decoder would leads to the outcome `whole`. */
    ghost predicate Running(src: seq<byte>, limit: nat, total: nat, any: bool, whole: Outcome, len: nat)
      reads this, probs, dic
    {
      && Linked() && InsideLimit(limit) && |out| + (limit - dicPos) <= total
      && var s := Settled(State(), model, Coder(), src, len);
         var pos := DecNormalize(Coder(), src).pos;
         Sound(s) && pos <= |src| && Resume(cfg, s, src, pos, total, any) == whole
    }

    /** The next pass may be made: its symbol is within the input and has room. */
    ghost predicate MayPass(src: seq<byte>, limit: nat, total: nat, any: bool)
      reads this, probs, dic
    {
      && Linked() && InsideLimit(limit)
      && var s := Settled(State(), model, Coder(), src, 0);
         && Sound(s) && |out| <= total
         && Begin(s, DecNormalize(Coder(), src).pos, total, any).Go?
         && PassFits(s, Rest(AtIsMatch, CtxOf(cfg.props, State()), src), src, |out| + (limit - dicPos), total)
    }

    /** How the resumable decoder would go on after a pass that left `len`. */
    ghost predicate Passed(src: seq<byte>, limit: nat, total: nat, any: bool, whole: Outcome, len: nat)
      reads this, probs, dic
    {
      if len < 512 then Running(src, limit, total, any, whole, len) && len <= 274 && (0 < len < 274 ==> dicPos == limit)
      else whole == Outcome(SzErrorData, NotSpecified, Settled(State(), model, Coder(), src, 512), [], DecNormalize(Coder(), src).pos)
    }

    /** Where the next symbol ends. */
    ghost predicate EndsAt(src: seq<byte>, end: nat)
      reads this, probs, dic
    {
      (state >= 7 ==> 1 <= reps.r0 <= |out|) && cfg.Valid()
      && end == EndOf(Rest(AtIsMatch, CtxOf(cfg.props, State()), src), src)
    }

    /**
     One pass of the decoding loop is one step of the resumable decoder. It may see the
     bytes `src` only, where the resumable decoder is given `all`.
     */
    method DecodePass(limit: nat, src: seq<byte>, ghost all: seq<byte>, ghost total: nat,
                      ghost any: bool, ghost whole: Outcome, ghost end: nat)
      returns (len: nat)
      requires Running(all, limit, total, any, whole, 0) && MayPass(all, limit, total, any) && EndsAt(all, end)
      requires src <= all && end <= |src|
      modifies `range, `code, `buf, `model, `state, `reps, `dicPos, `processedPos, `out, probs, dic
      ensures Passed(all, limit, total, any, whole, len)
      ensures Dict() && Counted() && InsideLimit(limit) && |out| - |old(out)| == dicPos - old(dicPos) >= 0
      ensures |out| > |old(out)| || len > 0
      ensures old(buf) <= buf
      ensures DecNormalize(Coder(), all).pos == end
    {
      hide DicHolds, Wraps, InReach, DecodeFrom, Holds, RepsReach, Sound, DecNormalize, CtxOf, Begin, Resume, Take, ValidSym;
      ghost var s := Settled(State(), model, Coder(), all, 0);
      SoundReaches(s);
      ghost var ctx := CtxOf(cfg.props, State());
      ghost var d := Rest(AtIsMatch, ctx, all);
      ghost var cut := |out| + (limit - dicPos);
      ReadsForward(AtIsMatch, ctx, Coder(), model, all);
      ResumeStep(cfg, State(), model, Coder(), all, cut, total, any);
      TakeFills(cfg, s, d.sym, cut);
      PrefixReads(s, ctx, Coder(), src, all);
      len := DecodeOne(limit, src, ctx, d, s);
    }

    /** The loop is over, the coder is normalized, and the resumable decoder would go on from here. */
    ghost predicate Over(all: seq<byte>, total: nat, any: bool, whole: Outcome, ok: bool)
      reads this, probs, dic
    {
      && buf <= |all| && |out| <= total
      && if ok then Linked() && Sound(Sess()) && Resume(cfg, Sess(), all, buf, total, any) == whole
         else remainLen >= 512 && whole == Outcome(SzErrorData, NotSpecified, Sess().(remainLen := 512), [], buf)
    }

    /**
     `LZMA_DECODE_REAL`: one symbol in any case, and more for as long as there is room and
     the input holds more than the longest symbol can take.
     */
    method DecodeReal(limit: nat, bufLimit: nat, src: seq<byte>, ghost all: seq<byte>,
                      ghost total: nat, ghost any: bool, ghost whole: Outcome, ghost end: nat)
      returns (ok: bool)
      requires Running(all, limit, total, any, whole, 0) && MayPass(all, limit, total, any) && EndsAt(all, end)
      requires src <= all && end <= |src| && (bufLimit <= buf || bufLimit + 20 <= |src|)
      modifies `range, `code, `buf, `model, `state, `reps, `remainLen, `dicPos, `processedPos, `out, probs, dic
      ensures Over(all, total, any, whole, ok)
      ensures Dict() && Counted() && InsideLimit(limit) && |out| - |old(out)| == dicPos - old(dicPos) >= 0
      ensures |out| > |old(out)| || remainLen > 0
      ensures old(buf) <= buf <= |src|
      ensures bufLimit <= old(buf) ==> buf == end
    {
      hide Dict, Counted, DecodeFrom, Holds, RepsReach, Sound, DecNormalize, CtxOf, Begin, Resume, MayPass, EndsAt, InReach;
      var len := DecodePass(limit, src, all, total, any, whole, end);
      while len == 0 && dicPos < limit && buf < bufLimit
        invariant Passed(all, limit, total, any, whole, len)
        invariant Dict() && Counted() && InsideLimit(limit) && |out| - |old(out)| == dicPos - old(dicPos) >= 0
        invariant |out| > |old(out)| || len > 0
        invariant old(buf) <= buf && DecNormalize(Coder(), all).pos <= |src|
        invariant bufLimit <= old(buf) ==> DecNormalize(Coder(), all).pos == end
        invariant |out| + (limit - dicPos) <= total
        decreases limit - dicPos, len == 0
      {
        ghost var end1 := AnotherPass(all, limit, total, any, whole, bufLimit);
        len := DecodePass(limit, src, all, total, any, whole, end1);
      }
      NormalizePos(Coder(), all);
      NormalizeBoth(Coder(), src, all);
      Normalize(src);
      remainLen := len;
      ok := len < 512;
    }

    /** A pass may follow when there is room and the input is not nearly used up. */
    lemma AnotherPass(src: seq<byte>, limit: nat, total: nat, any: bool, whole: Outcome, bufLimit: nat) returns (end: nat)
      requires Passed(src, limit, total, any, whole, 0)
      requires dicPos < limit && buf < bufLimit && bufLimit + 20 <= |src|
      ensures Running(src, limit, total, any, whole, 0) && MayPass(src, limit, total, any) && EndsAt(src, end)
      ensures end <= bufLimit + 20
    {
      hide DicHolds, Wraps, InReach, DecodeFrom, Holds, RepsReach, CtxOf, Begin, Resume, ValidSym;
      var s, n := Settled(State(), model, Coder(), src, 0), DecNormalize(Coder(), src);
      SoundReaches(s);
      NormalizeFirst(AtIsMatch, CtxOf(cfg.props, State()), Coder(), model, src);
      NextIsUsable(cfg, s, src, n.pos);
      BeginSettled(s, n.pos, total, any);
      end := EndOf(Rest(AtIsMatch, CtxOf(cfg.props, State()), src), src);
    }

    // ---------- The resumable decoder ----------

    ghost function Temp(): seq<byte>
      reads this`tempBufSize, tempBuf
    {
      if tempBufSize <= tempBuf.Length then tempBuf[..tempBufSize] else []
    }

    /** The decoder as the reader of the specification. */
    ghost function AsReader(): Reader
      reads this, tempBuf
    {
      if remainLen == 276 then Fresh(Temp()) else Reading(Sess(), Temp())
    }

    ghost predicate Apart() {
      probs as object != dic && probs as object != tempBuf && tempBuf != dic
    }

    /** Between symbols. `checkDicSize` is set as soon as the dictionary size is reached. */
    ghost predicate Ready()
      reads this, probs, dic
    {
      Linked() && Sound(Sess()) && (checkDicSize == 0 ==> |out| < cfg.dicSize)
    }

    ghost predicate Valid()
      reads this, probs, dic, tempBuf
    {
      && cfg.Valid() && Apart() && tempBuf.Length == 20 && tempBufSize <= 20
      && probs.Length == NumProbs(Decoder, cfg.props)
      && Dict()
      && (remainLen == 276 || remainLen == 512 || Ready())
      && (remainLen == 276 ==> out == [] && checkDicSize == 0 && tempBufSize <= 5)
    }

    /** Copies byte after byte, each from `reps.r0` back. */
    method CopyEach(n: nat)
      requires Dict() && 1 <= reps.r0 <= |out| && reps.r0 <= cfg.dicSize && dicPos + n <= dic.Length
      modifies `dicPos, `processedPos, `out, dic
      ensures Dict() && out == Copy(old(out), reps.r0, n) && dicPos == old(dicPos) + n
    {
      CopyNone(out, reps.r0);
      hide DicHolds, Copy, Wraps;
      var k: nat := 0;
      while k < n
        invariant Dict() && k <= n && dicPos == old(dicPos) + k
        invariant out == Copy(old(out), reps.r0, k)
      {
        CopyOne(old(out), reps.r0, k);
        var b := ByteBack(reps.r0);
        PutByte(b);
        k := k + 1;
      }
    }

    /** `LzmaDec_WriteRem` */
    method WriteRemainder(limit: nat)
      requires Ready() && remainLen < 274 && dicPos <= limit <= dic.Length
      modifies `remainLen, `dicPos, `processedPos, `checkDicSize, `out, dic
      ensures Ready() && Sess() == WriteRem(old(Sess()), |old(out)| + (limit - old(dicPos)))
      ensures |out| - |old(out)| == dicPos - old(dicPos) >= 0 && dicPos <= limit
    {
      hide DicHolds, Copy, Wraps, Holds;
      if remainLen == 0 { return; }
      var len := remainLen;
      var rem := limit - dicPos;
      CopyNone(out, reps.r0);
      if rem < len {
        len := rem;
        if len == 0 { return; }
      }
      CounterIsLength(processedPos, |out|, cfg.dicSize, checkDicSize);
      if checkDicSize == 0 && cfg.dicSize - processedPos <= len {
        checkDicSize := cfg.dicSize;
      }
      remainLen := remainLen - len;
      CopyEach(len);
    }

    /** `LzmaDec_DecodeReal2`: keeps `checkDicSize` exact by stopping at the dictionary size. */
    method DecodeReal2(limit: nat, bufLimit: nat, src: seq<byte>, ghost all: seq<byte>,
                       ghost total: nat, ghost any: bool, ghost whole: Outcome, ghost end: nat)
      returns (ok: bool)
      requires Ready() && remainLen == 0 && dicPos <= limit <= dic.Length && total == |out| + (limit - dicPos)
      requires src <= all && end <= |src| && buf <= |src| && (bufLimit <= buf || bufLimit + 20 <= |src|)
      requires EndsAt(all, end) && whole == Resume(cfg, Sess(), all, buf, total, any) && Begin(Sess(), buf, total, any).Go?
      requires dicPos < limit || Rest(AtIsMatch, CtxOf(cfg.props, State()), all).sym.Match?
      modifies `range, `code, `buf, `model, `state, `reps, `remainLen, `dicPos, `processedPos, `checkDicSize, `out, probs, dic
      ensures Over(all, total, any, whole, ok) && (ok ==> Ready() && remainLen <= 274) && Dict()
      ensures |out| - |old(out)| == dicPos - old(dicPos) >= 0 && dicPos <= limit
      ensures |out| > |old(out)| || remainLen > 0
      ensures old(buf) <= buf <= |src|
      ensures bufLimit <= old(buf) ==> buf == end
    {
      hide DicHolds, Wraps, DecodeFrom, Holds, CtxOf, Begin, Resume, RepsReach;
      var lim := limit;
      CounterIsLength(processedPos, |out|, cfg.dicSize, checkDicSize);
      if checkDicSize == 0 {
        var rem := cfg.dicSize - processedPos;
        if limit - dicPos > rem { lim := dicPos + rem; }
      }
      ok := DecodeReal(lim, bufLimit, src, all, total, any, whole, end);
      CounterReaches(processedPos, |out|, cfg.dicSize, checkDicSize);
      if checkDicSize == 0 && processedPos >= cfg.dicSize {
        checkDicSize := cfg.dicSize;
      }
    }

    /** The literal coder as the look-ahead finds it. */
    method DummyLiteralBase() returns (base: nat)
      requires Linked()
      ensures base == Start(Decoder, 11) + 0x300 * LitCtx(cfg.props, out)
    {
      hide DicHolds, Holds, LitCtx, Start, RepsReach, Wraps, InReach, Pow2;
      base := Start(Decoder, 11);
      CountersShow(|out|, cfg.dicSize, processedPos, checkDicSize);
      if checkDicSize != 0 || processedPos != 0 {
        var prev := ByteBack(1);
        PlainLitCtx(cfg.props, out, processedPos);
        base := base + 0x300 * LiteralContext(cfg.props, processedPos, prev);
      } else {
        NoLitCtx(cfg.props, out);
      }
    }

    /**
     `LzmaDec_TryDummy` on the bytes `src`: the kind of the next symbol and where it ends, or
     that it does not end there. Nothing is changed.
     */
    method TryDummy(src: seq<byte>) returns (res: Dummy, end: nat)
      requires Linked() && Sound(Sess())
      ensures var d := Next(cfg, Sess(), src, 0);
        if EndOf(d, src) > |src| then res == InputEof else res == KindOf(d.sym) && end == EndOf(d, src)
    {
      hide DicHolds, Holds, LitCtx, Start, Wraps, InReach, Pow2, RepsReach, LookFrom, DecodeFrom, CtxOf, ValidCell, Index, Sound;
      SoundReaches(Sess());
      ghost var ctx := CtxOf(cfg.props, State());
      ghost var v := View(cfg.props, ctx, model, src);
      var d0 := Dec(range, code, 0);
      CtxIs(cfg.props, State());
      PosStateIs(cfg.props, State(), processedPos);
      FlagCell(Decoder, cfg.props, AtIsMatch, ctx);
      LookaheadAgrees(AtIsMatch, ctx, d0, model, model, src);
      var posState := 16 * (processedPos % Pow2(cfg.props.pb));
      end := 0;
      var ok, bit, d1;
      ghost var sym;
      ok, bit, d1 := CheckBit(probs, Start(Decoder, 4) + posState + state, d0, src, AtIsMatch, v);
      if !ok { return InputEof, 0; }
      if !bit {
        res := DummyLit;
        ok, sym, d1 := DummyLiteral(d1, src, v);
      } else {
        ok, res, sym, d1 := CheckCopy(probs, state, posState, d1, src, v);
      }
      if !ok { return InputEof, 0; }
      LookDone(sym, d1, v);
      ok, d1 := NormalizeCheck(d1, src);
      if !ok { return InputEof, 0; }
      end := d1.pos;
    }

    method DummyLiteral(d: Dec, src: seq<byte>, ghost v: View) returns (ok: bool, ghost sym: Sym, d1: Dec)
      requires Linked() && (state >= 7 ==> 1 <= reps.r0 <= |out|)
      requires v == View(cfg.props, CtxOf(cfg.props, State()), model, src) && d.pos <= |src|
      ensures ok ==>
                sym.Literal? && d1.pos <= |src| && Onward(Done(sym), d1, v) == Onward(AtLiteral(8, 1, state >= 7, v.ctx.matchByte), d, v)
      ensures !ok ==> RunsOut(AtLiteral(8, 1, state >= 7, v.ctx.matchByte), d, v)
    {
      hide DicHolds, Holds, LitCtx, Start, Wraps, InReach, Pow2, LookFrom, CtxOf;
      CtxIs(cfg.props, State());
      var base := DummyLiteralBase();
      ghost var b: byte;
      if state < 7 {
        ok, b, d1 := CheckLiteral(probs, base, d, src, v);
      } else {
        var matchByte := ByteBack(reps.r0);
        ok, b, d1 := CheckMatched(probs, base, matchByte, d, src, v);
      }
      sym := Literal(b);
    }

    /** Appends the first `n` bytes of `src` to the first `from` bytes of the buffer. */
    method FillTemp(from: nat, src: seq<byte>, n: nat)
      requires from + n <= tempBuf.Length && n <= |src|
      modifies tempBuf
      ensures tempBuf[..from + n] == old(tempBuf[..from]) + src[..n]
    {
      var i: nat := 0;
      while i < n
        invariant i <= n && tempBuf[..from + i] == old(tempBuf[..from]) + src[..i]
      {
        tempBuf[from + i] := src[i];
        assert src[..i + 1] == src[..i] + [src[i]];
        assert tempBuf[..from + i + 1] == tempBuf[..from + i] + [src[i]];
        i := i + 1;
      }
    }

    /** What is decided before a symbol is read. */
    method BeginCall(dicLimit: nat, any: bool, ghost pos: nat) returns (stop: bool, res: Res, status: Status, check: bool)
      requires Ready() && dicPos <= dicLimit <= dic.Length
      modifies `remainLen, `dicPos, `processedPos, `checkDicSize, `out, dic
      ensures Ready() && |out| - |old(out)| == dicPos - old(dicPos) >= 0 && dicPos <= dicLimit
      ensures Begin(old(Sess()), pos, |old(out)| + (dicLimit - old(dicPos)), any) ==
              if stop then Stop(Outcome(res, status, Sess(), [], pos)) else Go(Sess(), check)
      ensures stop ==> res != SzErrorFail
    {
      hide DicHolds, Wraps, Holds, WriteRem;
      stop, res, status, check := true, SzOk, NotSpecified, false;
      if remainLen == 274 {
        if code != 0 { res := SzErrorData; return; }
        status := FinishedWithMark;
        return;
      }
      ghost var total := |out| + (dicLimit - dicPos);
      WriteRemSound(Sess(), total);
      WriteRemainder(dicLimit);
      hide Sound;
      if dicPos >= dicLimit {
        if remainLen == 0 && code == 0 { status := MaybeFinishedWithoutMark; return; }
        if any { status := NotFinished; return; }
        if remainLen != 0 { res, status := SzErrorData, NotFinished; return; }
        check := true;
      }
      stop := false;
    }

    /** A round may begin: `check` says that the output is full and only an end mark may follow. */
    ghost predicate MayBegin(dicLimit: nat, check: bool, total: nat, any: bool)
      reads this, probs, dic
    {
      && Ready() && remainLen == 0 && dicPos <= dicLimit <= dic.Length
      && total == |out| + (dicLimit - dicPos)
      && Begin(Sess(), 0, total, any) == Go(Sess(), check)
    }

    /**
     The look-ahead of a round, needed when the input may end within the symbol or only an
     end mark may follow. `dummyProcessed` is -1 when there was none. The branches that
     would report an internal failure are never taken.
     */
    method PeekSrc(check: bool, src: seq<byte>, ghost dicLimit: nat, ghost total: nat, ghost any: bool)
      returns (early: bool, res: Res, status: Status, used: nat, bufLimit: nat, dummyProcessed: int)
      requires MayBegin(dicLimit, check, total, any) && tempBuf.Length == 20 && tempBufSize == 0 && Apart()
      modifies `tempBufSize, tempBuf
      ensures early ==> tempBufSize <= 20 && used <= |src| && res != SzErrorFail
      ensures early ==> Resume(cfg, Sess(), src, 0, total, any) == Outcome(res, status, Sess(), Temp(), used)
      ensures !early ==> tempBufSize == 0 && (bufLimit == 0 || (dummyProcessed < 0 && bufLimit + 20 <= |src|))
      ensures !early ==>
        var d := Next(cfg, Sess(), src, 0);
        && EndOf(d, src) <= |src| && (dicPos < dicLimit || d.sym.Match?)
        && (dummyProcessed >= 0 ==> dummyProcessed == EndOf(d, src) && bufLimit == 0)
    {
      hide Holds, Dict, Counted, RepsReach, DecodeFrom, CtxOf, Begin, Resume, Sound, ValidSym, DecNormalize;
      ghost var d := Next(cfg, Sess(), src, 0);
      FirstStep(cfg, Sess(), check, src, total, any);
      early, res, status, used, bufLimit, dummyProcessed := false, SzOk, NotSpecified, 0, 0, -1;
      if |src| < 20 || check {
        var dummyRes, bufOut := TryDummy(src);
        if dummyRes == InputEof {
          if |src| >= 20 { assert false; }
          FillTemp(0, src, |src|);
          tempBufSize := |src|;
          early, status, used := true, NeedsMoreInput, |src|;
          return;
        }
        if bufOut > 20 { assert false; }
        if check && dummyRes != DummyMatch {
          FillTemp(0, src, bufOut);
          tempBufSize := bufOut;
          early, res, status, used := true, SzErrorData, NotFinished, bufOut;
          return;
        }
        dummyProcessed := bufOut;
      } else {
        bufLimit := |src| - 20;
      }
    }

    /** The same when some bytes are buffered: the buffer is filled up, to 20 bytes at most. */
    method PeekTemp(check: bool, src: seq<byte>, ghost dicLimit: nat, ghost total: nat, ghost any: bool)
      returns (early: bool, res: Res, status: Status, used: nat, rem: nat, dummyProcessed: int)
      requires MayBegin(dicLimit, check, total, any) && tempBuf.Length == 20 && 0 < tempBufSize <= 20 && Apart()
      requires Hungry(cfg, Sess(), Temp())
      modifies `tempBufSize, tempBuf
      ensures early ==> tempBufSize <= 20 && used <= |src| && res != SzErrorFail
      ensures early ==> Continue(cfg, Sess(), old(Temp()), src, total, any) == Answer(res, status, Reading(Sess(), Temp()), used)
      ensures !early ==> tempBufSize == old(tempBufSize) <= rem <= 20 && tempBuf[..rem] <= old(Temp()) + src
      ensures !early ==>
        var x := old(Temp()) + src;
        var d := Next(cfg, Sess(), x, 0);
        && tempBufSize <= EndOf(d, x) <= rem && (dicPos < dicLimit || d.sym.Match?)
        && (dummyProcessed >= 0 ==> dummyProcessed == EndOf(d, x))
    {
      hide Holds, Dict, Counted, RepsReach, DecodeFrom, CtxOf, Begin, Resume, Sound, ValidSym, DecNormalize, Hungry;
      ghost var x := Temp() + src;
      FirstStep(cfg, Sess(), check, x, total, any);
      var ahead: nat := if 20 - tempBufSize < |src| then 20 - tempBufSize else |src|;
      ghost var temp := Temp();
      FillTemp(tempBufSize, src, ahead);
      rem := tempBufSize + ahead;
      assert tempBuf[..rem] == x[..rem];
      TempStep(cfg, Sess(), temp, src, rem);
      ghost var end := EndOf(Next(cfg, Sess(), x, 0), x);
      early, res, status, used, dummyProcessed := false, SzOk, NotSpecified, 0, -1;
      if rem < 20 || check {
        var dummyRes, bufOut := TryDummy(tempBuf[..rem]);
        if dummyRes == InputEof {
          if rem >= 20 { assert false; }
          assert x[..rem] == x;
          tempBufSize := rem;
          early, status, used := true, NeedsMoreInput, ahead;
          return;
        }
        if bufOut < tempBufSize { assert false; }
        if check && dummyRes != DummyMatch {
          used := bufOut - tempBufSize;
          assert tempBuf[..bufOut] == tempBuf[..rem][..bufOut] == x[..end];
          tempBufSize := bufOut;
          early, res, status := true, SzErrorData, NotFinished;
          return;
        }
        dummyProcessed := bufOut;
      }
    }

    /** Where a round has left the decoder: at the end of the call, or before the rest of the input. */
    ghost predicate RoundOver(src: seq<byte>, total: nat, any: bool, whole: Answer, done: bool, res: Res, status: Status, used: nat)
      reads this, probs, dic, tempBuf
    {
      && Valid() && remainLen != 276 && res != SzErrorFail && used <= |src| && |out| <= total
      && if done then whole == Answer(res, status, AsReader(), used)
         else
           && Ready() && tempBufSize == 0
           && var a := Continue(cfg, Sess(), [], src[used..], total, any);
              whole == a.(used := used + a.used)
    }

    /** The input of a round is fit for decoding: one symbol at least, of the kind that may come. */
    ghost predicate MayDecode(input: seq<byte>, bufLimit: nat, dicLimit: nat, x: seq<byte>, end: nat)
      reads this, probs, dic
    {
      && Ready() && remainLen == 0 && input <= x && (bufLimit == 0 || bufLimit + 20 <= |input|)
      && var d := Next(cfg, Sess(), x, 0);
         end == EndOf(d, x) <= |input| && (dicPos < dicLimit || d.sym.Match?)
    }

    /** Decoding in a round, from `input`: what is buffered, `temp`, comes first, and nothing is buffered afterwards. */
    method DecodeRound(dicLimit: nat, check: bool, bufLimit: nat, input: seq<byte>, dummyProcessed: int,
                       ghost temp: seq<byte>, ghost src: seq<byte>, ghost total: nat, ghost any: bool, ghost end: nat)
      returns (done: bool, res: Res, status: Status)
      requires Valid() && MayBegin(dicLimit, check, total, any) && tempBufSize == 0
      requires MayDecode(input, bufLimit, dicLimit, temp + src, end) && |temp| <= (if bufLimit == 0 then end else 0)
      requires dummyProcessed >= 0 ==> dummyProcessed == end && bufLimit == 0
      modifies `range, `code, `buf, `model, `state, `reps, `remainLen, `dicPos, `processedPos, `checkDicSize, `out, probs, dic
      ensures |temp| <= buf <= |input|
      ensures RoundOver(src, total, any, Continue(cfg, old(Sess()), temp, src, total, any), done, res, status, buf - |temp|)
      ensures |out| - |old(out)| == dicPos - old(dicPos) >= 0 && dicPos <= dicLimit
      ensures !done ==> |out| > |old(out)| || remainLen > 0
    {
      hide Dict, Counted, Holds, DecodeFrom, CtxOf, Begin, Resume, RepsReach, Sound, ValidSym, DecNormalize, NumProbs, Wraps;
      ghost var s, x := Sess(), temp + src;
      ghost var whole := Resume(cfg, s, x, 0, total, any);
      SoundReaches(s);
      buf := 0;
      var ok := DecodeReal2(dicLimit, bufLimit, input, x, total, any, whole, end);
      if dummyProcessed >= 0 && dummyProcessed != buf { assert false; }
      done, res, status := !ok, SzOk, NotSpecified;
      if ok {
        ContinueAfter(cfg, s, temp, src, Sess(), buf, total, any);
      } else {
        res, remainLen := SzErrorData, 512;
      }
      assert Temp() == [];
    }

    /** One round of the loop of `LzmaDec_DecodeToDic` while nothing is buffered. */
    method FromSrc(dicLimit: nat, check: bool, src: seq<byte>, ghost total: nat, ghost any: bool)
      returns (done: bool, res: Res, status: Status, used: nat)
      requires Valid() && MayBegin(dicLimit, check, total, any) && tempBufSize == 0
      modifies this, probs, dic, tempBuf
      ensures RoundOver(src, total, any, Continue(cfg, old(Sess()), [], src, total, any), done, res, status, used)
      ensures |out| - |old(out)| == dicPos - old(dicPos) >= 0 && dicPos <= dicLimit
      ensures !done ==> |out| > |old(out)| || remainLen > 0
    {
      hide Dict, Counted, Holds, DecodeFrom, CtxOf, Begin, Resume, RepsReach, Sound, ValidSym, DecNormalize;
      assert [] + src == src;
      ghost var end := EndOf(Next(cfg, Sess(), [] + src, 0), [] + src);
      var bufLimit, dummyProcessed;
      done, res, status, used, bufLimit, dummyProcessed := PeekSrc(check, src, dicLimit, total, any);
      if done { return; }
      done, res, status := DecodeRound(dicLimit, check, bufLimit, src, dummyProcessed, [], src, total, any, end);
      used := buf;
    }

    /** One round from the buffered bytes: exactly one symbol, which uses them up. */
    method FromTemp(dicLimit: nat, check: bool, src: seq<byte>, ghost total: nat, ghost any: bool)
      returns (done: bool, res: Res, status: Status, used: nat)
      requires Valid() && MayBegin(dicLimit, check, total, any) && tempBufSize > 0 && Hungry(cfg, Sess(), Temp())
      modifies this, probs, dic, tempBuf
      ensures RoundOver(src, total, any, Continue(cfg, old(Sess()), old(Temp()), src, total, any), done, res, status, used)
      ensures |out| - |old(out)| == dicPos - old(dicPos) >= 0 && dicPos <= dicLimit
      ensures !done ==> |out| > |old(out)| || remainLen > 0
    {
      hide Dict, Counted, Holds, DecodeFrom, CtxOf, Begin, Resume, RepsReach, Sound, ValidSym, DecNormalize, Hungry;
      ghost var temp := Temp();
      ghost var end := EndOf(Next(cfg, Sess(), temp + src, 0), temp + src);
      var rem, dummyProcessed;
      done, res, status, used, rem, dummyProcessed := PeekTemp(check, src, dicLimit, total, any);
      if done { return; }
      var held := tempBufSize;
      tempBufSize := 0;
      done, res, status := DecodeRound(dicLimit, check, 0, tempBuf[..rem], dummyProcessed, temp, src, total, any, end);
      if buf > 20 || buf < held { assert false; }
      used := buf - held;
    }

    /** All probabilities one half, and the state of the format as it starts. */
    method InitState()
      requires cfg.Valid() && probs.Length == NumProbs(Decoder, cfg.props)
      modifies `model, `reps, `state, probs
      ensures HasModel() && model == map[] && state == START.state && reps == START.reps
    {
      hide Holds;
      var i := 0;
      while i < probs.Length
        invariant i <= probs.Length && forall j :: 0 <= j < i ==> probs[j] == 1024
      {
        probs[i] := 1024;
        i := i + 1;
      }
      reps, state := Reps(1, 1, 1, 1), 0;
      model := map[];
      HoldsInitially(Decoder, cfg.props, probs[..]);
    }

    /** The call `whole` has used `used` bytes and goes on with the rest. */
    ghost predicate GoesOn(src: seq<byte>, total: nat, any: bool, whole: Answer, used: nat)
      reads this, probs, dic, tempBuf
    {
      && Valid() && Ready() && used <= |src| && |out| <= total && Hungry(cfg, Sess(), Temp())
      && var a := Continue(cfg, Sess(), Temp(), src[used..], total, any);
         whole == a.(used := used + a.used)
    }

    /** The five bytes that start a stream: fills the buffer with them and checks them. */
    method ReadHead(src: seq<byte>) returns (stop: bool, res: Res, status: Status, used: nat)
      requires remainLen == 276 && tempBuf.Length == 20 && tempBufSize <= 5 && processedPos == 0 && checkDicSize == 0
      modifies `code, `tempBufSize, tempBuf
      ensures used == Min(5 - old(tempBufSize), |src|) && tempBufSize == old(tempBufSize) + used
      ensures Temp() == old(Temp()) + src[..used]
      ensures stop ==> res != SzErrorFail
      ensures var head := Temp();
        if head != [] && head[0] != 0 then stop && res == SzErrorData && status == NotSpecified
        else if |head| < 5 then stop && res == SzOk && status == NeedsMoreInput
        else if FreshSession(head).code >= BAD_REP_CODE then stop && res == SzErrorData && status == NotSpecified
        else !stop && code == FreshSession(head).code
    {
      stop, res, status := true, SzErrorData, NotSpecified;
      used := if 5 - tempBufSize < |src| then 5 - tempBufSize else |src|;
      FillTemp(tempBufSize, src, used);
      tempBufSize := tempBufSize + used;
      if tempBufSize != 0 && tempBuf[0] != 0 { return; }
      if tempBufSize < 5 {
        res, status := SzOk, NeedsMoreInput;
        return;
      }
      code := Code32(tempBuf[1], tempBuf[2], tempBuf[3], tempBuf[4]);
      stop := checkDicSize == 0 && processedPos == 0 && code >= BAD_REP_CODE;
    }

    /** The start of a stream, up to the decoding loop. */
    method StartStream(src: seq<byte>, ghost total: nat, ghost any: bool) returns (stop: bool, res: Res, status: Status, used: nat)
      requires Valid() && remainLen == 276 && |out| <= total
      modifies this, probs, tempBuf
      ensures Valid() && dicPos == old(dicPos) && out == old(out) && res != SzErrorFail
      ensures var whole := Chunking.DecodeToDic(cfg, old(AsReader()), src, total, any);
        if stop then whole == Answer(res, status, AsReader(), used) else GoesOn(src, total, any, whole, used)
    {
      hide Continue, Sound, Hungry, Holds, DicHolds, FreshSession, NumProbs, Wraps, Begin, Resume;
      OutIsEmpty(processedPos, out);
      ghost var temp := Temp();
      stop, res, status, used := ReadHead(src);
      if stop { return; }
      SetUp(Temp());
      res := SzOk;
      FreshHungry(cfg, Sess());
    }

    /** Starts the coder and the state on a checked head. */
    method SetUp(ghost head: seq<byte>)
      requires Valid() && remainLen == 276 && |head| == 5
      requires code == FreshSession(head).code < BAD_REP_CODE
      modifies `range, `tempBufSize, `model, `reps, `state, `remainLen, probs
      ensures Valid() && Ready() && Sess() == FreshSession(head) && Temp() == []
    {
      hide Holds, DicHolds, FreshSession, Sound;
      FreshIsSound(head);
      FreshFields(head);
      OutIsEmpty(processedPos, out);
      range := 0xFFFF_FFFF;
      tempBufSize := 0;
      InitState();
      remainLen := 0;
      assert Sess() == FreshSession(head);
      assert Temp() == [];
    }

    /** One pass of the loop of `LzmaDec_DecodeToDic`: what is left to copy, then a symbol or more. */
    method CallRound(dicLimit: nat, src: seq<byte>, any: bool, ghost total: nat, ghost whole: Answer)
      returns (done: bool, res: Res, status: Status, used: nat)
      requires dicPos <= dicLimit <= dic.Length && total == |out| + (dicLimit - dicPos)
      requires GoesOn(src, total, any, whole, 0)
      modifies this, probs, dic, tempBuf
      ensures RoundOver(src, total, any, whole, done, res, status, used)
      ensures |out| - |old(out)| == dicPos - old(dicPos) >= 0 && dicPos <= dicLimit
      ensures !done ==> |out| > |old(out)| || (old(remainLen) == 0 && remainLen > 0)
    {
      hide Dict, Counted, HasModel, RepsReach, Begin, Continue, Resume, Hungry;
      assert src[0..] == src;
      ghost var s, temp := Sess(), Temp();
      BeginFacts(s, total, any);
      var check;
      done, res, status, check := BeginCall(dicLimit, any, 0);
      AfterBegin(cfg, s, temp, src, total, any);
      used := 0;
      hide Sound;
      if done { return; }
      if tempBufSize == 0 {
        assert temp == [];
        done, res, status, used := FromSrc(dicLimit, check, src, total, any);
      } else {
        done, res, status, used := FromTemp(dicLimit, check, src, total, any);
      }
    }

    lemma RestGoesOn(src: seq<byte>, total: nat, any: bool, whole: Answer, used: nat) returns (rest: Answer)
      requires GoesOn(src, total, any, whole, used)
      ensures used <= |src| && GoesOn(src[used..], total, any, rest, 0)
      ensures whole == rest.(used := used + rest.used)
    {
      hide Continue, Hungry, Linked, Sound;
      assert src[used..][0..] == src[used..];
      rest := Continue(cfg, Sess(), Temp(), src[used..], total, any);
    }

    lemma RoundGoesOn(src: seq<byte>, total: nat, any: bool, rest: Answer, used: nat, n: nat, res: Res, status: Status)
      requires used <= |src| && RoundOver(src[used..], total, any, rest, false, res, status, n)
      ensures GoesOn(src, total, any, rest.(used := used + rest.used), used + n)
    {
      hide Continue, Sound, Linked;
      assert src[used..][n..] == src[used + n..];
      assert Temp() == [];
    }

    lemma RoundEnds(src: seq<byte>, total: nat, any: bool, rest: Answer, res: Res, status: Status, n: nat)
      requires RoundOver(src, total, any, rest, true, res, status, n)
      ensures Valid() && res != SzErrorFail && rest == Answer(res, status, AsReader(), n)
    {
    }

    /** The loop of `LzmaDec_DecodeToDic`. */
    method CallLoop(dicLimit: nat, src: seq<byte>, any: bool, start: nat, ghost total: nat, ghost whole: Answer)
      returns (res: Res, status: Status, used: nat)
      requires dicPos <= dicLimit <= dic.Length && total == |out| + (dicLimit - dicPos)
      requires GoesOn(src, total, any, whole, start)
      modifies this, probs, dic, tempBuf
      ensures Valid() && res != SzErrorFail && whole == Answer(res, status, AsReader(), used)
      ensures |out| - |old(out)| == dicPos - old(dicPos) >= 0 && dicPos <= dicLimit
    {
      hide Continue, Valid, GoesOn, RoundOver, AsReader, Temp;
      used := start;
      while true
        invariant GoesOn(src, total, any, whole, used)
        invariant |out| - |old(out)| == dicPos - old(dicPos) >= 0 && dicPos <= dicLimit
        decreases total - |out|, if remainLen == 0 then 1 else 0
      {
        var done, n;
        ghost var rest := RestGoesOn(src, total, any, whole, used);
        done, res, status, n := CallRound(dicLimit, src[used..], any, total, rest);
        if done {
          RoundEnds(src[used..], total, any, rest, res, status, n);
          used := used + n;
          return;
        }
        RoundGoesOn(src, total, any, rest, used, n, res, status);
        used := used + n;
      }
    }

    /** A call may be made: what is buffered does not hold a whole symbol and something more. */
    ghost predicate Callable()
      reads this, probs, dic, tempBuf
    {
      Valid() && Usable(cfg, AsReader(), |out|)
    }

    /**
     `LzmaDec_DecodeToDic`: does what the resumable decoder on values does, for every input,
     never reports an internal failure, and can be called again.
     */
    method DecodeToDic(dicLimit: nat, src: seq<byte>, any: bool) returns (res: Res, status: Status, used: nat)
      requires Callable() && dicPos <= dicLimit <= dic.Length
      modifies this, probs, dic, tempBuf
      ensures Callable() && res != SzErrorFail && used <= |src|
      ensures var total := |old(out)| + (dicLimit - old(dicPos));
        Usable(cfg, old(AsReader()), total) &&
        Answer(res, status, AsReader(), used) == Chunking.DecodeToDic(cfg, old(AsReader()), src, total, any)
      ensures |out| - |old(out)| == dicPos - old(dicPos) >= 0 && dicPos <= dicLimit
      ensures AsReader().Reading? ==> AsReader().session.machine.out == out
    {
      hide Continue, Linked, Sound, Hungry;
      ghost var total := |out| + (dicLimit - dicPos);
      ghost var whole := Chunking.DecodeToDic(cfg, AsReader(), src, total, any);
      DecodeToDicKeepsUsable(cfg, AsReader(), src, total, any);
      if remainLen == 512 { return SzErrorData, NotSpecified, 0; }
      used := 0;
      if remainLen == 276 {
        var stop;
        stop, res, status, used := StartStream(src, total, any);
        if stop { return; }
      } else {
        assert src[0..] == src;
      }
      hide Chunking.DecodeToDic, Valid, GoesOn;
      res, status, used := CallLoop(dicLimit, src, any, used, total, whole);
    }
  }
}
