/**
 One step of each loop of the decoder, as facts about the symbol machine: which phase the
 loop's variables stand for, and which phase the next bit leads to.
 */
module DecoderSteps {
  import opened Bytes
  import opened Powers
  import opened RangeCoder
  import opened Symbols
  import opened SymbolCoder
  import opened SymbolBounds
  import opened Lookahead
  import opened Layout
  import opened Masks
  import opened Cells
  import opened Lz
  import opened Decoder
  import opened Chunking

  /** Before its end, a symbol has not read further than at its end. */
  lemma {:induction false} ReadsForward(p: Phase, ctx: Ctx, d: Dec, m: Model, s: seq<byte>)
    ensures DecodeFrom(p, ctx, d, m, s).dec.pos >= d.pos
    ensures !p.Done? ==> DecNormalize(d, s).pos <= DecodeFrom(p, ctx, d, m, s).dec.pos
    decreases Stage(p), Left(p)
  {
    hide Advance, ModelAfter, Toss, TossDirect;
    if !p.Done? {
      var (bit, d1) := AnswerAt(p, ctx, d, m, s);
      AnswerForward(p, ctx, d, m, s);
      AdvanceDescends(p, ctx, bit);
      ReadsForward(Advance(p, ctx, bit), ctx, d1, ModelAfter(p, ctx, m, bit), s);
    }
  }

  lemma AnswerForward(p: Phase, ctx: Ctx, d: Dec, m: Model, s: seq<byte>)
    requires !p.Done?
    ensures AnswerAt(p, ctx, d, m, s).1.pos == DecNormalize(d, s).pos >= d.pos
  {
  }

  lemma TreeAdvance(p: Phase, ctx: Ctx, left: nat, node: nat, bit: bool)
    requires InTree(p) && left >= 1
    ensures Advance(AtNode(p, left, node), ctx, bit) ==
            (if left == 1 then TreeEnd(p, 2 * node + B(bit)) else AtNode(p, left - 1, 2 * node + B(bit)))
  {
    hide AfterSlot, AfterLength;
  }

  lemma CellInTree(side: Side, props: Props, base: nat, bits: nat, p: Phase, ctx: Ctx, left: nat, node: nat)
    requires InTree(p) && TreeAt(side, props, base, bits, p, ctx) && 1 <= node < Pow2(bits)
    ensures var q := Query(AtNode(p, left, node), ctx);
      !AtNode(p, left, node).Done? && q.Model? && ValidCell(props, q.cell) && Index(side, props, q.cell) == base + node
  {
    NodeQuery(p, ctx, left, node);
    assert NodeAt(side, props, base, p, ctx, node);
    hide Pow2, ValidCell, Index;
  }

  /** The node of a tree with `left` levels to go, as the loop's guard sees it. */
  ghost predicate NodeVars(bits: nat, left: nat, node: nat) {
    && left <= bits
    && Pow2(bits - left) <= node < 2 * Pow2(bits - left)
    && (node < Pow2(bits) <==> left > 0)
  }

  lemma NodeStart(bits: nat)
    requires 1 <= bits
    ensures NodeVars(bits, bits, 1)
  {
    assert Pow2(0) == 1;
    Pow2Monotone(1, bits);
  }

  lemma NodeStep(bits: nat, left: nat, node: nat)
    requires NodeVars(bits, left, node) && left > 0
    ensures 1 <= node < Pow2(bits)
    ensures NodeVars(bits, left - 1, 2 * node) && NodeVars(bits, left - 1, 2 * node + 1)
  {
    Pow2Step(bits - left);
    if left > 1 {
      Pow2Monotone(bits - left + 2, bits);
      Pow2Step(bits - left + 1);
    }
  }

  lemma NodeGuard(bits: nat, left: nat, node: nat)
    requires NodeVars(bits, left, node)
    ensures left <= bits && (node < Pow2(bits) <==> left > 0)
  {
  }

  lemma LiteralGuard(left: nat, node: nat)
    requires NodeVars(8, left, node)
    ensures left <= 8 && (node < 0x100 <==> left > 0)
    ensures left == 0 ==> 0x100 <= node < 0x200
    ensures left > 0 ==> 1 <= node < 0x100
  {
    assert Pow2(8) == 0x100;
    if left > 0 { NodeStep(8, left, node); }
  }

  lemma NodeEnd(bits: nat, node: nat)
    requires NodeVars(bits, 0, node)
    ensures Pow2(bits) <= node < 2 * Pow2(bits)
  {
  }

  lemma HoldsAt(props: Props, probs: seq<Prob>, m: Model, c: Cell)
    requires Holds(Decoder, props, probs, m) && ValidCell(props, c)
    ensures |probs| == NumProbs(Decoder, props) && probs[Index(Decoder, props, c)] == Get(m, c)
  {
  }

  // ---------- Matched literals ----------

  /** The phase of the loop over a matched literal, from its variables. */
  function MatchedAt(left: nat, symbol: nat, offs: nat, mb: nat): Phase {
    if left == 0 then Done(Literal(symbol % 0x100)) else AtLiteral(left, symbol, offs == 0x100, mb % 0x100)
  }

  /** `offs` after a bit; `masked` is `offs & matchByte`. */
  function NextOffs(offs: nat, masked: nat, bit: bool): nat {
    if bit then masked else if masked == offs then 0 else offs
  }

  lemma MatchedAdvance(ctx: Ctx, left: nat, symbol: nat, offs: nat, mb: nat, bit: bool)
    requires 1 <= left <= 8 && (offs == 0x100 || offs == 0)
    ensures var next := NextOffs(offs, And100(2 * mb, offs), bit);
      && (next == 0x100 || next == 0)
      && Advance(MatchedAt(left, symbol, offs, mb), ctx, bit) == MatchedAt(left - 1, 2 * symbol + B(bit), next, 2 * mb)
  {
    MatchByteStep(mb);
    hide Bit8;
  }

  lemma MatchedCell(props: Props, ctx: Ctx, left: nat, node: nat, mb: nat, offs: nat)
    requires 1 <= node < 0x100 && ctx.litCtx < Pow2(props.lc + props.lp) && (offs == 0x100 || offs == 0)
    ensures var q := Query(AtLiteral(left, node, offs == 0x100, mb % 0x100), ctx);
      q.Model? && ValidCell(props, q.cell)
      && Index(Decoder, props, q.cell) == Start(Decoder, 11) + 0x300 * ctx.litCtx + And100(2 * mb, offs) + offs + node
  {
    MatchByteStep(mb);
    LiteralCell(Decoder, props, ctx, left, node, offs == 0x100, mb % 0x100);
    hide ValidCell, Index, Bit8, Pow2;
  }

  // ---------- Reverse trees ----------

  lemma ReverseAdvance(p: Phase, ctx: Ctx, k: nat, low: nat, bit: bool)
    requires InReverse(p) && k < ReverseBits(p) && low < Pow2(k)
    ensures low + B(bit) * Pow2(k) < Pow2(k + 1)
    ensures Advance(AtDepth(p, k, low), ctx, bit) ==
            (if k + 1 == ReverseBits(p) then ReverseEnd(p, low + B(bit) * Pow2(k))
             else AtDepth(p, k + 1, low + B(bit) * Pow2(k)))
  {
  }

  lemma ReverseCell(props: Props, p: Phase, ctx: Ctx, k: nat, low: nat)
    requires InReverse(p) && k < ReverseBits(p) && low < Pow2(k)
    ensures !AtDepth(p, k, low).Done?
    ensures var q := Query(AtDepth(p, k, low), ctx);
      && q.Model? && ValidCell(props, q.cell)
      && Index(Decoder, props, q.cell) == ReverseBase(Decoder, p) + Pow2(k) + low
  {
    ReverseCells(Decoder, props, p, ctx, k, low);
    hide ValidCell, Index, Pow2;
  }

  // ---------- Lengths and distances ----------

  lemma LenTreeEnds(src: LenSource, i: nat)
    ensures 8 <= i < 0x10 ==> TreeEnd(AtLenTree(src, Low, 3, 1), i) == AfterLength(src, i - 8 + 2)
    ensures 8 <= i < 0x10 ==> TreeEnd(AtLenTree(src, Mid, 3, 1), i) == AfterLength(src, i + 2)
    ensures 0x100 <= i < 0x200 ==> TreeEnd(AtLenTree(src, High, 8, 1), i) == AfterLength(src, i - 0x100 + 16 + 2)
  {
    hide AfterLength;
  }

  lemma AfterLengthIs(src: LenSource, len: nat)
    ensures AfterLength(src, len) == (if src.MatchLen? then AtSlot(len, 6, 1) else Done(Rep(src.index, len)))
  {
  }

  lemma TreeLimits()
    ensures Pow2(3) == 8 && Pow2(6) == 0x40 && Pow2(8) == 0x100
  {
    SmallPowers();
  }

  lemma ReverseHasBits(p: Phase)
    requires InReverse(p)
    ensures ReverseBits(p) > 0
  {
  }

  lemma SlotTreeEnds(len: nat, i: nat)
    ensures 0x40 <= i < 0x80 ==> TreeEnd(AtSlot(len, 6, 1), i) == AfterSlot(len, i - 0x40)
  {
    hide AfterSlot;
  }

  lemma DirectAdvance(len: nat, left: nat, acc: nat, ctx: Ctx, bit: bool)
    requires left >= 1
    ensures Advance(AtDirect(len, left, acc), ctx, bit) ==
            (if left == 1 then AtAlign(len, 2 * acc + B(bit), 0, 0) else AtDirect(len, left - 1, 2 * acc + B(bit)))
  {
  }

  /** Undoing the subtraction with a mask is not subtracting at all. */
  lemma MaskedSubtraction(code: u32, half: u32)
    ensures ((code - half) % 0x1_0000_0000 + half) % 0x1_0000_0000 == code
  {
  }

  /** What follows a slot, and where its footer starts. */
  lemma FooterOf(len: nat, slot: nat)
    requires slot < 64
    ensures slot < 4 ==> AfterSlot(len, slot) == Done(Match(len, slot))
    ensures 4 <= slot < 14 ==>
      && AfterSlot(len, slot) == AtSpec(len, slot, 0, 0)
      && SpecBase(slot) + Pow2(FooterBits(slot)) <= 0x80
      && ReverseBase(Decoder, AtSpec(len, slot, 0, 0)) == SpecBase(slot)
    ensures slot >= 14 ==>
      && AfterSlot(len, slot) == AtDirect(len, slot / 2 - 5, 2 + slot % 2)
      && 2 + slot % 2 < Pow2(28 - (slot / 2 - 5))
  {
    if 4 <= slot < 14 { SpecBases(slot); }
    if slot >= 14 {
      assert Pow2(2) == 4;
      Pow2Monotone(2, 28 - (slot / 2 - 5));
    }
  }

  lemma SpecEnds(len: nat, slot: nat, low: nat)
    requires 4 <= slot < 14
    ensures ReverseEnd(AtSpec(len, slot, 0, 0), low) == Done(Match(len, SpecBase(slot) + low))
  {
  }

  lemma AlignLimit()
    ensures Pow2(4) == 16
  {
  }

  lemma AlignEnds(len: nat, hi: nat, low: nat)
    ensures ReverseEnd(AtAlign(len, hi, 0, 0), low) == Done(Match(len, 16 * hi + low))
    ensures ReverseBase(Decoder, AtAlign(len, hi, 0, 0)) == Start(Decoder, 5)
  {
  }

  // ---------- The dictionary ----------

  /** The place `j` bytes back, in a buffer of `size` bytes that is filled in a circle. */
  function Back(size: nat, dicPos: nat, j: nat): int {
    if j <= dicPos then dicPos - j else dicPos - j + size
  }

  /** The byte `j` back lies in its place. */
  ghost predicate HeldAt(dic: seq<byte>, dicPos: nat, out: seq<byte>, j: nat) {
    var i := Back(|dic|, dicPos, j);
    1 <= j <= |out| && 0 <= i < |dic| && dic[i] == out[|out| - j]
  }

  /** The buffer holds the end of what was produced, as far back as it is long. */
  ghost predicate DicHolds(dic: seq<byte>, dicPos: nat, out: seq<byte>) {
    dicPos <= |dic| && forall j :: 1 <= j <= |out| && j <= |dic| ==> HeldAt(dic, dicPos, out, j)
  }

  lemma DicHoldsMore(dic: seq<byte>, dicPos: nat, out: seq<byte>, b: byte)
    requires DicHolds(dic, dicPos, out) && dicPos < |dic|
    ensures DicHolds(dic[dicPos := b], dicPos + 1, out + [b])
  {
    var dic1, pos1: nat, out1 := dic[dicPos := b], dicPos + 1, out + [b];
    forall j | 1 <= j <= |out1| && j <= |dic1| ensures HeldAt(dic1, pos1, out1, j) {
      if j > 1 {
        assert HeldAt(dic, dicPos, out, j - 1);
      }
    }
  }

  lemma DicPosFits(dic: seq<byte>, dicPos: nat, out: seq<byte>)
    requires DicHolds(dic, dicPos, out)
    ensures dicPos <= |dic|
  {
  }

  lemma HeldBack(dic: seq<byte>, dicPos: nat, out: seq<byte>, j: nat)
    requires DicHolds(dic, dicPos, out) && 1 <= j <= |out| && j <= |dic|
    ensures 0 <= Back(|dic|, dicPos, j) < |dic| && dic[Back(|dic|, dicPos, j)] == out[|out| - j]
  {
    assert HeldAt(dic, dicPos, out, j);
  }

  /** Going round the circle changes nothing. */
  lemma DicHoldsAround(dic: seq<byte>, out: seq<byte>)
    requires DicHolds(dic, |dic|, out)
    ensures DicHolds(dic, 0, out)
  {
    forall j | 1 <= j <= |out| && j <= |dic| ensures HeldAt(dic, 0, out, j) {
      assert HeldAt(dic, |dic|, out, j);
    }
  }

  lemma CopyNone(out: seq<byte>, dist: nat)
    requires 0 < dist <= |out|
    ensures Copy(out, dist, 0) == out
  {
  }

  lemma CopyOne(out: seq<byte>, dist: nat, k: nat)
    requires 0 < dist <= |out|
    ensures var o := Copy(out, dist, k);
      Copy(out, dist, k + 1) == o + [o[|o| - dist]]
  {
    CopySplits(out, dist, k, 1);
    var o := Copy(out, dist, k);
    assert Copy(o, dist, 1) == Copy(o + [o[|o| - dist]], dist, 0);
  }

  // ---------- Contexts from the wrapping counter ----------

  /** `checkDicSize` is 0 for as long as not everything within the dictionary size was produced. */
  ghost predicate InReach(n: nat, dicSize: nat, checkDicSize: nat) {
    if checkDicSize == 0 then n <= dicSize else checkDicSize == dicSize <= n
  }

  /** The context of the next symbol, part by part. */
  lemma CtxIs(props: Props, m: Machine)
    requires props.Valid() && (m.state >= 7 ==> 0 < m.reps.r0 <= |m.out|)
    ensures var ctx := CtxOf(props, m);
      && ctx.state == m.state && ctx.posState < 16
      && ctx.litCtx == LitCtx(props, m.out) < Pow2(props.lc + props.lp)
      && ctx.matchByte == (if m.state >= 7 then m.out[|m.out| - m.reps.r0] else 0)
  {
    ContextFits(props, m);
    hide Pow2, LitCtx;
  }

  lemma PosStateIs(props: Props, m: Machine, processedPos: u32)
    requires props.Valid() && (m.state >= 7 ==> 0 < m.reps.r0 <= |m.out|) && Wraps(processedPos, |m.out|)
    ensures CtxOf(props, m).posState == processedPos % Pow2(props.pb)
  {
    WordModPower(|m.out|, props.pb);
    hide Pow2, LitCtx;
  }

  /** The two counters show whether anything was produced, and how far back a distance may reach. */
  lemma CountersShow(n: nat, dicSize: nat, processedPos: u32, checkDicSize: u32)
    requires 0 < dicSize < 0x1_0000_0000 && InReach(n, dicSize, checkDicSize) && Wraps(processedPos, n)
    ensures processedPos != 0 || checkDicSize != 0 <==> n != 0
    ensures (if checkDicSize == 0 then processedPos else checkDicSize) == Min(n, dicSize)
  {
  }

  lemma CounterIsLength(word: u32, n: nat, dicSize: nat, checkDicSize: u32)
    requires Wraps(word, n) && dicSize < 0x1_0000_0000 && (checkDicSize == 0 ==> n < dicSize)
    ensures checkDicSize == 0 ==> word == n
  {
  }

  lemma CounterReaches(word: u32, n: nat, dicSize: nat, checkDicSize: u32)
    requires Wraps(word, n) && 0 < dicSize < 0x1_0000_0000 && InReach(n, dicSize, checkDicSize)
    ensures checkDicSize == 0 ==> (word >= dicSize <==> n == dicSize)
  {
  }

  /** `((processedPos & ((1 << lp) - 1)) << lc) + (prev >> (8 - lc))` */
  function LiteralContext(props: Props, processedPos: u32, prev: byte): nat
    requires props.lc <= 8
  {
    DivNat(prev, Pow2(8 - props.lc));
    processedPos % Pow2(props.lp) * Pow2(props.lc) + prev / Pow2(8 - props.lc)
  }

  lemma PlainLitCtx(props: Props, out: seq<byte>, processedPos: u32)
    requires props.Valid() && out != [] && Wraps(processedPos, |out|)
    ensures LiteralContext(props, processedPos, out[|out| - 1]) == LitCtx(props, out)
  {
    WordModPower(|out|, props.lp);
  }

  lemma LiteralTreeEnds(leaf: nat)
    ensures 0x100 <= leaf < 0x200 ==> TreeEnd(AtLiteral(8, 1, false, 0), leaf) == Done(Literal(leaf - 0x100))
  {
  }

  lemma NoLitCtx(props: Props, out: seq<byte>)
    requires props.lc <= 8 && out == []
    ensures LitCtx(props, out) == 0
  {
  }

  // ---------- One symbol ----------

  /** What a pass of the decoding loop leaves, against what its symbol means. */
  ghost predicate Took(cfg: Config, s: Session, sym: Sym, limit: nat, m: Machine, len: nat)
    requires Sound(s) && s.remainLen == 0 && ValidSym(sym) && |s.machine.out| <= limit
    requires IsRepSym(sym) ==> s.machine.out != []
  {
    var t := Take(cfg, s, sym, limit);
    m == t.machine && (if t.remainLen == 512 then len >= 512 else len == t.remainLen)
  }

  /** Whether the last normalization was done before or is done first makes no difference. */
  lemma NormalizeFirst(p: Phase, ctx: Ctx, d: Dec, m: Model, s: seq<byte>)
    requires p == AtIsMatch && DecNormalize(d, s).range >= 0x100_0000
    ensures DecodeFrom(p, ctx, DecNormalize(d, s), m, s) == DecodeFrom(p, ctx, d, m, s)
  {
    hide Toss, Advance;
  }

  lemma CopyCut(out: seq<byte>, dist: nat, len: nat, cut: nat, limit: nat)
    requires 0 < dist <= |out| <= cut <= limit
    ensures var k, all := Min(len, cut - |out|), Min(len, limit - |out|);
      var rest := Min(len - k, limit - (|out| + k));
      && Copy(Copy(out, dist, k), dist, rest) == Copy(out, dist, all) && k + rest == all
      && Copy(Copy(out, dist, all), dist, 0) == Copy(out, dist, all) && Min(len - all, limit - (|out| + all)) == 0
  {
    var k, all := Min(len, cut - |out|), Min(len, limit - |out|);
    CopySplits(out, dist, k, all - k);
    CopySplits(out, dist, all, 0);
    hide Copy;
  }

  /** The session with some of a copy done. */
  function Copied(s: Session, m: Machine, len: nat, limit: nat): Session
    requires 0 < m.reps.r0 <= |m.out| <= limit
  {
    var n := Min(len, limit - |m.out|);
    s.(machine := m.(out := Copy(m.out, m.reps.r0, n)), remainLen := len - n)
  }

  lemma CopiedCut(s: Session, m: Machine, len: nat, cut: nat, limit: nat)
    requires 0 < m.reps.r0 <= |m.out| <= cut <= limit
    requires Sound(Copied(s, m, len, cut)) && Sound(Copied(s, m, len, limit)) && len < 274
    ensures WriteRem(Copied(s, m, len, cut), limit) == WriteRem(Copied(s, m, len, limit), limit)
  {
    CopyCut(m.out, m.reps.r0, len, cut, limit);
    RemOfCopied(s, m, len, cut, limit);
    RemOfCopied(s, m, len, limit, limit);
    hide Copy, Sound, WriteRem, Copied;
  }

  lemma RemOfCopied(s: Session, m: Machine, len: nat, cut: nat, limit: nat)
    requires 0 < m.reps.r0 <= |m.out| <= cut <= limit && len < 274
    requires Sound(Copied(s, m, len, cut))
    ensures var k := Min(len, cut - |m.out|);
      var rest := Min(len - k, limit - (|m.out| + k));
      WriteRem(Copied(s, m, len, cut), limit) ==
        s.(machine := m.(out := Copy(Copy(m.out, m.reps.r0, k), m.reps.r0, rest)), remainLen := len - k - rest)
  {
    var k := Min(len, cut - |m.out|);
    assert Copy(Copy(m.out, m.reps.r0, k), m.reps.r0, 0) == Copy(m.out, m.reps.r0, k);
    hide Copy, Sound;
  }

  /** A copy cut short by a nearer limit is completed by what comes next. */
  lemma TakeCut(cfg: Config, s: Session, sym: Sym, cut: nat, limit: nat)
    requires Sound(s) && s.remainLen == 0 && ValidSym(sym) && |s.machine.out| <= cut <= limit
    requires IsRepSym(sym) ==> s.machine.out != []
    requires |s.machine.out| < cut || sym.Match?
    ensures var a, b := Take(cfg, s, sym, cut), Take(cfg, s, sym, limit);
      && (a.remainLen == 512 || b.remainLen == 512 ==> a == b)
      && (a.remainLen == 274 || b.remainLen == 274 ==> a == b)
      && (a.remainLen < 274 ==> Sound(a) && Sound(b) && WriteRem(a, limit) == WriteRem(b, limit))
  {
    TakeSound(cfg, s, sym, cut);
    TakeSound(cfg, s, sym, limit);
    TakeCopies(cfg, s, sym, cut);
    TakeCopies(cfg, s, sym, limit);
    hide Copied, Sound, Take;
    if CopiesSome(cfg, s, sym) {
      CopiedCut(s, Turned(s.machine, sym), SymLen(sym), cut, limit);
    }
  }

  ghost predicate CopiesSome(cfg: Config, s: Session, sym: Sym) {
    sym.Rep? || (sym.Match? && sym.dist != 0xFFFF_FFFF && sym.dist < Reach(cfg, s.machine))
  }

  function Turned(m: Machine, sym: Sym): Machine {
    Machine(NextState(m.state, sym), NextReps(m.reps, sym), m.out)
  }

  lemma TakeCopies(cfg: Config, s: Session, sym: Sym, limit: nat)
    requires Sound(s) && s.remainLen == 0 && ValidSym(sym) && |s.machine.out| <= limit
    requires IsRepSym(sym) ==> s.machine.out != []
    ensures CopiesSome(cfg, s, sym) ==>
      && 0 < NextReps(s.machine.reps, sym).r0 <= |s.machine.out|
      && Take(cfg, s, sym, limit) == Copied(s, Turned(s.machine, sym), SymLen(sym), limit)
    ensures !CopiesSome(cfg, s, sym) ==>
      && Take(cfg, s, sym, limit) == Take(cfg, s, sym, |s.machine.out|)
      && (Take(cfg, s, sym, limit).remainLen == 0 || Take(cfg, s, sym, limit).remainLen >= 274)
    ensures CopiesSome(cfg, s, sym) ==> Take(cfg, s, sym, limit).remainLen < 274
  {
    hide Copy;
  }

  lemma TakeShort(cfg: Config, s: Session, sym: Sym, limit: nat)
    requires Sound(s) && s.remainLen == 0 && sym == ShortRep && s.machine.out != [] && |s.machine.out| < limit
    ensures var m := s.machine;
      && 1 <= m.reps.r0 <= |m.out|
      && Take(cfg, s, sym, limit) == s.(machine := Machine(NextState(m.state, sym), m.reps, m.out + [m.out[|m.out| - m.reps.r0]]))
  {
    CopyNone(s.machine.out, s.machine.reps.r0);
    CopyOne(s.machine.out, s.machine.reps.r0, 0);
    hide Copy;
  }

  lemma TakeMatchIs(cfg: Config, s: Session, len: nat, dist: nat, limit: nat)
    requires Sound(s) && s.remainLen == 0 && 2 <= len <= 273 && dist < 0x1_0000_0000 && |s.machine.out| <= limit
    ensures var sym := Match(len, dist);
      var m, t := s.machine, Take(cfg, s, sym, limit);
      var m1 := Machine(if m.state < 7 then 7 else 10, Reps(dist + 1, m.reps.r0, m.reps.r1, m.reps.r2), m.out);
      && ValidSym(sym)
      && (dist == 0xFFFF_FFFF ==> t.remainLen == 274 && t.machine == m)
      && (dist != 0xFFFF_FFFF && dist >= Min(|m.out|, cfg.dicSize) ==> t.remainLen == 512 && t.machine == m1)
      && (dist != 0xFFFF_FFFF && dist < Min(|m.out|, cfg.dicSize) ==>
            t == Copied(s, m1, len, limit) && t.remainLen <= len)
  {
    hide Copy;
  }

  lemma InReachMore(n: nat, n1: nat, dicSize: nat, checkDicSize: nat)
    requires InReach(n, dicSize, checkDicSize) && n <= n1 && (checkDicSize == 0 ==> n1 <= dicSize)
    ensures InReach(n1, dicSize, checkDicSize)
  {
  }

  lemma SoundReaches(s: Session)
    requires Sound(s)
    ensures s.machine.state < 12 && (s.machine.state >= 7 ==> 1 <= s.machine.reps.r0 <= |s.machine.out|)
  {
  }

  lemma DoneIs(sym: Sym, ctx: Ctx, d: Dec, m: Model, s: seq<byte>)
    ensures DecodeFrom(Done(sym), ctx, d, m, s) == Decoded(sym, d, m)
  {
  }

  lemma TakeFills(cfg: Config, s: Session, sym: Sym, limit: nat)
    requires Sound(s) && s.remainLen == 0 && ValidSym(sym) && |s.machine.out| <= limit
    requires IsRepSym(sym) ==> s.machine.out != []
    ensures var t := Take(cfg, s, sym, limit);
      && (0 < t.remainLen < 274 ==> |t.machine.out| == limit)
      && (t.remainLen <= 274 || t.remainLen == 512)
  {
    hide Copy;
  }

  lemma NormalizePos(d: Dec, src: seq<byte>)
    ensures d.pos <= DecNormalize(d, src).pos
    ensures d.range < 0x100_0000 ==> DecNormalize(d, src).pos == d.pos + 1
  {
  }

  lemma NormalizeBoth(d: Dec, src: seq<byte>, all: seq<byte>)
    requires src <= all && DecNormalize(d, all).pos <= |src|
    ensures DecNormalize(d, src) == DecNormalize(d, all)
  {
  }

  /** A symbol that ends within a prefix of the input is read from that prefix alone. */
  lemma PrefixReads(s: Session, ctx: Ctx, d: Dec, src: seq<byte>, all: seq<byte>)
    requires Sound(s) && s == Settled(s.machine, s.model, d, all, s.remainLen)
    requires src <= all && EndOf(DecodeFrom(AtIsMatch, ctx, d, s.model, all), all) <= |src|
    ensures DecodeFrom(AtIsMatch, ctx, d, s.model, src) == DecodeFrom(AtIsMatch, ctx, d, s.model, all)
    ensures EndOf(DecodeFrom(AtIsMatch, ctx, d, s.model, all), src) <= |src|
  {
    hide DecodeFrom;
    assert SameBytes(all, src, 0, |src|);
    WalkOnPrefix(AtIsMatch, ctx, d, s.model, src, all);
  }

  lemma WalkOnPrefix(p: Phase, ctx: Ctx, d: Dec, m: Model, src: seq<byte>, all: seq<byte>)
    requires p == AtIsMatch && d.range >= 0x1_0000 && SameBytes(all, src, 0, |src|)
    requires DecNormalize(DecodeFrom(p, ctx, d, m, all).dec, all).pos <= |src|
    ensures DecodeFrom(p, ctx, d, m, src) == DecodeFrom(p, ctx, d, m, all)
    ensures DecNormalize(DecodeFrom(p, ctx, d, m, all).dec, src).pos <= |src|
  {
    hide DecodeFrom, DecNormalize;
    WalkReadsOnlyItsBytes(p, ctx, d, m, all, src, 0, |src|);
  }

  // ---------- One pass of the decoding loop ----------

  /** A session whose coder still has its last normalization to come. */
  function Settled(m: Machine, model: Model, d: Dec, src: seq<byte>, len: nat): Session {
    var n := DecNormalize(d, src);
    Session(m, model, n.range, n.code, len)
  }

  lemma BeginDependsOnRem(a: Session, b: Session, pos: nat, limit: nat, any: bool)
    requires Sound(a) && Sound(b) && a.remainLen < 274 && b.remainLen < 274
    requires |a.machine.out| <= limit && |b.machine.out| <= limit
    requires WriteRem(a, limit) == WriteRem(b, limit)
    ensures Begin(a, pos, limit, any) == Begin(b, pos, limit, any)
  {
    hide Sound, WriteRem;
  }

  lemma ResumeDependsOnBegin(cfg: Config, a: Session, b: Session, src: seq<byte>, pos: nat, limit: nat, any: bool)
    requires cfg.Valid() && Sound(a) && Sound(b) && pos <= |src|
    requires |a.machine.out| <= limit && |b.machine.out| <= limit
    requires Begin(a, pos, limit, any) == Begin(b, pos, limit, any)
    ensures Resume(cfg, a, src, pos, limit, any) == Resume(cfg, b, src, pos, limit, any)
  {
    hide Sound, Begin, Next, EndOf, AfterSymbol, IsRepSym, ValidSym;
  }

  lemma CutAfterSymbol(cfg: Config, s: Session, d: Decoded, src: seq<byte>, cut: nat, limit: nat, pos: nat, any: bool)
    requires cfg.Valid() && Sound(s) && s.remainLen == 0 && ValidSym(d.sym) && |s.machine.out| <= cut <= limit
    requires IsRepSym(d.sym) ==> s.machine.out != []
    requires DecNormalize(d.dec, src).range >= 0x100_0000 && pos <= |src|
    requires |s.machine.out| < cut || d.sym.Match?
    ensures var a, b := AfterSymbol(cfg, s, d, src, cut), AfterSymbol(cfg, s, d, src, limit);
      && (a.remainLen == 512 <==> b.remainLen == 512)
      && (a.remainLen == 512 ==> a == b)
      && (a.remainLen != 512 ==>
            && Sound(a) && Sound(b) && |a.machine.out| <= cut && |b.machine.out| <= limit
            && Resume(cfg, a, src, pos, limit, any) == Resume(cfg, b, src, pos, limit, any))
  {
    AfterSymbolSound(cfg, s, d, src, cut);
    AfterSymbolSound(cfg, s, d, src, limit);
    TakeCut(cfg, s, d.sym, cut, limit);
    WriteRemIgnoresCoder(Take(cfg, s, d.sym, cut), Take(cfg, s, d.sym, limit),
                         AfterSymbol(cfg, s, d, src, cut), AfterSymbol(cfg, s, d, src, limit), limit);
    hide Sound, Take, WriteRem, DecNormalize, ValidSym, Begin, Resume;
    var a, b := AfterSymbol(cfg, s, d, src, cut), AfterSymbol(cfg, s, d, src, limit);
    if a.remainLen < 274 {
      BeginDependsOnRem(a, b, pos, limit, any);
      ResumeDependsOnBegin(cfg, a, b, src, pos, limit, any);
    }
  }

  lemma WriteRemIgnoresCoder(a: Session, b: Session, a1: Session, b1: Session, limit: nat)
    requires a1 == a.(model := a1.model, range := a1.range, code := a1.code)
    requires b1 == b.(model := a1.model, range := a1.range, code := a1.code)
    ensures Sound(a) && Sound(a1) && Sound(b) && Sound(b1) && a.remainLen < 274 && b.remainLen < 274
            && |a.machine.out| <= limit && |b.machine.out| <= limit && WriteRem(a, limit) == WriteRem(b, limit)
            ==> WriteRem(a1, limit) == WriteRem(b1, limit)
  {
    hide Copy;
  }

  /** How far a pass may go, and what it has read. */
  ghost predicate PassFits(s: Session, d: Decoded, src: seq<byte>, cut: nat, total: nat) {
    && EndOf(d, src) <= |src|
    && |s.machine.out| <= cut <= total
    && (|s.machine.out| < cut || d.sym.Match?)
  }

  /**
   One pass from an unnormalized coder, its copy cut at a nearer limit, is one step of the
   resumable decoder.
   */
  lemma ResumeStep(cfg: Config, m: Machine, model: Model, d0: Dec, src: seq<byte>, cut: nat, total: nat, any: bool)
    requires cfg.Valid() && Sound(Settled(m, model, d0, src, 0)) && DecNormalize(d0, src).pos <= |src|
    requires var s := Settled(m, model, d0, src, 0);
      && PassFits(s, DecodeFrom(AtIsMatch, CtxOf(cfg.props, m), d0, model, src), src, cut, total)
      && Begin(s, DecNormalize(d0, src).pos, total, any).Go?
    ensures var s := Settled(m, model, d0, src, 0);
      var d := DecodeFrom(AtIsMatch, CtxOf(cfg.props, m), d0, model, src);
      && ValidSym(d.sym) && (IsRepSym(d.sym) ==> m.out != [])
      && DecNormalize(d0, src).pos <= EndOf(d, src) <= DecNormalize(d0, src).pos + 20
      && d == Next(cfg, s, src, DecNormalize(d0, src).pos)
      && var whole := Resume(cfg, s, src, DecNormalize(d0, src).pos, total, any);
         var t := Settled(Take(cfg, s, d.sym, cut).machine, d.model, d.dec, src, Take(cfg, s, d.sym, cut).remainLen);
         && |m.out| <= |t.machine.out| <= cut
         && (|m.out| < |t.machine.out| || t.remainLen > 0)
         && (t.remainLen == 512 ==> whole == Outcome(SzErrorData, NotSpecified, t, [], EndOf(d, src)))
         && (t.remainLen != 512 ==> Sound(t) && Resume(cfg, t, src, EndOf(d, src), total, any) == whole)
  {
    var s := Settled(m, model, d0, src, 0);
    var pos := DecNormalize(d0, src).pos;
    NormalizeFirst(AtIsMatch, CtxOf(cfg.props, m), d0, model, src);
    var d := Next(cfg, s, src, pos);
    NextIsUsable(cfg, s, src, pos);
    AfterSymbolSound(cfg, s, d, src, cut);
    AfterSymbolSound(cfg, s, d, src, total);
    BeginSettled(s, pos, total, any);
    CutAfterSymbol(cfg, s, d, src, cut, total, EndOf(d, src), any);
    TakeKeepsCoder(cfg, s, d.sym, cut);
    hide Sound, DecodeFrom, CtxOf, Take, Begin, ValidSym, DecNormalize;
  }

  lemma TakeKeepsCoder(cfg: Config, s: Session, sym: Sym, limit: nat)
    requires Sound(s) && s.remainLen == 0 && ValidSym(sym) && |s.machine.out| <= limit
    requires IsRepSym(sym) ==> s.machine.out != []
    ensures var t := Take(cfg, s, sym, limit); t == s.(machine := t.machine, remainLen := t.remainLen)
  {
    hide Copy, NextState, NextReps;
  }

  lemma BeginSettled(s: Session, pos: nat, limit: nat, any: bool)
    requires Sound(s) && s.remainLen == 0 && |s.machine.out| <= limit
    ensures Begin(s, pos, limit, any).Go? ==>
              Begin(s, pos, limit, any) == Go(s, |s.machine.out| == limit)
    ensures |s.machine.out| < limit ==> Begin(s, pos, limit, any).Go?
  {
    hide Sound;
  }

  /** What a call comes to when its first symbol does not end, or is not allowed where the output must end. */
  lemma FirstStep(cfg: Config, s: Session, full: bool, input: seq<byte>, total: nat, any: bool)
    requires cfg.Valid() && Sound(s) && s.remainLen == 0 && |s.machine.out| <= total
    requires Begin(s, 0, total, any) == Go(s, full)
    ensures var d := Next(cfg, s, input, 0);
      var whole := Resume(cfg, s, input, 0, total, any);
      && EndOf(d, input) <= 20 && full == (|s.machine.out| == total)
      && (EndOf(d, input) > |input| ==> whole == Outcome(SzOk, NeedsMoreInput, s, input, |input|))
      && (EndOf(d, input) <= |input| && full && !d.sym.Match? ==>
            whole == Outcome(SzErrorData, NotFinished, s, input[..EndOf(d, input)], EndOf(d, input)))
  {
    BeginSettled(s, 0, total, any);
    hide Sound, DecodeFrom, CtxOf, Begin, ValidSym, DecNormalize, AfterSymbol;
    NextIsUsable(cfg, s, input, 0);
    assert input[0..] == input;
  }

  lemma NextWithin20(cfg: Config, s: Session, input: seq<byte>)
    requires cfg.Valid() && Sound(s) && s.remainLen == 0
    ensures EndOf(Next(cfg, s, input, 0), input) <= 20
  {
    hide Sound, DecodeFrom, CtxOf, ValidSym, DecNormalize;
    NextIsUsable(cfg, s, input, 0);
  }

  /**
   A symbol that begins in the buffered bytes and was too long for them ends behind them,
   and it ends within the first 20 bytes or not at all.
   */
  lemma TempStep(cfg: Config, s: Session, temp: seq<byte>, src: seq<byte>, rem: nat)
    requires cfg.Valid() && Sound(s) && s.remainLen == 0 && Hungry(cfg, s, temp)
    requires rem == Min(20, |temp| + |src|) && |temp| <= 20
    ensures var x, t := temp + src, (temp + src)[..rem];
      var d, e := Next(cfg, s, x, 0), EndOf(Next(cfg, s, x, 0), x);
      && e >= |temp|
      && (EndOf(Next(cfg, s, t, 0), t) > |t| <==> e > |x|)
      && (e > |x| ==> rem == |x| < 20)
      && (e <= |x| ==> e <= rem && EndOf(Next(cfg, s, t, 0), t) == e && Next(cfg, s, t, 0).sym == d.sym)
  {
    var x, t := temp + src, (temp + src)[..rem];
    HeldIsUsed(cfg, s, temp, src);
    NextWithin20(cfg, s, x);
    NextWithin20(cfg, s, t);
    hide Sound, Next, DecNormalize;
    if EndOf(Next(cfg, s, t, 0), t) <= |t| {
      NextExtends(cfg, s, t, x[rem..], 0);
      assert t + x[rem..] == x;
    } else {
      assert t == x;
    }
  }

  /** Having read to `end`, a call goes on with the rest of its input and nothing buffered. */
  lemma ContinueAfter(cfg: Config, s: Session, temp: seq<byte>, src: seq<byte>, s2: Session, end: nat, limit: nat, any: bool)
    requires cfg.Valid() && Sound(s) && Sound(s2) && |s.machine.out| <= limit && |s2.machine.out| <= limit
    requires |temp| <= end <= |temp + src|
    requires Resume(cfg, s2, temp + src, end, limit, any) == Resume(cfg, s, temp + src, 0, limit, any)
    ensures var used := end - |temp|;
      var a := Continue(cfg, s2, [], src[used..], limit, any);
      Continue(cfg, s, temp, src, limit, any) == a.(used := used + a.used)
  {
    hide Sound, Resume;
    ResumeMoved(cfg, s2, temp + src, end, end, limit, any);
    assert (temp + src)[end..] == src[end - |temp|..];
    assert [] + src[end - |temp|..] == src[end - |temp|..];
  }

  lemma OutIsEmpty(word: u32, out: seq<byte>)
    requires Wraps(word, |out|) && out == []
    ensures word == 0
  {
  }

  lemma FreshFields(head: seq<byte>)
    requires |head| == 5
    ensures FreshSession(head) == Session(START, map[], 0xFFFF_FFFF, FreshSession(head).code, 0)
  {
  }

  lemma BeginFacts(s: Session, limit: nat, any: bool)
    requires Sound(s) && |s.machine.out| <= limit
    ensures match Begin(s, 0, limit, any)
      case Stop(o) => s.remainLen == 0 ==> o.session == s
      case Go(s1, full) =>
        && Sound(s1) && s1.remainLen == 0 && |s.machine.out| <= |s1.machine.out| <= limit
        && (|s1.machine.out| == |s.machine.out| ==> s.remainLen == 0)
        && (s.remainLen == 0 ==> s1 == s)
        && Begin(s1, 0, limit, any) == Begin(s, 0, limit, any)
  {
    BeginAgain(s, 0, limit, any);
    hide Sound, WriteRem;
  }

  /** What comes before a symbol is read, as part of a call. */
  lemma AfterBegin(cfg: Config, s: Session, temp: seq<byte>, src: seq<byte>, limit: nat, any: bool)
    requires cfg.Valid() && Sound(s) && |s.machine.out| <= limit && Hungry(cfg, s, temp)
    ensures match Begin(s, 0, limit, any)
      case Stop(o) => Continue(cfg, s, temp, src, limit, any) == Answer(o.res, o.status, Reading(o.session, temp), 0)
      case Go(s1, full) =>
        && Sound(s1) && Hungry(cfg, s1, temp)
        && Continue(cfg, s1, temp, src, limit, any) == Continue(cfg, s, temp, src, limit, any)
  {
    BeginFacts(s, limit, any);
    if Begin(s, 0, limit, any).Go? {
      ResumeDependsOnBegin(cfg, s, Begin(s, 0, limit, any).session, temp + src, 0, limit, any);
    } else {
      ResumeStops(cfg, s, temp + src, limit, any);
    }
    hide Sound, Begin, Resume, Next, EndOf;
  }

  lemma ResumeStops(cfg: Config, s: Session, input: seq<byte>, limit: nat, any: bool)
    requires cfg.Valid() && Sound(s) && |s.machine.out| <= limit && Begin(s, 0, limit, any).Stop?
    ensures Resume(cfg, s, input, 0, limit, any) == Begin(s, 0, limit, any).outcome
    ensures Begin(s, 0, limit, any).outcome.pos == 0 && Begin(s, 0, limit, any).outcome.held == []
  {
    hide Sound, Begin, Next, EndOf, AfterSymbol, ValidSym, IsRepSym;
  }
}
