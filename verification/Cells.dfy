/** Which array element a phase of the symbol machine asks about, on either side. */
module Cells {
  import opened Bytes
  import opened Powers
  import opened RangeCoder
  import opened Symbols
  import opened SymbolCoder
  import opened Layout
  import opened Lz
  import opened Masks

  ghost predicate InTree(p: Phase) {
    (p.AtLiteral? && !p.agree && p.rest == 0) || p.AtLenTree? || p.AtSlot?
  }

  function AtNode(p: Phase, left: nat, node: nat): Phase
    requires InTree(p)
  {
    if p.AtLiteral? then AtLiteral(left, node, p.agree, p.rest)
    else if p.AtLenTree? then AtLenTree(p.src, p.bank, left, node)
    else AtSlot(p.len, left, node)
  }

  /** The phase behind the last bit of a tree. */
  function TreeEnd(p: Phase, leaf: nat): Phase
    requires InTree(p)
  {
    if p.AtLiteral? then Done(Literal(leaf % 0x100))
    else if p.AtLenTree? then
      AfterLength(p.src, 2 + BankStart(p.bank) + (if p.bank == High then leaf % 0x100 else leaf % 8))
    else AfterSlot(p.len, leaf % 64)
  }

  /** In the tree of `p`, node `node` lies at `base + node`. */
  ghost predicate NodeAt(side: Side, props: Props, base: nat, p: Phase, ctx: Ctx, node: nat)
    requires InTree(p)
  {
    var c := Query(AtNode(p, 1, node), ctx).cell;
    ValidCell(props, c) && Index(side, props, c) == base + node
  }

  ghost predicate TreeAt(side: Side, props: Props, base: nat, bits: nat, p: Phase, ctx: Ctx)
    requires InTree(p)
  {
    forall node :: 1 <= node < Pow2(bits) ==> NodeAt(side, props, base, p, ctx, node)
  }

  lemma NodeQuery(p: Phase, ctx: Ctx, left: nat, node: nat)
    requires InTree(p)
    ensures Query(AtNode(p, left, node), ctx) == Query(AtNode(p, 1, node), ctx)
    ensures Query(AtNode(p, left, node), ctx).Model?
  {
  }

  // ---------- Literals ----------

  /** Bit 8 of a word. */
  function Bit8(x: nat): bool {
    x / 0x100 % 2 == 1
  }

  /** `x & offs` for an `offs` of 0x100 or 0. */
  function And100(x: nat, offs: nat): nat {
    if offs == 0x100 && Bit8(x) then 0x100 else 0
  }

  lemma MatchByteStep(mb: nat)
    ensures Bit8(2 * mb) == (mb % 0x100 >= 0x80)
    ensures 2 * mb % 0x100 == 2 * (mb % 0x100) % 0x100
  {
    var q, r := mb / 0x100, mb % 0x100;
    assert 2 * mb == 0x100 * (2 * q) + 2 * r;
    ModIs(2 * mb, 0x100, if r < 0x80 then 2 * q else 2 * q + 1, if r < 0x80 then 2 * r else 2 * r - 0x100);
  }

  lemma LiteralCell(side: Side, props: Props, ctx: Ctx, left: nat, node: nat, agree: bool, rest: byte)
    requires 1 <= node < 0x100 && ctx.litCtx < Pow2(props.lc + props.lp)
    ensures var c := Query(AtLiteral(left, node, agree, rest), ctx).cell;
      ValidCell(props, c)
      && Index(side, props, c) == Start(side, 11) + 0x300 * ctx.litCtx
           + (if agree then (if rest >= 0x80 then 0x200 else 0x100) else 0) + node
  {
  }

  // ---------- Reverse trees ----------

  ghost predicate InReverse(p: Phase) {
    (p.AtSpec? && 4 <= p.slot < 14) || p.AtAlign?
  }

  function ReverseBits(p: Phase): nat {
    if p.AtSpec? then FooterBits(p.slot) else 4
  }

  function AtDepth(p: Phase, k: nat, low: nat): Phase
    requires InReverse(p)
  {
    if p.AtSpec? then AtSpec(p.len, p.slot, k, low) else AtAlign(p.len, p.hi, k, low)
  }

  /** The phase behind the last bit of a reverse tree. */
  function ReverseEnd(p: Phase, low: nat): Phase
    requires InReverse(p)
  {
    Done(Match(p.len, if p.AtSpec? then SpecBase(p.slot) + low else 16 * p.hi + low))
  }

  /** In the reverse tree of `p`, the cell at depth `k` lies at `base` plus its node number. */
  ghost predicate ReverseAt(side: Side, props: Props, base: nat, p: Phase, ctx: Ctx, k: nat, low: nat)
    requires InReverse(p)
  {
    var c := Query(AtDepth(p, k, low), ctx).cell;
    ValidCell(props, c) && Index(side, props, c) == base + ReverseNode(side, k, low)
  }

  lemma ReverseCells(side: Side, props: Props, p: Phase, ctx: Ctx, k: nat, low: nat)
    requires InReverse(p) && k < ReverseBits(p) && low < Pow2(k)
    ensures ReverseAt(side, props, ReverseBase(side, p), p, ctx, k, low)
  {
  }

  function ReverseBase(side: Side, p: Phase): nat
    requires InReverse(p)
  {
    if p.AtSpec? then Start(side, 0) + SpecBase(p.slot) else Start(side, 5)
  }

  // ---------- Lengths, slots and flags ----------

  function LenRegion(side: Side, src: LenSource): nat {
    if src.RepLen? then Start(side, 2) else Start(side, 3)
  }

  lemma LenCells(side: Side, props: Props, src: LenSource, ctx: Ctx)
    requires ctx.posState < 16
    ensures var c := Query(AtLenChoice(src), ctx).cell;
      ValidCell(props, c) && Index(side, props, c) == LenRegion(side, src)
    ensures var c := Query(AtLenChoice2(src), ctx).cell;
      ValidCell(props, c) && Index(side, props, c) == LenRegion(side, src) + 8
  {
  }

  function LenTreeBase(side: Side, src: LenSource, bank: Bank, posState: nat): nat {
    LenRegion(side, src) + (match bank case Low => 16 * posState case Mid => 16 * posState + 8 case High => 256)
  }

  lemma LenNodeAt(side: Side, props: Props, src: LenSource, bank: Bank, ctx: Ctx, node: nat)
    requires ctx.posState < 16 && 1 <= node < (if bank == High then 0x100 else 8)
    ensures NodeAt(side, props, LenTreeBase(side, src, bank, ctx.posState), AtLenTree(src, bank, BankBits(bank), 1), ctx, node)
  {
    hide Pow2, Reversed;
  }

  lemma LenTreeAt(side: Side, props: Props, src: LenSource, bank: Bank, ctx: Ctx)
    requires ctx.posState < 16
    ensures TreeAt(side, props, LenTreeBase(side, src, bank, ctx.posState), BankBits(bank), AtLenTree(src, bank, BankBits(bank), 1), ctx)
  {
    hide NodeAt, LenTreeBase;
    SmallPowers();
    forall node | 1 <= node < Pow2(BankBits(bank))
      ensures NodeAt(side, props, LenTreeBase(side, src, bank, ctx.posState), AtLenTree(src, bank, BankBits(bank), 1), ctx, node)
    {
      LenNodeAt(side, props, src, bank, ctx, node);
    }
  }

  lemma SlotCells(side: Side, props: Props, len: nat, ctx: Ctx)
    ensures TreeAt(side, props, Start(side, 10) + 64 * LenState(len), 6, AtSlot(len, 6, 1), ctx)
  {
    SmallPowers();
    hide Pow2, Reversed;
  }

  /** Where the flag of a state and a position lies: the two sides transpose the table. */
  function PairIndex(side: Side, state: nat, posState: nat): nat {
    if side == Decoder then 16 * posState + state else 16 * state + posState
  }

  /** The index of the flag that decides in phase `p`. */
  function FlagIndex(side: Side, p: Phase, state: nat, posState: nat): nat {
    match p
    case AtIsMatch => Start(side, 4) + PairIndex(side, state, posState)
    case AtIsRep => Start(side, 6) + state
    case AtIsRepG0 => Start(side, 7) + state
    case AtIsRepG1 => Start(side, 8) + state
    case AtIsRepG2 => Start(side, 9) + state
    case _ => Start(side, 1) + PairIndex(side, state, posState)
  }

  ghost predicate IsFlag(p: Phase) {
    p.AtIsMatch? || p.AtIsRep? || p.AtIsRepG0? || p.AtIsRep0Long? || p.AtIsRepG1? || p.AtIsRepG2?
  }

  lemma FlagCell(side: Side, props: Props, p: Phase, ctx: Ctx)
    requires IsFlag(p) && ctx.state < 12 && ctx.posState < 16
    ensures Query(p, ctx).Model? && ValidCell(props, Query(p, ctx).cell)
    ensures Index(side, props, Query(p, ctx).cell) == FlagIndex(side, p, ctx.state, ctx.posState)
  {
    hide Pow2, Reversed;
  }

  lemma ContextFits(props: Props, m: Machine)
    requires props.Valid()
    requires m.state >= 7 ==> 0 < m.reps.r0 <= |m.out|
    ensures CtxOf(props, m).posState < 16
    ensures LitCtx(props, m.out) < Pow2(props.lc + props.lp)
  {
    SmallPowers();
    Pow2Monotone(props.pb, 4);
    if m.out != [] {
      LitCtxFits(props, m.out);
    }
    hide Pow2, LitCtx;
  }

  lemma LitCtxFits(props: Props, out: seq<byte>)
    requires props.Valid() && out != []
    ensures LitCtx(props, out) < Pow2(props.lc + props.lp)
  {
    Pow2Add(props.lc, 8 - props.lc);
    Pow2Add(props.lp, props.lc);
    WordPower();
    hide Pow2;
    TopBits(out[|out| - 1], Pow2(8 - props.lc), Pow2(props.lc));
    PairFits(|out| % Pow2(props.lp), out[|out| - 1] / Pow2(8 - props.lc), Pow2(props.lp), Pow2(props.lc));
  }

  lemma TopBits(b: nat, p: nat, q: nat)
    requires p > 0 && b < p * q
    ensures b / p < q
  {
    assert b == p * (b / p) + b % p;
    MulMonotone(p, q, b / p);
  }

  lemma PairFits(a: nat, b: nat, p: nat, q: nat)
    requires a < p && b < q
    ensures a * q + b < p * q
  {
    assert (a + 1) * q <= p * q;
  }

  lemma LiteralTreeAt(side: Side, props: Props, ctx: Ctx)
    requires ctx.litCtx < Pow2(props.lc + props.lp)
    ensures TreeAt(side, props, Start(side, 11) + 0x300 * ctx.litCtx, 8, AtLiteral(8, 1, false, 0), ctx)
  {
    var base := Start(side, 11) + 0x300 * ctx.litCtx;
    forall node | 1 <= node < Pow2(8) ensures NodeAt(side, props, base, AtLiteral(8, 1, false, 0), ctx, node) {
      assert Pow2(8) == 0x100;
      LiteralCell(side, props, ctx, 1, node, false, 0);
    }
  }

  // ---------- Literal contexts from machine words ----------

  /** `lpMask` */
  function LpMask(props: Props): (m: nat)
    requires props.lc <= 8
    ensures m == Pow2(8 + props.lp) - Pow2(8 - props.lc)
  {
    LpMaskIs(props.lc, props.lp);
    0x100 * Pow2(props.lp) - 0x100 / Pow2(props.lc)
  }

  lemma LpMaskIs(lc: nat, lp: nat)
    requires lc <= 8
    ensures 0x100 * Pow2(lp) == Pow2(8 + lp) >= Pow2(8 - lc) == 0x100 / Pow2(lc)
  {
    Pow2Add(8, lp);
    Pow2Add(8 - lc, lc);
    WordPower();
    Pow2Monotone(8 - lc, 8 + lp);
    hide Pow2;
    DivIs(0x100, Pow2(lc), Pow2(8 - lc));
  }

  /** `LIT_PROBS`: where the counter of bytes and the byte before put the literal coder. */
  function LiteralOffset(props: Props, word: u32, prev: byte): nat
    requires props.lc <= 8
  {
    3 * (And((word * 0x100 + prev) % 0x1_0000_0000, LpMask(props)) * Pow2(props.lc))
  }

  lemma FieldArithmetic(n: nat, b: byte, p: nat, q: nat, r: nat)
    requires p > 0 && q > 0 && r > 0 && q * r == 0x100
    ensures (n * 0x100 + b) % (0x100 * p) / r == n % p * q + b / r
  {
    var h, m := n / p, n % p;
    assert n == p * h + m;
    assert n * 0x100 + b == 0x100 * p * h + (0x100 * m + b);
    assert m + 1 <= p;
    assert 0x100 * m + b < 0x100 * p;
    ModIs(n * 0x100 + b, 0x100 * p, h, 0x100 * m + b);
    var t, u := b / r, b % r;
    assert b == r * t + u;
    DivNat(b, r);
    assert 0x100 * m + b == r * (q * m + t) + u by {
      assert r * (q * m) == q * r * m;
    }
    ModIs(0x100 * m + b, r, q * m + t, u);
  }

  /** That is the literal context of the format. */
  lemma MaskedIsLitCtx(props: Props, out: seq<byte>, word: u32)
    requires props.Valid() && out != [] && Wraps(word, |out|)
    ensures LiteralOffset(props, word, out[|out| - 1]) == 0x300 * LitCtx(props, out)
  {
    hide And, Pow2, LpMask, LitCtx;
    var x := word * 0x100 + out[|out| - 1];
    AndField(x % 0x1_0000_0000, 8 + props.lp, 8 - props.lc);
    WordModPower(x, 8 + props.lp);
    LitField(props, out, word);
    Powers8(props.lc);
    Regroup(LitCtx(props, out), Pow2(8 - props.lc), Pow2(props.lc));
  }

  lemma LitField(props: Props, out: seq<byte>, word: u32)
    requires props.Valid() && out != [] && Wraps(word, |out|)
    ensures (word * 0x100 + out[|out| - 1]) % Pow2(8 + props.lp) / Pow2(8 - props.lc) == LitCtx(props, out)
  {
    var lc, lp := props.lc, props.lp;
    WordModPower(|out|, lp);
    Pow2Add(8, lp);
    Powers8(lc);
    WordPower();
    hide Pow2;
    FieldArithmetic(word, out[|out| - 1], Pow2(lp), Pow2(lc), Pow2(8 - lc));
  }

  lemma Powers8(lc: nat)
    requires lc <= 8
    ensures Pow2(8 - lc) * Pow2(lc) == 0x100 == Pow2(lc) * Pow2(8 - lc)
  {
    Pow2Add(8 - lc, lc);
    WordPower();
  }

  lemma Regroup(field: nat, a: nat, b: nat)
    requires a * b == 0x100
    ensures 3 * (field * a * b) == 0x300 * field
  {
    assert field * a * b == field * (a * b);
  }

  /** `nowPos32 & pbMask` */
  lemma MaskedPosState(word: u32, n: nat, pb: nat)
    requires Wraps(word, n) && pb <= 4
    ensures And(word, Pow2(pb) - 1) == n % Pow2(pb)
  {
    AndField(word, pb, 0);
    WordModPower(n, pb);
    assert Pow2(0) == 1;
    hide And;
  }
}
