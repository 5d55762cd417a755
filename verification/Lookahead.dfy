/**
 Looking at the next symbol without learning from it, and reading the same symbol from
 another buffer. These are the facts the resumable decoder rests on.
 */
module Lookahead {
  import opened Bytes
  import opened Powers
  import opened RangeCoder
  import opened Symbols
  import opened SymbolCoder
  import opened SymbolBounds

  datatype Looked = Looked(sym: Sym, dec: Dec)

  /** The walk of `LzmaDec_TryDummy`: the model stays as it is. */
  function LookFrom(p: Phase, ctx: Ctx, d: Dec, m: Model, s: seq<byte>): Looked
    decreases Stage(p), Left(p)
  {
    if p.Done? then Looked(p.sym, d)
    else
      var (bit, d1) := AnswerAt(p, ctx, d, m, s);
      AdvanceDescends(p, ctx, bit);
      LookFrom(Advance(p, ctx, bit), ctx, d1, m, s)
  }

  function CellStage(c: Cell): nat {
    match c
    case IsMatch(_, _) => 11
    case IsRep(_) => 10
    case IsRepG0(_) => 9
    case IsRep0Long(_, _) => 8
    case IsRepG1(_) => 8
    case IsRepG2(_) => 7
    case LenChoice(_) => 6
    case LenChoice2(_) => 5
    case LenNode(_, _, _, _) => 4
    case SlotNode(_, _) => 3
    case SpecNode(_, _, _) => 1
    case AlignNode(_, _) => 1
    case LitNode(_, _) => 1
  }

  /** Inside a tree, the cells still ahead are those not above the current node. */
  predicate AheadInTree(p: Phase, c: Cell) {
    match p
    case AtLiteral(_, node, _, _) => c.LitNode? && c.node % 0x100 >= node
    case AtLenTree(_, _, _, node) => c.LenNode? && c.node >= node
    case AtSlot(_, _, node) => c.SlotNode? && c.node >= node
    case AtSpec(_, _, k, _) => c.SpecNode? && c.k >= k
    case AtAlign(_, _, k, _) => c.AlignNode? && c.k >= k
    case _ => true
  }

  /** The cells that phase `p` or a later one may ask about. */
  predicate Ahead(p: Phase, c: Cell) {
    CellStage(c) < Stage(p) || (CellStage(c) == Stage(p) && AheadInTree(p, c))
  }

  lemma TreeNodePositive(bits: nat, left: nat, node: nat)
    requires TreeNode(bits, left, node)
    ensures node >= 1
    ensures bits == 8 ==> node < 0x100
  {
    if bits == 8 {
      SmallPowers();
      Pow2Monotone(8 - left, 7);
      assert Pow2(8) == 2 * Pow2(7);
    }
  }

  lemma AskedNodeIsBehind(p: Phase, ctx: Ctx, bit: bool)
    requires
      || (p.AtLiteral? && 1 <= p.node < 0x100)
      || (p.AtLenTree? && 1 <= p.node)
      || (p.AtSlot? && 1 <= p.node)
    ensures Ahead(p, Query(p, ctx).cell) && !Ahead(Advance(p, ctx, bit), Query(p, ctx).cell)
  {
    hide Pow2;
    if p.AtLiteral? {
      assert LitIndex(p.node, p.agree, p.rest) % 0x100 == p.node;
      hide LitIndex;
    }
  }

  lemma AskedTreeIsBehind(p: Phase, ctx: Ctx, bit: bool)
    requires Wf(p) && (p.AtLiteral? || p.AtLenTree? || p.AtSlot?)
    ensures Ahead(p, Query(p, ctx).cell) && !Ahead(Advance(p, ctx, bit), Query(p, ctx).cell)
  {
    hide Pow2, TreeNode, Advance, Ahead;
    match p {
      case AtLiteral(left, node, _, _) => TreeNodePositive(8, left, node);
      case AtLenTree(_, bank, left, node) => TreeNodePositive(BankBits(bank), left, node);
      case AtSlot(_, left, node) => TreeNodePositive(6, left, node);
    }
    AskedNodeIsBehind(p, ctx, bit);
  }

  /** A cell that is asked about is not asked about again in the same symbol. */
  lemma AskedIsBehind(p: Phase, ctx: Ctx, bit: bool)
    requires Wf(p) && !p.Done? && Query(p, ctx).Model?
    ensures Ahead(p, Query(p, ctx).cell) && !Ahead(Advance(p, ctx, bit), Query(p, ctx).cell)
  {
    if p.AtLiteral? || p.AtLenTree? || p.AtSlot? {
      AskedTreeIsBehind(p, ctx, bit);
    } else {
      hide Wf, Pow2;
    }
  }

  lemma AheadShrinks(p: Phase, ctx: Ctx, bit: bool, c: Cell)
    requires Wf(p) && !p.Done? && Ahead(Advance(p, ctx, bit), c)
    ensures Ahead(p, c)
  {
    hide Wf, Pow2;
  }

  ghost predicate AgreeAhead(p: Phase, m: Model, n: Model) {
    forall c :: Ahead(p, c) ==> Get(m, c) == Get(n, c)
  }

  lemma StillAgree(p: Phase, ctx: Ctx, bit: bool, m: Model, n: Model)
    requires Wf(p) && !p.Done? && AgreeAhead(p, m, n)
    ensures AgreeAhead(Advance(p, ctx, bit), m, ModelAfter(p, ctx, n, bit))
  {
    var q, n1 := Advance(p, ctx, bit), ModelAfter(p, ctx, n, bit);
    if Query(p, ctx).Model? { AskedIsBehind(p, ctx, bit); }
    forall c | Ahead(q, c) ensures Get(m, c) == Get(n1, c) {
      AheadShrinks(p, ctx, bit, c);
    }
  }

  /**
   The look-ahead refines the decoder: with a model it never updates, it reads the same
   bits, the same symbol and the same bytes as the decoder that updates after every bit.
   */
  lemma {:induction false} LookaheadAgrees(p: Phase, ctx: Ctx, d: Dec, m: Model, n: Model, s: seq<byte>)
    requires Wf(p) && AgreeAhead(p, m, n)
    ensures LookFrom(p, ctx, d, m, s) == Looked(DecodeFrom(p, ctx, d, n, s).sym, DecodeFrom(p, ctx, d, n, s).dec)
    decreases Stage(p), Left(p)
  {
    hide Wf, Ahead, DecodeModelled, DecodeDirect, Advance;
    if !p.Done? {
      var (bit, d1) := AnswerAt(p, ctx, d, n, s);
      if Query(p, ctx).Model? { AskedIsBehind(p, ctx, bit); }
      AdvanceDescends(p, ctx, bit);
      AdvanceKeepsWf(p, ctx, bit);
      StillAgree(p, ctx, bit, m, n);
      LookaheadAgrees(Advance(p, ctx, bit), ctx, d1, m, ModelAfter(p, ctx, n, bit), s);
    }
  }

  // ---------- The same symbol from another buffer ----------

  ghost predicate SameBytes(s: seq<byte>, t: seq<byte>, shift: int, n: nat) {
    forall i: nat :: i < n && i + shift >= 0 ==> At(s, i) == At(t, i + shift)
  }

  function Moved(d: Dec, shift: int): Dec
    requires d.pos + shift >= 0
  {
    d.(pos := d.pos + shift)
  }

  lemma NormalizeSameBytes(d: Dec, s: seq<byte>, t: seq<byte>, shift: int, n: nat)
    requires d.pos + shift >= 0
    requires SameBytes(s, t, shift, n) && DecNormalize(d, s).pos <= n
    ensures DecNormalize(Moved(d, shift), t) == Moved(DecNormalize(d, s), shift)
  {
  }

  lemma AnswerSameBytes(p: Phase, ctx: Ctx, d: Dec, m: Model, s: seq<byte>, t: seq<byte>, shift: int)
    requires !p.Done? && d.pos + shift >= 0
    requires DecNormalize(Moved(d, shift), t) == Moved(DecNormalize(d, s), shift)
    ensures var (bit, d1) := AnswerAt(p, ctx, d, m, s);
      d1.pos >= d.pos && AnswerAt(p, ctx, Moved(d, shift), m, t) == (bit, Moved(d1, shift))
  {
    hide Bound;
  }

  /**
   A walk depends only on the bytes it takes: on any other buffer that holds the same
   bytes at a shifted position it makes the same decisions.
   */
  lemma {:induction false} WalkReadsOnlyItsBytes(p: Phase, ctx: Ctx, d: Dec, m: Model, s: seq<byte>, t: seq<byte>, shift: int, n: nat)
    requires Wf(p) && d.range >= 0x1_0000 && d.pos + shift >= 0
    requires SameBytes(s, t, shift, n)
    requires DecNormalize(DecodeFrom(p, ctx, d, m, s).dec, s).pos <= n
    ensures DecodeFrom(p, ctx, d, m, s).dec.pos >= d.pos
    ensures var a, b := DecodeFrom(p, ctx, d, m, s), DecodeFrom(p, ctx, Moved(d, shift), m, t);
      && b == a.(dec := Moved(a.dec, shift))
      && DecNormalize(b.dec, t) == Moved(DecNormalize(a.dec, s), shift)
    decreases Stage(p), Left(p)
  {
    hide Wf, Advance, ModelAfter, AnswerAt, SameBytes;
    if p.Done? {
      NormalizeSameBytes(d, s, t, shift, n);
    } else {
      var (bit, d1) := AnswerAt(p, ctx, d, m, s);
      AnswerLoss(p, ctx, d, m, s);
      AdvanceDescends(p, ctx, bit);
      AdvanceKeepsWf(p, ctx, bit);
      assert d1.pos >= d.pos;
      WalkReadsOnlyItsBytes(Advance(p, ctx, bit), ctx, d1, ModelAfter(p, ctx, m, bit), s, t, shift, n);
      NormalizeSameBytes(d, s, t, shift, n);
      AnswerSameBytes(p, ctx, d, m, s, t, shift);
    }
  }
}
