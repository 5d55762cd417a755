/**
 Where the probabilities live. Encoder and decoder keep the same cells in arrays of
 different layout: regions come in another order, the match flags are transposed, and the
 two reverse trees are walked in another node numbering.
 */
module Layout {
  import opened Bytes
  import opened Powers
  import opened RangeCoder
  import opened Symbols
  import opened SymbolCoder
  import opened Lz

  datatype Side = Encoder | Decoder

  /** The k lowest bits of `low`, first bit first, read as a number whose first bit is the highest. */
  function Reversed(k: nat, low: nat): nat
  {
    if k == 0 then 0 else 2 * Reversed(k - 1, low % Pow2(k - 1)) + low / Pow2(k - 1) % 2
  }

  ghost predicate TreeCell(k: nat, low: nat) {
    low < Pow2(k)
  }

  ghost predicate ValidCell(props: Props, c: Cell) {
    match c
    case IsMatch(state, posState) => state < 12 && posState < 16
    case IsRep(state) => state < 12
    case IsRepG0(state) => state < 12
    case IsRepG1(state) => state < 12
    case IsRepG2(state) => state < 12
    case IsRep0Long(state, posState) => state < 12 && posState < 16
    case LenChoice(_) => true
    case LenChoice2(_) => true
    case LenNode(_, bank, posState, node) =>
      if bank == High then posState == 0 && 1 <= node < 0x100 else posState < 16 && 1 <= node < 8
    case SlotNode(lenState, node) => lenState < 4 && 1 <= node < 64
    case SpecNode(slot, k, low) => 4 <= slot < 14 && k < FooterBits(slot) && TreeCell(k, low)
    case AlignNode(k, low) => k < 4 && TreeCell(k, low)
    case LitNode(litCtx, node) => litCtx < Pow2(props.lc + props.lp) && 1 <= node < 0x300
  }

  /** The regions of the arrays, numbered in the order of the decoder. */
  function Region(c: Cell): (r: nat)
    ensures r < 12
  {
    match c
    case SpecNode(_, _, _) => 0
    case IsRep0Long(_, _) => 1
    case LenChoice(rep) => if rep then 2 else 3
    case LenChoice2(rep) => if rep then 2 else 3
    case LenNode(rep, _, _, _) => if rep then 2 else 3
    case IsMatch(_, _) => 4
    case AlignNode(_, _) => 5
    case IsRep(_) => 6
    case IsRepG0(_) => 7
    case IsRepG1(_) => 8
    case IsRepG2(_) => 9
    case SlotNode(_, _) => 10
    case LitNode(_, _) => 11
  }

  /** First index of a region: `LzmaDec.c` puts them in one array, the encoder's structure lists arrays. */
  function Start(side: Side, region: nat): nat
    requires region < 12
  {
    match side
    case Decoder => [0, 128, 384, 896, 1408, 1664, 1680, 1692, 1704, 1716, 1728, 1984][region]
    case Encoder => [704, 256, 1344, 832, 64, 0, 16, 28, 40, 52, 448, 1856][region]
  }

  function Size(side: Side, region: nat): nat
    requires region < 11
  {
    match side
    case Decoder => [128, 256, 512, 512, 256, 16, 12, 12, 12, 12, 256][region]
    case Encoder => [128, 192, 512, 512, 192, 16, 12, 12, 12, 12, 256][region]
  }

  function NumProbs(side: Side, props: Props): nat {
    Start(side, 11) + 0x300 * Pow2(props.lc + props.lp)
  }

  /** The node number in a reverse tree: in order of arrival, or by place value. */
  function ReverseNode(side: Side, k: nat, low: nat): nat {
    Pow2(k) + (if side == Decoder then low else Reversed(k, low))
  }

  function SpecBase(slot: nat): nat {
    (2 + slot % 2) * Pow2(FooterBits(slot))
  }

  function Offset(side: Side, c: Cell): nat {
    match c
    case SpecNode(slot, k, low) => SpecBase(slot) + ReverseNode(side, k, low)
    case IsRep0Long(state, posState) => if side == Decoder then 16 * posState + state else 16 * state + posState
    case LenChoice(_) => 0
    case LenChoice2(_) => 8
    case LenNode(_, bank, posState, node) =>
      (match bank case Low => 16 * posState case Mid => 16 * posState + 8 case High => 256) + node
    case IsMatch(state, posState) => if side == Decoder then 16 * posState + state else 16 * state + posState
    case AlignNode(k, low) => ReverseNode(side, k, low)
    case IsRep(state) => state
    case IsRepG0(state) => state
    case IsRepG1(state) => state
    case IsRepG2(state) => state
    case SlotNode(lenState, node) => 64 * lenState + node
    case LitNode(litCtx, node) => 0x300 * litCtx + node
  }

  lemma {:induction false} ReversedFits(k: nat, low: nat)
    ensures Reversed(k, low) < Pow2(k)
  {
    if k > 0 {
      ReversedFits(k - 1, low % Pow2(k - 1));
    }
  }

  /** Reading the bits from the other end loses nothing. */
  lemma {:induction false} ReversedInjective(k: nat, a: nat, b: nat)
    requires a < Pow2(k) && b < Pow2(k) && Reversed(k, a) == Reversed(k, b)
    ensures a == b
  {
    if k > 0 {
      var p := Pow2(k - 1);
      TopBit(k, a);
      TopBit(k, b);
      ReversedInjective(k - 1, a % p, b % p);
    }
  }

  lemma TopBit(k: nat, a: nat)
    requires k > 0 && a < Pow2(k)
    ensures a / Pow2(k - 1) < 2 && a / Pow2(k - 1) % 2 == a / Pow2(k - 1)
    ensures a == Pow2(k - 1) * (a / Pow2(k - 1)) + a % Pow2(k - 1)
    ensures a % Pow2(k - 1) < Pow2(k - 1)
  {
    var p := Pow2(k - 1);
    if a < p { DivIs(a, p, 0); } else { DivIs(a, p, 1); }
  }

  lemma ReverseNodeInjective(side: Side, k: nat, low: nat, k': nat, low': nat)
    requires TreeCell(k, low) && TreeCell(k', low')
    requires ReverseNode(side, k, low) == ReverseNode(side, k', low')
    ensures k == k' && low == low'
  {
    ReversedFits(k, low);
    ReversedFits(k', low');
    if k < k' { Pow2Monotone(k + 1, k'); }
    if k' < k { Pow2Monotone(k' + 1, k); }
    if k == k' && side == Encoder { ReversedInjective(k, low, low'); }
  }

  lemma ReverseNodeFits(side: Side, k: nat, low: nat, bits: nat)
    requires TreeCell(k, low) && k < bits
    ensures 1 <= ReverseNode(side, k, low) < Pow2(bits)
  {
    ReversedFits(k, low);
    Pow2Monotone(k + 1, bits);
  }

  lemma SpecBases(slot: nat)
    requires 4 <= slot < 14
    ensures SpecBase(slot) == [4, 6, 8, 12, 16, 24, 32, 48, 64, 96][slot - 4]
    ensures Pow2(FooterBits(slot)) == [2, 2, 4, 4, 8, 8, 16, 16, 32, 32][slot - 4]
  {
    SmallPowers();
  }

  lemma OffsetFits(side: Side, props: Props, c: Cell)
    requires ValidCell(props, c)
    ensures Region(c) < 11 ==> Offset(side, c) < Size(side, Region(c))
    ensures Region(c) == 11 ==> Offset(side, c) < 0x300 * Pow2(props.lc + props.lp)
  {
    match c
    case SpecNode(slot, k, low) =>
      SpecBases(slot);
      ReverseNodeFits(side, k, low, FooterBits(slot));
      hide Pow2, ReverseNode, SpecBase;
    case AlignNode(k, low) =>
      assert Pow2(4) == 16;
      ReverseNodeFits(side, k, low, 4);
      hide Pow2, ReverseNode;
    case _ => hide Pow2;
  }

  /** The array index of a cell. */
  function Index(side: Side, props: Props, c: Cell): (i: nat)
    requires ValidCell(props, c)
    ensures i < NumProbs(side, props)
  {
    OffsetFits(side, props, c);
    Start(side, Region(c)) + Offset(side, c)
  }

  lemma RegionsDisjoint(side: Side, r: nat, x: nat, r': nat, x': nat)
    requires r < 12 && r' < 12 && r != r'
    requires r < 11 ==> x < Size(side, r)
    requires r' < 11 ==> x' < Size(side, r')
    ensures Start(side, r) + x != Start(side, r') + x'
  {
  }

  lemma SpecOffsetInjective(side: Side, a: Cell, b: Cell)
    requires a.SpecNode? && b.SpecNode?
    requires 4 <= a.slot < 14 && a.k < FooterBits(a.slot) && TreeCell(a.k, a.low)
    requires 4 <= b.slot < 14 && b.k < FooterBits(b.slot) && TreeCell(b.k, b.low)
    requires Offset(side, a) == Offset(side, b)
    ensures a == b
  {
    SpecBases(a.slot);
    SpecBases(b.slot);
    ReverseNodeFits(side, a.k, a.low, FooterBits(a.slot));
    ReverseNodeFits(side, b.k, b.low, FooterBits(b.slot));
    SpecSlotsApart(a.slot, ReverseNode(side, a.k, a.low), b.slot, ReverseNode(side, b.k, b.low));
    ReverseNodeInjective(side, a.k, a.low, b.k, b.low);
  }

  lemma SpecSlotsApart(s: nat, x: nat, t: nat, y: nat)
    requires 4 <= s < 14 && 4 <= t < 14
    requires 1 <= x < [2, 2, 4, 4, 8, 8, 16, 16, 32, 32][s - 4]
    requires 1 <= y < [2, 2, 4, 4, 8, 8, 16, 16, 32, 32][t - 4]
    requires [4, 6, 8, 12, 16, 24, 32, 48, 64, 96][s - 4] + x == [4, 6, 8, 12, 16, 24, 32, 48, 64, 96][t - 4] + y
    ensures s == t && x == y
  {
  }

  lemma OffsetInjective(side: Side, props: Props, a: Cell, b: Cell)
    requires ValidCell(props, a) && ValidCell(props, b)
    requires Region(a) == Region(b) && Offset(side, a) == Offset(side, b)
    ensures a == b
  {
    match a
    case SpecNode(_, _, _) => SpecOffsetInjective(side, a, b);
    case AlignNode(k, low) => ReverseNodeInjective(side, k, low, b.k, b.low);
    case _ => hide Pow2, ReverseNode, SpecBase, Reversed;
  }

  /** Different cells lie at different indices, on either side. */
  lemma IndexInjective(side: Side, props: Props, a: Cell, b: Cell)
    requires ValidCell(props, a) && ValidCell(props, b) && a != b
    ensures Index(side, props, a) != Index(side, props, b)
  {
    hide Offset, Start, Size, Region, ValidCell, NumProbs;
    if Region(a) != Region(b) {
      OffsetFits(side, props, a);
      OffsetFits(side, props, b);
      RegionsDisjoint(side, Region(a), Offset(side, a), Region(b), Offset(side, b));
    } else if Offset(side, a) == Offset(side, b) {
      OffsetInjective(side, props, a, b);
    }
  }

  /** The array holds the model. */
  ghost predicate Holds(side: Side, props: Props, probs: seq<Prob>, m: Model) {
    && |probs| == NumProbs(side, props)
    && forall c :: ValidCell(props, c) ==> probs[Index(side, props, c)] == Get(m, c)
  }

  /** Adapting one array element is learning one bit. */
  lemma HoldsLearned(side: Side, props: Props, probs: seq<Prob>, m: Model, c: Cell, bit: bool)
    requires ValidCell(props, c) && Holds(side, props, probs, m)
    ensures var i := Index(side, props, c);
      probs[i] == Get(m, c) && Holds(side, props, probs[i := Adapt(probs[i], bit)], Learn(m, c, bit))
  {
    var i := Index(side, props, c);
    var probs1, m1 := probs[i := Adapt(probs[i], bit)], Learn(m, c, bit);
    forall d | ValidCell(props, d) ensures probs1[Index(side, props, d)] == Get(m1, d) {
      if d != c { IndexInjective(side, props, c, d); }
    }
  }

  lemma HoldsInitially(side: Side, props: Props, probs: seq<Prob>)
    requires |probs| == NumProbs(side, props) && forall i :: 0 <= i < |probs| ==> probs[i] == 1024
    ensures Holds(side, props, probs, map[])
  {
  }
}
