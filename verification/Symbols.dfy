/**
 The LZMA symbol code as one machine that asks questions.

 Coding one symbol is a walk through phases. Each phase asks for one bit, either
 modelled under a probability cell or direct, and the answer leads to the next phase,
 until `Done` names the symbol. The encoder, the decoder and the decoder's look-ahead
 all walk this machine; they differ only in where the bits come from.
 */
module Symbols {
  import opened Bytes
  import opened Powers
  import opened RangeCoder

  /** A symbol. Lengths are real lengths; `dist` is the distance minus one. */
  datatype Sym =
    | Literal(b: byte)
    | ShortRep
    | Rep(index: nat, len: nat)
    | Match(len: nat, dist: nat)

  ghost predicate ValidSym(sym: Sym) {
    match sym
    case Literal(_) => true
    case ShortRep => true
    case Rep(index, len) => index < 4 && 2 <= len <= 273
    case Match(len, dist) => 2 <= len <= 273 && dist < 0x1_0000_0000
  }

  /** What the walk depends on besides the bits. */
  datatype Ctx = Ctx(state: nat, posState: nat, litCtx: nat, matchByte: byte)

  /** Which length coder is in use, and for which symbol. */
  datatype LenSource = MatchLen | RepLen(index: nat)

  datatype Bank = Low | Mid | High

  function BankBits(bank: Bank): nat {
    if bank == High then 8 else 3
  }

  function BankStart(bank: Bank): nat {
    match bank case Low => 0 case Mid => 8 case High => 16
  }

  datatype Phase =
    | AtIsMatch
    | AtLiteral(left: nat, node: nat, agree: bool, rest: byte)
    | AtIsRep
    | AtIsRepG0
    | AtIsRep0Long
    | AtIsRepG1
    | AtIsRepG2
    | AtLenChoice(src: LenSource)
    | AtLenChoice2(src: LenSource)
    | AtLenTree(src: LenSource, bank: Bank, left: nat, node: nat)
    | AtSlot(len: nat, left: nat, node: nat)
    | AtSpec(len: nat, slot: nat, k: nat, low: nat)
    | AtDirect(len: nat, left: nat, acc: nat)
    | AtAlign(len: nat, hi: nat, k: nat, low: nat)
    | Done(sym: Sym)

  /**
   The name of a probability. The position and align trees are named by the depth `k`
   and the number `low` whose k binary digits were read, lowest first.
   */
  datatype Cell =
    | IsMatch(state: nat, posState: nat)
    | IsRep(state: nat)
    | IsRepG0(state: nat)
    | IsRepG1(state: nat)
    | IsRepG2(state: nat)
    | IsRep0Long(state: nat, posState: nat)
    | LenChoice(rep: bool)
    | LenChoice2(rep: bool)
    | LenNode(rep: bool, bank: Bank, posState: nat, node: nat)
    | SlotNode(lenState: nat, node: nat)
    | SpecNode(slot: nat, k: nat, low: nat)
    | AlignNode(k: nat, low: nat)
    | LitNode(litCtx: nat, node: nat)

  datatype Question = Model(cell: Cell) | Raw

  function B(bit: bool): nat {
    if bit then 1 else 0
  }

  function LenState(len: nat): nat {
    if len < 2 then 0 else if len < 5 then len - 2 else 3
  }

  function FooterBits(slot: nat): nat {
    if slot < 4 then 0 else slot / 2 - 1
  }

  /** The literal node: a matched literal uses two more copies of the tree while it agrees. */
  function LitIndex(node: nat, agree: bool, rest: byte): nat {
    if !agree then node else if rest < 0x80 then 0x100 + node else 0x200 + node
  }

  function Query(p: Phase, ctx: Ctx): Question
    requires !p.Done?
  {
    match p
    case AtIsMatch => Model(IsMatch(ctx.state, ctx.posState))
    case AtLiteral(_, node, agree, rest) => Model(LitNode(ctx.litCtx, LitIndex(node, agree, rest)))
    case AtIsRep => Model(IsRep(ctx.state))
    case AtIsRepG0 => Model(IsRepG0(ctx.state))
    case AtIsRep0Long => Model(IsRep0Long(ctx.state, ctx.posState))
    case AtIsRepG1 => Model(IsRepG1(ctx.state))
    case AtIsRepG2 => Model(IsRepG2(ctx.state))
    case AtLenChoice(src) => Model(LenChoice(src.RepLen?))
    case AtLenChoice2(src) => Model(LenChoice2(src.RepLen?))
    case AtLenTree(src, bank, _, node) =>
      Model(LenNode(src.RepLen?, bank, if bank == High then 0 else ctx.posState, node))
    case AtSlot(len, _, node) => Model(SlotNode(LenState(len), node))
    case AtSpec(_, slot, k, low) => Model(SpecNode(slot, k, low))
    case AtDirect(_, _, _) => Raw
    case AtAlign(_, _, k, low) => Model(AlignNode(k, low))
  }

  function AfterLength(src: LenSource, len: nat): Phase {
    match src
    case MatchLen => AtSlot(len, 6, 1)
    case RepLen(index) => Done(Rep(index, len))
  }

  function AfterSlot(len: nat, slot: nat): Phase {
    if slot < 4 then Done(Match(len, slot))
    else if slot < 14 then AtSpec(len, slot, 0, 0)
    else AtDirect(len, slot / 2 - 5, 2 + slot % 2)
  }

  function Advance(p: Phase, ctx: Ctx, bit: bool): Phase
    requires !p.Done?
  {
    match p
    case AtIsMatch => if bit then AtIsRep else AtLiteral(8, 1, ctx.state >= 7, ctx.matchByte)
    case AtLiteral(left, node, agree, rest) =>
      var next := 2 * node + B(bit);
      if left <= 1 then Done(Literal(next % 0x100))
      else AtLiteral(left - 1, next, agree && bit == (rest >= 0x80), 2 * rest % 0x100)
    case AtIsRep => if bit then AtIsRepG0 else AtLenChoice(MatchLen)
    case AtIsRepG0 => if bit then AtIsRepG1 else AtIsRep0Long
    case AtIsRep0Long => if bit then AtLenChoice(RepLen(0)) else Done(ShortRep)
    case AtIsRepG1 => if bit then AtIsRepG2 else AtLenChoice(RepLen(1))
    case AtIsRepG2 => AtLenChoice(RepLen(2 + B(bit)))
    case AtLenChoice(src) => if bit then AtLenChoice2(src) else AtLenTree(src, Low, 3, 1)
    case AtLenChoice2(src) => if bit then AtLenTree(src, High, 8, 1) else AtLenTree(src, Mid, 3, 1)
    case AtLenTree(src, bank, left, node) =>
      var next := 2 * node + B(bit);
      if left <= 1 then AfterLength(src, 2 + BankStart(bank) + next % (if bank == High then 0x100 else 8))
      else AtLenTree(src, bank, left - 1, next)
    case AtSlot(len, left, node) =>
      var next := 2 * node + B(bit);
      if left <= 1 then AfterSlot(len, next % 64) else AtSlot(len, left - 1, next)
    case AtSpec(len, slot, k, low) =>
      var next := low + B(bit) * Pow2(k);
      if k + 1 >= FooterBits(slot) then Done(Match(len, (2 + slot % 2) * Pow2(FooterBits(slot)) + next))
      else AtSpec(len, slot, k + 1, next)
    case AtDirect(len, left, acc) =>
      var next := 2 * acc + B(bit);
      if left <= 1 then AtAlign(len, next, 0, 0) else AtDirect(len, left - 1, next)
    case AtAlign(len, hi, k, low) =>
      var next := low + B(bit) * Pow2(k);
      if k >= 3 then Done(Match(len, 16 * hi + next)) else AtAlign(len, hi, k + 1, next)
  }

  function Stage(p: Phase): nat {
    match p
    case AtIsMatch => 11
    case AtIsRep => 10
    case AtIsRepG0 => 9
    case AtIsRep0Long => 8
    case AtIsRepG1 => 8
    case AtIsRepG2 => 7
    case AtLenChoice(_) => 6
    case AtLenChoice2(_) => 5
    case AtLenTree(_, _, _, _) => 4
    case AtSlot(_, _, _) => 3
    case AtDirect(_, _, _) => 2
    case AtSpec(_, _, _, _) => 1
    case AtAlign(_, _, _, _) => 1
    case AtLiteral(_, _, _, _) => 1
    case Done(_) => 0
  }

  /** Bits left inside the current stage. */
  function Left(p: Phase): nat {
    match p
    case AtLiteral(left, _, _, _) => left
    case AtLenTree(_, _, left, _) => left
    case AtSlot(_, left, _) => left
    case AtDirect(_, left, _) => left
    case AtSpec(_, slot, k, _) => if k < FooterBits(slot) then FooterBits(slot) - k else 0
    case AtAlign(_, _, k, _) => if k < 4 then 4 - k else 0
    case _ => 0
  }

  lemma AdvanceDescends(p: Phase, ctx: Ctx, bit: bool)
    requires !p.Done?
    ensures var q := Advance(p, ctx, bit); Stage(q) < Stage(p) || (Stage(q) == Stage(p) && Left(q) < Left(p))
  {
  }

  // ---------- The symbol a walk is heading for ----------

  /** The slot of a distance: twice the index of its top bit, plus the bit below it. */
  function PosSlot(dist: nat): nat {
    if dist < 4 then dist else PosSlot(dist / 2) + 2
  }

  lemma {:induction false} PosSlotTop(dist: nat)
    requires dist >= 4
    ensures PosSlot(dist) >= 4
    ensures dist / Pow2(FooterBits(PosSlot(dist))) == 2 + PosSlot(dist) % 2
  {
    if dist < 8 {
      assert PosSlot(dist / 2) == dist / 2;
      assert Pow2(1) == 2;
    } else {
      PosSlotTop(dist / 2);
      HalfTwice(dist, Pow2(FooterBits(PosSlot(dist / 2))));
      HalfCommutes(dist, Pow2(FooterBits(PosSlot(dist / 2))));
    }
  }

  lemma {:induction false} PosSlotBelow(dist: nat, n: nat)
    requires n >= 1 && dist < Pow2(n + 1)
    ensures PosSlot(dist) <= 2 * n + 1
  {
    if dist >= 4 {
      assert Pow2(1) == 2 && Pow2(2) == 4;
      PosSlotBelow(dist / 2, n - 1);
    } else if n == 1 {
    } else {
      Pow2Monotone(2, n);
    }
  }

  /** The tree a length is coded in. */
  function BankFor(len: nat): Bank {
    if len < 10 then Low else if len < 18 then Mid else High
  }

  function LenLeaf(len: nat): nat {
    if len < 2 then 0
    else
      var bank := BankFor(len);
      Pow2(BankBits(bank)) + (len - 2 - BankStart(bank))
  }

  function SymLen(sym: Sym): nat {
    match sym
    case Literal(_) => 1
    case ShortRep => 1
    case Rep(_, len) => len
    case Match(len, _) => len
  }

  /** The bits of `t` above its last `left`. */
  function Prefix(t: nat, left: nat): nat {
    DivNat(t, Pow2(left));
    t / Pow2(left)
  }

  /** The last `k` bits of `t`. */
  function Suffix(t: nat, k: nat): nat {
    t % Pow2(k)
  }

  /** Bit number `left - 1` of `t`. */
  function BitAt(t: nat, left: nat): bool {
    left > 0 && t / Pow2(left - 1) % 2 == 1
  }

  function DistOf(sym: Sym): nat {
    if sym.Match? then sym.dist else 0
  }

  /** The bit the encoder of `sym` gives in phase `p`. */
  function BitFor(p: Phase, sym: Sym): bool
    requires !p.Done?
  {
    match p
    case AtIsMatch => !sym.Literal?
    case AtLiteral(left, _, _, _) => sym.Literal? && BitAt(0x100 + sym.b, left)
    case AtIsRep => !sym.Match?
    case AtIsRepG0 => sym.Rep? && sym.index != 0
    case AtIsRep0Long => sym.Rep?
    case AtIsRepG1 => sym.Rep? && sym.index != 1
    case AtIsRepG2 => sym.Rep? && sym.index == 3
    case AtLenChoice(_) => SymLen(sym) >= 10
    case AtLenChoice2(_) => SymLen(sym) >= 18
    case AtLenTree(_, _, left, _) => BitAt(LenLeaf(SymLen(sym)), left)
    case AtSlot(_, left, _) => BitAt(64 + PosSlot(DistOf(sym)), left)
    case AtSpec(_, _, k, _) => BitAt(DistOf(sym), k + 1)
    case AtDirect(_, left, _) => BitAt(DistOf(sym), 4 + left)
    case AtAlign(_, _, k, _) => BitAt(DistOf(sym), k + 1)
  }

  /** The phase `p` lies on the walk of `sym`. */
  ghost predicate OnPath(p: Phase, sym: Sym) {
    && ValidSym(sym)
    && match p
       case AtIsMatch => true
       case AtLiteral(left, node, _, _) =>
         sym.Literal? && 1 <= left <= 8 && node == Prefix(0x100 + sym.b, left)
       case AtIsRep => !sym.Literal?
       case AtIsRepG0 => sym.ShortRep? || sym.Rep?
       case AtIsRep0Long => sym.ShortRep? || (sym.Rep? && sym.index == 0)
       case AtIsRepG1 => sym.Rep? && sym.index >= 1
       case AtIsRepG2 => sym.Rep? && sym.index >= 2
       case AtLenChoice(src) => SourceFits(src, sym)
       case AtLenChoice2(src) => SourceFits(src, sym) && SymLen(sym) >= 10
       case AtLenTree(src, bank, left, node) =>
         && SourceFits(src, sym) && bank == BankFor(SymLen(sym))
         && 1 <= left <= BankBits(bank) && node == Prefix(LenLeaf(SymLen(sym)), left)
       case AtSlot(len, left, node) =>
         && sym.Match? && sym.len == len
         && 1 <= left <= 6 && node == Prefix(64 + PosSlot(sym.dist), left)
       case AtSpec(len, slot, k, low) =>
         && sym.Match? && sym.len == len && slot == PosSlot(sym.dist) && 4 <= slot < 14
         && k < FooterBits(slot) && low == Suffix(sym.dist, k)
       case AtDirect(len, left, acc) =>
         && sym.Match? && sym.len == len && 14 <= PosSlot(sym.dist)
         && 1 <= left <= FooterBits(PosSlot(sym.dist)) - 4
         && acc == Prefix(sym.dist, 4 + left)
       case AtAlign(len, hi, k, low) =>
         && sym.Match? && sym.len == len && hi == Prefix(sym.dist, 4)
         && k < 4 && low == Suffix(sym.dist, k)
       case Done(s) => s == sym
  }

  ghost predicate SourceFits(src: LenSource, sym: Sym) {
    match src
    case MatchLen => sym.Match?
    case RepLen(index) => sym.Rep? && sym.index == index
  }

  lemma SmallPowers()
    ensures Pow2(0) == 1 && Pow2(1) == 2 && Pow2(2) == 4 && Pow2(3) == 8
    ensures Pow2(4) == 0x10 && Pow2(5) == 0x20 && Pow2(6) == 0x40 && Pow2(8) == 0x100
    ensures Pow2(32) == 0x1_0000_0000
  {
    assert Pow2(7) == 0x80;
    assert Pow2(8) == 0x100;
    Pow2Add(8, 8);
    Pow2Add(16, 16);
  }

  lemma PosSlotFits(dist: nat)
    requires dist < 0x1_0000_0000
    ensures PosSlot(dist) < 64
  {
    SmallPowers();
    PosSlotBelow(dist, 31);
  }

  /** The prefix of `t` extended by its next bit is the longer prefix. */
  lemma NextNode(t: nat, left: nat)
    requires left > 0
    ensures 2 * Prefix(t, left) + B(BitAt(t, left)) == Prefix(t, left - 1)
    ensures Prefix(t, 0) == t
  {
    PrefixBit(t, left);
  }

  lemma NextLow(t: nat, k: nat)
    ensures Suffix(t, k) + B(BitAt(t, k + 1)) * Pow2(k) == Suffix(t, k + 1)
  {
    SuffixBit(t, k);
  }

  /** Putting the top bits and the footer of a distance together again. */
  lemma Reassemble(t: nat, k: nat)
    ensures Prefix(t, k) * Pow2(k) + Suffix(t, k) == t
  {
  }

  lemma LenLeafShape(len: nat)
    requires 2 <= len <= 273
    ensures var bank := BankFor(len);
      && Prefix(LenLeaf(len), BankBits(bank)) == 1
      && LenLeaf(len) == (if bank == High then 0x100 else 8) + (len - 2 - BankStart(bank))
      && LenLeaf(len) % (if bank == High then 0x100 else 8) == len - 2 - BankStart(bank)
  {
    SmallPowers();
  }

  lemma StaysOnPathLiteral(p: Phase, ctx: Ctx, sym: Sym)
    requires OnPath(p, sym) && p.AtLiteral?
    ensures OnPath(Advance(p, ctx, BitFor(p, sym)), sym)
  {
    NextNode(0x100 + sym.b, p.left);
    hide Prefix, BitAt;
  }

  /** With its slot tree ahead, a match is at the root of that tree. */
  lemma SlotTreeAhead(sym: Sym)
    requires ValidSym(sym) && sym.Match?
    ensures OnPath(AtSlot(sym.len, 6, 1), sym)
  {
    SmallPowers();
    PosSlotFits(sym.dist);
    hide Pow2, PosSlot;
    assert (64 + PosSlot(sym.dist)) / 64 == 1;
  }

  lemma LenNext(len: nat, left: nat)
    requires 2 <= len <= 273 && left >= 1
    ensures var next := 2 * Prefix(LenLeaf(len), left) + B(BitAt(LenLeaf(len), left));
      && next == Prefix(LenLeaf(len), left - 1)
      && (left == 1 ==>
            2 + BankStart(BankFor(len)) + next % (if BankFor(len) == High then 0x100 else 8) == len)
  {
    NextNode(LenLeaf(len), left);
    LenLeafShape(len);
    hide Prefix, BitAt, LenLeaf;
  }

  lemma StaysOnPathLength(p: Phase, ctx: Ctx, sym: Sym)
    requires OnPath(p, sym) && p.AtLenTree?
    ensures OnPath(Advance(p, ctx, BitFor(p, sym)), sym)
  {
    var len := SymLen(sym);
    LenNext(len, p.left);
    if p.src.MatchLen? { SlotTreeAhead(sym); }
    hide Prefix, BitAt, LenLeaf;
    if p.left <= 1 {
      assert Advance(p, ctx, BitFor(p, sym)) == AfterLength(p.src, len);
    } else {
      assert Advance(p, ctx, BitFor(p, sym)) == AtLenTree(p.src, p.bank, p.left - 1, Prefix(LenLeaf(len), p.left - 1));
    }
  }

  lemma SlotNext(sym: Sym, left: nat)
    requires sym.Match? && ValidSym(sym) && left >= 1
    ensures var t := 64 + PosSlot(sym.dist);
      var next := 2 * Prefix(t, left) + B(BitAt(t, left));
      next == Prefix(t, left - 1) && (left == 1 ==> next % 64 == PosSlot(sym.dist))
  {
    NextNode(64 + PosSlot(sym.dist), left);
    PosSlotFits(sym.dist);
    hide Prefix, BitAt, PosSlot;
  }

  lemma StaysOnPathSlot(p: Phase, ctx: Ctx, sym: Sym)
    requires OnPath(p, sym) && p.AtSlot?
    ensures OnPath(Advance(p, ctx, BitFor(p, sym)), sym)
  {
    SlotNext(sym, p.left);
    SlotLeads(sym);
    hide Prefix, BitAt, PosSlot, AfterSlot;
    if p.left > 1 {
      assert Advance(p, ctx, BitFor(p, sym)) == AtSlot(p.len, p.left - 1, Prefix(64 + PosSlot(sym.dist), p.left - 1));
    }
  }

  lemma SlotLeads(sym: Sym)
    requires ValidSym(sym) && sym.Match?
    ensures OnPath(AfterSlot(sym.len, PosSlot(sym.dist)), sym)
  {
    SmallPowers();
    if sym.dist >= 4 {
      PosSlotTop(sym.dist);
    }
  }

  lemma StaysOnPathSpec(p: Phase, ctx: Ctx, sym: Sym)
    requires OnPath(p, sym) && p.AtSpec?
    ensures OnPath(Advance(p, ctx, BitFor(p, sym)), sym)
  {
    NextLow(sym.dist, p.k);
    PosSlotAtLeast4(sym.dist);
    PosSlotTop(sym.dist);
    Reassemble(sym.dist, FooterBits(p.slot));
    assert Prefix(sym.dist, FooterBits(p.slot)) == 2 + p.slot % 2;
    hide Prefix, Suffix, BitAt, PosSlot, Pow2;
  }

  lemma PosSlotAtLeast4(dist: nat)
    ensures PosSlot(dist) >= 4 ==> dist >= 4
  {
  }

  lemma AlignNext(dist: nat, k: nat)
    ensures var next := Suffix(dist, k) + B(BitAt(dist, k + 1)) * Pow2(k);
      next == Suffix(dist, k + 1) && (k == 3 ==> 16 * Prefix(dist, 4) + next == dist)
  {
    NextLow(dist, k);
    Reassemble(dist, 4);
    assert Pow2(4) == 16;
    hide Prefix, Suffix, BitAt, Pow2;
  }

  lemma StaysOnPathAlign(p: Phase, ctx: Ctx, sym: Sym)
    requires OnPath(p, sym) && p.AtAlign?
    ensures OnPath(Advance(p, ctx, BitFor(p, sym)), sym)
  {
    AlignNext(sym.dist, p.k);
    hide Prefix, Suffix, BitAt, Pow2;
  }

  lemma StaysOnPathDirect(p: Phase, ctx: Ctx, sym: Sym)
    requires OnPath(p, sym) && p.AtDirect?
    ensures OnPath(Advance(p, ctx, BitFor(p, sym)), sym)
  {
    NextNode(sym.dist, 4 + p.left);
    assert Suffix(sym.dist, 0) == 0;
    hide Prefix, Suffix, BitAt;
  }

  /** Giving the bits of a symbol keeps the walk on the path to that symbol. */
  lemma StaysOnPath(p: Phase, ctx: Ctx, sym: Sym)
    requires OnPath(p, sym) && !p.Done?
    ensures OnPath(Advance(p, ctx, BitFor(p, sym)), sym)
  {
    match p
    case AtLiteral(_, _, _, _) => StaysOnPathLiteral(p, ctx, sym);
    case AtLenTree(_, _, _, _) => StaysOnPathLength(p, ctx, sym);
    case AtSlot(_, _, _) => StaysOnPathSlot(p, ctx, sym);
    case AtSpec(_, _, _, _) => StaysOnPathSpec(p, ctx, sym);
    case AtDirect(_, _, _) => StaysOnPathDirect(p, ctx, sym);
    case AtAlign(_, _, _, _) => StaysOnPathAlign(p, ctx, sym);
    case _ => StaysOnPathSwitch(p, ctx, sym);
  }

  lemma StaysOnPathSwitch(p: Phase, ctx: Ctx, sym: Sym)
    requires OnPath(p, sym) && (Stage(p) >= 5)
    ensures OnPath(Advance(p, ctx, BitFor(p, sym)), sym)
  {
    if p.AtIsMatch? {
      assert Pow2(8) == 0x100;
      assert sym.Literal? ==> Prefix(0x100 + sym.b, 8) == 1;
    } else if p.AtLenChoice? || p.AtLenChoice2? {
      LenLeafShape(SymLen(sym));
      hide Prefix, LenLeaf;
    }
  }
}
