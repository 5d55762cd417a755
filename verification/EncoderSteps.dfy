/**
 The arithmetic of the encoder's loops: how shifting words about yields the nodes and bits
 that the walk of the symbol machine asks for.
 */
module EncoderSteps {
  import opened Bytes
  import opened Powers
  import opened RangeCoder
  import opened Symbols
  import opened SymbolCoder
  import opened SymbolBounds
  import opened Layout
  import opened Cells
  import opened Lz
  import opened Distances

  /** The symbol being coded, and its context. */
  datatype Goal = Goal(ctx: Ctx, sym: Sym)

  /** The leaf the walk of `sym` is heading for in the tree of `p`. */
  function LeafOf(p: Phase, sym: Sym): nat {
    if p.AtLiteral? then (if sym.Literal? then 0x100 + sym.b else 0)
    else if p.AtLenTree? then LenLeaf(SymLen(sym))
    else 64 + PosSlot(DistOf(sym))
  }

  /** A symbol that is shifted left bit by bit shows its nodes and bits at fixed places. */
  function Shifted(leaf: nat, n: nat): nat {
    leaf * Pow2(n)
  }

  lemma ShiftedPrefix(leaf: nat, n: nat, left: nat)
    ensures Prefix(Shifted(leaf, n), left + n) == Prefix(leaf, left)
  {
    Pow2Add(left, n);
    Cancel(leaf, Pow2(left), Pow2(n));
  }

  lemma ShiftedTwice(leaf: nat, n: nat)
    ensures 2 * Shifted(leaf, n) == Shifted(leaf, n + 1)
  {
  }

  lemma ShiftedGuard(leaf: nat, bits: nat, n: nat)
    requires n <= bits && Pow2(bits) <= leaf < 2 * Pow2(bits)
    ensures n < bits <==> Shifted(leaf, n) < Pow2(2 * bits)
  {
    Pow2Add(bits, bits);
    if n < bits {
      Pow2Add(bits, n + 1);
      Pow2Step(n);
      Pow2Monotone(bits + n + 1, 2 * bits);
      hide Pow2;
      MulBelow(leaf, Pow2(bits), Pow2(n));
    } else {
      MulMonotone(Pow2(n), Pow2(bits), leaf);
    }
  }

  lemma MulBelow(a: nat, b: nat, p: nat)
    requires a < 2 * b && p > 0
    ensures a * p < b * (2 * p)
  {
  }

  lemma QuotientRange(t: nat, p: nat, high: nat)
    requires 2 <= p <= high <= t < 2 * high
    ensures 1 <= t / p < high
  {
    var q, r := t / p, t % p;
    assert t == p * q + r;
    MulMonotone(p, high, q);
    MulMonotone(high, 2, p);
    MulMonotone(p, q, 0);
  }

  lemma PrefixRange(leaf: nat, bits: nat, left: nat)
    requires 1 <= left <= bits && Pow2(bits) <= leaf < 2 * Pow2(bits)
    ensures 1 <= Prefix(leaf, left) < Pow2(bits)
  {
    Pow2Monotone(1, left);
    Pow2Monotone(left, bits);
    assert Pow2(1) == 2;
    QuotientRange(leaf, Pow2(left), Pow2(bits));
  }

  lemma ShiftedSteps(leaf: nat, bits: nat, left: nat)
    requires 1 <= left <= bits && Pow2(bits) <= leaf < 2 * Pow2(bits)
    ensures var sym := Shifted(leaf, bits - left);
      && sym < Pow2(2 * bits)
      && Prefix(sym, bits) == Prefix(leaf, left) && BitAt(sym, bits) == BitAt(leaf, left)
      && 2 * sym == Shifted(leaf, bits - (left - 1))
      && 1 <= Prefix(leaf, left) < Pow2(bits)
  {
    var n := bits - left;
    ShiftedPrefix(leaf, n, left);
    ShiftedPrefix(leaf, n, left - 1);
    ShiftedTwice(leaf, n);
    ShiftedGuard(leaf, bits, n);
    PrefixRange(leaf, bits, left);
    BitOfPrefix(leaf, left);
    BitOfPrefix(Shifted(leaf, n), bits);
    hide Prefix, Shifted, BitAt, Pow2;
  }

  lemma ShiftedStart(leaf: nat, bits: nat)
    requires Pow2(bits) <= leaf < 2 * Pow2(bits)
    ensures Shifted(leaf, 0) == leaf && Prefix(leaf, bits) == 1
    ensures Shifted(leaf, bits) >= Pow2(2 * bits)
  {
    ShiftedGuard(leaf, bits, bits);
    DivIs(leaf, Pow2(bits), 1);
  }

  lemma BitOfPrefix(t: nat, left: nat)
    requires left > 0
    ensures BitAt(t, left) == (Prefix(t, left - 1) % 2 == 1)
  {
  }

  lemma Cancel(t: nat, p: nat, q: nat)
    requires p > 0 && q > 0
    ensures t * q / (p * q) == t / p
  {
    var d, r := t / p, t % p;
    assert t * q == p * q * d + r * q by { assert t == p * d + r; }
    assert r * q < p * q;
    ModIs(t * q, p * q, d, r * q);
  }

  lemma TreeStep(p: Phase, ctx: Ctx, sym: Sym, left: nat, leaf: nat)
    requires InTree(p) && left >= 1 && leaf == LeafOf(p, sym)
    requires p.AtLiteral? ==> sym.Literal?
    ensures var q := AtNode(p, left, Prefix(leaf, left));
      && BitFor(q, sym) == BitAt(leaf, left)
      && Advance(q, ctx, BitAt(leaf, left)) ==
         (if left == 1 then TreeEnd(p, leaf) else AtNode(p, left - 1, Prefix(leaf, left - 1)))
  {
    NextNode(leaf, left);
    hide Prefix, BitAt, LenLeaf, PosSlot, Pow2, FooterBits, AfterSlot, AfterLength;
  }

  // ---------- Matched literals ----------

  lemma MatchedStep(ctx: Ctx, sym: Sym, left: nat, agree: bool, rest: byte)
    requires sym.Literal? && 1 <= left <= 8
    ensures var leaf := 0x100 + sym.b;
      var q := AtLiteral(left, Prefix(leaf, left), agree, rest);
      var bit := BitAt(leaf, left);
      && BitFor(q, sym) == bit
      && Advance(q, ctx, bit) ==
         (if left == 1 then Done(sym)
          else AtLiteral(left - 1, Prefix(leaf, left - 1), agree && bit == (rest >= 0x80), 2 * rest % 0x100))
  {
    NextNode(0x100 + sym.b, left);
    hide Prefix, BitAt;
  }

  lemma SymByteStep(sym: nat)
    ensures Bit8(2 * sym) == BitAt(sym, 8)
  {
    assert Pow2(7) == 0x80;
  }

  /** `offs & ~(matchByte ^ sym)` */
  function StillAgreeing(offs: nat, mb: nat, sym: nat): (r: nat)
    ensures r == offs || r == 0
  {
    if Bit8(mb) == Bit8(sym) then offs else 0
  }

  /** The phase of the loop over a matched literal, from the variables of the loop. */
  function MatchedPhase(leaf: nat, left: nat, mb: nat, offs: nat): Phase {
    if left == 0 then Done(Literal(leaf % 0x100)) else AtLiteral(left, Prefix(leaf, left), offs == 0x100, mb % 0x100)
  }

  /** What the variables of that loop are with `left` bits to go. */
  ghost predicate MatchedVars(b: byte, left: nat, sym: nat, offs: nat) {
    left <= 8 && sym == Shifted(0x100 + b, 8 - left) && (offs == 0x100 || offs == 0)
  }

  lemma MatchedStart(b: byte, mb: byte)
    ensures MatchedPhase(0x100 + b, 8, mb, 0x100) == AtLiteral(8, 1, true, mb)
    ensures MatchedVars(b, 8, 0x100 + b, 0x100)
  {
    assert Pow2(8) == 0x100;
    ShiftedStart(0x100 + b, 8);
  }

  lemma MatchedGuard(b: byte, left: nat, sym: nat, mb: nat, offs: nat)
    requires MatchedVars(b, left, sym, offs)
    ensures left > 0 <==> sym < 0x1_0000
    ensures left == 0 ==> MatchedPhase(0x100 + b, left, mb, offs) == Done(Literal(b))
  {
    SmallPowers();
    Pow2Add(8, 8);
    ShiftedGuard(0x100 + b, 8, 8 - left);
  }

  /** One iteration of that loop, on its variables. */
  lemma MatchedIteration(ctx: Ctx, b: byte, left: nat, sym: nat, mb: nat, offs: nat)
    requires left > 0 && MatchedVars(b, left, sym, offs)
    ensures offs == 0x100 || offs == 0
    ensures MatchedVars(b, left - 1, 2 * sym, StillAgreeing(offs, 2 * mb, 2 * sym))
    ensures var p, bit := MatchedPhase(0x100 + b, left, mb, offs), BitAt(sym, 8);
      && p == AtLiteral(left, Prefix(sym, 8), offs == 0x100, mb % 0x100) && 1 <= p.node < 0x100
      && bit == BitFor(p, Literal(b))
      && Advance(p, ctx, bit) == MatchedPhase(0x100 + b, left - 1, 2 * mb, StillAgreeing(offs, 2 * mb, 2 * sym))
  {
    hide Prefix, BitAt, Shifted, Pow2, Advance, BitFor, Bit8;
    MatchedSym(b, left, sym);
    MatchByteStep(mb);
    SymByteStep(sym);
    MatchedStep(ctx, Literal(b), left, offs == 0x100, mb % 0x100);
  }

  lemma MatchedSym(b: byte, left: nat, sym: nat)
    requires 1 <= left <= 8 && sym == Shifted(0x100 + b, 8 - left)
    ensures Prefix(sym, 8) == Prefix(0x100 + b, left) && BitAt(sym, 8) == BitAt(0x100 + b, left)
    ensures 2 * sym == Shifted(0x100 + b, 8 - (left - 1)) && 1 <= Prefix(0x100 + b, left) < 0x100
  {
    assert Pow2(8) == 0x100;
    ShiftedSteps(0x100 + b, 8, left);
  }

  /** The array element that iteration uses. */
  lemma MatchedIndex(props: Props, ctx: Ctx, left: nat, node: nat, mb: nat, offs: nat)
    requires 1 <= node < 0x100 && ctx.litCtx < Pow2(props.lc + props.lp) && (offs == 0x100 || offs == 0)
    ensures var c := Query(AtLiteral(left, node, offs == 0x100, mb % 0x100), ctx).cell;
      ValidCell(props, c)
      && Index(Encoder, props, c) == Start(Encoder, 11) + 0x300 * ctx.litCtx + offs + And100(2 * mb, offs) + node
  {
    MatchByteStep(mb);
    LiteralCell(Encoder, props, ctx, left, node, offs == 0x100, mb % 0x100);
    hide ValidCell, Index, Bit8, Pow2;
  }

  // ---------- Reverse trees ----------

  lemma ReverseStep(p: Phase, ctx: Ctx, sym: Sym, k: nat)
    requires InReverse(p) && k < ReverseBits(p) && sym.Match?
    ensures var q := AtDepth(p, k, Suffix(sym.dist, k));
      var bit := BitAt(sym.dist, k + 1);
      && BitFor(q, sym) == bit
      && Advance(q, ctx, bit) ==
         (if k + 1 == ReverseBits(p) then ReverseEnd(p, Suffix(sym.dist, k + 1))
          else AtDepth(p, k + 1, Suffix(sym.dist, k + 1)))
  {
    NextLow(sym.dist, k);
    hide Suffix, BitAt, Pow2;
  }

  /** Appending an arriving bit to the node number. */
  lemma ReversedAppends(dist: nat, k: nat)
    ensures Reversed(k + 1, Suffix(dist, k + 1)) == 2 * Reversed(k, Suffix(dist, k)) + B(BitAt(dist, k + 1))
    ensures ReverseNode(Encoder, k + 1, Suffix(dist, k + 1)) ==
            2 * ReverseNode(Encoder, k, Suffix(dist, k)) + B(BitAt(dist, k + 1))
  {
    var p := Pow2(k);
    NextLow(dist, k);
    var low, b := dist % p, B(BitAt(dist, k + 1));
    ModIs(low + b * p, p, b, low);
    assert Suffix(dist, k + 1) == low + b * p;
    hide BitAt;
  }

  lemma ReverseStart(p: Phase, sym: nat)
    requires InReverse(p)
    ensures ReverseBits(p) > 0
    ensures Prefix(sym, 0) == sym && Suffix(sym, 0) == 0 && ReverseNode(Encoder, 0, 0) == 1
  {
    assert Pow2(0) == 1;
  }

  lemma ReverseIteration(props: Props, p: Phase, g: Goal, k: nat)
    requires InReverse(p) && k < ReverseBits(p) && g.sym.Match?
    ensures var dist := g.sym.dist;
      var q, bit := AtDepth(p, k, Suffix(dist, k)), Prefix(dist, k) % 2 == 1;
      && !q.Done? && Query(q, g.ctx).Model? && ValidCell(props, Query(q, g.ctx).cell)
      && Index(Encoder, props, Query(q, g.ctx).cell) == ReverseBase(Encoder, p) + ReverseNode(Encoder, k, Suffix(dist, k))
      && bit == BitFor(q, g.sym)
      && Prefix(dist, k) / 2 == Prefix(dist, k + 1)
      && ReverseNode(Encoder, k + 1, Suffix(dist, k + 1)) == 2 * ReverseNode(Encoder, k, Suffix(dist, k)) + B(bit)
      && Advance(q, g.ctx, bit) ==
         (if k + 1 == ReverseBits(p) then ReverseEnd(p, Suffix(dist, k + 1)) else AtDepth(p, k + 1, Suffix(dist, k + 1)))
  {
    var dist := g.sym.dist;
    ReverseStep(p, g.ctx, g.sym, k);
    ReversedAppends(dist, k);
    BitOfPrefix(dist, k + 1);
    NextNode(dist, k + 1);
    assert Suffix(dist, k) < Pow2(k);
    ReverseCells(Encoder, props, p, g.ctx, k, Suffix(dist, k));
    hide Prefix, Suffix, BitAt, Pow2, ReverseNode, ReverseEnd, ValidCell, Index, ReverseBase, Advance, BitFor;
  }

  // ---------- Lengths ----------

  /** The leaf of a length, from the symbol number the source hands to its tree. */
  lemma LenLeaves(len: nat)
    requires 2 <= len <= 273
    ensures len < 10 ==> LenLeaf(len) == 8 + (len - 2) && BankFor(len) == Low
    ensures 10 <= len < 18 ==> LenLeaf(len) == 8 + (len - 10) && BankFor(len) == Mid
    ensures 18 <= len ==> LenLeaf(len) == 0x100 + (len - 18) && BankFor(len) == High
    ensures var bank := BankFor(len);
      && Pow2(BankBits(bank)) <= LenLeaf(len) < 2 * Pow2(BankBits(bank))
      && forall src :: TreeEnd(AtLenTree(src, bank, BankBits(bank), 1), LenLeaf(len)) == AfterLength(src, len)
  {
    SmallPowers();
    hide Pow2, AfterLength;
  }

  // ---------- Direct bits ----------

  /** `(dist | 0xF) << (32 - n)`: the last n bits at the top of a word. */
  function TopAligned(x: nat, n: nat): nat
    requires n <= 32
  {
    Suffix(x, n) * Pow2(32 - n)
  }

  /** The distance with its last four bits set, which mark where the loop has to end. */
  function Marked(dist: nat): nat {
    16 * Prefix(dist, 4) + 15
  }

  lemma TopAlignedStep(x: nat, n: nat)
    requires 1 <= n <= 32
    ensures (TopAligned(x, n) >= 0x8000_0000) == BitAt(x, n)
    ensures 2 * TopAligned(x, n) % 0x1_0000_0000 == TopAligned(x, n - 1)
  {
    SmallPowers();
    var p, q := Pow2(n - 1), Pow2(32 - n);
    Pow2Add(n - 1, 32 - n);
    assert Pow2(31) == 0x8000_0000 by { Pow2Step(31); }
    var low, b := Suffix(x, n - 1), B(BitAt(x, n));
    NextLow(x, n - 1);
    assert Suffix(x, n) == low + b * p;
    assert low < p;
    assert Pow2(32 - (n - 1)) == 2 * q by { Pow2Step(32 - n); }
    TopArithmetic(low, b, p, q);
    hide Suffix, BitAt, Pow2;
  }

  lemma TopArithmetic(low: nat, b: nat, p: nat, q: nat)
    requires low < p && b <= 1 && p * q == 0x8000_0000
    ensures ((low + b * p) * q >= 0x8000_0000) == (b == 1)
    ensures 2 * ((low + b * p) * q) % 0x1_0000_0000 == low * (2 * q)
  {
    assert low * q < p * q;
    assert (low + b * p) * q == low * q + b * (p * q);
    assert low * (2 * q) == 2 * (low * q);
  }

  /** The mark is at the top exactly when four bits are left. */
  lemma MarkAtTop(dist: nat, n: nat)
    requires 4 <= n <= 32
    ensures TopAligned(Marked(dist), n) == 0xF000_0000 <==> n == 4
  {
    SmallPowers();
    assert Pow2(28) == 0x1000_0000 by { Pow2Add(8, 8); Pow2Add(16, 8); Pow2Add(24, 4); }
    var x := Marked(dist);
    if n == 4 {
      assert Suffix(x, 4) == 15;
    } else {
      MarkNotAtTop(x, n);
    }
  }

  lemma MarkNotAtTop(x: nat, n: nat)
    requires 5 <= n <= 32 && x % 2 == 1
    ensures TopAligned(x, n) != 0xF000_0000
  {
    var q := Pow2(32 - n);
    var t := Suffix(x, n);
    SuffixOdd(x, n);
    assert Pow2(28) == 0x1000_0000 by { SmallPowers(); Pow2Add(8, 8); Pow2Add(16, 8); Pow2Add(24, 4); }
    Pow2Add(32 - n, n - 4);
    Pow2Step(n - 5);
    var h := Pow2(n - 5);
    assert q * (2 * h) == 0x1000_0000;
    OddTimes(t, q, h);
    hide Pow2, Suffix;
  }

  lemma OddTimes(t: nat, q: nat, h: nat)
    requires t % 2 == 1 && q * (2 * h) == 0x1000_0000
    ensures t * q != 0xF000_0000
  {
    if t * q == 0xF000_0000 {
      assert t * q == 15 * (q * (2 * h)) == q * (30 * h);
      assert q > 0;
      CancelFactor(t, 30 * h, q);
    }
  }

  lemma CancelFactor(a: nat, b: nat, q: nat)
    requires q > 0 && a * q == q * b
    ensures a == b
  {
  }

  lemma SuffixOdd(x: nat, n: nat)
    requires n >= 1
    ensures Suffix(x, n) % 2 == x % 2
  {
    Reassemble(x, n);
    Pow2Step(n - 1);
    var p, q := Pow2(n - 1), Prefix(x, n);
    assert q * (2 * p) == 2 * (q * p);
  }

  /** Above its last four bits, marking a distance changes nothing. */
  lemma MarkedBits(dist: nat, n: nat)
    requires n >= 5
    ensures BitAt(Marked(dist), n) == BitAt(dist, n)
  {
    Reassemble(dist, 4);
    assert Pow2(4) == 16;
    MarkedPrefix(dist, n - 1);
    BitOfPrefix(dist, n);
    BitOfPrefix(Marked(dist), n);
  }

  lemma MarkedPrefix(dist: nat, n: nat)
    requires n >= 4
    ensures Prefix(Marked(dist), n) == Prefix(dist, n)
  {
    assert Pow2(4) == 16;
    Pow2Add(4, n - 4);
    PrefixOfPrefix(dist, n - 4);
    PrefixOfPrefix(Marked(dist), n - 4);
    assert Prefix(Marked(dist), 4) == Prefix(dist, 4);
  }

  lemma PrefixOfPrefix(t: nat, n: nat)
    ensures Prefix(t, 4 + n) == Prefix(Prefix(t, 4), n)
  {
    assert Pow2(4) == 16;
    Pow2Add(4, n);
    var p := Pow2(n);
    var d, r := t / 16 / p, t / 16 % p;
    assert t / 16 == p * d + r;
    assert t == 16 * p * d + (16 * r + t % 16);
    ModIs(t, 16 * p, d, 16 * r + t % 16);
  }

  /** `x << n` in a 32-bit word. */
  function ShiftLeft32(x: nat, n: nat): nat {
    x * Pow2(n) % 0x1_0000_0000
  }

  /** Shifting a word left keeps its last bits, at the top. */
  lemma TopAlignedIs(x: nat, n: nat)
    requires n <= 32
    ensures ShiftLeft32(x, 32 - n) == TopAligned(x, n)
  {
    SmallPowers();
    Pow2Add(n, 32 - n);
    Reassemble(x, n);
    assert Suffix(x, n) < Pow2(n);
    WordShift(x, Pow2(n), Pow2(32 - n), Prefix(x, n), Suffix(x, n));
  }

  lemma WordShift(x: nat, p: nat, q: nat, d: nat, r: nat)
    requires p * q == 0x1_0000_0000 && d * p + r == x && r < p
    ensures x * q % 0x1_0000_0000 == r * q
  {
    assert (d * p + r) * q == d * (p * q) + r * q;
    assert r * q < p * q;
    ModIs(x * q, 0x1_0000_0000, d, r * q);
  }

  ghost predicate DirectVars(dist: nat, n: nat, pos2: nat) {
    4 <= n <= 32 && pos2 == TopAligned(Marked(dist), n)
  }

  /** One pass of the loop over the direct bits. */
  lemma DirectIteration(p: Phase, ctx: Ctx, sym: Sym, n: nat, pos2: nat)
    requires sym.Match? && DirectVars(sym.dist, n, pos2) && n >= 5
    requires p.AtDirect? && p.left == n - 4 && p.acc == Prefix(sym.dist, n)
    ensures var bit := pos2 >= 0x8000_0000;
      && bit == BitFor(p, sym)
      && DirectVars(sym.dist, n - 1, 2 * pos2 % 0x1_0000_0000)
      && (2 * pos2 % 0x1_0000_0000 == 0xF000_0000 <==> n == 5)
      && Advance(p, ctx, bit) ==
         (if n == 5 then AtAlign(p.len, Prefix(sym.dist, 4), 0, 0) else AtDirect(p.len, n - 5, Prefix(sym.dist, n - 1)))
  {
    TopAlignedStep(Marked(sym.dist), n);
    MarkAtTop(sym.dist, n - 1);
    MarkedBits(sym.dist, n);
    NextNode(sym.dist, n);
    hide TopAligned, Marked, BitAt, Prefix, Pow2;
  }

  lemma SlotLeaf(len: nat, dist: nat)
    requires dist < 0x1_0000_0000
    ensures PosSlot(dist) < 64
    ensures Pow2(6) <= 64 + PosSlot(dist) < 2 * Pow2(6)
    ensures TreeEnd(AtSlot(len, 6, 1), 64 + PosSlot(dist)) == AfterSlot(len, PosSlot(dist))
    ensures LeafOf(AtSlot(len, 6, 1), Match(len, dist)) == 64 + PosSlot(dist)
  {
    assert Pow2(6) == 64;
    PosSlotFits(dist);
    hide Pow2, PosSlot;
    LastSixBits(PosSlot(dist));
    hide AfterSlot;
  }

  lemma LastSixBits(x: nat)
    requires x < 64
    ensures (64 + x) % 64 == x
  {
  }

  /** Where a match stands after its slot, for each of the three kinds of distance. */
  lemma AfterSlotOf(len: nat, dist: nat)
    requires dist < 0x1_0000_0000
    ensures var slot := PosSlot(dist);
      && (dist < 4 ==> AfterSlot(len, slot) == Done(Match(len, dist)))
      && (4 <= dist < 128 ==>
            && 4 <= slot < 14 && AfterSlot(len, slot) == AtSpec(len, slot, 0, 0)
            && SpecBase(slot) + Suffix(dist, FooterBits(slot)) == dist)
      && (128 <= dist ==>
            && 14 <= slot < 64 && 6 <= FooterBits(slot) <= 30
            && AfterSlot(len, slot) == AtDirect(len, FooterBits(slot) - 4, Prefix(dist, FooterBits(slot))))
  {
    PosSlotFits(dist);
    IntervalOfSlot(dist);
    if 4 <= dist {
      PosSlotTop(dist);
      assert Pow2(7) == 128;
      if dist < 128 {
        PosSlotBelow(dist, 6);
      } else {
        SlotAtLeast14(dist);
      }
    }
    hide Suffix, PosSlot, Pow2;
  }

  lemma SlotAtLeast14(dist: nat)
    requires dist >= 128
    ensures PosSlot(dist) >= 14
  {
    IntervalOfSlot(dist);
    assert Pow2(0) == 1;
    if 4 <= PosSlot(dist) < 14 {
      SpecBases(PosSlot(dist));
    }
  }

  lemma ReverseEndIs(p: Phase, sym: Sym)
    requires InReverse(p) && sym.Match? && p.len == sym.len
    requires p.AtSpec? ==> SpecBase(p.slot) + Suffix(sym.dist, FooterBits(p.slot)) == sym.dist
    requires p.AtAlign? ==> p.hi == Prefix(sym.dist, 4)
    ensures ReverseEnd(p, Suffix(sym.dist, ReverseBits(p))) == Done(sym)
  {
    Reassemble(sym.dist, 4);
    assert Pow2(4) == 16;
  }

  lemma LiteralLeaf(b: byte)
    ensures Pow2(8) <= 0x100 + b < 2 * Pow2(8)
    ensures TreeEnd(AtLiteral(8, 1, false, 0), 0x100 + b) == Done(Literal(b))
  {
    assert Pow2(8) == 0x100;
  }

  /** The symbol that a length and the encoder's code for a distance stand for, before byte `b`. */
  function ChoiceSym(b: byte, len: nat, back: nat): Sym {
    if back == 0xFFFF_FFFF then Literal(b)
    else if back >= 4 then Match(len, back - 4)
    else if back == 0 && len == 1 then ShortRep
    else Rep(back, len)
  }
}
