/**
 What holds of one symbol decoded from arbitrary input: the symbol is well-formed, it
 takes at most 20 bytes, and no probability is consulted twice, so a walk that does not
 update the model sees the same bits as one that does.
 */
module SymbolBounds {
  import opened Bytes
  import opened Powers
  import opened RangeCoder
  import opened Symbols
  import opened SymbolCoder

  // ---------- Well-formed phases ----------

  ghost predicate TreeNode(bits: nat, left: nat, node: nat) {
    1 <= left <= bits && Pow2(bits - left) <= node < 2 * Pow2(bits - left)
  }

  ghost predicate WfLen(len: nat) {
    2 <= len <= 273
  }

  ghost predicate WfSource(src: LenSource) {
    src.RepLen? ==> src.index < 4
  }

  ghost predicate Wf(p: Phase) {
    match p
    case AtLiteral(left, node, _, _) => TreeNode(8, left, node)
    case AtLenChoice(src) => WfSource(src)
    case AtLenChoice2(src) => WfSource(src)
    case AtLenTree(src, bank, left, node) => WfSource(src) && TreeNode(BankBits(bank), left, node)
    case AtSlot(len, left, node) => WfLen(len) && TreeNode(6, left, node)
    case AtSpec(len, slot, k, low) => WfLen(len) && 4 <= slot < 14 && k < FooterBits(slot) && low < Pow2(k)
    case AtDirect(len, left, acc) => WfLen(len) && 1 <= left <= 26 && acc < Pow2(28 - left)
    case AtAlign(len, hi, k, low) => WfLen(len) && hi < 0x1000_0000 && k < 4 && low < Pow2(k)
    case Done(sym) => ValidSym(sym)
    case _ => true
  }

  lemma NextTreeNode(bits: nat, left: nat, node: nat, bit: bool)
    requires TreeNode(bits, left, node)
    ensures left > 1 ==> TreeNode(bits, left - 1, 2 * node + B(bit))
    ensures left == 1 ==> Pow2(bits) <= 2 * node + B(bit) < 2 * Pow2(bits)
  {
    var n := bits - left;
    Pow2Step(n);
    hide Pow2;
    assert bits - (left - 1) == n + 1;
    assert Pow2(n + 1) <= 2 * node + B(bit) < 2 * Pow2(n + 1);
  }

  lemma NextSuffix(k: nat, low: nat, bit: bool)
    requires low < Pow2(k)
    ensures low + B(bit) * Pow2(k) < Pow2(k + 1)
  {
  }

  lemma AfterSlotWf(len: nat, slot: nat)
    requires WfLen(len) && slot < 64
    ensures Wf(AfterSlot(len, slot))
  {
    if slot >= 14 {
      assert Pow2(2) == 4;
      Pow2Monotone(2, 28 - (slot / 2 - 5));
    }
    assert Pow2(0) == 1;
  }

  lemma SpecDistFits(slot: nat, low: nat)
    requires 4 <= slot < 14 && low < Pow2(FooterBits(slot))
    ensures (2 + slot % 2) * Pow2(FooterBits(slot)) + low < 0x100
  {
    SmallPowers();
    Pow2Monotone(FooterBits(slot), 5);
    var p := Pow2(FooterBits(slot));
    assert (2 + slot % 2) * p <= 3 * p;
  }

  lemma DirectNext(left: nat, acc: nat, bit: bool)
    requires 1 <= left <= 26 && acc < Pow2(28 - left)
    ensures left > 1 ==> 2 * acc + B(bit) < Pow2(28 - (left - 1))
    ensures left == 1 ==> 2 * acc + B(bit) < 0x1000_0000
  {
    assert Pow2(29 - left) == 2 * Pow2(28 - left);
    if left == 1 {
      SmallPowers();
      Pow2Add(8, 8);
      Pow2Add(16, 12);
      Pow2Add(8, 4);
    }
  }

  lemma AdvanceKeepsWfFooter(p: Phase, ctx: Ctx, bit: bool)
    requires Wf(p) && (p.AtSpec? || p.AtDirect? || p.AtAlign?)
    ensures Wf(Advance(p, ctx, bit))
  {
    match p
    case AtSpec(len, slot, k, low) =>
      NextSuffix(k, low, bit);
      if k + 1 >= FooterBits(slot) { SpecDistFits(slot, low + B(bit) * Pow2(k)); }
      hide Pow2;
    case AtDirect(len, left, acc) =>
      DirectNext(left, acc, bit);
      assert Pow2(0) == 1;
      hide Pow2;
    case AtAlign(len, hi, k, low) =>
      NextSuffix(k, low, bit);
      assert Pow2(4) == 16;
      hide Pow2;
  }

  lemma AdvanceKeepsWf(p: Phase, ctx: Ctx, bit: bool)
    requires Wf(p) && !p.Done?
    ensures Wf(Advance(p, ctx, bit))
  {
    if p.AtSpec? || p.AtDirect? || p.AtAlign? {
      AdvanceKeepsWfFooter(p, ctx, bit);
    } else {
      AdvanceKeepsWfTree(p, ctx, bit);
    }
  }

  lemma AdvanceKeepsWfTree(p: Phase, ctx: Ctx, bit: bool)
    requires Wf(p) && !p.Done? && !p.AtSpec? && !p.AtDirect? && !p.AtAlign?
    ensures Wf(Advance(p, ctx, bit))
  {
    SmallPowers();
    hide Pow2;
    match p
    case AtLiteral(left, node, _, _) => NextTreeNode(8, left, node, bit);
    case AtLenTree(src, bank, left, node) => NextTreeNode(BankBits(bank), left, node, bit);
    case AtSlot(len, left, node) =>
      NextTreeNode(6, left, node, bit);
      if left <= 1 { AfterSlotWf(len, (2 * node + B(bit)) % 64); }
      hide AfterSlot;
    case _ =>
  }

  // ---------- Range loss and the 20-byte bound ----------

  function Power(x: real, n: nat): (r: real)
    requires x > 0.0
    ensures r > 0.0
  {
    if n == 0 then 1.0 else x * Power(x, n - 1)
  }

  /** A modelled bit divides the range by less than 66.1, a direct bit by less than 2.001. */
  function A(n: nat): (r: real) ensures r > 0.0 { Power(66.1, n) }
  function D(n: nat): (r: real) ensures r > 0.0 { Power(2.001, n) }

  /** The loss of the longest footer: 26 direct bits and 4 align bits. */
  function FooterLoss(): (r: real) ensures r > 0.0 { D(26) * A(4) }

  function TailLoss(src: LenSource): (r: real) ensures r > 0.0 {
    if src.MatchLen? then A(6) * FooterLoss() else 1.0
  }

  /** An upper bound for the loss of range on every walk from `p` to the end of the symbol. */
  function Loss(p: Phase): (r: real)
    ensures r > 0.0
  {
    match p
    case AtIsMatch => A(12) * (A(6) * FooterLoss())
    case AtLiteral(left, _, _, _) => A(left)
    case AtIsRep => A(11) * (A(6) * FooterLoss())
    case AtIsRepG0 => A(13)
    case AtIsRep0Long => A(11)
    case AtIsRepG1 => A(12)
    case AtIsRepG2 => A(11)
    case AtLenChoice(src) => A(10) * TailLoss(src)
    case AtLenChoice2(src) => A(9) * TailLoss(src)
    case AtLenTree(src, _, left, _) => A(left) * TailLoss(src)
    case AtSlot(_, left, _) => A(left) * FooterLoss()
    case AtSpec(_, slot, k, _) => A(if k < FooterBits(slot) then FooterBits(slot) - k else 0)
    case AtDirect(_, left, _) => D(left) * A(4)
    case AtAlign(_, _, k, _) => A(if k < 4 then 4 - k else 0)
    case Done(_) => 1.0
  }

  lemma {:induction false} PowerMonotone(x: real, a: nat, b: nat)
    requires x >= 1.0 && a <= b
    ensures Power(x, a) <= Power(x, b)
  {
    if a < b {
      PowerMonotone(x, a, b - 1);
      assert (x - 1.0) * Power(x, b - 1) >= 0.0;
    }
  }

  lemma {:induction false} PowerAdd(x: real, a: nat, b: nat)
    requires x > 0.0
    ensures Power(x, a + b) == Power(x, a) * Power(x, b)
  {
    if a > 0 {
      PowerAdd(x, a - 1, b);
      assert x * (Power(x, a - 1) * Power(x, b)) == x * Power(x, a - 1) * Power(x, b);
    }
  }

  lemma PowerSquare(x: real, n: nat, bound: real)
    requires x > 0.0 && Power(x, n) < bound
    ensures Power(x, 2 * n) < bound * bound
  {
    PowerAdd(x, n, n);
    ProductBelow(Power(x, n), bound, Power(x, n), bound);
  }

  lemma PositiveProduct(x: real, y: real)
    requires x > 0.0 && y > 0.0
    ensures x * y > 0.0
  {
  }

  lemma ProductBelow(x: real, xb: real, y: real, yb: real)
    requires 0.0 < x < xb && 0.0 < y < yb
    ensures x * y < xb * yb
  {
    PositiveProduct(xb - x, y);
    PositiveProduct(xb, yb - y);
    assert xb * yb - x * y == (xb - x) * y + xb * (yb - y);
  }

  lemma ModelLossNumbers()
    ensures A(0) == 1.0 && A(4) > 1.0 && A(5) == A(4) * 66.1
    ensures A(22) < 1.2e40
  {
    assert A(1) == 66.1;
    assert A(2) == 4369.21;
    assert A(3) < 288805.0;
    assert A(5) < 1.2619e9;
    assert A(11) == 66.1 * A(10);
    PowerSquare(66.1, 5, 1.2619e9);
    assert A(11) < 1.0526e20;
    PowerSquare(66.1, 11, 1.0526e20);
  }

  lemma DirectLossNumbers()
    ensures D(0) == 1.0 && 66.1 < D(26) < 6.9e7
  {
    assert D(1) == 2.001;
    assert D(3) < 8.0121;
    assert D(6) == Power(2.001, 6);
    assert D(7) > 127.0;
    PowerMonotone(2.001, 7, 26);
    PowerSquare(2.001, 3, 8.0121);
    assert D(6) < 64.194;
    PowerSquare(2.001, 6, 64.194);
    assert D(12) < 4120.9;
    assert D(13) < 8245.93;
    PowerSquare(2.001, 13, 8245.93);
  }

  lemma TotalLoss()
    ensures A(22) * D(26) < 8.3e47
  {
    ModelLossNumbers();
    DirectLossNumbers();
    ProductBelow(A(22), 1.2e40, D(26), 6.9e7);
  }

  lemma BytesNumber()
    ensures Power(256.0, 21) > 256.0 * 8.3e47
  {
    assert Power(256.0, 7) == 72057594037927936.0;
    PowerAdd(256.0, 7, 7);
    PowerAdd(256.0, 7, 14);
  }

  lemma Peel(n: nat, x: real)
    ensures 66.1 * (A(n) * x) == A(n + 1) * x
    ensures 66.1 * A(n) == A(n + 1)
  {
  }

  lemma ScaleUp(x: real, big: real)
    requires x > 0.0 && big >= 1.0
    ensures x <= x * big
  {
    assert x * (big - 1.0) >= 0.0;
  }

  lemma FooterLossNumbers()
    ensures FooterLoss() >= A(5) && FooterLoss() >= 1.0 && A(6) * FooterLoss() >= 1.0
  {
    ModelLossNumbers();
    DirectLossNumbers();
    var a, d := A(4), D(26);
    PositiveProduct(d - 66.1, a);
    assert d * a == (d - 66.1) * a + 66.1 * a;
    PowerMonotone(66.1, 0, 6);
    PowerMonotone(66.1, 0, 5);
    ScaleUp(A(6), FooterLoss());
  }

  lemma LossAfterSlot(len: nat, slot: nat)
    requires WfLen(len) && slot < 64
    ensures Loss(AfterSlot(len, slot)) <= FooterLoss()
  {
    FooterLossNumbers();
    if 4 <= slot < 14 {
      PowerMonotone(66.1, FooterBits(slot), 5);
    } else if slot >= 14 {
      var left := slot / 2 - 5;
      PowerMonotone(2.001, left, 26);
      ScaleMonotone(D(left), D(26), A(4));
    }
  }

  lemma ScaleMonotone(x: real, y: real, z: real)
    requires x <= y && z > 0.0
    ensures x * z <= y * z
  {
    assert (y - x) * z >= 0.0;
  }

  lemma StartNumbers()
    ensures 66.1 * A(8) <= A(12) * (A(6) * FooterLoss())
    ensures 66.1 * A(13) <= A(11) * (A(6) * FooterLoss())
  {
    hide A, D, Power, FooterLoss;
    FooterLossNumbers();
    Peel(8, 1.0);
    Peel(13, 1.0);
    AMonotone(9, 12);
    ScaleUp(A(12), A(6) * FooterLoss());
    AMonotone(14, 17);
    AAdd(11, 6);
    ScaleUp(A(11) * A(6), FooterLoss());
    Associate(A(11), A(6), FooterLoss());
  }

  lemma Associate(x: real, y: real, z: real)
    ensures x * y * z == x * (y * z)
  {
  }

  lemma AMonotone(a: nat, b: nat)
    requires a <= b
    ensures A(a) <= A(b)
  {
    PowerMonotone(66.1, a, b);
  }

  lemma AAdd(a: nat, b: nat)
    ensures A(a + b) == A(a) * A(b)
  {
    PowerAdd(66.1, a, b);
  }

  lemma AZero()
    ensures A(0) == 1.0 && D(0) == 1.0
  {
  }

  lemma LossStepStart(p: Phase, ctx: Ctx, bit: bool)
    requires p.AtIsMatch? || p.AtIsRep?
    ensures 66.1 * Loss(Advance(p, ctx, bit)) <= Loss(p)
  {
    hide A, D, Power, FooterLoss, Pow2;
    StartNumbers();
    Peel(11, A(6) * FooterLoss());
    Peel(10, A(6) * FooterLoss());
  }

  lemma LossStepRep(p: Phase, ctx: Ctx, bit: bool)
    requires p.AtIsRepG0? || p.AtIsRep0Long? || p.AtIsRepG1? || p.AtIsRepG2?
    ensures 66.1 * Loss(Advance(p, ctx, bit)) <= Loss(p)
  {
    Peel(12, 1.0); Peel(11, 1.0); Peel(10, 1.0); Peel(0, 1.0);
    PowerMonotone(66.1, 12, 13);
    PowerMonotone(66.1, 1, 11);
    PowerMonotone(66.1, 11, 12);
    assert A(0) == 1.0 && A(1) <= A(11) && A(11) <= A(12) <= A(13);
    hide A, D, Power, FooterLoss, Pow2;
  }

  lemma LossStepChoice(p: Phase, ctx: Ctx, bit: bool)
    requires p.AtLenChoice? || p.AtLenChoice2?
    ensures 66.1 * Loss(Advance(p, ctx, bit)) <= Loss(p)
  {
    var tail := TailLoss(p.src);
    Peel(9, tail); Peel(8, tail); Peel(3, tail);
    PowerMonotone(66.1, 4, 10);
    PowerMonotone(66.1, 4, 9);
    ScaleMonotone(A(4), A(10), tail);
    ScaleMonotone(A(4), A(9), tail);
    hide A, D, Power, TailLoss, Pow2;
  }

  lemma LossStepLength(p: Phase, ctx: Ctx, bit: bool)
    requires p.AtLenTree? && Wf(p)
    ensures 66.1 * Loss(Advance(p, ctx, bit)) <= Loss(p)
  {
    assert p.left >= 1;
    hide A, D, Power, FooterLoss, Pow2, Wf;
    AZero();
    Peel(p.left - 1, TailLoss(p.src));
  }

  lemma PeelLast(x: real)
    ensures 66.1 * x == A(1) * x
  {
    AZero();
    Peel(0, 1.0);
  }

  lemma LossStepSlot(p: Phase, ctx: Ctx, bit: bool)
    requires p.AtSlot? && Wf(p)
    ensures 66.1 * Loss(Advance(p, ctx, bit)) <= Loss(p)
  {
    hide A, D, Power, FooterLoss, AfterSlot, Pow2;
    var slot := (2 * p.node + B(bit)) % 64;
    assert WfLen(p.len) && p.left >= 1;
    hide Wf;
    assert Loss(p) == A(p.left) * FooterLoss();
    if p.left > 1 {
      Peel(p.left - 1, FooterLoss());
      assert Advance(p, ctx, bit) == AtSlot(p.len, p.left - 1, 2 * p.node + B(bit));
    } else {
      LossAfterSlot(p.len, slot);
      PeelLast(FooterLoss());
      assert Advance(p, ctx, bit) == AfterSlot(p.len, slot);
      hide Loss, Advance;
    }
  }

  lemma LossStepLeaf(p: Phase, ctx: Ctx, bit: bool)
    requires Wf(p) && (p.AtLiteral? || p.AtSpec? || p.AtAlign?)
    ensures 66.1 * Loss(Advance(p, ctx, bit)) <= Loss(p)
  {
    hide A, D, Power, FooterLoss, Pow2;
    AZero();
    Peel(Left(p) - 1, 1.0);
  }

  lemma LossStepDirect(p: Phase, ctx: Ctx, bit: bool)
    requires Wf(p) && p.AtDirect?
    ensures 2.001 * Loss(Advance(p, ctx, bit)) <= Loss(p)
  {
    assert D(0) == 1.0;
    assert 2.001 * (D(p.left - 1) * A(4)) == D(p.left) * A(4);
  }

  /** Every bit asked for pays for the range it may cost. */
  lemma LossStep(p: Phase, ctx: Ctx, bit: bool)
    requires Wf(p) && !p.Done?
    ensures (if p.AtDirect? then 2.001 else 66.1) * Loss(Advance(p, ctx, bit)) <= Loss(p)
  {
    hide Loss, Advance, Wf;
    match p
    case AtDirect(_, _, _) => LossStepDirect(p, ctx, bit);
    case AtLenTree(_, _, _, _) => LossStepLength(p, ctx, bit);
    case AtSlot(_, _, _) => LossStepSlot(p, ctx, bit);
    case AtLenChoice(_) => LossStepChoice(p, ctx, bit);
    case AtLenChoice2(_) => LossStepChoice(p, ctx, bit);
    case AtIsMatch => LossStepStart(p, ctx, bit);
    case AtIsRep => LossStepStart(p, ctx, bit);
    case AtLiteral(_, _, _, _) => LossStepLeaf(p, ctx, bit);
    case AtSpec(_, _, _, _) => LossStepLeaf(p, ctx, bit);
    case AtAlign(_, _, _, _) => LossStepLeaf(p, ctx, bit);
    case _ => LossStepRep(p, ctx, bit);
  }

  lemma BoundLoss(range: nat, q: nat, bound: nat)
    requires range >= 0x100_0000 && q == range / 2048
    requires 31 * q <= bound <= 2017 * q
    ensures 10 * range <= 661 * bound && 10 * range <= 661 * (range - bound)
  {
  }

  lemma TossLoss(d: Dec, p: Prob)
    requires d.range >= 0x100_0000
    ensures 10 * d.range <= 661 * Toss(d, p).1.range
    ensures Toss(d, p).1.range >= 0x1_0000 && Toss(d, p).1.pos == d.pos
  {
    BoundFits(d.range, p);
    hide Bound;
    BoundLoss(d.range, d.range / 2048, Bound(d.range, p));
  }

  lemma TossDirectLoss(d: Dec)
    requires d.range >= 0x100_0000
    ensures 1000 * d.range <= 2001 * TossDirect(d).1.range
    ensures TossDirect(d).1.range >= 0x1_0000 && TossDirect(d).1.pos == d.pos
  {
  }

  function LossOf(p: Phase): real {
    if p.AtDirect? then 2.001 else 66.1
  }

  lemma AnswerLoss(p: Phase, ctx: Ctx, d: Dec, m: Model, s: seq<byte>)
    requires !p.Done? && d.range >= 0x1_0000
    ensures var n := DecNormalize(d, s);
      var d1 := AnswerAt(p, ctx, d, m, s).1;
      n.range >= 0x100_0000 && d1.pos == n.pos && d1.range >= 0x1_0000
      && n.range as real <= LossOf(p) * d1.range as real
  {
    var n := DecNormalize(d, s);
    match Query(p, ctx)
    case Model(c) => TossLoss(n, Get(m, c));
    case Raw => TossDirectLoss(n);
  }

  /** Multiplying out one step of the walk: `x` is 256 to the bytes still to come. */
  lemma CostStep(x: real, r0: real, r1: real, r2: real, loss: real, ahead: real, here: real)
    requires x > 0.0 && loss > 0.0
    requires r0 <= loss * r1
    requires loss * ahead <= here
    requires x * r2 <= 4294967296.0 * ahead
    ensures r2 == r1 ==> x * r0 <= 4294967296.0 * here
    ensures r2 == 256.0 * r1 ==> 256.0 * x * r0 <= 4294967296.0 * here
  {
    assert x * (loss * r1 - r0) >= 0.0;
    assert loss * (4294967296.0 * ahead - x * r2) >= 0.0;
    if r2 == r1 {
      assert x * (loss * r1) == loss * (x * r2);
    }
    if r2 == 256.0 * r1 {
      assert 256.0 * (x * (loss * r1)) == loss * (x * r2);
    }
  }

  ghost predicate WalkCosts(n0: Dec, n1: Dec, loss: real) {
    && n0.pos <= n1.pos
    && Power(256.0, n1.pos - n0.pos) * n0.range as real <= 4294967296.0 * loss
  }

  lemma {:induction false} WalkCost(p: Phase, ctx: Ctx, d: Dec, m: Model, s: seq<byte>)
    requires Wf(p) && d.range >= 0x1_0000
    ensures var r := DecodeFrom(p, ctx, d, m, s);
      && ValidSym(r.sym)
      && r.dec.range >= 0x1_0000
      && WalkCosts(DecNormalize(d, s), DecNormalize(r.dec, s), Loss(p))
    decreases Stage(p), Left(p)
  {
    hide Wf, Loss, Advance, AnswerAt, DecNormalize, WalkCosts, ModelAfter, ValidSym;
    if p.Done? {
      WalkCostDone(p, d, s);
    } else {
      var (bit, d1) := AnswerAt(p, ctx, d, m, s);
      var next, m1 := Advance(p, ctx, bit), ModelAfter(p, ctx, m, bit);
      AdvanceDescends(p, ctx, bit);
      AdvanceKeepsWf(p, ctx, bit);
      AnswerLoss(p, ctx, d, m, s);
      LossStep(p, ctx, bit);
      WalkCost(next, ctx, d1, m1, s);
      var r := DecodeFrom(next, ctx, d1, m1, s);
      WalkCostStep(p, DecNormalize(d, s), d1, DecNormalize(r.dec, s), Loss(next), Loss(p), s);
    }
  }

  lemma WalkCostDone(p: Phase, d: Dec, s: seq<byte>)
    requires p.Done? && Wf(p)
    ensures ValidSym(p.sym) && WalkCosts(DecNormalize(d, s), DecNormalize(d, s), Loss(p))
  {
    assert Power(256.0, 0) == 1.0;
  }

  lemma WalkCostStep(p: Phase, n0: Dec, d1: Dec, n2: Dec, ahead: real, here: real, s: seq<byte>)
    requires d1.pos == n0.pos && n0.range as real <= LossOf(p) * d1.range as real
    requires LossOf(p) * ahead <= here
    requires WalkCosts(DecNormalize(d1, s), n2, ahead)
    ensures WalkCosts(n0, n2, here)
  {
    var n1 := DecNormalize(d1, s);
    var k := n2.pos - n1.pos;
    CostStep(Power(256.0, k), n0.range as real, d1.range as real, n1.range as real, LossOf(p), ahead, here);
    if d1.range < 0x100_0000 {
      assert n1.range as real == 256.0 * d1.range as real;
      assert Power(256.0, k + 1) == 256.0 * Power(256.0, k);
    }
  }

  /**
   The worst case: from a normalized range, a symbol takes at most 20 bytes, the last
   normalization included.
   */
  lemma SymbolTakesAtMost20Bytes(p: Phase, ctx: Ctx, d: Dec, m: Model, s: seq<byte>)
    requires p == AtIsMatch && d.range >= 0x100_0000
    ensures var r := DecodeFrom(p, ctx, d, m, s);
      && ValidSym(r.sym)
      && d.pos <= DecNormalize(r.dec, s).pos <= d.pos + 20
      && DecNormalize(r.dec, s).range >= 0x100_0000
  {
    hide Loss, DecodeFrom, ValidSym, Power;
    WalkCost(p, ctx, d, m, s);
    var r := DecodeFrom(p, ctx, d, m, s);
    var n := DecNormalize(r.dec, s).pos - d.pos;
    AtMost20(n, d.range as real);
  }

  lemma AtMost20(n: nat, range: real)
    requires range >= 16777216.0
    requires Power(256.0, n) * range <= 4294967296.0 * Loss(AtIsMatch)
    ensures n <= 20
  {
    TotalLoss();
    BytesNumber();
    LossOfWholeSymbol();
    ManyBytes(n);
    BigProduct(Power(256.0, n), range);
  }

  lemma ManyBytes(n: nat)
    ensures n >= 21 ==> Power(256.0, n) >= Power(256.0, 21)
  {
    if n >= 21 {
      PowerMonotone(256.0, 21, n);
    }
  }

  lemma LossOfWholeSymbol()
    ensures Loss(AtIsMatch) == A(22) * D(26)
  {
    AAdd(12, 6);
    AAdd(18, 4);
    hide A, D;
    var x, y, z, w := A(12), A(6), A(4), D(26);
    assert x * (y * (w * z)) == x * y * z * w;
  }

  lemma BigProduct(x: real, range: real)
    requires range >= 16777216.0
    ensures x > 256.0 * 8.3e47 ==> x * range > 4294967296.0 * 8.3e47
  {
    if x > 256.0 * 8.3e47 {
      assert (x - 256.0 * 8.3e47) * range > 0.0;
      assert 256.0 * 8.3e47 * (range - 16777216.0) >= 0.0;
    }
  }
}
