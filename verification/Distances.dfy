/**
 Distance slots: the table that classifies distances fast, and the bijection between a
 distance and its slot with footer bits.
 */
module Distances {
  import opened Bytes
  import opened Powers
  import opened Symbols

  /** The smallest distance of a slot. */
  function SlotStart(slot: nat): nat {
    if slot < 2 then slot else (2 + slot % 2) * Pow2(FooterBits(slot))
  }

  /** The number of distances in a slot; `1 << ((slot >> 1) - 1)` from slot 2 on. */
  function SlotWidth(slot: nat): nat {
    Pow2(FooterBits(slot))
  }

  lemma SlotsAdjoin(slot: nat)
    ensures SlotStart(slot + 1) == SlotStart(slot) + SlotWidth(slot)
  {
    assert Pow2(0) == 1;
    if slot >= 3 && slot % 2 == 1 {
      assert FooterBits(slot + 1) == FooterBits(slot) + 1;
      Pow2Step(FooterBits(slot));
    }
  }

  /** A distance belongs to the slot whose interval it lies in: the slot code is a bijection. */
  lemma {:induction false} SlotOfInterval(slot: nat, footer: nat)
    requires footer < SlotWidth(slot)
    ensures PosSlot(SlotStart(slot) + footer) == slot
    decreases slot
  {
    assert Pow2(0) == 1;
    if slot >= 4 {
      var f := FooterBits(slot);
      var dist := SlotStart(slot) + footer;
      HalfOfInterval(slot, footer);
      SlotOfInterval(slot - 2, footer / 2);
      assert dist >= 4 by {
        Pow2Monotone(1, f);
        assert Pow2(1) == 2;
      }
    }
  }

  lemma HalfOfInterval(slot: nat, footer: nat)
    requires slot >= 4 && footer < SlotWidth(slot)
    ensures footer / 2 < SlotWidth(slot - 2)
    ensures (SlotStart(slot) + footer) / 2 == SlotStart(slot - 2) + footer / 2
  {
    assert Pow2(0) == 1;
    var p := Pow2(FooterBits(slot - 2));
    assert FooterBits(slot) == FooterBits(slot - 2) + 1;
    Pow2Step(FooterBits(slot - 2));
    assert (2 + slot % 2) * (2 * p) == 2 * ((2 + slot % 2) * p);
  }

  /** Every distance lies in the interval of its slot; with `SlotOfInterval`, in no other. */
  lemma IntervalOfSlot(dist: nat)
    ensures var slot := PosSlot(dist);
      dist == SlotStart(slot) + Suffix(dist, FooterBits(slot)) && Suffix(dist, FooterBits(slot)) < SlotWidth(slot)
  {
    assert Pow2(0) == 1;
    if dist >= 4 {
      PosSlotTop(dist);
      Reassemble(dist, FooterBits(PosSlot(dist)));
    }
  }

  lemma {:induction false} SlotOfShifted(dist: nat, z: nat)
    requires dist / Pow2(z) >= 2
    ensures PosSlot(dist) == PosSlot(Prefix(dist, z)) + 2 * z
  {
    if z > 0 {
      var h := dist / 2;
      HalfTwice(dist, Pow2(z - 1));
      HalfCommutes(dist, Pow2(z - 1));
      assert h / Pow2(z - 1) >= 2;
      SlotOfShifted(h, z - 1);
      AtLeast(h, Pow2(z - 1));
    } else {
      assert Pow2(0) == 1;
    }
  }

  lemma AtLeast(h: nat, p: nat)
    requires p > 0 && h / p >= 2
    ensures h >= 2
  {
    assert h == p * (h / p) + h % p;
    MulMonotone(p, 2, h / p);
  }

  /** `LzmaEnc_FastPosInit`: the table of the slots of all distances below 2^14. */
  method FastPosInit(fastPos: array<nat>)
    requires fastPos.Length == 0x4000
    modifies fastPos
    ensures forall i :: 0 <= i < 0x4000 ==> fastPos[i] == PosSlot(i)
  {
    hide Pow2, PosSlot, SlotStart, SlotWidth;
    fastPos[0] := 0;
    fastPos[1] := 1;
    var start := 2;
    var slot := 2;
    FirstSlots();
    SlotStartOf28();
    while slot < 28
      invariant 2 <= slot <= 28 && start == SlotStart(slot)
      invariant start <= 0x4000
      invariant forall i :: 0 <= i < start ==> fastPos[i] == PosSlot(i)
    {
      var k := SlotWidth(slot);
      SlotsAdjoin(slot);
      SlotStartBound(slot + 1);
      var j := 0;
      while j < k
        invariant 0 <= j <= k && start + k <= 0x4000
        invariant forall i :: 0 <= i < start + j ==> fastPos[i] == PosSlot(i)
      {
        SlotOfInterval(slot, j);
        fastPos[start + j] := slot;
        j := j + 1;
      }
      start := start + k;
      slot := slot + 1;
    }
  }

  lemma FirstSlots()
    ensures PosSlot(0) == 0 && PosSlot(1) == 1 && SlotStart(2) == 2
  {
    assert Pow2(0) == 1;
  }

  lemma SlotStartOf28()
    ensures SlotStart(28) == 0x4000
  {
    SmallPowers();
    Pow2Add(8, 5);
  }

  lemma SlotStartBound(slot: nat)
    requires slot <= 28
    ensures SlotStart(slot) <= 0x4000
  {
    if slot >= 4 {
      var f := FooterBits(slot);
      SmallPowers();
      Pow2Add(8, 5);
      Pow2Add(8, 4);
      if slot == 28 { } else {
        Pow2Monotone(f, 12);
        assert (2 + slot % 2) * Pow2(f) <= 3 * Pow2(f);
      }
    }
  }

  /** `GetPosSlot`: at most one look into the table, for every 32-bit distance. */
  method GetPosSlot(fastPos: array<nat>, dist: nat) returns (slot: nat)
    requires fastPos.Length == 0x4000
    requires forall i :: 0 <= i < 0x4000 ==> fastPos[i] == PosSlot(i)
    requires dist < 0x1_0000_0000
    ensures slot == PosSlot(dist)
  {
    if dist < 128 {
      slot := fastPos[dist];
    } else {
      var zz := if dist < 0x10_0000 then 6 else 19;
      ShiftPowers();
      SlotOfShifted(dist, zz);
      slot := fastPos[dist / Pow2(zz)] + zz * 2;
    }
  }

  lemma ShiftPowers()
    ensures Pow2(6) == 0x40 && Pow2(19) == 0x8_0000
  {
    SmallPowers();
    Pow2Add(8, 3);
    Pow2Add(8, 11);
  }
}
