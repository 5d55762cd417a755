/** `CRangeEnc`: the range encoder that works in place, proved against the coder on values. */
module RangeEncoder {
  import opened Bytes
  import opened RangeCoder
  import opened Masks

  class RangeEnc {
    var low: nat
    var range: u32
    var cache: byte
    var cacheSize: nat
    /** Everything written, buffered or handed to the output stream. */
    var out: seq<byte>

    function State(): Enc
      reads this
    {
      Enc(low, range, cache, cacheSize, out)
    }

    constructor ()
      ensures State() == ENC_INIT
    {
      low, range, cache, cacheSize, out := 0, 0xFFFF_FFFF, 0, 0, [];
    }

    method ShiftLow()
      modifies this
      ensures State() == RangeCoder.ShiftLow(old(State()))
    {
      var low32, high := low % 0x1_0000_0000, low / 0x1_0000_0000;
      low := low32 * 0x100 % 0x1_0000_0000;
      if low32 < 0xFF00_0000 || high != 0 {
        out := out + [(cache + high) % 0x100];
        cache := low32 / 0x100_0000;
        ghost var settled, pending := out, cacheSize;
        high := high + 0xFF;
        while cacheSize != 0
          invariant cacheSize <= pending
          invariant out == settled + Repeat(high % 0x100, pending - cacheSize)
          invariant low == old(low) % 0x1_0000_0000 * 0x100 % 0x1_0000_0000 && range == old(range)
          invariant cache == low32 / 0x100_0000
        {
          out := out + [high % 0x100];
          cacheSize := cacheSize - 1;
        }
      } else {
        cacheSize := cacheSize + 1;
      }
    }

    /** `RC_NORM` */
    method Normalize()
      modifies this
      ensures State() == RangeCoder.Normalize(old(State()))
    {
      if range < 0x100_0000 {
        range := range * 0x100;
        ShiftLow();
      }
    }

    /** `RC_BIT_0` and `RC_BIT_1`, for flags whose value the code branches on anyway */
    method EncodeFlag(probs: array<Prob>, i: nat, bit: bool)
      requires i < probs.Length
      modifies this, probs
      ensures State() == Encode(old(State()), Modelled(old(probs[i]), bit))
      ensures probs[..] == old(probs[..])[i := Adapt(old(probs[i]), bit)]
    {
      var ttt: int := probs[i];
      var newBound := range / 2048 * ttt;
      BoundFits(range, ttt);
      if !bit {
        range := newBound;
        probs[i] := ttt + (2048 - ttt) / 32;
      } else {
        low := low + newBound;
        range := range - newBound;
        probs[i] := ttt - ttt / 32;
      }
      Normalize();
    }

    /**
     `RC_BIT`, as it is compiled by default: codes `bit` under `probs[i]` and adapts that probability,
     with masks in place of branches.
     */
    method EncodeBit(probs: array<Prob>, i: nat, bit: nat)
      requires i < probs.Length && bit < 2
      modifies this, probs
      ensures State() == Encode(old(State()), Modelled(old(probs[i]), bit == 1))
      ensures probs[..] == old(probs[..])[i := Adapt(old(probs[i]), bit == 1)]
    {
      hide And, Adapt, Sar5;
      BoundFits(range, probs[i]);
      var ttt: u32 := probs[i];
      var newBound: u32 := range / 2048 * ttt;
      AndWord(range);
      AndWord(newBound);
      AndWord(2048 - 31);
      AllOrNothing(bit);
      AdaptsEitherWay(ttt, bit);
      var mask: u32 := (0 - bit) % 0x1_0000_0000;
      range := And(range, mask);
      mask := And(mask, newBound);
      range := range - mask;
      low := low + mask;
      mask := (bit - 1) % 0x1_0000_0000;
      range := range + And(newBound, mask);
      mask := And(mask, 2048 - 31);
      mask := mask + 31;
      ttt := (ttt + Sar5((mask - ttt) % 0x1_0000_0000)) % 0x1_0000_0000;
      probs[i] := ttt;
      Normalize();
    }

    /** One bit of the loop that codes the middle bits of a long distance. */
    method EncodeDirect(bit: bool)
      modifies this
      ensures State() == Encode(old(State()), Direct(bit))
    {
      range := range / 2;
      if bit {
        low := low + range;
      }
      Normalize();
    }

    method FlushData()
      modifies this
      ensures State() == Flush(old(State()))
    {
      ShiftLow();
      ShiftLow();
      ShiftLow();
      ShiftLow();
      ShiftLow();
    }
  }

  /** The masks of a bit */
  lemma AllOrNothing(bit: nat)
    requires bit < 2
    ensures (0 - bit) % 0x1_0000_0000 == (if bit == 1 then 0xFFFF_FFFF else 0)
    ensures (bit - 1) % 0x1_0000_0000 == (if bit == 1 then 0 else 0xFFFF_FFFF)
  {
  }

  /** One shifted difference adapts a probability either way. */
  lemma AdaptsEitherWay(p: Prob, bit: nat)
    requires bit < 2
    ensures (p + Sar5(((if bit == 1 then 31 else 2048) - p) % 0x1_0000_0000)) % 0x1_0000_0000 == Adapt(p, bit == 1)
  {
    if bit == 1 {
      AdaptsToOne(p);
    } else {
      assert (2048 - p) % 0x1_0000_0000 == 2048 - p;
    }
  }

  lemma AdaptsToOne(p: Prob)
    ensures (p + Sar5((31 - p) % 0x1_0000_0000)) % 0x1_0000_0000 == p - p / 32
  {
    var d := p - 31;
    if d == 0 {
      assert Sar5(0) == 0;
    } else {
      assert (31 - p) % 0x1_0000_0000 == 0x1_0000_0000 - d;
      assert (0x1_0000_0000 - d) / 32 == 0x800_0000 - p / 32;
    }
  }
}
