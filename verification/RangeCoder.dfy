/**
 The range coder as a function on values: the carry-propagating encoder, the
 decoder, and the proof that the second undoes the first.

 A coin is one binary decision together with the model it is coded under. The
 modules above decide which coins a symbol tosses; this module only codes them.
 */
module RangeCoder {
  import opened Bytes

  /** An adaptive probability (of a zero bit, in 1/2048). Adaptation never leaves this interval. */
  type Prob = p: int | 31 <= p <= 2017 witness 1024

  datatype Coin = Modelled(p: Prob, bit: bool) | Direct(bit: bool)

  /** Adaptation towards the bit just seen. */
  function Adapt(p: Prob, bit: bool): Prob {
    if bit then p - p / 32 else p + (2048 - p) / 32
  }

  function AdaptTimes(p: Prob, bit: bool, n: nat): Prob
    decreases n
  {
    if n == 0 then p else AdaptTimes(Adapt(p, bit), bit, n - 1)
  }

  /**
   A bit moves the probability a thirty-second of the way towards it, rounded down. Equal bits settle at
   2017 or at 31, from wherever they start, and stay there.
   */
  lemma {:induction false} AdaptSettles(p: Prob, bit: bool, n: nat)
    requires n >= if bit then p - 31 else 2017 - p
    ensures var way, move := if bit then p else 2048 - p, if bit then p - Adapt(p, bit) else Adapt(p, bit) - p;
            32 * move <= way < 32 * (move + 1)
    ensures AdaptTimes(p, bit, n) == if bit then 31 else 2017
    decreases n
  {
    if n > 0 {
      AdaptSettles(Adapt(p, bit), bit, n - 1);
    }
  }

  // ---------- Encoder ----------

  /**
   `low` holds 33 bits: 32 bits not yet shifted out and the carry. `cache` and
   `cacheSize` bytes of 0xFF are shifted out but not yet written, because a carry can
   still reach them.
   */
  datatype Enc = Enc(low: nat, range: nat, cache: byte, cacheSize: nat, out: seq<byte>)

  const ENC_INIT := Enc(0, 0xFFFF_FFFF, 0, 0, [])

  function ShiftLow(e: Enc): Enc {
    var low32 := e.low % 0x1_0000_0000;
    var high := e.low / 0x1_0000_0000;
    var low := low32 * 0x100 % 0x1_0000_0000;
    if low32 < 0xFF00_0000 || high != 0 then
      e.(low := low, cache := low32 / 0x100_0000, cacheSize := 0,
         out := e.out + [(e.cache + high) % 0x100] + Repeat((high + 0xFF) % 0x100, e.cacheSize))
    else
      e.(low := low, cacheSize := e.cacheSize + 1)
  }

  function Bound(range: nat, p: Prob): nat {
    range / 2048 * p
  }

  function Narrow(e: Enc, c: Coin): Enc {
    match c
    case Modelled(p, bit) =>
      var bound := Bound(e.range, p);
      BoundFits(e.range, p);
      if bit then e.(low := e.low + bound, range := e.range - bound) else e.(range := bound)
    case Direct(bit) =>
      var half := e.range / 2;
      e.(low := e.low + (if bit then half else 0), range := half)
  }

  function Normalize(e: Enc): Enc {
    if e.range < 0x100_0000 then ShiftLow(e.(range := e.range * 0x100)) else e
  }

  function Encode(e: Enc, c: Coin): Enc {
    Normalize(Narrow(e, c))
  }

  function EncodeAll(e: Enc, cs: seq<Coin>): Enc
    decreases |cs|
  {
    if cs == [] then e else EncodeAll(Encode(e, cs[0]), cs[1..])
  }

  function Flush(e: Enc): Enc {
    ShiftLow(ShiftLow(ShiftLow(ShiftLow(ShiftLow(e)))))
  }

  // ---------- Decoder ----------

  datatype Dec = Dec(range: u32, code: u32, pos: nat)

  /** Reads past the end are given the value 0; theorems about `pos` say when they do not happen. */
  function At(input: seq<byte>, i: nat): byte {
    if i < |input| then input[i] else 0
  }

  function DecNormalize(d: Dec, input: seq<byte>): Dec {
    if d.range < 0x100_0000 then
      Dec(d.range * 0x100, (d.code * 0x100 + At(input, d.pos)) % 0x1_0000_0000, d.pos + 1)
    else d
  }

  /** The decision of one coin on a normalized decoder. */
  function Toss(d: Dec, p: Prob): (bool, Dec)
  {
    var bound := Bound(d.range, p);
    BoundFits(d.range, p);
    if d.code < bound then (false, d.(range := bound))
    else (true, d.(range := d.range - bound, code := d.code - bound))
  }

  /** The sign test of the source: bit 31 of `code - range` says whether the subtraction borrowed. */
  function TossDirect(d: Dec): (bool, Dec) {
    var half := d.range / 2;
    var diff := (d.code - half) % 0x1_0000_0000;
    if diff >= 0x8000_0000 then (false, d.(range := half))
    else (true, d.(range := half, code := diff))
  }

  function DecodeModelled(d: Dec, p: Prob, input: seq<byte>): (bool, Dec) {
    Toss(DecNormalize(d, input), p)
  }

  function DecodeDirect(d: Dec, input: seq<byte>): (bool, Dec) {
    TossDirect(DecNormalize(d, input))
  }

  function Code32(b1: byte, b2: byte, b3: byte, b4: byte): u32 {
    b1 as int * 0x100_0000 + b2 as int * 0x1_0000 + b3 as int * 0x100 + b4
  }

  function DecInit(input: seq<byte>): Dec {
    Dec(0xFFFF_FFFF, Code32(At(input, 1), At(input, 2), At(input, 3), At(input, 4)), 5)
  }

  lemma BoundFits(range: nat, p: Prob)
    ensures 31 * (range / 2048) <= Bound(range, p) <= 2017 * (range / 2048)
    ensures Bound(range, p) <= range
    ensures range >= 0x100_0000 ==> 0x1_0000 <= Bound(range, p) <= range - 0x1_0000
  {
    var q := range / 2048;
    assert q * p <= q * 2017;
    assert q * 31 <= q * p;
  }

  /** A zero takes its share of the range, up to a multiple of the probability. */
  lemma BoundIsShare(range: nat, p: Prob)
    ensures 2048 * Bound(range, p) <= range * p < 2048 * (Bound(range, p) + p)
    ensures exists k: nat :: Bound(range, p) == k * p
  {
    var k, r := range / 2048, range % 2048;
    ShareParts(k, r, p);
    assert Bound(range, p) == k * p;
    hide Bound;
    assert range == 2048 * k + r;
  }

  lemma ShareParts(k: nat, r: nat, p: nat)
    requires r < 2048 && p > 0
    ensures (2048 * k + r) * p == 2048 * (k * p) + r * p && 0 <= r * p < 2048 * p
  {
    assert (2048 * k + r) * p == 2048 * k * p + r * p;
    assert 2048 * k * p == 2048 * (k * p);
    assert (2048 - r) * p > 0;
    assert (2048 - r) * p == 2048 * p - r * p;
  }

  // ---------- What the encoder state means ----------

  /** The bytes already shifted out, on the assumption that no carry is still to come. */
  function Pending(e: Enc): seq<byte> {
    e.out + [e.cache] + Repeat(0xFF, e.cacheSize)
  }

  /** The exact lower end of the current interval, in units of the current scale. */
  function Value(e: Enc): nat {
    Num(Pending(e)) * 0x1_0000_0000 + e.low
  }

  /** The number of bytes shifted out so far. */
  function Shifts(e: Enc): nat {
    |e.out| + e.cacheSize
  }

  /**
   The coder's invariant. The second conjunct bounds the carry to one unit; the last
   says that a cache byte of 0xFF can receive no carry, so a carry stops in `cache` at
   the latest and never reaches `out`.
   */
  ghost predicate Valid(e: Enc) {
    && 0 < e.range < 0x1_0000_0000
    && e.low + e.range <= 2 * 0x1_0000_0000
    && (e.cache == 0xFF ==> e.low + e.range <= 0x1_0000_0000)
  }

  /** A carry into pending bytes of 0xFF turns them into zeros and stops in the cache. */
  lemma {:induction false} CarryStops(out: seq<byte>, c: byte, n: nat)
    requires c < 0xFF
    ensures Num(out + [c + 1] + Repeat(0, n)) == Num(out + [c] + Repeat(0xFF, n)) + 1
  {
    if n == 0 {
      assert out + [c + 1] + Repeat(0, 0) == out + [c + 1];
      assert out + [c] + Repeat(0xFF, 0) == out + [c];
      NumSnoc(out, c);
      NumSnoc(out, c + 1);
    } else {
      CarryStops(out, c, n - 1);
      var a, b := out + [c + 1] + Repeat(0, n - 1), out + [c] + Repeat(0xFF, n - 1);
      assert out + [c + 1] + Repeat(0, n) == a + [0];
      assert out + [c] + Repeat(0xFF, n) == b + [0xFF];
      NumSnoc(a, 0);
      NumSnoc(b, 0xFF);
    }
  }

  /** A carry, or a top byte that can receive one, settles all pending bytes. */
  lemma ShiftLowSettles(e: Enc)
    requires e.low < 0x2_0000_0000 && (e.cache == 0xFF ==> e.low < 0x1_0000_0000)
    requires e.low < 0xFF00_0000 || e.low >= 0x1_0000_0000
    ensures Num(ShiftLow(e).out) == Num(Pending(e)) + e.low / 0x1_0000_0000
    ensures |ShiftLow(e).out| == Shifts(e) + 1 && e.out <= ShiftLow(e).out
    ensures Pending(ShiftLow(e)) == ShiftLow(e).out + [e.low % 0x1_0000_0000 / 0x100_0000]
  {
    var out := ShiftLow(e).out;
    if e.low < 0x1_0000_0000 {
      assert out == Pending(e);
    } else {
      assert out == e.out + [e.cache + 1] + Repeat(0, e.cacheSize);
      CarryStops(e.out, e.cache, e.cacheSize);
    }
  }

  /** A shift appends the top byte of `low` to the pending bytes, after adding the carry to them. */
  lemma ShiftLowPending(e: Enc)
    requires e.low < 0x2_0000_0000 && (e.cache == 0xFF ==> e.low < 0x1_0000_0000)
    ensures Num(Pending(ShiftLow(e))) ==
            (Num(Pending(e)) + e.low / 0x1_0000_0000) * 0x100 + e.low % 0x1_0000_0000 / 0x100_0000
    ensures Shifts(ShiftLow(e)) == Shifts(e) + 1
    ensures e.out <= ShiftLow(e).out
  {
    if e.low < 0xFF00_0000 || e.low >= 0x1_0000_0000 {
      ShiftLowSettles(e);
      NumSnoc(ShiftLow(e).out, e.low % 0x1_0000_0000 / 0x100_0000);
    } else {
      assert Pending(ShiftLow(e)) == Pending(e) + [0xFF];
      NumSnoc(Pending(e), 0xFF);
    }
  }

  /**
   One shift multiplies the exact lower end by 256, whether or not a carry happens, and
   writes only bytes behind those already written.
   */
  lemma ShiftLowExact(e: Enc)
    requires e.low < 0x2_0000_0000
    requires e.cache == 0xFF ==> e.low < 0x1_0000_0000
    ensures Value(ShiftLow(e)) == Value(e) * 0x100
    ensures Shifts(ShiftLow(e)) == Shifts(e) + 1
    ensures e.out <= ShiftLow(e).out
  {
    ShiftLowPending(e);
    ShiftLowDrops(e);
    hide ShiftLow, Pending, Num;
    var low32 := e.low % 0x1_0000_0000;
    assert low32 * 0x100 == low32 / 0x100_0000 * 0x1_0000_0000 + e.low * 0x100 % 0x1_0000_0000;
  }

  lemma ShiftLowDrops(e: Enc)
    ensures ShiftLow(e).low == e.low * 0x100 % 0x1_0000_0000
  {
  }

  /** The half-open interval of `Narrow` lies in the one before, on the side the bit names. */
  lemma NarrowNests(e: Enc, c: Coin)
    requires Valid(e) && e.range >= 0x100_0000
    ensures Valid(Narrow(e, c))
    ensures Value(e) <= Value(Narrow(e, c))
    ensures Value(Narrow(e, c)) + Narrow(e, c).range <= Value(e) + e.range
    ensures Narrow(e, c).range >= 0x1_0000
    ensures Pending(Narrow(e, c)) == Pending(e)
  {
    if c.Modelled? {
      BoundFits(e.range, c.p);
    }
    hide Bound, Num;
  }

  lemma NormalizeExact(e: Enc)
    requires Valid(e) && e.range >= 0x1_0000
    ensures Valid(Normalize(e)) && Normalize(e).range >= 0x100_0000
    ensures e.range >= 0x100_0000 ==> Normalize(e) == e
    ensures e.range < 0x100_0000 ==>
      && Value(Normalize(e)) == Value(e) * 0x100
      && Normalize(e).range == e.range * 0x100
      && Shifts(Normalize(e)) == Shifts(e) + 1
    ensures e.out <= Normalize(e).out
  {
    if e.range < 0x100_0000 {
      ShiftLowExact(e.(range := e.range * 0x100));
    }
  }

  /** Coding a coin keeps the invariant, leaves the range normalized and never rewrites output. */
  lemma EncodeKeepsValid(e: Enc, c: Coin)
    requires Valid(e) && e.range >= 0x100_0000
    ensures Valid(Encode(e, c)) && Encode(e, c).range >= 0x100_0000
    ensures e.out <= Encode(e, c).out
    ensures Shifts(e) <= Shifts(Encode(e, c)) <= Shifts(e) + 1
  {
    NarrowNests(e, c);
    NormalizeExact(Narrow(e, c));
  }

  // ---------- What a finished stream tells the decoder ----------

  /** The stream `s`, cut where a decoder in step with `e` has read to, falls into the interval of `e`. */
  ghost predicate Window(e: Enc, s: seq<byte>) {
    && Shifts(e) + 5 <= |s|
    && Value(e) <= Num(s[..Shifts(e) + 5]) < Value(e) + e.range
  }

  /** Windows hold backwards: narrowing only ever forgets parts of the interval. */
  lemma WindowBack(e: Enc, c: Coin, s: seq<byte>)
    requires Valid(e) && e.range >= 0x100_0000
    requires Window(Encode(e, c), s)
    ensures Window(e, s) && Window(Narrow(e, c), s)
  {
    var n := Narrow(e, c);
    NarrowNests(e, c);
    NormalizeExact(n);
    if n.range < 0x100_0000 {
      NumNext(s, Shifts(n) + 5);
    }
  }

  lemma FourBytesDrop(x: nat)
    ensures var x1 := x * 0x100 % 0x1_0000_0000;
      var x2 := x1 * 0x100 % 0x1_0000_0000;
      var x3 := x2 * 0x100 % 0x1_0000_0000;
      x3 * 0x100 % 0x1_0000_0000 == 0
  {
    var x1 := x * 0x100 % 0x1_0000_0000;
    var y1 := x % 0x100_0000;
    assert x1 == 0x100 * y1;
    var x2 := x1 * 0x100 % 0x1_0000_0000;
    var y2 := y1 % 0x1_0000;
    assert x2 == 0x1_0000 * y2;
    var x3 := x2 * 0x100 % 0x1_0000_0000;
    var y3 := y2 % 0x100;
    assert x3 == 0x100_0000 * y3;
  }

  /** Four shifts move all 32 bits of `low` out. */
  lemma FourShiftsEmptyLow(e: Enc)
    ensures ShiftLow(ShiftLow(ShiftLow(ShiftLow(e)))).low == 0
  {
    ShiftLowDrops(e);
    ShiftLowDrops(ShiftLow(e));
    ShiftLowDrops(ShiftLow(ShiftLow(e)));
    ShiftLowDrops(ShiftLow(ShiftLow(ShiftLow(e))));
    FourBytesDrop(e.low);
  }

  lemma FourShiftsExact(e: Enc) returns (e4: Enc)
    requires Valid(e)
    ensures e4 == ShiftLow(ShiftLow(ShiftLow(ShiftLow(e))))
    ensures Value(e4) == Value(e) * 0x1_0000_0000
    ensures Shifts(e4) == Shifts(e) + 4
    ensures e4.low == 0 && e.out <= e4.out
  {
    ShiftLowExact(e);
    var e1 := ShiftLow(e);
    CacheAfterShift(e);
    ShiftLowExact(e1);
    var e2 := ShiftLow(e1);
    CacheAfterShift(e1);
    ShiftLowExact(e2);
    var e3 := ShiftLow(e2);
    CacheAfterShift(e2);
    ShiftLowExact(e3);
    e4 := ShiftLow(e3);
    FourShiftsEmptyLow(e);
  }

  lemma CacheAfterShift(e: Enc)
    ensures ShiftLow(e).low < 0x1_0000_0000
  {
  }

  /** Flushing writes the whole lower end, so the finished stream is in the last window. */
  lemma FlushWindow(e: Enc, tail: seq<byte>)
    requires Valid(e)
    ensures var s := Flush(e).out;
      && |s| == Shifts(e) + 5
      && Num(s) == Value(e)
      && Window(e, s + tail)
      && e.out <= s
  {
    var e4 := FourShiftsExact(e);
    var s := ShiftLow(e4).out;
    FifthShift(e4);
    assert (s + tail)[..|s|] == s;
    hide ShiftLow, Pending, Num, Shifts;
  }

  lemma FifthShift(e: Enc)
    requires e.low == 0
    ensures ShiftLow(e).out == Pending(e) && |Pending(e)| == Shifts(e) + 1
  {
  }

  /** The decoder `d` stands where the encoder stood in state `e`. */
  ghost predicate InStep(e: Enc, d: Dec, s: seq<byte>) {
    var n := DecNormalize(d, s);
    && Window(e, s)
    && n.range == e.range
    && n.pos == Shifts(e) + 5
    && n.code == Num(s[..n.pos]) - Value(e)
  }

  /** While `code` is below `range`, the sign test is an ordinary comparison. */
  lemma SignTest(d: Dec)
    requires d.code < d.range
    ensures var half := d.range / 2;
      TossDirect(d) == if d.code < half then (false, d.(range := half))
                       else (true, d.(range := half, code := d.code - half))
  {
  }

  /** Tossing recovers the bit that was coded and stays in step. */
  lemma TossModelled(e: Enc, d: Dec, p: Prob, bit: bool, s: seq<byte>)
    requires Valid(e) && e.range >= 0x100_0000
    requires InStep(e, d, s)
    requires Window(Encode(e, Modelled(p, bit)), s)
    ensures DecodeModelled(d, p, s).0 == bit
    ensures InStep(Encode(e, Modelled(p, bit)), DecodeModelled(d, p, s).1, s)
  {
    var c := Modelled(p, bit);
    WindowBack(e, c, s);
    NarrowNests(e, c);
    BoundFits(e.range, p);
    StepAfter(e, c, DecodeModelled(d, p, s).1, s);
  }

  lemma TossHalf(e: Enc, d: Dec, bit: bool, s: seq<byte>)
    requires Valid(e) && e.range >= 0x100_0000
    requires InStep(e, d, s)
    requires Window(Encode(e, Direct(bit)), s)
    ensures DecodeDirect(d, s).0 == bit
    ensures InStep(Encode(e, Direct(bit)), DecodeDirect(d, s).1, s)
  {
    var c := Direct(bit);
    WindowBack(e, c, s);
    NarrowNests(e, c);
    SignTest(DecNormalize(d, s));
    hide DecNormalize, TossDirect, Num, Pending, Encode;
    StepAfter(e, c, DecodeDirect(d, s).1, s);
  }

  lemma DecNormalizeExact(d: Dec, s: seq<byte>)
    requires d.code < d.range < 0x100_0000
    ensures DecNormalize(d, s) == Dec(d.range * 0x100, d.code * 0x100 + At(s, d.pos), d.pos + 1)
  {
  }

  lemma StepAfter(e: Enc, c: Coin, d: Dec, s: seq<byte>)
    requires Valid(e) && e.range >= 0x100_0000
    requires Window(Encode(e, c), s) && Window(Narrow(e, c), s)
    requires d.range == Narrow(e, c).range && d.pos == Shifts(e) + 5
    requires d.code == Num(s[..d.pos]) - Value(Narrow(e, c))
    ensures InStep(Encode(e, c), d, s)
  {
    var n := Narrow(e, c);
    NarrowNests(e, c);
    NormalizeExact(n);
    if n.range < 0x100_0000 {
      NumNext(s, Shifts(n) + 5);
      DecNormalizeExact(d, s);
      hide Num, Pending, Narrow, Normalize, DecNormalize, Shifts;
    }
  }

  lemma InitInStep(s: seq<byte>)
    requires Window(ENC_INIT, s)
    ensures s[0] == 0
    ensures InStep(ENC_INIT, DecInit(s), s)
  {
    assert Pending(ENC_INIT) == [] + [0];
    NumSnoc([], 0);
    assert s[..0] == [];
    NumNext(s, 0);
    NumNext(s, 1);
    NumNext(s, 2);
    NumNext(s, 3);
    NumNext(s, 4);
  }

  // ---------- Whole runs ----------

  /** What the decoder knows of a coin before tossing it. */
  datatype Ask = AskModelled(p: Prob) | AskDirect

  function Asked(c: Coin): Ask {
    match c
    case Modelled(p, _) => AskModelled(p)
    case Direct(_) => AskDirect
  }

  function Answer(d: Dec, a: Ask, s: seq<byte>): (bool, Dec) {
    match a
    case AskModelled(p) => DecodeModelled(d, p, s)
    case AskDirect => DecodeDirect(d, s)
  }

  function DecodeAll(d: Dec, asks: seq<Ask>, s: seq<byte>): (seq<bool>, Dec)
    decreases |asks|
  {
    if asks == [] then ([], d)
    else
      var (bit, d1) := Answer(d, asks[0], s);
      var (bits, d2) := DecodeAll(d1, asks[1..], s);
      ([bit] + bits, d2)
  }

  function AskedAll(cs: seq<Coin>): seq<Ask> {
    seq(|cs|, i requires 0 <= i < |cs| => Asked(cs[i]))
  }

  function Bits(cs: seq<Coin>): seq<bool> {
    seq(|cs|, i requires 0 <= i < |cs| => cs[i].bit)
  }

  lemma {:induction false} EncodeAllKeepsValid(e: Enc, cs: seq<Coin>)
    requires Valid(e) && e.range >= 0x100_0000
    ensures Valid(EncodeAll(e, cs)) && EncodeAll(e, cs).range >= 0x100_0000
    ensures e.out <= EncodeAll(e, cs).out
    decreases |cs|
  {
    if cs != [] {
      EncodeKeepsValid(e, cs[0]);
      EncodeAllKeepsValid(Encode(e, cs[0]), cs[1..]);
    }
  }

  lemma {:induction false} DecodeAllFollows(e: Enc, d: Dec, cs: seq<Coin>, s: seq<byte>)
    requires Valid(e) && e.range >= 0x100_0000
    requires Window(EncodeAll(e, cs), s)
    requires Window(e, s) ==> InStep(e, d, s)
    ensures Window(e, s)
    ensures DecodeAll(d, AskedAll(cs), s).0 == Bits(cs)
    ensures InStep(EncodeAll(e, cs), DecodeAll(d, AskedAll(cs), s).1, s)
    decreases |cs|
  {
    if cs != [] {
      var c, rest := cs[0], cs[1..];
      WindowBackAll(e, cs, s);
      EncodeKeepsValid(e, c);
      WindowBackAll(Encode(e, c), rest, s);
      hide Window, InStep, Valid, Encode, DecodeModelled, DecodeDirect;
      var (bit, d1) := Answer(d, Asked(c), s);
      if c.Modelled? { TossModelled(e, d, c.p, c.bit, s); } else { TossHalf(e, d, c.bit, s); }
      DecodeAllFollows(Encode(e, c), d1, rest, s);
      assert AskedAll(cs) == [Asked(c)] + AskedAll(rest);
      assert Bits(cs) == [c.bit] + Bits(rest);
    }
  }

  lemma {:induction false} WindowBackAll(e: Enc, cs: seq<Coin>, s: seq<byte>)
    requires Valid(e) && e.range >= 0x100_0000
    requires Window(EncodeAll(e, cs), s)
    ensures Window(e, s)
    decreases |cs|
  {
    if cs != [] {
      EncodeKeepsValid(e, cs[0]);
      WindowBackAll(Encode(e, cs[0]), cs[1..], s);
      WindowBack(e, cs[0], s);
    }
  }

  function Stream(cs: seq<Coin>): seq<byte> {
    Flush(EncodeAll(ENC_INIT, cs)).out
  }

  /**
   The round trip of the range coder. Whatever follows the stream, the decoder recovers
   every bit, has consumed exactly the stream once it is normalized, is left with code
   zero, and the first byte is zero.
   */
  lemma RoundTrip(cs: seq<Coin>, tail: seq<byte>)
    ensures var s := Stream(cs);
      var (bits, d) := DecodeAll(DecInit(s + tail), AskedAll(cs), s + tail);
      var end := DecNormalize(d, s + tail);
      bits == Bits(cs) && end.pos == |s| && end.code == 0 && s != [] && s[0] == 0
  {
    var e := EncodeAll(ENC_INIT, cs);
    EncodeAllKeepsValid(ENC_INIT, cs);
    FlushWindow(e, tail);
    var s := Stream(cs);
    WindowBackAll(ENC_INIT, cs, s + tail);
    InitInStep(s + tail);
    DecodeAllFollows(ENC_INIT, DecInit(s + tail), cs, s + tail);
    assert (s + tail)[..|s|] == s;
  }
}
