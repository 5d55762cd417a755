/**
 What LZMA symbols mean: the 12-state context machine, the four last distances, and
 copying from the data already produced.
 */
module Lz {
  import opened Bytes
  import opened Powers
  import opened Symbols

  datatype Props = Props(lc: nat, lp: nat, pb: nat) {
    ghost predicate Valid() {
      lc <= 8 && lp <= 4 && pb <= 4
    }
  }

  datatype Reps = Reps(r0: nat, r1: nat, r2: nat, r3: nat)

  /** The state of the format: context state, last distances and everything produced so far. */
  datatype Machine = Machine(state: nat, reps: Reps, out: seq<byte>)

  const START := Machine(0, Reps(1, 1, 1, 1), [])

  function NextState(state: nat, sym: Sym): nat {
    match sym
    case Literal(_) => if state < 4 then 0 else if state < 10 then state - 3 else state - 6
    case ShortRep => if state < 7 then 9 else 11
    case Rep(_, _) => if state < 7 then 8 else 11
    case Match(_, _) => if state < 7 then 7 else 10
  }

  /** The distance a copying symbol uses, moved to the front of the last distances. */
  function NextReps(r: Reps, sym: Sym): Reps {
    match sym
    case Literal(_) => r
    case ShortRep => r
    case Rep(index, _) =>
      if index == 0 then r
      else if index == 1 then Reps(r.r1, r.r0, r.r2, r.r3)
      else if index == 2 then Reps(r.r2, r.r0, r.r1, r.r3)
      else Reps(r.r3, r.r0, r.r1, r.r2)
    case Match(_, dist) => Reps(dist + 1, r.r0, r.r1, r.r2)
  }

  /** Copying byte by byte, so that a copy may read what it has just written. */
  function Copy(out: seq<byte>, dist: nat, len: nat): (r: seq<byte>)
    requires 0 < dist <= |out|
    ensures |r| == |out| + len && out <= r
    decreases len
  {
    if len == 0 then out else Copy(out + [out[|out| - dist]], dist, len - 1)
  }

  ghost predicate CanApply(m: Machine, sym: Sym) {
    sym.Literal? || 0 < NextReps(m.reps, sym).r0 <= |m.out|
  }

  function Produce(m: Machine, sym: Sym): seq<byte>
    requires CanApply(m, sym)
  {
    match sym
    case Literal(b) => m.out + [b]
    case _ => Copy(m.out, NextReps(m.reps, sym).r0, SymLen(sym))
  }

  function Apply(m: Machine, sym: Sym): Machine
    requires CanApply(m, sym)
  {
    Machine(NextState(m.state, sym), NextReps(m.reps, sym), Produce(m, sym))
  }

  /** The literal context: low position bits and high bits of the byte before. */
  function LitCtx(props: Props, out: seq<byte>): nat
    requires props.lc <= 8
  {
    if out == [] then 0
    else |out| % Pow2(props.lp) * Pow2(props.lc) + out[|out| - 1] / Pow2(8 - props.lc)
  }

  function CtxOf(props: Props, m: Machine): Ctx
    requires props.lc <= 8
    requires m.state >= 7 ==> 0 < m.reps.r0 <= |m.out|
  {
    Ctx(m.state, |m.out| % Pow2(props.pb), LitCtx(props, m.out),
        if m.state >= 7 then m.out[|m.out| - m.reps.r0] else 0)
  }

  // ---------- Copies ----------

  /** Every byte a copy produces equals the byte `dist` before it, also when the two overlap. */
  lemma {:induction false} CopyRepeats(out: seq<byte>, dist: nat, len: nat)
    requires 0 < dist <= |out|
    ensures forall i :: |out| <= i < |out| + len ==> Copy(out, dist, len)[i] == Copy(out, dist, len)[i - dist]
    decreases len
  {
    if len > 0 {
      var next := out + [out[|out| - dist]];
      CopyRepeats(next, dist, len - 1);
      var r := Copy(next, dist, len - 1);
      forall i | |out| <= i < |r| ensures r[i] == r[i - dist] {
        if i == |out| {
          assert r[i] == next[i] == next[i - dist] == r[i - dist];
        }
      }
    }
  }

  /** A copy may be cut anywhere and resumed. */
  lemma {:induction false} CopySplits(out: seq<byte>, dist: nat, a: nat, b: nat)
    requires 0 < dist <= |out|
    ensures Copy(Copy(out, dist, a), dist, b) == Copy(out, dist, a + b)
    decreases a
  {
    if a > 0 {
      CopySplits(out + [out[|out| - dist]], dist, a - 1, b);
    }
  }

  /** A copy reproduces a source that repeats itself at that distance. */
  lemma {:induction false} CopyReproduces(src: seq<byte>, pos: nat, dist: nat, len: nat)
    requires 0 < dist <= pos && pos + len <= |src|
    requires forall i :: pos <= i < pos + len ==> src[i] == src[i - dist]
    ensures Copy(src[..pos], dist, len) == src[..pos + len]
    decreases len
  {
    if len > 0 {
      assert src[..pos] + [src[pos - dist]] == src[..pos + 1];
      CopyReproduces(src, pos + 1, dist, len - 1);
    }
  }
}
