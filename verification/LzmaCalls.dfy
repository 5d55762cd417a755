/**
 The two calls built on `LzmaDec_DecodeToDic`: decoding through a dictionary that is filled
 in a circle, and decoding a whole stream into its destination.
 */
module LzmaCalls {
  import opened Bytes
  import opened Lz
  import opened Decoder
  import opened Chunking
  import opened Masks
  import opened DecoderSteps
  import opened OutputPieces
  import opened LzmaDecoder

  lemma DicEnd(dic: seq<byte>, dicPos: nat, out: seq<byte>, n: nat)
    requires DicHolds(dic, dicPos, out) && n <= dicPos && n <= |out|
    ensures dicPos <= |dic| && dic[dicPos - n..dicPos] == out[|out| - n..]
  {
    var x, y := dic[dicPos - n..dicPos], out[|out| - n..];
    forall i | 0 <= i < n ensures x[i] == y[i] {
      assert HeldAt(dic, dicPos, out, n - i);
    }
  }

  /** What is known of a decoder between calls. */
  lemma BetweenCalls(p: LzmaDec)
    requires p.Callable()
    ensures DicHolds(p.dic[..], p.dicPos, p.out) && |p.AsReader().temp| <= 20 && OutOf(p.AsReader()) == p.out
    ensures p.dic != p.tempBuf && p.dic as object != p.probs
  {
    hide Usable, DicHolds, Sound;
  }

  /** The call `whole` has used `used` bytes and goes on with the rest. */
  ghost predicate StillDoes(p: LzmaDec, src: seq<byte>, total: nat, any: bool, whole: Answer, used: nat)
    reads p, p.probs, p.dic, p.tempBuf
  {
    && p.Callable() && used <= |src| && |p.out| <= total && Usable(p.cfg, p.AsReader(), total)
    && var a := Chunking.DecodeToDic(p.cfg, p.AsReader(), src[used..], total, any);
       whole == a.(used := used + a.used)
  }

  /** After one call under a nearer limit the rest is still to be done, or everything is done. */
  lemma AfterCall(cfg: Config, r: Reader, a1: Answer, src: seq<byte>, cut: nat, total: nat, mode: bool, any: bool)
    requires Usable(cfg, r, cut) && |r.temp| <= 20 && cut <= total && (cut < total ==> mode) && (cut == total ==> mode == any)
    requires a1 == DecodeToDic(cfg, r, src, cut, mode) && a1.used <= |src|
    ensures Usable(cfg, r, total)
    ensures var a := DecodeToDic(cfg, r, src, total, any);
      && (a1.res != SzOk ==> a == a1)
      && (a1.res == SzOk && FullAnswer(a1, total) ==> a == a1)
      && (a1.res == SzOk && !FullAnswer(a1, cut) ==> a == a1)
      && (a1.res == SzOk && !FullAnswer(a1, total) ==>
            && Usable(cfg, a1.reader, total)
            && var b := DecodeToDic(cfg, a1.reader, src[a1.used..], total, any);
               a == b.(used := a1.used + b.used))
  {
    hide DecodeToDic, Usable;
    if cut < total {
      DecodeToDicWidens(cfg, r, src, cut, total, any);
    }
    if a1.res == SzOk && !FullAnswer(a1, cut) && !FullAnswer(a1, total) {
      AgainAddsNothing(cfg, r, src, total, any);
    }
  }

  /** Going back to the start of the buffer when its end is reached. */
  method GoRound(p: LzmaDec)
    requires p.Callable() && p.cfg.dicSize <= p.dic.Length
    modifies p`dicPos
    ensures p.Callable() && p.AsReader() == old(p.AsReader()) && p.dicPos < p.dic.Length
  {
    hide Usable, Wraps, Sound;
    DicPosFits(p.dic[..], p.dicPos, p.out);
    if p.dicPos == p.dic.Length {
      DicHoldsAround(p.dic[..], p.out);
      hide DicHolds;
      p.dicPos := 0;
    }
  }

  /** `memcpy` of what one call has put into the dictionary. */
  method CopyOut(p: LzmaDec, from: nat, n: nat, dest: array<byte>, at: nat)
    requires from + n <= p.dic.Length && at + n <= dest.Length && dest != p.dic
    modifies dest
    ensures dest[..at + n] == old(dest[..at]) + p.dic[from..from + n]
  {
    var i: nat := 0;
    while i < n
      invariant i <= n && dest[..at + i] == old(dest[..at]) + p.dic[from..from + i]
    {
      dest[at + i] := p.dic[from + i];
      assert dest[..at + i + 1] == dest[..at + i] + [p.dic[from + i]];
      i := i + 1;
    }
  }

  ghost predicate Separate(p: LzmaDec, dest: array<byte>) {
    dest != p.dic && dest as object != p.probs && dest != p.tempBuf
  }

  lemma IsFull(p: LzmaDec, a: Answer, cut: nat, total: nat)
    requires p.Callable() && a.reader == p.AsReader() && cut <= total
    ensures FullAnswer(a, cut) ==> |p.out| == cut
    ensures FullAnswer(a, total) ==> |p.out| == total
    ensures |p.out| == total && a.res == SzOk && a.reader.Reading? ==> FullAnswer(a, total) || a.reader.session.remainLen == 274
  {
    hide Usable, Sound, LzmaDec.Valid;
  }

  /** One pass of the loop of `LzmaDec_DecodeToBuf`. */
  method BufRound(p: LzmaDec, dest: array<byte>, at: nat, outSize: nat, src: seq<byte>, any: bool, ghost total: nat, ghost whole: Answer)
    returns (done: bool, res: Res, status: Status, used: nat, n: nat)
    requires StillDoes(p, src, total, any, whole, 0) && p.cfg.dicSize <= p.dic.Length
    requires total == |p.out| + outSize && at + outSize <= dest.Length && Separate(p, dest)
    modifies p, p.probs, p.dic, p.tempBuf, dest
    ensures p.Callable() && |p.out| == |old(p.out)| + n && n <= outSize && used <= |src|
    ensures old(p.out) <= p.out && dest[..at + n] == old(dest[..at]) + p.out[|old(p.out)|..]
    ensures if done then whole == Answer(res, status, p.AsReader(), used)
      else n > 0 && StillDoes(p, src, total, any, whole, used)
  {
    hide LzmaDec.Valid, Usable, Chunking.DecodeToDic, LzmaDec.AsReader, OutOf, FullAnswer, LzmaDec.Callable;
    assert src[0..] == src;
    GoRound(p);
    BetweenCalls(p);
    ghost var r := p.AsReader();
    var dicPos := p.dicPos;
    var limit, mode := dicPos + outSize, any;
    if outSize > p.dic.Length - dicPos {
      limit, mode := p.dic.Length, true;
    }
    ghost var cut := |p.out| + (limit - dicPos);
    res, status, used := p.DecodeToDic(limit, src, mode);
    BetweenCalls(p);
    DecodeToDicExtends(p.cfg, r, src, cut, mode);
    AfterCall(p.cfg, r, Answer(res, status, p.AsReader(), used), src, cut, total, mode, any);
    n := p.dicPos - dicPos;
    DicEnd(p.dic[..], p.dicPos, p.out, n);
    IsFull(p, Answer(res, status, p.AsReader(), used), cut, total);
    CopyOut(p, dicPos, n, dest, at);
    done := res != SzOk || n == 0 || outSize == n;
  }

  lemma RestDoes(p: LzmaDec, src: seq<byte>, total: nat, any: bool, whole: Answer, used: nat) returns (rest: Answer)
    requires StillDoes(p, src, total, any, whole, used)
    ensures used <= |src| && p.Callable() && StillDoes(p, src[used..], total, any, rest, 0)
    ensures whole == rest.(used := used + rest.used)
  {
    hide Chunking.DecodeToDic, Usable, LzmaDec.Callable;
    assert src[used..][0..] == src[used..];
    rest := Chunking.DecodeToDic(p.cfg, p.AsReader(), src[used..], total, any);
  }

  lemma ThenDoes(p: LzmaDec, src: seq<byte>, total: nat, any: bool, rest: Answer, used: nat, n: nat)
    requires used <= |src| && StillDoes(p, src[used..], total, any, rest, n)
    ensures StillDoes(p, src, total, any, rest.(used := used + rest.used), used + n)
  {
    hide Chunking.DecodeToDic, Usable, LzmaDec.Callable;
    assert src[used..][n..] == src[used + n..];
  }

  /**
   `LzmaDec_DecodeToBuf`: with the dictionary filled in a circle, the bytes written to `dest`
   and the state reached are those of one call whose dictionary has room for everything.
   */
  method DecodeToBuf(p: LzmaDec, dest: array<byte>, outSize: nat, src: seq<byte>, any: bool)
    returns (res: Res, status: Status, destLen: nat, used: nat)
    requires p.Callable() && p.cfg.dicSize <= p.dic.Length && outSize <= dest.Length && Separate(p, dest)
    modifies p, p.probs, p.dic, p.tempBuf, dest
    ensures p.Callable() && used <= |src|
    ensures destLen == |p.out| - |old(p.out)| <= outSize && old(p.out) <= p.out
    ensures dest[..destLen] == p.out[|old(p.out)|..]
    ensures var total := |old(p.out)| + outSize;
      Usable(p.cfg, old(p.AsReader()), total) &&
      Answer(res, status, p.AsReader(), used) == Chunking.DecodeToDic(p.cfg, old(p.AsReader()), src, total, any)
  {
    hide LzmaDec.Valid, Usable, Chunking.DecodeToDic, LzmaDec.AsReader, LzmaDec.Callable, Separate;
    CallableHere(p, |p.out| + outSize);
    ghost var total := |p.out| + outSize;
    ghost var whole := Chunking.DecodeToDic(p.cfg, p.AsReader(), src, total, any);
    used, destLen := 0, 0;
    assert src[0..] == src;
    assert StillDoes(p, src, total, any, whole, 0);
    hide StillDoes;
    while true
      invariant StillDoes(p, src, total, any, whole, used)
      invariant destLen == |p.out| - |old(p.out)| <= outSize && old(p.out) <= p.out
      invariant dest[..destLen] == p.out[|old(p.out)|..]
      decreases outSize - destLen
    {
      ghost var rest := RestDoes(p, src, total, any, whole, used);
      ghost var out1 := p.out;
      var done, n, k;
      done, res, status, n, k := BufRound(p, dest, destLen, outSize - destLen, src[used..], any, total, rest);
      assert p.out[|old(p.out)|..] == out1[|old(p.out)|..] + p.out[|out1|..];
      if !done { ThenDoes(p, src, total, any, rest, used, n); }
      used, destLen := used + n, destLen + k;
      if done { return; }
    }
  }

  lemma CallableHere(p: LzmaDec, total: nat)
    requires p.Callable() && |p.out| <= total
    ensures Usable(p.cfg, p.AsReader(), total)
  {
    hide Sound, Hungry, LzmaDec.Valid;
  }

  datatype Verdict = Verdict(res: Res, inputEof: bool)

  /**
   `LzmaDecode`: the destination is the dictionary. A decoder that wants more input at the
   end reports the end of the input instead.
   */
  method LzmaDecode(cfg: Config, dest: array<byte>, src: seq<byte>, any: bool)
    returns (verdict: Verdict, status: Status, destLen: nat, used: nat)
    requires cfg.Valid()
    modifies dest
    ensures |src| < 5 ==> verdict == Verdict(SzOk, true) && destLen == 0 == used && status == NotSpecified
    ensures |src| >= 5 ==>
      var a := Chunking.DecodeToDic(cfg, NEW, src, dest.Length, any);
      && verdict == Verdict(a.res, a.res == SzOk && a.status == NeedsMoreInput)
      && status == a.status && used == a.used
      && destLen == |OutOf(a.reader)| <= dest.Length && dest[..destLen] == OutOf(a.reader)
  {
    status, destLen, used := NotSpecified, 0, 0;
    if |src| < 5 {
      return Verdict(SzOk, true), NotSpecified, 0, 0;
    }
    var p := new LzmaDec(cfg, dest);
    hide LzmaDec.Valid, Usable, Chunking.DecodeToDic, LzmaDec.AsReader, LzmaDec.Callable;
    var res;
    res, status, used := p.DecodeToDic(dest.Length, src, any);
    BetweenCalls(p);
    destLen := p.dicPos;
    DicEnd(p.dic[..], p.dicPos, p.out, destLen);
    assert p.dic[0..destLen] == dest[..destLen];
    verdict := Verdict(res, res == SzOk && status == NeedsMoreInput);
  }
}
