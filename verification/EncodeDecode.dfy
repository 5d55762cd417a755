/** The encoder and the decoder, both in place, one after the other. */
module EncodeDecode {

  import opened Bytes
  import opened RangeCoder
  import opened Symbols
  import opened SymbolCoder
  import opened Layout
  import opened Lz
  import opened Decoder
  import opened Chunking
  import opened Stream
  import opened History
  import opened ToldRuns
  import opened StreamFormat
  import opened LzmaEncoder
  import opened DecoderSteps
  import opened LzmaDecoder
  import opened LzmaCalls

  /** The two arrays agree cell by cell, each cell at its own index on either side. */
  ghost predicate Lockstep(props: Props, enc: seq<Prob>, dec: seq<Prob>) {
    && |enc| == NumProbs(Encoder, props) && |dec| == NumProbs(Decoder, props)
    && forall c :: ValidCell(props, c) ==> enc[Index(Encoder, props, c)] == dec[Index(Decoder, props, c)]
  }

  lemma OneModel(props: Props, enc: seq<Prob>, dec: seq<Prob>, m: Model)
    requires Holds(Encoder, props, enc, m) && Holds(Decoder, props, dec, m)
    ensures Lockstep(props, enc, dec)
  {
    hide Index, ValidCell;
  }

  /** A decoder that has read a stream to its end has learned the model of its session. */
  lemma HasLearned(p: LzmaDec)
    requires p.Callable() && p.AsReader().Reading? && p.AsReader().session.remainLen == 0
    ensures Holds(Decoder, p.cfg.props, p.probs[..], p.AsReader().session.model)
    ensures p.dicPos == |p.out| == p.dic.Length ==> p.dic[..] == p.out
  {
    hide Usable, Sound, Holds, DicHolds;
    if p.dicPos == |p.out| == p.dic.Length {
      DicEnd(p.dic[..], p.dicPos, p.out, p.dicPos);
      assert p.dic[..][0..p.dicPos] == p.dic[..] && p.out[0..] == p.out;
    }
  }

  /** What a decoder knows besides the model, once it has read these symbols. */
  lemma HasFollowed(p: LzmaDec, cfg: Config, syms: seq<Sym>, src: seq<byte>)
    requires p.Callable() && p.AsReader().Reading? && Parse(cfg, START, syms, src)
    requires p.AsReader().session.machine == MachineAfter(cfg, START, syms, src)
    ensures Remembers(p.reps, syms) && StateTells(p.state, syms)
  {
    hide Usable, Sound, Holds, DicHolds, MachineAfter, Parse, Remembers, StateTells;
    StartTold();
    MachineIsTold(cfg, START, [], syms, src);
    assert [] + syms == syms;
  }

  /**
   Whatever choices the parser made, as long as they spell the data: the encoder writes the bits that the
   format has for their symbols, and they lead the decoder to the same data. It uses exactly the bytes that
   were written; it remembers the distances and the kinds that the symbols leave; and at the end both arrays
   of probabilities are the same.
   */
  method EncodeAndDecode(cfg: Config, src: seq<byte>, choices: seq<Choice>, rest: seq<byte>, dest: array<byte>)
    returns (enc: LzmaEnc, dec: LzmaDec, res: Res, status: Status, used: nat, ghost syms: seq<Sym>)
    requires cfg.Valid() && ChoicesSpell(cfg, [], src, choices) && src != [] && dest.Length == |src|
    modifies dest
    ensures Spellable(cfg, syms) && Text(syms) == src
    ensures enc.rc.out == Flush(CodeSyms(cfg.props, [], syms, ENC_INIT, map[]).enc).out
    ensures res == SzOk && status == MaybeFinishedWithoutMark && dest[..] == src
    ensures used == |enc.rc.out|
    ensures Remembers(dec.reps, syms) && StateTells(dec.state, syms)
    ensures Lockstep(cfg.props, enc.probs[..], dec.probs[..])
  {
    hide Covers, Parse, SymsOf, LzmaEnc.Valid, LzmaDec.Callable, LzmaDec.AsReader, Chunking.DecodeToDic, EncodeSyms, Usable, Holds, Lockstep;
    hide CodeSyms, Remembers, StateTells, Spellable, Text, MachineAfter, ChoicesSpell;
    ChoicesAreCovers(cfg, src, choices);
    enc := new LzmaEnc(cfg.props);
    enc.EncodeChoices(src, choices, cfg);
    syms := SymsOf(cfg, START, src, choices);
    StreamIsFormat(cfg, syms, src);
    StreamRoundTrip(cfg, syms, src, rest, false);
    dec := new LzmaDec(cfg, dest);
    res, status, used := dec.DecodeToDic(dest.Length, enc.rc.out + rest, false);
    HasLearned(dec);
    HasFollowed(dec, cfg, syms, src);
    OneModel(cfg.props, enc.probs[..], dec.probs[..], enc.model) by {
      EncoderHolds(enc);
    }
  }

  lemma ChoicesAreCovers(cfg: Config, src: seq<byte>, choices: seq<Choice>)
    requires ChoicesSpell(cfg, [], src, choices)
    ensures Covers(cfg, START, src, choices)
    ensures var syms := SymsOf(cfg, START, src, choices); Spellable(cfg, syms) && Text(syms) == src
  {
    hide Covers, ChoicesSpell, Told, Text, SymsOf;
    StartTold();
    CoversIsSpelling(cfg, START, [], src, choices);
    assert [] + SymsOf(cfg, START, src, choices) == SymsOf(cfg, START, src, choices);
  }

  lemma EncoderHolds(enc: LzmaEnc)
    requires enc.Valid()
    ensures Holds(Encoder, enc.props, enc.probs[..], enc.model)
  {
    hide Holds;
  }
}
