/**
 The LZMA blocks of an archive: a header of 13 bytes and a raw LZMA stream. The codec is the one of
 this model, so that blocks are proved to be restored.
 */
module LzmaBlocks {

  import opened Bytes
  import Powers
  import opened Scalars
  import opened BlockFraming
  import opened Lz
  import opened Symbols
  import opened Decoder
  import Chunking
  import opened Stream

  /** `LzmaProps_Decode` */
  function ReadProps(head: seq<byte>): Option<Config>
    requires |head| == 5
  {
    var dicSize := Little(head[1..]);
    var d := head[0];
    if d >= 9 * 5 * 5 then None
    else Some(Config(Props(d % 9, d / 9 % 5, d / 9 / 5), if dicSize < 0x1000 then 0x1000 else dicSize))
  }

  lemma PropsAreValid(head: seq<byte>)
    requires |head| == 5 && ReadProps(head).Some?
    ensures ReadProps(head).value.Valid()
  {
  }

  /** `LzmaEnc_WriteProperties`: the byte for lc, lp and pb, and a size of the dictionary. */
  function WriteProps(p: Props, dicSize: nat): (head: seq<byte>)
    requires p.Valid()
    ensures |head| == 5
  {
    [(p.pb * 5 + p.lp) * 9 + p.lc] + LittleBytes(dicSize, 4)
  }

  lemma PropsAreRestored(p: Props, dicSize: nat)
    requires p.Valid() && 0x1000 <= dicSize < 0x1_0000_0000
    ensures ReadProps(WriteProps(p, dicSize)) == Some(Config(p, dicSize))
  {
    assert WriteProps(p, dicSize)[1..] == LittleBytes(dicSize, 4);
    LittleOfBytes(dicSize, 4);
    var q := p.pb * 5 + p.lp;
    assert (q * 9 + p.lc) / 9 == q && (q * 9 + p.lc) % 9 == p.lc;
  }

  /**
   An LZMA encoder with fixed settings: whatever parse it chooses for a block, it is a valid one.
   The cheapest parse is a matter of prices and not of this model.
   */
  datatype Coder = Coder(props: Props, dicSize: nat, parse: seq<byte> -> seq<Sym>)
  {
    function Settings(): Config {
      Config(props, dicSize)
    }

    ghost predicate Chooses(x: seq<byte>) {
      x != [] ==> Parse(Settings(), START, parse(x), x)
    }

    ghost predicate Valid() {
      Settings().Valid() && forall x: seq<byte> :: Chooses(x)
    }
  }

  /** Every byte as a literal. */
  function Literals(x: seq<byte>): seq<Sym> {
    if x == [] then [] else [Literal(x[0])] + Literals(x[1..])
  }

  lemma {:induction false} LiteralsAreAParse(cfg: Config, m: Machine, x: seq<byte>)
    ensures Parse(cfg, m, Literals(x), m.out + x)
    decreases |x|
  {
    if x == [] {
      assert m.out + x == m.out;
    } else {
      var m1 := Apply(m, Literal(x[0]));
      LiteralsAreAParse(cfg, m1, x[1..]);
      assert m1.out + x[1..] == m.out + x;
      assert Literals(x)[1..] == Literals(x[1..]);
    }
  }

  /** There is a coder for every setting: one that finds no matches. */
  lemma SomeCoderIsValid(props: Props, dicSize: nat)
    requires Config(props, dicSize).Valid()
    ensures Coder(props, dicSize, Literals).Valid()
  {
    var coder := Coder(props, dicSize, Literals);
    forall x: seq<byte> ensures coder.Chooses(x) {
      LiteralsAreAParse(coder.Settings(), START, x);
      assert START.out + x == x;
    }
  }

  const LZMA_HEADER_SIZE := 13

  /** One LZMA block of `LZMACompress`, unless the stream has no room beside the header. */
  function PackLzma(coder: Coder, x: seq<byte>, cap: nat): Option<seq<byte>>
    requires coder.Valid()
  {
    if x == [] || |x| >= Range(8) then None
    else
      assert coder.Chooses(x);
      var stream := LzmaStream(coder.Settings(), coder.parse(x), x);
      if |stream| + LZMA_HEADER_SIZE > cap then None
      else Some(WriteProps(coder.props, coder.dicSize) + LittleBytes(|x|, 8) + stream)
  }

  /**
   One LZMA block of `LZMADecompress`. The decoder is given as many bytes behind the header as
   the whole block has, so that it may look at bytes of the next block, or behind the input. As
   much room as the header says is set aside.
   */
  function UnpackLzma(src: seq<byte>, size: nat, tail: seq<byte>): Option<Unpacked> {
    if |src| < LZMA_HEADER_SIZE then None
    else
      var cfg, n := ReadProps(src[..5]), Little(src[5..13]);
      var behind := src[13..] + tail;
      var window := behind[..Min(size, |behind|)];
      if cfg.None? || |window| < 5 then None
      else
        PropsAreValid(src[..5]);
        var a := Chunking.DecodeToDic(cfg.value, Chunking.NEW, window, n, false);
        if a.res != SzOk || a.status == NeedsMoreInput then None
        else Some(Unpacked(Chunking.OutOf(a.reader), LZMA_HEADER_SIZE + a.used, n))
  }

  function LzmaCodec(coder: Coder): Codec
    requires coder.Valid()
  {
    Codec((x: seq<byte>, cap: nat) => PackLzma(coder, x, cap),
          (src: seq<byte>, size: nat, tail: seq<byte>) => UnpackLzma(src, size, tail))
  }

  lemma HeaderParts(head: seq<byte>, len: seq<byte>, stream: seq<byte>, rest: seq<byte>)
    requires |head| == 5 && |len| == 8
    ensures var input := head + len + stream + rest;
            input[..5] == head && input[5..13] == len && input[13..] == stream + rest
  {
  }

  lemma SizeIsRead(n: nat)
    requires n < Range(8)
    ensures Little(LittleBytes(n, 8)) == n
  {
    LittleOfBytes(n, 8);
    Powers.ModIs(n, Range(8), 0, n);
  }

  /** The window of the decoder: the stream and up to 13 bytes more */
  lemma WindowBehind(stream: seq<byte>, rest: seq<byte>, tail: seq<byte>) returns (more: seq<byte>)
    ensures (stream + rest + tail)[..Min(|stream| + 13, |stream + rest + tail|)] == stream + more
  {
    more := (rest + tail)[..Min(13, |rest + tail|)];
  }

  lemma StreamIsRead(cfg: Config, syms: seq<Sym>, x: seq<byte>, more: seq<byte>)
    requires cfg.Valid() && x != [] && Parse(cfg, START, syms, x)
    ensures var z := LzmaStream(cfg, syms, x);
            var a := Chunking.DecodeToDic(cfg, Chunking.NEW, z + more, |x|, false);
            && |z + more| >= 5 && a.res == SzOk && a.status != NeedsMoreInput && a.used == |z| && Chunking.OutOf(a.reader) == x
  {
    hide LzmaStream, Parse, Chunking.DecodeToDic;
    StreamRoundTrip(cfg, syms, x, more, false);
    var s := FirstSymbolReady(cfg, syms, x, more);
  }

  /** An LZMA block is restored from its bytes, whatever parse was chosen and whatever follows. */
  lemma LzmaRestoresBlock(coder: Coder, x: seq<byte>, cap: nat, rest: seq<byte>, tail: seq<byte>)
    requires coder.Valid()
    ensures RestoresBlock(LzmaCodec(coder), x, cap, rest, tail)
  {
    hide LzmaStream, Parse, ReadProps, WriteProps, Range, Little, LittleBytes, Chunking.DecodeToDic, Chunking.OutOf;
    var z := PackLzma(coder, x, cap);
    if x != [] && z.Some? {
      assert coder.Chooses(x);
      var stream := LzmaStream(coder.Settings(), coder.parse(x), x);
      PropsAreRestored(coder.props, coder.dicSize);
      SizeIsRead(|x|);
      HeaderParts(WriteProps(coder.props, coder.dicSize), LittleBytes(|x|, 8), stream, rest);
      var more := WindowBehind(stream, rest, tail);
      StreamIsRead(coder.Settings(), coder.parse(x), x, more);
    }
  }

  lemma LzmaIsFaithful(coder: Coder)
    requires coder.Valid()
    ensures Faithful(LzmaCodec(coder))
  {
    forall x: seq<byte>, cap: nat, rest: seq<byte>, tail: seq<byte>
      ensures RestoresBlock(LzmaCodec(coder), x, cap, rest, tail)
    {
      LzmaRestoresBlock(coder, x, cap, rest, tail);
    }
  }
}
