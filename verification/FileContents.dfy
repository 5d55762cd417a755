/** What the content of a file comes back as, when the flags of its blocks are guessed. */
module FileContents {

  import opened Bytes
  import opened BlockFraming
  import opened Container
  import opened FileBlocks
  import opened ZlibBlocks

  /** From block `i` on, the sizes are those of the blocks of `src`, and the flags are as they are guessed. */
  ghost predicate Sees(m: Compression, c: Codec, src: seq<byte>, blockSize: nat, beyond: byte, sizes: seq<nat>, flags: seq<bool>, i: nat)
    requires blockSize > 0
  {
    && i <= |flags| <= |sizes| && flags[i..] == SeenFlags(m, c, src, blockSize, beyond)
    && sizes[i..|flags|] == AllResolved(InBlocks(c, src, blockSize, blockSize).sizes, blockSize)
  }

  lemma SeesRest(m: Compression, c: Codec, src: seq<byte>, blockSize: nat, beyond: byte, sizes: seq<nat>, flags: seq<bool>, i: nat)
    requires blockSize > 0 && src != [] && Sees(m, c, src, blockSize, beyond, sizes, flags, i)
    ensures var n := Min(blockSize, |src|);
            var one := OneBlock(c, src[..n], blockSize, blockSize);
            && i < |flags| <= |sizes| && flags[i] == LooksCompressed(Some(m), one.bytes, n, beyond)
            && sizes[i] == Resolved(one.sizes[0], blockSize)
            && Sees(m, c, src[n..], blockSize, beyond, sizes, flags, i + 1)
  {
    hide LooksCompressed;
    var n := Min(blockSize, |src|);
    var f := InBlocks(c, src, blockSize, blockSize);
    var seen := SeenFlags(m, c, src, blockSize, beyond);
    assert flags[i] == flags[i..][0] == seen[0];
    assert sizes[i] == sizes[i..|flags|][0] == AllResolved(f.sizes, blockSize)[0];
    assert flags[i + 1..] == flags[i..][1..] == seen[1..];
    assert sizes[i + 1..|flags|] == sizes[i..|flags|][1..] == AllResolved(f.sizes, blockSize)[1..];
  }

  // ---------- LZMA ----------

  /** A compressed block that is as long as what it holds comes back as it is, every other block as what it holds. */
  function LzmaReread(c: Codec, src: seq<byte>, blockSize: nat): (r: seq<byte>)
    requires blockSize > 0
    ensures |r| == |src|
    decreases |src|
  {
    if src == [] then []
    else
      var n := Min(blockSize, |src|);
      LzmaBlockAgain(c, src[..n], blockSize) + LzmaReread(c, src[n..], blockSize)
  }

  function LzmaBlockAgain(c: Codec, x: seq<byte>, blockSize: nat): (r: seq<byte>)
    ensures |r| == |x|
  {
    var z := c.pack(x, blockSize);
    if z.Some? && |z.value| == |x| then z.value else x
  }

  lemma LzmaBlockComesBack(c: Codec, x: seq<byte>, blockSize: nat, beyond: byte, rest: seq<byte>, tail: seq<byte>)
    requires Faithful(c) && StartsLikeLzma(c) && 0 < |x| <= blockSize
    ensures var one := OneBlock(c, x, blockSize, blockSize);
            && 0 < |one.bytes| == Resolved(one.sizes[0], blockSize)
            && if LooksCompressed(Some(Lzma), one.bytes, |x|, beyond) then
                 c.unpack(one.bytes + rest, |one.bytes|, tail) == Some(Unpacked(x, |one.bytes|, |x|))
                 && LzmaBlockAgain(c, x, blockSize) == x
               else |one.bytes| == |x| && one.bytes == LzmaBlockAgain(c, x, blockSize)
  {
    OneBlockIsRestored(c, x, blockSize, blockSize, rest, tail);
  }

  lemma {:induction false} LzmaComesBackAs(c: Codec, src: seq<byte>, blockSize: nat, beyond: byte, sizes: seq<nat>, flags: seq<bool>,
                                           i: nat, tail: seq<byte>)
    requires Faithful(c) && StartsLikeLzma(c) && blockSize > 0 && Sees(Lzma, c, src, blockSize, beyond, sizes, flags, i)
    ensures Restored(c, InBlocks(c, src, blockSize, blockSize).bytes, sizes, flags, i, tail) ==
            Some(Pieces(LzmaReread(c, src, blockSize), |src|))
    decreases |src|
  {
    hide Sees, Faithful, StartsLikeLzma, OneBlock, LooksCompressed, LzmaBlockAgain;
    if src != [] {
      var n := Min(blockSize, |src|);
      var x, y := src[..n], src[n..];
      var rest, z := InBlocks(c, y, blockSize, blockSize).bytes, OneBlock(c, x, blockSize, blockSize).bytes;
      SeesRest(Lzma, c, src, blockSize, beyond, sizes, flags, i);
      LzmaComesBackAs(c, y, blockSize, beyond, sizes, flags, i + 1, tail);
      LzmaBlockComesBack(c, x, blockSize, beyond, rest, tail);
      FirstIsRestored(c, z, rest, sizes, flags, i, tail, LzmaBlockAgain(c, x, blockSize));
    }
  }

  /** Every block that is compressed to exactly its own length is compressed to itself. */
  predicate Harmless(c: Codec, src: seq<byte>, blockSize: nat)
    requires blockSize > 0
    decreases |src|
  {
    src == [] ||
    var n := Min(blockSize, |src|);
    var z := c.pack(src[..n], blockSize);
    (z.Some? && |z.value| == n ==> z.value == src[..n]) && Harmless(c, src[n..], blockSize)
  }

  lemma {:induction false} HarmlessIsExact(c: Codec, src: seq<byte>, blockSize: nat)
    requires blockSize > 0
    ensures LzmaReread(c, src, blockSize) == src <==> Harmless(c, src, blockSize)
    ensures NoEqualSize(c, src, blockSize) ==> Harmless(c, src, blockSize)
    decreases |src|
  {
    if src != [] {
      var n := Min(blockSize, |src|);
      var a, b := LzmaBlockAgain(c, src[..n], blockSize), LzmaReread(c, src[n..], blockSize);
      HarmlessIsExact(c, src[n..], blockSize);
      assert (a + b)[..n] == a && (a + b)[n..] == b;
      assert src == src[..n] + src[n..];
    }
  }

  /**
   LZMA files of any number of blocks: what the content comes back as, and that it comes back
   exactly if no block is compressed to other bytes of its own length.
   */
  lemma LzmaContent(c: Codec, src: seq<byte>, blockSize: nat, beyond: byte, tail: seq<byte>)
    requires Faithful(c) && StartsLikeLzma(c) && blockSize > 0
    ensures var d := Whole(Lzma, c, src, blockSize, beyond);
            && |d.flags| <= |d.sizes|
            && Decompressed(c, d.bytes, d.sizes, d.flags, tail) == Some(LzmaReread(c, src, blockSize))
            && (Decompressed(c, d.bytes, d.sizes, d.flags, tail) == Some(src) <==> Harmless(c, src, blockSize))
  {
    hide Restored, InBlocks, Decompressed, Faithful, StartsLikeLzma, LzmaReread, Harmless;
    var d := Whole(Lzma, c, src, blockSize, beyond);
    WholeIsSeen(Lzma, c, src, blockSize, beyond);
    LzmaComesBackAs(c, src, blockSize, beyond, d.sizes, d.flags, 0, tail);
    ExactlyFilled(c, d.bytes, d.sizes, d.flags, tail, LzmaReread(c, src, blockSize));
    HarmlessIsExact(c, src, blockSize);
  }

  lemma WholeIsSeen(m: Compression, c: Codec, src: seq<byte>, blockSize: nat, beyond: byte)
    requires blockSize > 0
    ensures var d := Whole(m, c, src, blockSize, beyond);
            |d.flags| == |d.sizes| && Sees(m, c, src, blockSize, beyond, d.sizes, d.flags, 0)
  {
    SeenLength(m, c, src, blockSize, beyond);
    var d := Whole(m, c, src, blockSize, beyond);
    assert d.flags[0..] == d.flags && d.sizes[0..|d.flags|] == d.sizes;
  }

  lemma {:induction false} SeenLength(m: Compression, c: Codec, src: seq<byte>, blockSize: nat, beyond: byte)
    requires blockSize > 0
    ensures |SeenFlags(m, c, src, blockSize, beyond)| == |InBlocks(c, src, blockSize, blockSize).sizes|
    decreases |src|
  {
    if src != [] {
      SeenLength(m, c, src[Min(blockSize, |src|)..], blockSize, beyond);
    }
  }

  // ---------- zlib ----------

  /** A stored block that begins like a zlib stream. */
  predicate FalseMagic(zlib: Zlib, x: seq<byte>, blockSize: nat, beyond: byte) {
    x != [] && zlib.compress(x, blockSize).None? && ZlibMagic(x[0], if |x| > 1 then x[1] else beyond)
  }

  /** A compressed block whose header is not known. */
  predicate Missed(zlib: Zlib, x: seq<byte>, blockSize: nat) {
    var z := zlib.compress(x, blockSize);
    z.Some? && |z.value| >= 2 && !ZlibMagic(z.value[0], z.value[1])
  }

  /**
   A stored block that begins like a zlib stream is inflated, or the whole file is lost when it cannot be; a
   compressed one that does not is taken as it is. Every other block comes back.
   */
  function ZlibReread(zlib: Zlib, src: seq<byte>, blockSize: nat, beyond: byte): Option<seq<byte>>
    requires blockSize > 0
    decreases |src|
  {
    if src == [] then Some([])
    else
      var n := Min(blockSize, |src|);
      Following(ZlibBlockAgain(zlib, src[..n], blockSize, beyond), ZlibReread(zlib, src[n..], blockSize, beyond))
  }

  function ZlibBlockAgain(zlib: Zlib, x: seq<byte>, blockSize: nat, beyond: byte): Option<seq<byte>> {
    if Missed(zlib, x, blockSize) then zlib.compress(x, blockSize)
    else if !FalseMagic(zlib, x, blockSize, beyond) then Some(x)
    else if zlib.inflate(x).ok then Some(zlib.inflate(x).plain)
    else None
  }

  function Following(a: Option<seq<byte>>, b: Option<seq<byte>>): Option<seq<byte>> {
    if a.None? || b.None? then None else Some(a.value + b.value)
  }

  function AsPieces(a: Option<seq<byte>>): Option<Pieces> {
    if a.None? then None else Some(Pieces(a.value, |a.value|))
  }

  lemma ZlibBlockComesBack(zlib: Zlib, x: seq<byte>, blockSize: nat, beyond: byte, rest: seq<byte>, tail: seq<byte>)
    requires zlib.Valid() && 0 < |x| <= blockSize
    ensures var c := ZlibCodec(zlib);
            var one, again := OneBlock(c, x, blockSize, blockSize), ZlibBlockAgain(zlib, x, blockSize, beyond);
            && 0 < |one.bytes| == Resolved(one.sizes[0], blockSize)
            && if LooksCompressed(Some(Container.Zlib), one.bytes, |x|, beyond) then
                 c.unpack(one.bytes + rest, |one.bytes|, tail) ==
                 if again.None? then None else Some(Unpacked(again.value, |one.bytes|, |again.value|))
               else again == Some(one.bytes)
  {
    hide ZlibMagic;
    assert zlib.Restores(x, blockSize);
    var one := OneBlock(ZlibCodec(zlib), x, blockSize, blockSize).bytes;
    assert (one + rest)[..|one|] == one;
  }

  lemma {:induction false} ZlibComesBackAs(zlib: Zlib, src: seq<byte>, blockSize: nat, beyond: byte, sizes: seq<nat>, flags: seq<bool>,
                                           i: nat, tail: seq<byte>)
    requires zlib.Valid() && blockSize > 0 && Sees(Container.Zlib, ZlibCodec(zlib), src, blockSize, beyond, sizes, flags, i)
    ensures Restored(ZlibCodec(zlib), InBlocks(ZlibCodec(zlib), src, blockSize, blockSize).bytes, sizes, flags, i, tail) ==
            AsPieces(ZlibReread(zlib, src, blockSize, beyond))
    decreases |src|
  {
    hide Sees, OneBlock, LooksCompressed, ZlibBlockAgain, Zlib.Valid, ZlibCodec;
    var c := ZlibCodec(zlib);
    if src != [] {
      var n := Min(blockSize, |src|);
      var x, y := src[..n], src[n..];
      var rest, z := InBlocks(c, y, blockSize, blockSize).bytes, OneBlock(c, x, blockSize, blockSize).bytes;
      SeesRest(Container.Zlib, c, src, blockSize, beyond, sizes, flags, i);
      ZlibComesBackAs(zlib, y, blockSize, beyond, sizes, flags, i + 1, tail);
      ZlibBlockComesBack(zlib, x, blockSize, beyond, rest, tail);
      assert (z + rest)[|z|..] == rest && (z + rest)[..|z|] == z;
    }
  }

  /** What the content of a zlib file comes back as. */
  lemma ZlibContent(zlib: Zlib, src: seq<byte>, blockSize: nat, beyond: byte, tail: seq<byte>)
    requires zlib.Valid() && blockSize > 0
    ensures var c := ZlibCodec(zlib);
            var d := Whole(Container.Zlib, c, src, blockSize, beyond);
            |d.flags| <= |d.sizes| && Decompressed(c, d.bytes, d.sizes, d.flags, tail) == ZlibReread(zlib, src, blockSize, beyond)
  {
    hide Restored, InBlocks, ZlibReread, Zlib.Valid, ZlibCodec;
    var c := ZlibCodec(zlib);
    var d := Whole(Container.Zlib, c, src, blockSize, beyond);
    WholeIsSeen(Container.Zlib, c, src, blockSize, beyond);
    ZlibComesBackAs(zlib, src, blockSize, beyond, d.sizes, d.flags, 0, tail);
    var r := ZlibReread(zlib, src, blockSize, beyond);
    if r.Some? {
      ExactlyFilled(c, d.bytes, d.sizes, d.flags, tail, r.value);
    }
  }

  /** Some stored block begins like a zlib stream and is none. */
  predicate Broken(zlib: Zlib, src: seq<byte>, blockSize: nat, beyond: byte)
    requires blockSize > 0
    decreases |src|
  {
    src != [] &&
    var n := Min(blockSize, |src|);
    (FalseMagic(zlib, src[..n], blockSize, beyond) && !zlib.inflate(src[..n]).ok) || Broken(zlib, src[n..], blockSize, beyond)
  }

  /** What a block comes back as, if it does, is what it was. */
  predicate HoldsItself(zlib: Zlib, src: seq<byte>, blockSize: nat, beyond: byte)
    requires blockSize > 0
    decreases |src|
  {
    src == [] ||
    var n := Min(blockSize, |src|);
    && (FalseMagic(zlib, src[..n], blockSize, beyond) ==> zlib.inflate(src[..n]) == Inflated(src[..n], true))
    && (Missed(zlib, src[..n], blockSize) ==> zlib.compress(src[..n], blockSize) == Some(src[..n]))
    && HoldsItself(zlib, src[n..], blockSize, beyond)
  }

  /** Blocks that come back as something else keep their length. */
  predicate KeepsLengths(zlib: Zlib, src: seq<byte>, blockSize: nat, beyond: byte)
    requires blockSize > 0
    decreases |src|
  {
    src == [] ||
    var n := Min(blockSize, |src|);
    && (FalseMagic(zlib, src[..n], blockSize, beyond) && zlib.inflate(src[..n]).ok ==> |zlib.inflate(src[..n]).plain| == n)
    && (Missed(zlib, src[..n], blockSize) ==> |zlib.compress(src[..n], blockSize).value| == n)
    && KeepsLengths(zlib, src[n..], blockSize, beyond)
  }

  /**
   A zlib file is lost as a whole exactly if some stored block begins like a zlib stream and is
   none. It comes back if all headers are known and no stored block begins so; and, if the lengths of
   misread blocks are kept, or there is only one block, exactly if such blocks hold themselves.
   */
  lemma {:induction false} ZlibRereadIs(zlib: Zlib, src: seq<byte>, blockSize: nat, beyond: byte)
    requires blockSize > 0
    ensures ZlibReread(zlib, src, blockSize, beyond) == None <==> Broken(zlib, src, blockSize, beyond)
    ensures AllKnown(ZlibCodec(zlib), src, blockSize) && NoFalseMagic(ZlibCodec(zlib), src, blockSize, beyond) ==>
              HoldsItself(zlib, src, blockSize, beyond)
    ensures HoldsItself(zlib, src, blockSize, beyond) ==> ZlibReread(zlib, src, blockSize, beyond) == Some(src)
    ensures KeepsLengths(zlib, src, blockSize, beyond) || |src| <= blockSize ==>
              (ZlibReread(zlib, src, blockSize, beyond) == Some(src) <==> HoldsItself(zlib, src, blockSize, beyond))
    decreases |src|
  {
    hide ZlibMagic;
    if src != [] {
      var n := Min(blockSize, |src|);
      var x, y := src[..n], src[n..];
      ZlibRereadIs(zlib, y, blockSize, beyond);
      var a, b := ZlibBlockAgain(zlib, x, blockSize, beyond), ZlibReread(zlib, y, blockSize, beyond);
      assert src == x + y;
      if a.Some? && b.Some? && |a.value| == n {
        assert (a.value + b.value)[..n] == a.value && (a.value + b.value)[n..] == b.value;
      }
      if y == [] && a.Some? {
        assert a.value + [] == a.value && x + [] == x;
      }
    }
  }

  /** No block begins with the first byte of what it is compressed to. */
  predicate StartsElsewhere(zlib: Zlib, src: seq<byte>, blockSize: nat)
    requires blockSize > 0
    decreases |src|
  {
    src == [] ||
    var n := Min(blockSize, |src|);
    var z := zlib.compress(src[..n], blockSize);
    (z.Some? && z.value != [] ==> z.value[0] != src[0]) && StartsElsewhere(zlib, src[n..], blockSize)
  }

  /** Every compressed block has a header for the largest window that is not of level 1. */
  predicate KnownHeaders(zlib: Zlib, src: seq<byte>, blockSize: nat)
    requires blockSize > 0
    decreases |src|
  {
    src == [] ||
    var n := Min(blockSize, |src|);
    var z := zlib.compress(src[..n], blockSize);
    (z.Some? && |z.value| >= 2 ==> z.value[0] == 0x78 && z.value[1] / 0x40 != 1) && KnownHeaders(zlib, src[n..], blockSize)
  }

  /**
   Which headers make a file come back: if no stored block begins like a zlib stream, and no block like what
   it is compressed to, it comes back exactly if all headers are of the largest window and not of level 1.
   */
  lemma {:induction false} HeadersDecide(zlib: Zlib, src: seq<byte>, blockSize: nat, beyond: byte)
    requires zlib.Valid() && blockSize > 0
    requires NoFalseMagic(ZlibCodec(zlib), src, blockSize, beyond)
    ensures KnownHeaders(zlib, src, blockSize) <==> AllKnown(ZlibCodec(zlib), src, blockSize)
    ensures ZlibReread(zlib, src, blockSize, beyond).Some?
    ensures StartsElsewhere(zlib, src, blockSize) ==>
              (ZlibReread(zlib, src, blockSize, beyond) == Some(src) <==> KnownHeaders(zlib, src, blockSize))
    decreases |src|
  {
    hide ZlibMagic;
    if src != [] {
      var n := Min(blockSize, |src|);
      var x, y := src[..n], src[n..];
      HeadersDecide(zlib, y, blockSize, beyond);
      BlockHeader(zlib, x, blockSize);
      var a, b := ZlibBlockAgain(zlib, x, blockSize, beyond), ZlibReread(zlib, y, blockSize, beyond);
      assert src == x + y && x[0] == src[0];
      if Missed(zlib, x, blockSize) {
        assert (a.value + b.value)[0] == a.value[0];
      } else {
        assert (x + b.value)[n..] == b.value;
      }
    }
  }

  lemma BlockHeader(zlib: Zlib, x: seq<byte>, blockSize: nat)
    requires zlib.Valid()
    ensures var z := zlib.compress(x, blockSize);
            z.Some? ==> |z.value| >= 2 && (ZlibMagic(z.value[0], z.value[1]) <==> z.value[0] == 0x78 && z.value[1] / 0x40 != 1)
  {
    hide ZlibMagic, ZlibHeader;
    var z := zlib.compress(x, blockSize);
    if z.Some? {
      assert zlib.Restores(x, blockSize);
      ZlibMagicIs(z.value[0], z.value[1]);
    }
  }
}
