/** `PSArcFile::GetData`: the blocks of one file, read back with their sizes and flags. */
module FileBlocks {

  import opened Bytes
  import opened BlockFraming
  import opened Container
  import opened ContainerReader
  import opened Upsync

  datatype FileData = FileData(bytes: seq<byte>, sizes: seq<nat>, flags: seq<bool>)

  /** The first two bytes of a zlib stream, in either order; see section 2.2 of RFC 1950. */
  predicate ZlibMagic(b0: byte, b1: byte) {
    (b0 == 0x78 && (b1 == 0xDA || b1 == 0x9C || b1 == 0x01)) || (b1 == 0x78 && (b0 == 0xDA || b0 == 0x9C || b0 == 0x01))
  }

  /** The two bytes that begin a zlib stream without a preset dictionary; see section 2.2 of RFC 1950. */
  predicate ZlibHeader(cmf: byte, flg: byte) {
    cmf % 16 == 8 && cmf / 16 <= 7 && (cmf * 0x100 + flg) % 31 == 0 && flg / 0x20 % 2 == 0
  }

  /** A header for the largest window, of any level of compression but the second, which has number 1 */
  predicate KnownHeader(cmf: byte, flg: byte) {
    ZlibHeader(cmf, flg) && cmf == 0x78 && flg / 0x40 != 1
  }

  /**
   What the list accepts: exactly the known headers, in either order of their bytes. Of the headers that
   a stream may have, it misses those of smaller windows, and 78 5E.
   */
  lemma ZlibMagicIs(b0: byte, b1: byte)
    ensures ZlibMagic(b0, b1) <==> KnownHeader(b0, b1) || KnownHeader(b1, b0)
    ensures ZlibHeader(b0, b1) ==> (ZlibMagic(b0, b1) <==> b0 == 0x78 && b1 / 0x40 != 1)
    ensures ZlibHeader(b0, b1) && b0 == 0x78 ==> (ZlibMagic(b0, b1) <==> b1 != 0x5E)
  {
    KnownFlags(b0);
    KnownFlags(b1);
  }

  lemma KnownFlags(flg: byte)
    ensures ZlibHeader(0x78, flg) <==> flg == 0x01 || flg == 0x5E || flg == 0x9C || flg == 0xDA
  {
    assert 0x7800 % 31 == 30;
    assert (0x7800 + flg) % 31 == (30 + flg) % 31;
  }

  /**
   Whether a block is taken to be compressed, from its first bytes and, for LZMA, from its size.
   `beyond` is what lies in memory behind a block of one byte.
   */
  predicate LooksCompressed(c: Option<Compression>, block: seq<byte>, plain: nat, beyond: byte) {
    block != [] &&
    match c
    case Some(Lzma) => (block[0] == 0x5D || block[0] == 0x2C) && |block| != plain
    case Some(Zlib) => ZlibMagic(block[0], if |block| > 1 then block[1] else beyond)
    case None => false
  }

  /**
   What `GetData` collects from block number `block` on, at offset `at`, when `left` bytes of the
   file are still to come; one block in any case. A read that fails leaves zeros, and the cursor
   where it was. Nothing, when the numbers lead out of the block table.
   */
  function DataFrom(data: seq<byte>, p: Parsed, left: nat, block: nat, at: nat, beyond: byte): Option<FileData>
    decreases if block < |p.sizes| then |p.sizes| - block else 0
  {
    if block >= |p.sizes| || p.sizes[block] == 0 then None
    else
      var n := p.sizes[block];
      var one := BlockData(p, ReadAt(data, at, n), Min(p.blockSize, left), beyond);
      if left <= p.blockSize then Some(one)
      else Together(one, DataFrom(data, p, left - p.blockSize, block + 1, if at + n <= |data| then at + n else at, beyond))
  }

  /** One block, read and flagged. */
  function BlockData(p: Parsed, b: seq<byte>, plain: nat, beyond: byte): FileData {
    FileData(b, [|b|], [LooksCompressed(p.compression, b, plain, beyond)])
  }

  function Together(a: FileData, b: Option<FileData>): Option<FileData> {
    match b
    case None => None
    case Some(d) => Some(FileData(a.bytes + d.bytes, a.sizes + d.sizes, a.flags + d.flags))
  }

  function DataOf(data: seq<byte>, p: Parsed, e: Entry, beyond: byte): Option<FileData> {
    DataFrom(data, p, e.plain, e.blockOffset, e.fileOffset, beyond)
  }

  /** Every block that is read has a flag. */
  lemma {:induction false} DataHasFlags(data: seq<byte>, p: Parsed, left: nat, block: nat, at: nat, beyond: byte)
    ensures var d := DataFrom(data, p, left, block, at, beyond); d.Some? ==> |d.value.flags| == |d.value.sizes|
    decreases if block < |p.sizes| then |p.sizes| - block else 0
  {
    hide LooksCompressed, ReadAt;
    if block < |p.sizes| && left > p.blockSize {
      var n := p.sizes[block];
      DataHasFlags(data, p, left - p.blockSize, block + 1, if at + n <= |data| then at + n else at, beyond);
    }
  }

  lemma TogetherThrice(a: FileData, b: FileData, c: Option<FileData>)
    ensures Together(a, Together(b, c)) == Together(Together(a, Some(b)).value, c)
  {
    if c.Some? {
      assert a.bytes + (b.bytes + c.value.bytes) == a.bytes + b.bytes + c.value.bytes;
      assert a.sizes + (b.sizes + c.value.sizes) == a.sizes + b.sizes + c.value.sizes;
      assert a.flags + (b.flags + c.value.flags) == a.flags + b.flags + c.value.flags;
    }
  }

  lemma TogetherNothing(b: Option<FileData>)
    ensures Together(FileData([], [], []), b) == b
  {
    if b.Some? {
      assert [] + b.value.bytes == b.value.bytes && [] + b.value.sizes == b.value.sizes && [] + b.value.flags == b.value.flags;
    }
  }

  /** One turn of the loop. */
  lemma DataStep(data: seq<byte>, p: Parsed, left: nat, block: nat, at: nat, beyond: byte)
    ensures block >= |p.sizes| || p.sizes[block] == 0 ==> DataFrom(data, p, left, block, at, beyond).None?
    ensures block < |p.sizes| && p.sizes[block] != 0 ==>
              var n := p.sizes[block];
              var one := BlockData(p, ReadAt(data, at, n), Min(p.blockSize, left), beyond);
              DataFrom(data, p, left, block, at, beyond) ==
              if left <= p.blockSize then Some(one)
              else Together(one, DataFrom(data, p, left - p.blockSize, block + 1, if at + n <= |data| then at + n else at, beyond))
  {
  }

  lemma TogetherSome(a: FileData, b: Option<FileData>)
    ensures b.None? ==> Together(a, b).None?
    ensures b.Some? ==>
              Together(a, b) == Some(FileData(a.bytes + b.value.bytes, a.sizes + b.value.sizes, a.flags + b.value.flags))
  {
  }

  /** `PSArcFile::GetData`; the loop takes one block in any case. */
  method GetData(endpoint: InputHandle, p: Parsed, e: Entry, beyond: byte) returns (res: Option<FileData>)
    modifies endpoint
    ensures res == DataOf(endpoint.data, p, e, beyond)
  {
    hide DataFrom, Together, LooksCompressed, ReadAt;
    ghost var data := endpoint.data;
    var output := FileData([], [], []);
    var left: nat, block: nat := e.plain, e.blockOffset;
    endpoint.Seek(e.fileOffset);
    TogetherNothing(DataOf(data, p, e, beyond));
    while true
      invariant DataOf(data, p, e, beyond) == Together(output, DataFrom(data, p, left, block, endpoint.cursor, beyond))
      decreases if block < |p.sizes| then |p.sizes| - block else 0
    {
      ghost var before, rest := output, DataFrom(data, p, left, block, endpoint.cursor, beyond);
      DataStep(data, p, left, block, endpoint.cursor, beyond);
      TogetherSome(before, rest);
      if block >= |p.sizes| || p.sizes[block] == 0 {
        return None;
      }
      var bytes := endpoint.Read(p.sizes[block]);
      var one := BlockData(p, bytes, Min(p.blockSize, left), beyond);
      output := FileData(output.bytes + one.bytes, output.sizes + one.sizes, output.flags + one.flags);
      TogetherSome(before, Some(one));
      if left <= p.blockSize {
        return Some(output);
      }
      left, block := left - p.blockSize, block + 1;
      TogetherThrice(before, one, DataFrom(data, p, left, block, endpoint.cursor, beyond));
    }
  }

  // ---------- A file that was written ----------

  /** The flags that the blocks of a file get. */
  function SeenFlags(m: Compression, c: Codec, src: seq<byte>, blockSize: nat, beyond: byte): seq<bool>
    requires blockSize > 0
    decreases |src|
  {
    if src == [] then []
    else
      var n := Min(blockSize, |src|);
      [LooksCompressed(Some(m), OneBlock(c, src[..n], blockSize, blockSize).bytes, n, beyond)]
      + SeenFlags(m, c, src[n..], blockSize, beyond)
  }

  /** From block number `block` and offset `at` on, the archive holds the blocks of `f`. */
  ghost predicate HoldsBlocks(data: seq<byte>, p: Parsed, f: Framed, block: nat, at: nat) {
    && block + |f.sizes| <= |p.sizes| && p.sizes[block..block + |f.sizes|] == AllResolved(f.sizes, p.blockSize)
    && at + |f.bytes| <= |data| && data[at..at + |f.bytes|] == f.bytes
  }

  lemma HoldsRest(data: seq<byte>, p: Parsed, one: Framed, rest: Framed, block: nat, at: nat)
    requires HoldsBlocks(data, p, Joined(one, rest), block, at) && |one.sizes| == 1
    ensures p.sizes[block] == Resolved(one.sizes[0], p.blockSize) && data[at..at + |one.bytes|] == one.bytes
    ensures HoldsBlocks(data, p, rest, block + 1, at + |one.bytes|)
  {
    var f, n, k := Joined(one, rest), |one.bytes|, |one.sizes + rest.sizes|;
    var all, mine := AllResolved(f.sizes, p.blockSize), p.sizes[block..block + k];
    assert p.sizes[block] == mine[0] == all[0];
    assert p.sizes[block + 1..block + 1 + |rest.sizes|] == mine[1..] == all[1..] == AllResolved(rest.sizes, p.blockSize);
    var bytes := data[at..at + |f.bytes|];
    assert data[at..at + n] == bytes[..n] == one.bytes;
    assert data[at + n..at + n + |rest.bytes|] == bytes[n..] == rest.bytes;
  }

  /** What `GetData` is to give back for a file. */
  function Whole(m: Compression, c: Codec, src: seq<byte>, blockSize: nat, beyond: byte): FileData
    requires blockSize > 0
  {
    var f := InBlocks(c, src, blockSize, blockSize);
    FileData(f.bytes, AllResolved(f.sizes, blockSize), SeenFlags(m, c, src, blockSize, beyond))
  }

  /** A block of a file has its resolved size; it is not empty. */
  lemma BlockHasItsSize(c: Codec, x: seq<byte>, blockSize: nat)
    requires Faithful(c) && 0 < |x| <= blockSize
    ensures var one := OneBlock(c, x, blockSize, blockSize); 0 < |one.bytes| == Resolved(one.sizes[0], blockSize)
  {
    assert RestoresBlock(c, x, blockSize, [], []);
  }

  lemma WholeSplits(m: Compression, c: Codec, src: seq<byte>, blockSize: nat, beyond: byte)
    requires Faithful(c) && blockSize > 0 && src != []
    ensures var n := Min(blockSize, |src|);
            var one := OneBlock(c, src[..n], blockSize, blockSize).bytes;
            && one != []
            && Together(FileData(one, [|one|], [LooksCompressed(Some(m), one, n, beyond)]),
                        Some(Whole(m, c, src[n..], blockSize, beyond))) == Some(Whole(m, c, src, blockSize, beyond))
  {
    var n := Min(blockSize, |src|);
    BlockHasItsSize(c, src[..n], blockSize);
    hide LooksCompressed, OneBlock, Faithful;
    var one, rest := OneBlock(c, src[..n], blockSize, blockSize), InBlocks(c, src[n..], blockSize, blockSize);
    assert AllResolved(one.sizes + rest.sizes, blockSize) == [|one.bytes|] + AllResolved(rest.sizes, blockSize);
  }

  lemma WholeOfNothing(m: Compression, c: Codec, blockSize: nat, beyond: byte, one: FileData)
    requires blockSize > 0
    ensures Together(one, Some(Whole(m, c, [], blockSize, beyond))) == Some(one)
  {
    assert Whole(m, c, [], blockSize, beyond) == FileData([], [], []);
    assert one.bytes + [] == one.bytes && one.sizes + [] == one.sizes && one.flags + [] == one.flags;
  }

  /** `GetData` collects all blocks of the file, no more and no fewer, with their real sizes. */
  lemma {:induction false} DataIsRead(data: seq<byte>, p: Parsed, m: Compression, c: Codec, src: seq<byte>, block: nat, at: nat,
                                      beyond: byte)
    requires Faithful(c) && p.blockSize > 0 && p.compression == Some(m) && src != []
    requires HoldsBlocks(data, p, InBlocks(c, src, p.blockSize, p.blockSize), block, at)
    ensures DataFrom(data, p, |src|, block, at, beyond) == Some(Whole(m, c, src, p.blockSize, beyond))
    decreases |src|
  {
    hide HoldsBlocks, LooksCompressed, Whole, Together, OneBlock, DataFrom, Joined;
    var n := Min(p.blockSize, |src|);
    var x, y := src[..n], src[n..];
    var one := OneBlock(c, x, p.blockSize, p.blockSize);
    BlockHasItsSize(c, x, p.blockSize);
    HoldsRest(data, p, one, InBlocks(c, y, p.blockSize, p.blockSize), block, at);
    DataStep(data, p, |src|, block, at, beyond);
    WholeSplits(m, c, src, p.blockSize, beyond);
    WholeOfNothing(m, c, p.blockSize, beyond, BlockData(p, one.bytes, n, beyond));
    if y != [] {
      DataIsRead(data, p, m, c, y, block + 1, at + |one.bytes|, beyond);
    }
  }

  lemma FirstInData(data: seq<byte>, p: Parsed, one: Framed, rest: Framed, block: nat, at: nat)
    requires HoldsBlocks(data, p, Joined(one, rest), block, at) && |one.sizes| == 1
    ensures block < |p.sizes| && p.sizes[block] == Resolved(one.sizes[0], p.blockSize)
    ensures ReadAt(data, at, |one.bytes|) == one.bytes
  {
    HoldsRest(data, p, one, rest, block, at);
  }

  /**
   For an empty file the loop takes a block all the same: the first one of the next file that has
   any, which is flagged as if it held nothing.
   */
  lemma EmptyFileTakesABlock(data: seq<byte>, p: Parsed, c: Codec, next: seq<byte>, block: nat, at: nat, beyond: byte)
    requires Faithful(c) && p.blockSize > 0 && next != []
    requires HoldsBlocks(data, p, InBlocks(c, next, p.blockSize, p.blockSize), block, at)
    ensures var one := OneBlock(c, next[..Min(p.blockSize, |next|)], p.blockSize, p.blockSize).bytes;
            one != [] && DataFrom(data, p, 0, block, at, beyond) == Some(BlockData(p, one, 0, beyond))
  {
    hide HoldsBlocks, LooksCompressed, OneBlock, DataFrom, Joined, Faithful;
    var n := Min(p.blockSize, |next|);
    var one, rest := OneBlock(c, next[..n], p.blockSize, p.blockSize), InBlocks(c, next[n..], p.blockSize, p.blockSize);
    BlockHasItsSize(c, next[..n], p.blockSize);
    hide InBlocks, ReadAt, Resolved;
    FirstInData(data, p, one, rest, block, at);
    DataStep(data, p, 0, block, at, beyond);
  }

  /** Whatever is collected has bytes. */
  lemma DataIsNeverEmpty(data: seq<byte>, p: Parsed, left: nat, block: nat, at: nat, beyond: byte)
    ensures var d := DataFrom(data, p, left, block, at, beyond); d.Some? ==> d.value.bytes != []
  {
    hide DataFrom, LooksCompressed;
    DataStep(data, p, left, block, at, beyond);
    if block < |p.sizes| && p.sizes[block] != 0 {
      var n := p.sizes[block];
      TogetherSome(BlockData(p, ReadAt(data, at, n), Min(p.blockSize, left), beyond),
                   DataFrom(data, p, if left <= p.blockSize then 0 else left - p.blockSize, block + 1, if at + n <= |data| then at + n else at, beyond));
    }
  }

  /** `GetData` collects exactly the blocks of a file if and only if the file is not empty. */
  lemma DataIsReadExactly(data: seq<byte>, p: Parsed, m: Compression, c: Codec, src: seq<byte>, block: nat, at: nat, beyond: byte)
    requires Faithful(c) && p.blockSize > 0 && p.compression == Some(m)
    requires HoldsBlocks(data, p, InBlocks(c, src, p.blockSize, p.blockSize), block, at)
    ensures DataFrom(data, p, |src|, block, at, beyond) == Some(Whole(m, c, src, p.blockSize, beyond)) <==> src != []
  {
    hide HoldsBlocks, DataFrom, Faithful;
    if src == [] {
      DataIsNeverEmpty(data, p, |src|, block, at, beyond);
    } else {
      DataIsRead(data, p, m, c, src, block, at, beyond);
    }
  }

  // ---------- When the flags are right ----------

  /** Compressed blocks begin as those of LZMA with the usual settings do. */
  ghost predicate StartsLikeLzma(c: Codec) {
    forall x: seq<byte>, cap: nat :: c.pack(x, cap).Some? ==>
      var z := c.pack(x, cap).value; z != [] && (z[0] == 0x5D || z[0] == 0x2C)
  }

  /** No compressed block is exactly as long as what it holds. */
  predicate NoEqualSize(c: Codec, src: seq<byte>, blockSize: nat)
    requires blockSize > 0
    decreases |src|
  {
    src == [] ||
    var n := Min(blockSize, |src|);
    var z := c.pack(src[..n], blockSize);
    (z.Some? ==> |z.value| != n) && NoEqualSize(c, src[n..], blockSize)
  }

  /** LZMA: the flags are right exactly if no compressed block is as long as what it holds. */
  lemma {:induction false} LzmaFlags(c: Codec, src: seq<byte>, blockSize: nat, beyond: byte)
    requires StartsLikeLzma(c) && blockSize > 0
    ensures SeenFlags(Lzma, c, src, blockSize, beyond) == InBlocks(c, src, blockSize, blockSize).packed <==>
            NoEqualSize(c, src, blockSize)
    decreases |src|
  {
    if src != [] {
      var n := Min(blockSize, |src|);
      var one := OneBlock(c, src[..n], blockSize, blockSize);
      var seen, flag := SeenFlags(Lzma, c, src, blockSize, beyond), LooksCompressed(Some(Lzma), one.bytes, n, beyond);
      var packed, rest := InBlocks(c, src, blockSize, blockSize).packed, InBlocks(c, src[n..], blockSize, blockSize).packed;
      LzmaFlags(c, src[n..], blockSize, beyond);
      HeadAndRest(flag, SeenFlags(Lzma, c, src[n..], blockSize, beyond), one.packed[0], rest);
      assert packed == [one.packed[0]] + rest;
    }
  }

  lemma HeadAndRest(a: bool, s: seq<bool>, b: bool, t: seq<bool>)
    ensures [a] + s == [b] + t <==> a == b && s == t
  {
    if [a] + s == [b] + t {
      assert ([a] + s)[0] == a && ([b] + t)[0] == b;
      assert ([a] + s)[1..] == s && ([b] + t)[1..] == t;
    }
  }

  /** Compressed blocks have room for a header. */
  ghost predicate HasHeaders(c: Codec) {
    forall x: seq<byte>, cap: nat :: c.pack(x, cap).Some? ==> |c.pack(x, cap).value| >= 2
  }

  /** Every compressed block has a known header. */
  predicate AllKnown(c: Codec, src: seq<byte>, blockSize: nat)
    requires blockSize > 0
    decreases |src|
  {
    src == [] ||
    var n := Min(blockSize, |src|);
    var z := c.pack(src[..n], blockSize);
    (z.Some? && |z.value| >= 2 ==> ZlibMagic(z.value[0], z.value[1])) && AllKnown(c, src[n..], blockSize)
  }

  /** No stored block begins like a zlib stream. */
  predicate NoFalseMagic(c: Codec, src: seq<byte>, blockSize: nat, beyond: byte)
    requires blockSize > 0
    decreases |src|
  {
    src == [] ||
    var n := Min(blockSize, |src|);
    (c.pack(src[..n], blockSize).None? ==> !ZlibMagic(src[0], if n > 1 then src[1] else beyond))
    && NoFalseMagic(c, src[n..], blockSize, beyond)
  }

  /** zlib: the flags are right exactly if all headers are known and no stored block begins like a zlib stream. */
  lemma {:induction false} ZlibFlags(c: Codec, src: seq<byte>, blockSize: nat, beyond: byte)
    requires HasHeaders(c) && blockSize > 0
    ensures SeenFlags(Zlib, c, src, blockSize, beyond) == InBlocks(c, src, blockSize, blockSize).packed <==>
            AllKnown(c, src, blockSize) && NoFalseMagic(c, src, blockSize, beyond)
    decreases |src|
  {
    hide ZlibMagic;
    if src != [] {
      var n := Min(blockSize, |src|);
      var one := OneBlock(c, src[..n], blockSize, blockSize);
      var flag := LooksCompressed(Some(Zlib), one.bytes, n, beyond);
      var packed, rest := InBlocks(c, src, blockSize, blockSize).packed, InBlocks(c, src[n..], blockSize, blockSize).packed;
      ZlibFlags(c, src[n..], blockSize, beyond);
      HeadAndRest(flag, SeenFlags(Zlib, c, src[n..], blockSize, beyond), one.packed[0], rest);
      assert packed == [one.packed[0]] + rest;
    }
  }
}
