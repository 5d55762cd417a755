/** Whole archives: what `Downsync` wrote, `Upsync` and `GetData` give back. */
module ArchiveRoundTrip {

  import opened Bytes
  import opened ArchiveBytes
  import opened BlockFraming
  import opened Container
  import opened ContainerReader
  import opened FileBlocks
  import opened FileContents
  import opened LzmaBlocks
  import opened ZlibBlocks
  import Manifest
  import Lz
  import Stream

  /** A file of an archive: its path as it is listed, the hash of that path, and its content. */
  datatype Item = Item(name: seq<byte>, hash: seq<byte>, content: seq<byte>)

  function PackedItem(c: Codec, blockSize: nat, item: Item): Packed
    requires blockSize > 0
  {
    Packed(|item.content|, item.hash, InBlocks(c, item.content, blockSize, blockSize))
  }

  function PackedItems(c: Codec, blockSize: nat, items: seq<Item>): (files: seq<Packed>)
    requires blockSize > 0
    ensures |files| == |items| && forall i :: 0 <= i < |items| ==> files[i] == PackedItem(c, blockSize, items[i])
  {
    seq(|items|, i requires 0 <= i < |items| => PackedItem(c, blockSize, items[i]))
  }

  lemma {:induction false} SizesAreBounded(c: Codec, src: seq<byte>, blockSize: nat)
    requires Faithful(c) && blockSize > 0
    ensures Bounded(InBlocks(c, src, blockSize, blockSize).sizes, blockSize)
    decreases |src|
  {
    if src != [] {
      var n := Min(blockSize, |src|);
      assert RestoresBlock(c, src[..n], blockSize, [], []);
      SizesAreBounded(c, src[n..], blockSize);
    }
  }

  lemma ItemsFit(s: Settings, c: Codec, items: seq<Item>)
    requires s.blockSize > 0 && InLimits(s, PackedItems(c, s.blockSize, items)) && Faithful(c)
    ensures Fits(s, PackedItems(c, s.blockSize, items))
    ensures s.tocEntrySize >= ENTRY_SIZE && Hashed(PackedItems(c, s.blockSize, items))
  {
    hide Faithful, InBlocks, Bounded;
    forall i | 0 <= i < |items|
      ensures Bounded(PackedItems(c, s.blockSize, items)[i].framed.sizes, s.blockSize)
    {
      SizesAreBounded(c, items[i].content, s.blockSize);
    }
  }

  /** The table of an archive, as it is read, holds the blocks of every file. */
  lemma ArchiveHoldsBlocks(s: Settings, files: seq<Packed>, i: nat)
    requires Fits(s, files) && i < |files|
    ensures var e := EntryOf(s, files, i);
            HoldsBlocks(Archive(s, files), Expected(s, files), files[i].framed, e.blockOffset, e.fileOffset)
  {
    hide Archive, AllBytes, AllSizes, TocLength;
    FileLiesAtItsOffset(s, files, i);
    SizesOf(files, i);
    var at, n := |AllSizes(files[..i])|, |files[i].framed.sizes|;
    var all := AllResolved(AllSizes(files), s.blockSize);
    assert all[at..at + n] == AllResolved(AllSizes(files)[at..at + n], s.blockSize);
  }

  /** What is read of the entry of file `i`. */
  function DataOfItem(s: Settings, c: Codec, items: seq<Item>, i: nat, beyond: byte): Option<FileData>
    requires s.blockSize > 0 && s.tocEntrySize >= ENTRY_SIZE && Hashed(PackedItems(c, s.blockSize, items)) && i < |items|
  {
    var files := PackedItems(c, s.blockSize, items);
    DataOf(Archive(s, files), Expected(s, files), EntryOf(s, files, i), beyond)
  }

  /** An archive of these items can be written, and its byte order recognized. */
  ghost predicate Writable(s: Settings, c: Codec, items: seq<Item>) {
    s.blockSize > 0 && InLimits(s, PackedItems(c, s.blockSize, items)) && Recognizable(s) && items != []
  }

  /**
   Reading back an archive gives the settings and the entries in their order, unless the manifest
   is empty. The data of a file come back with the sizes of its blocks exactly if the file is not
   empty; and if the flags are right they decompress to its content, whatever lies behind them in
   memory.
   */
  lemma FileComesBack(s: Settings, c: Codec, items: seq<Item>, i: nat, beyond: byte, tail: seq<byte>)
    requires Writable(s, c, items) && Faithful(c) && i < |items|
    ensures var files := PackedItems(c, s.blockSize, items);
            var p, x := Expected(s, files), items[i].content;
            && Hashed(files) && s.tocEntrySize >= ENTRY_SIZE
            && Upsynced(Archive(s, files)) == (if items[0].content == [] then Refused(ErrorManifest) else Understood(p))
            && |p.entries| == |items| && p.entries[i].plain == |x|
            && var d := Whole(s.compression, c, x, s.blockSize, beyond);
               && (DataOfItem(s, c, items, i, beyond) == Some(d) <==> x != [])
               && |d.flags| <= |d.sizes|
               && (d.flags == files[i].framed.packed ==> Decompressed(c, d.bytes, d.sizes, d.flags, tail) == Some(x))
  {
    hide InLimits, Fits, Faithful, Archive, HoldsBlocks, Upsynced, DataFrom, Restored, InBlocks, Decompressed;
    var files := PackedItems(c, s.blockSize, items);
    ItemsFit(s, c, items);
    var data, p, x := Archive(s, files), Expected(s, files), items[i].content;
    ArchiveIsUnderstood(s, files);
    ArchiveHoldsBlocks(s, files, i);
    DataIsReadExactly(data, p, s.compression, c, x, p.entries[i].blockOffset, p.entries[i].fileOffset, beyond);
    var d := Whole(s.compression, c, x, s.blockSize, beyond);
    WholeIsSeen(s.compression, c, x, s.blockSize, beyond);
    if d.flags == files[i].framed.packed {
      assert d.flags[0..] == d.flags && d.sizes[0..|d.flags|] == d.sizes;
      BlocksAreRestored(c, x, s.blockSize, s.blockSize, d.sizes, d.flags, 0, tail);
      ExactlyFilled(c, d.bytes, d.sizes, d.flags, tail, x);
    }
  }

  // ---------- Empty files ----------

  lemma {:induction false} NothingBetween(s: Settings, c: Codec, items: seq<Item>, i: nat, j: nat)
    requires s.blockSize > 0 && i <= j <= |items| && forall k :: i <= k < j ==> items[k].content == []
    ensures AllSizes(PackedItems(c, s.blockSize, items)[..j]) == AllSizes(PackedItems(c, s.blockSize, items)[..i])
    ensures AllBytes(PackedItems(c, s.blockSize, items)[..j]) == AllBytes(PackedItems(c, s.blockSize, items)[..i])
    decreases j
  {
    var files := PackedItems(c, s.blockSize, items);
    if i < j {
      NothingBetween(s, c, items, i, j - 1);
      assert files[..j][..j - 1] == files[..j - 1];
      assert files[j - 1].framed == Framed([], [], []);
    }
  }

  /**
   What an empty file comes back as: the first block of the next file that is not empty, and nothing
   at all, in the source a read beyond the block table, when there is none.
   */
  lemma EmptyItemIsMisread(s: Settings, c: Codec, items: seq<Item>, i: nat, j: nat, beyond: byte)
    requires Writable(s, c, items) && Faithful(c) && i < j <= |items|
    requires (forall k :: i <= k < j ==> items[k].content == []) && (j < |items| ==> items[j].content != [])
    ensures Hashed(PackedItems(c, s.blockSize, items)) && s.tocEntrySize >= ENTRY_SIZE
    ensures var d := DataOfItem(s, c, items, i, beyond);
            if j == |items| then d == None
            else
              var x := items[j].content;
              var one := OneBlock(c, x[..Min(s.blockSize, |x|)], s.blockSize, s.blockSize).bytes;
              one != [] && d == Some(FileData(one, [|one|], [LooksCompressed(Some(s.compression), one, 0, beyond)]))
  {
    hide InLimits, Fits, Faithful, Archive, HoldsBlocks, DataFrom, InBlocks, OneBlock, AllSizes, AllBytes;
    var files := PackedItems(c, s.blockSize, items);
    ItemsFit(s, c, items);
    var data, p := Archive(s, files), Expected(s, files);
    NothingBetween(s, c, items, i, j);
    if j == |items| {
      assert files[..j] == files;
      DataStep(data, p, 0, |AllSizes(files)|, EntryOf(s, files, i).fileOffset, beyond);
    } else {
      ArchiveHoldsBlocks(s, files, j);
      EmptyFileTakesABlock(data, p, c, items[j].content, EntryOf(s, files, j).blockOffset, EntryOf(s, files, j).fileOffset, beyond);
    }
  }

  /**
   The content that an empty file gets in an LZMA archive is the beginning of that next file, if its
   first block is compressed or does not begin like a compressed one. It is not empty.
   */
  lemma EmptyItemGetsContent(s: Settings, c: Codec, items: seq<Item>, i: nat, j: nat, beyond: byte, tail: seq<byte>)
    requires Writable(s, c, items) && Faithful(c) && StartsLikeLzma(c) && s.compression == Lzma && i < j < |items|
    requires (forall k :: i <= k < j ==> items[k].content == []) && items[j].content != []
    requires c.pack(items[j].content[..Min(s.blockSize, |items[j].content|)], s.blockSize).Some?
             || (items[j].content[0] != 0x5D && items[j].content[0] != 0x2C)
    ensures Hashed(PackedItems(c, s.blockSize, items)) && s.tocEntrySize >= ENTRY_SIZE
    ensures var d := DataOfItem(s, c, items, i, beyond);
            && d.Some? && |d.value.flags| <= |d.value.sizes|
            && Decompressed(c, d.value.bytes, d.value.sizes, d.value.flags, tail) ==
               Some(items[j].content[..Min(s.blockSize, |items[j].content|)])
  {
    hide InLimits, Faithful, Archive, DataFrom, InBlocks, Decompressed;
    EmptyItemIsMisread(s, c, items, i, j, beyond);
    var x := items[j].content[..Min(s.blockSize, |items[j].content|)];
    var one := OneBlock(c, x, s.blockSize, s.blockSize);
    OneBlockIsRestored(c, x, s.blockSize, s.blockSize, [], tail);
    var flag := LooksCompressed(Some(Lzma), one.bytes, 0, beyond);
    assert one.bytes + [] == one.bytes && one.bytes[|one.bytes|..] == [] && one.bytes[..|one.bytes|] == one.bytes;
    BeforeNothing(Pieces(x, |x|));
    ExactlyFilled(c, one.bytes, [|one.bytes|], [flag], tail, x);
  }

  // ---------- The paths ----------

  function Names(items: seq<Item>): (names: seq<seq<byte>>)
    ensures |names| == |items| && forall i :: 0 <= i < |items| ==> names[i] == items[i].name
  {
    seq(|items|, i requires 0 <= i < |items| => items[i].name)
  }

  /** The first file is the manifest: it lists the paths of the others, in the order of the entries. */
  ghost predicate BeginsWithManifest(items: seq<Item>) {
    && |items| > 1 && items[0].content == Manifest.Joined(Names(items[1..]))
    && Manifest.Plain(Names(items[1..])) && items[|items| - 1].name != []
  }

  /** The paths come back in the order of the entries. */
  lemma PathsComeBack(s: Settings, c: Codec, items: seq<Item>, beyond: byte, tail: seq<byte>)
    requires Writable(s, c, items) && Faithful(c) && BeginsWithManifest(items)
    ensures var files := PackedItems(c, s.blockSize, items);
            && Hashed(files) && s.tocEntrySize >= ENTRY_SIZE
            && Upsynced(Archive(s, files)) == Understood(Expected(s, files)) && |Expected(s, files).entries| == |items|
            && var d := DataOfItem(s, c, items, 0, beyond);
               && d.Some? && |d.value.flags| <= |d.value.sizes|
               && (d.value.flags == files[0].framed.packed ==>
                     var m := Decompressed(c, d.value.bytes, d.value.sizes, d.value.flags, tail);
                     m.Some? && Manifest.Lines(m.value) == Names(items[1..]))
  {
    hide InLimits, Faithful, Decompressed, Upsynced, DataFrom, InBlocks;
    var names := Names(items[1..]);
    Manifest.ManifestRoundTrip(names);
    assert items[0].content != [] by {
      assert names != [];
    }
    FileComesBack(s, c, items, 0, beyond, tail);
  }

  // ---------- LZMA archives ----------

  /** An encoder with the settings that `LZMACompress` asks for: lc = 3, lp = 0, pb = 2. */
  ghost predicate UsualCoder(coder: Coder) {
    coder.Valid() && coder.props == Lz.Props(3, 0, 2)
  }

  /** An encoder with these settings, or with the other ones that are recognized: lc = 8, lp = 4, pb = 0. */
  ghost predicate RecognizedCoder(coder: Coder) {
    coder.Valid() && (coder.props == Lz.Props(3, 0, 2) || coder.props == Lz.Props(8, 4, 0))
  }

  /**
   The bytes of an LZMA block: one for lc, lp and pb, the sizes of the dictionary and of the plain bytes with
   the lowest byte first, and the stream; and it is made exactly if it fits.
   */
  lemma LzmaBlockSpells(coder: Coder, x: seq<byte>, cap: nat)
    requires coder.Valid() && x != [] && |x| < 0x1_0000_0000_0000_0000
    ensures coder.Chooses(x)
    ensures var p, z := PackLzma(coder, x, cap), Stream.LzmaStream(coder.Settings(), coder.parse(x), x);
            && (p.Some? <==> 13 + |z| <= cap)
            && (p.Some? ==>
                  && p.value[0] as nat == (coder.props.pb * 5 + coder.props.lp) * 9 + coder.props.lc
                  && Spells(p.value, 1, 4, false, coder.dicSize) && Spells(p.value, 5, 8, false, |x|)
                  && p.value[13..] == z)
  {
    assert coder.Chooses(x);
    hide Stream.LzmaStream, Stream.Parse, Spells, Scalars.LittleBytes;
    assert Scalars.Range(8) == 0x1_0000_0000_0000_0000;
    var p := PackLzma(coder, x, cap);
    if p.Some? {
      var z, head := p.value, WriteProps(coder.props, coder.dicSize);
      assert z[1..5] == head[1..];
      assert z[5..13] == Scalars.LittleBytes(|x|, 8);
      WrittenSpells(z, 1, coder.dicSize, 4, false);
      WrittenSpells(z, 5, |x|, 8, false);
    }
  }

  /** Of all settings, these are the ones whose blocks are taken for LZMA blocks. */
  lemma RecognizedSettings(coder: Coder)
    requires coder.Valid()
    ensures StartsLikeLzma(LzmaCodec(coder)) <==> RecognizedCoder(coder)
    ensures UsualCoder(coder) ==> RecognizedCoder(coder)
  {
    hide Stream.LzmaStream;
    var x: seq<byte> := [0];
    assert coder.Chooses(x);
    var cap := |Stream.LzmaStream(coder.Settings(), coder.parse(x), x)| + 13;
    var z := PackLzma(coder, x, cap);
    assert LzmaCodec(coder).pack(x, cap) == z && z.Some?;
    assert z.value[0] == (coder.props.pb * 5 + coder.props.lp) * 9 + coder.props.lc;
  }

  /**
   For an archive of LZMA files, the whole way: bits, symbols, blocks and container. Whatever parses
   the encoder chose, a file that is not empty comes back exactly if no block of it is compressed
   to other bytes of its own length.
   */
  lemma LzmaArchiveRoundTrip(s: Settings, coder: Coder, items: seq<Item>, i: nat, beyond: byte, tail: seq<byte>)
    requires RecognizedCoder(coder) && s.compression == Lzma && Writable(s, LzmaCodec(coder), items)
    requires i < |items| && items[i].content != []
    ensures var c, x := LzmaCodec(coder), items[i].content;
            && Hashed(PackedItems(c, s.blockSize, items)) && s.tocEntrySize >= ENTRY_SIZE
            && var d := DataOfItem(s, c, items, i, beyond);
               && d.Some? && |d.value.flags| <= |d.value.sizes|
               && var r := Decompressed(c, d.value.bytes, d.value.sizes, d.value.flags, tail);
                  && r == Some(LzmaReread(c, x, s.blockSize))
                  && (r == Some(x) <==> Harmless(c, x, s.blockSize))
                  && (NoEqualSize(c, x, s.blockSize) ==> r == Some(x))
  {
    hide InLimits, Faithful, Decompressed, Upsynced, DataFrom, InBlocks, NoEqualSize, Harmless, LzmaReread, StartsLikeLzma, LzmaCodec;
    var c := LzmaCodec(coder);
    LzmaIsFaithful(coder);
    RecognizedSettings(coder);
    FileComesBack(s, c, items, i, beyond, tail);
    LzmaContent(c, items[i].content, s.blockSize, beyond, tail);
    HarmlessIsExact(c, items[i].content, s.blockSize);
  }

  /** Some block is compressed to its own length and does not begin with 0x5D. */
  predicate LosesABlock(c: Codec, src: seq<byte>, blockSize: nat)
    requires blockSize > 0
    decreases |src|
  {
    src != [] &&
    var n := Min(blockSize, |src|);
    var z := c.pack(src[..n], blockSize);
    (z.Some? && |z.value| == n && src[0] != 0x5D) || LosesABlock(c, src[n..], blockSize)
  }

  /** Compressed blocks of the usual encoder begin with 0x5D, so that such a block comes back wrong. */
  lemma {:induction false} LostIsHarmed(coder: Coder, src: seq<byte>, blockSize: nat)
    requires UsualCoder(coder) && blockSize > 0 && LosesABlock(LzmaCodec(coder), src, blockSize)
    ensures !Harmless(LzmaCodec(coder), src, blockSize)
    decreases |src|
  {
    hide Stream.LzmaStream;
    var n := Min(blockSize, |src|);
    var z := LzmaCodec(coder).pack(src[..n], blockSize);
    if z.Some? && |z.value| == n && src[0] != 0x5D {
      assert z.value[0] == 0x5D && src[..n][0] == src[0];
    } else {
      LostIsHarmed(coder, src[n..], blockSize);
    }
  }

  // ---------- zlib archives ----------

  /**
   For an archive of zlib files: what a file that is not empty comes back as. It comes back if all headers
   are known and no stored block of it begins like a zlib stream. Where the compressed blocks cannot be
   mistaken for what they hold, it is the headers alone that decide; `ZlibRereadIs` says what happens otherwise.
   */
  lemma ZlibArchiveRoundTrip(s: Settings, zlib: Zlib, items: seq<Item>, i: nat, beyond: byte, tail: seq<byte>)
    requires zlib.Valid() && s.compression == Container.Zlib && Writable(s, ZlibCodec(zlib), items)
    requires i < |items| && items[i].content != []
    ensures var c, x := ZlibCodec(zlib), items[i].content;
            && Hashed(PackedItems(c, s.blockSize, items)) && s.tocEntrySize >= ENTRY_SIZE
            && var d := DataOfItem(s, c, items, i, beyond);
               && d.Some? && |d.value.flags| <= |d.value.sizes|
               && var r := Decompressed(c, d.value.bytes, d.value.sizes, d.value.flags, tail);
                  && r == ZlibReread(zlib, x, s.blockSize, beyond)
                  && (KnownHeaders(zlib, x, s.blockSize) && NoFalseMagic(c, x, s.blockSize, beyond) ==> r == Some(x))
                  && (NoFalseMagic(c, x, s.blockSize, beyond) && StartsElsewhere(zlib, x, s.blockSize) ==>
                        (r == Some(x) <==> KnownHeaders(zlib, x, s.blockSize)))
                  && (Broken(zlib, x, s.blockSize, beyond) <==> r == None)
  {
    hide InLimits, Faithful, Decompressed, Upsynced, DataFrom, InBlocks, NoFalseMagic, ZlibReread, ZlibCodec, Zlib.Valid, Broken;
    hide KnownHeaders, StartsElsewhere, AllKnown;
    var c, x := ZlibCodec(zlib), items[i].content;
    ZlibIsFaithful(zlib);
    FileComesBack(s, c, items, i, beyond, tail);
    ZlibContent(zlib, x, s.blockSize, beyond, tail);
    ZlibRereadIs(zlib, x, s.blockSize, beyond);
    if NoFalseMagic(c, x, s.blockSize, beyond) {
      HeadersDecide(zlib, x, s.blockSize, beyond);
    }
  }
}
