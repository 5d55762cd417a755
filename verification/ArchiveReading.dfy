/** What `Upsync` reads from any bytes, at their absolute places, and which bytes it refuses. */
module ArchiveReading {

  import opened Bytes
  import opened Powers
  import opened Scalars
  import opened BlockFraming
  import opened Container
  import opened ContainerReader
  import opened ArchiveBytes

  /** A number of this width stands here, in this byte order. */
  ghost predicate Stands(data: seq<byte>, at: nat, width: nat, big: bool, v: nat) {
    v < Range(width) && Spells(data, at, width, big, v)
  }

  lemma ReadStands(data: seq<byte>, at: nat, width: nat, big: bool)
    requires at + width <= |data|
    ensures Stands(data, at, width, big, Read(data[at..at + width], big))
  {
    hide Little, Spells, Written;
    ReadIsWritten(data[at..at + width], big);
    WrittenSpells(data, at, Read(data[at..at + width], big), width, big);
  }

  lemma TableIsRefusedOnlyForTheManifest(toc: seq<byte>, entrySize: nat, count: nat, mismatch: bool, compression: Option<Compression>,
                                         blockSize: nat, pathType: nat)
    ensures var o := ReadToc(toc, entrySize, count, mismatch, compression, blockSize, pathType);
            o.Refused? ==> o == Refused(ErrorManifest)
  {
    hide ReadEntries, ReadTable;
  }

  /** A file that begins with "PSAR" is read on. */
  lemma ArchiveIsReadOn(data: seq<byte>)
    requires |data| >= 0x20 && data[..4] == [0x50, 0x53, 0x41, 0x52]
    ensures Upsynced(data).Refused? ==> Upsynced(data) == Refused(ErrorManifest)
  {
    hide ReadToc, Read, LooksSwapped, CompressionOf;
    var head := ReadAt(data, 0, HEADER_SIZE);
    assert head == data[..0x20] && head[..4] == data[..4];
    var m := LooksSwapped(head[4..6]);
    var n := (Read(head[0x0C..0x10], m) + 0x1_0000_0000 - HEADER_SIZE) % 0x1_0000_0000;
    TableIsRefusedOnlyForTheManifest(ReadAt(data, HEADER_SIZE, n), Read(head[0x10..0x14], m), Read(head[0x14..0x18], m), m,
                                     CompressionOf(head[8]), Read(head[0x18..0x1C], m), Read(head[0x1C..0x20], m));
  }

  /** Another file is refused. */
  lemma OtherIsRefused(data: seq<byte>)
    requires |data| >= 0x20 && data[..4] != [0x50, 0x53, 0x41, 0x52]
    ensures Upsynced(data) == Refused(if data[..4] == [0x44, 0x53, 0x41, 0x52] then ErrorDsarFile else ErrorHeader)
  {
    hide ReadToc, Read, LooksSwapped, CompressionOf;
    var head := ReadAt(data, 0, HEADER_SIZE);
    assert head == data[..0x20] && head[..4] == data[..4];
  }

  lemma ShortIsRefused(data: seq<byte>)
    requires |data| < 0x20
    ensures Upsynced(data) == Refused(ErrorHeader)
  {
    hide ReadToc, Read, LooksSwapped, CompressionOf;
    var head := ReadAt(data, 0, HEADER_SIZE);
    assert head[..4][0] == 0;
  }

  /** Other files are refused by their first four bytes, "DSAR" or not "PSAR", and shorter ones than a header as if they were zeros. */
  lemma WhatIsRefused(data: seq<byte>)
    ensures Upsynced(data) == Refused(ErrorDsarFile) <==> |data| >= 0x20 && data[..4] == [0x44, 0x53, 0x41, 0x52]
    ensures Upsynced(data) == Refused(ErrorHeader) <==>
            |data| < 0x20 || (data[..4] != [0x44, 0x53, 0x41, 0x52] && data[..4] != [0x50, 0x53, 0x41, 0x52])
  {
    hide Upsynced;
    if |data| < 0x20 {
      ShortIsRefused(data);
    } else if data[..4] == [0x50, 0x53, 0x41, 0x52] {
      ArchiveIsReadOn(data);
      assert data[..4][0] == 0x50;
    } else {
      OtherIsRefused(data);
    }
  }

  // ---------- What is read ----------

  ghost predicate EntrySays(data: seq<byte>, at: nat, big: bool, e: Entry) {
    && Stands(data, at + 16, 4, big, e.blockOffset)
    && Stands(data, at + 20, 5, big, e.plain)
    && Stands(data, at + 25, 5, big, e.fileOffset)
  }

  /** A recorded size; 0 stands for a full block. */
  ghost predicate SizeSays(data: seq<byte>, at: nat, width: nat, big: bool, blockSize: nat, size: nat) {
    exists v: nat :: Stands(data, at, width, big, v) && size == if v == 0 then blockSize else v
  }

  lemma {:induction false} EntryNumber(toc: seq<byte>, size: nat, mismatch: bool, n: nat, i: nat)
    requires i < n && (n - 1) * size + ENTRY_SIZE <= |toc|
    ensures 0 <= i * size && i * size + ENTRY_SIZE <= |toc|
    ensures ReadEntries(toc, size, mismatch, n)[i] == ReadEntry(toc[i * size..], mismatch)
    decreases n
  {
    hide ReadEntry;
    MulMonotone(size, i, n - 1);
    if i < n - 1 {
      assert (n - 2) * size + size == (n - 1) * size;
      EntryNumber(toc, size, mismatch, n - 1, i);
    }
  }

  lemma {:induction false} SizeNumber(table: seq<byte>, width: nat, mismatch: bool, n: nat, k: nat)
    requires n * width <= |table| && k < n
    ensures 0 <= k * width && k * width + width <= |table|
    ensures ReadSizes(table, width, mismatch, n)[k] == Read(table[k * width..k * width + width], mismatch)
    decreases n
  {
    hide Read;
    assert (n - 1) * width + width == n * width;
    MulMonotone(width, k, n - 1);
    if k < n - 1 {
      SizeNumber(table, width, mismatch, n - 1, k);
    }
  }

  lemma EntryIsThere(data: seq<byte>, at: nat, end: nat, from: nat, mismatch: bool)
    requires at <= end <= |data| && from + ENTRY_SIZE <= end - at
    ensures EntrySays(data, at + from, mismatch, ReadEntry(data[at..end][from..], mismatch))
  {
    hide Read, Stands;
    SliceOfSlice(data, at, end, from, end - at);
    assert data[at..end][from..] == data[at + from..end];
    SliceOfSlice(data, at + from, end, 16, 20);
    SliceOfSlice(data, at + from, end, 20, 25);
    SliceOfSlice(data, at + from, end, 25, 30);
    ReadStands(data, at + from + 16, 4, mismatch);
    ReadStands(data, at + from + 20, 5, mismatch);
    ReadStands(data, at + from + 25, 5, mismatch);
  }

  /** The entries, each at its place */
  ghost predicate EntriesStand(data: seq<byte>, size: nat, big: bool, entries: seq<Entry>) {
    forall i :: 0 <= i < |entries| ==> 0 <= i * size && EntrySays(data, 0x20 + i * size, big, entries[i])
  }

  /** The sizes of blocks, each at its place, and as many as there is room for */
  ghost predicate SizesAreRead(data: seq<byte>, from: nat, end: nat, big: bool, blockSize: nat, sizes: seq<nat>) {
    var width := if blockSize <= 0x1_0000 then 2 else if blockSize <= 0x100_0000 then 3 else 4;
    && from + |sizes| * width <= end < from + |sizes| * width + width
    && forall k :: 0 <= k < |sizes| ==> 0 <= k * width && SizeSays(data, from + k * width, width, big, blockSize, sizes[k])
  }

  lemma EntriesAreThere(data: seq<byte>, end: nat, size: nat, mismatch: bool, n: nat)
    requires 0x20 <= end <= |data| && n > 0 && (n - 1) * size + ENTRY_SIZE <= end - 0x20
    ensures EntriesStand(data, size, mismatch, ReadEntries(data[0x20..end], size, mismatch, n))
  {
    hide ReadEntries, ReadEntry, EntrySays;
    forall i: nat | i < n
      ensures 0 <= i * size && EntrySays(data, 0x20 + i * size, mismatch, ReadEntries(data[0x20..end], size, mismatch, n)[i])
    {
      EntryNumber(data[0x20..end], size, mismatch, n, i);
      EntryIsThere(data, 0x20, end, i * size, mismatch);
    }
  }

  lemma SizesAreThere(data: seq<byte>, from: nat, end: nat, mismatch: bool, blockSize: nat)
    requires from <= end <= |data|
    ensures SizesAreRead(data, from, end, mismatch, blockSize, ReadTable(data[from..end], blockSize, mismatch))
  {
    hide Read, ReadSizes, Stands;
    var table, width := data[from..end], SizeWidth(blockSize);
    FloorFits(|table|, width);
    var n := |table| / width;
    FloorIs(|table|, width);
    forall k: nat | k < n
      ensures 0 <= k * width && SizeSays(data, from + k * width, width, mismatch, blockSize,
                                         Resolved(ReadSizes(table, width, mismatch, n)[k], blockSize))
    {
      SizeNumber(table, width, mismatch, n, k);
      var at: nat := k * width;
      SliceOfSlice(data, from, end, at, at + width);
      ReadStands(data, from + at, width, mismatch);
    }
  }

  lemma FloorIs(a: nat, b: nat)
    requires b > 0
    ensures a / b * b <= a < a / b * b + b
  {
  }

  // ---------- Whole archives ----------

  /** Numbers above 255 have a second byte. */
  lemma SwappedIsSecondByte(s: seq<byte>)
    requires |s| == 2
    ensures LooksSwapped(s) <==> s[1] != 0
  {
    assert s[1..][0] == s[1] && s[1..][1..] == [];
    assert Little(s) == s[0] + 0x100 * Little(s[1..]);
  }

  lemma {:induction false} ZerosAreZero(n: nat)
    ensures Little(Repeat(0, n)) == 0
  {
    if n > 0 {
      ZerosAreZero(n - 1);
      assert Repeat(0, n)[1..] == Repeat(0, n - 1);
    }
  }

  /** A table of contents of zeros has no manifest. */
  lemma ZerosHaveNoManifest(n: nat, mismatch: bool)
    requires n >= ENTRY_SIZE
    ensures ReadEntry(Repeat(0, n), mismatch).plain == 0
  {
    var b := Repeat(0, n)[0x14..0x19];
    assert b == Repeat(0, 5) && Reversed(b) == b;
    ZerosAreZero(5);
    hide Little;
  }

  /** What the header says */
  ghost predicate HeaderSays(data: seq<byte>, p: Parsed, tocLength: nat, entrySize: nat) {
    && |data| >= 0x20 && data[..4] == [0x50, 0x53, 0x41, 0x52]
    && p.mismatch == (data[5] != 0)
    && p.compression == (if data[8] == 0x7A then Some(Zlib) else if data[8] == 0x6C then Some(Lzma) else None)
    && Stands(data, 0x0C, 4, p.mismatch, tocLength) && Stands(data, 0x10, 4, p.mismatch, entrySize)
    && Stands(data, 0x14, 4, p.mismatch, |p.entries|) && Stands(data, 0x18, 4, p.mismatch, p.blockSize)
    && Stands(data, 0x1C, 4, p.mismatch, p.pathType)
  }

  /**
   What is understood, of any bytes, is what stands there: the settings in the header, the entries behind it,
   the first of which is not empty, and the sizes of the blocks behind them, up to the end of the table of contents.
   */
  lemma UnderstoodStands(data: seq<byte>) returns (tocLength: nat, entrySize: nat)
    requires Upsynced(data).Understood?
    ensures var p := Upsynced(data).p;
            && HeaderSays(data, p, tocLength, entrySize) && p.entries != [] && p.entries[0].plain > 0
            && EntriesStand(data, entrySize, p.mismatch, p.entries)
            && var end := 0x20 + (tocLength + 0x1_0000_0000 - 0x20) % 0x1_0000_0000;
               && end <= |data| && 0 <= entrySize * |p.entries| <= end - 0x20
               && SizesAreRead(data, 0x20 + entrySize * |p.entries|, end, p.mismatch, p.blockSize, p.sizes)
  {
    hide ReadToc, Read, LooksSwapped, Stands, EntriesStand, SizesAreRead;
    WhatIsRefused(data);
    var head := ReadAt(data, 0, HEADER_SIZE);
    assert head == data[..0x20];
    var m, p := LooksSwapped(head[4..6]), Upsynced(data).p;
    SwappedIsSecondByte(head[4..6]);
    tocLength, entrySize := Read(head[0x0C..0x10], m), Read(head[0x10..0x14], m);
    HeaderIsRead(data, m);
    var n := (tocLength + 0x1_0000_0000 - 0x20) % 0x1_0000_0000;
    TocIsThere(data, n, entrySize, Read(head[0x14..0x18], m), m, CompressionOf(head[8]), Read(head[0x18..0x1C], m),
               Read(head[0x1C..0x20], m));
  }

  lemma HeaderIsRead(data: seq<byte>, m: bool)
    requires |data| >= 0x20
    ensures Stands(data, 0x0C, 4, m, Read(data[..0x20][0x0C..0x10], m)) && Stands(data, 0x10, 4, m, Read(data[..0x20][0x10..0x14], m))
    ensures Stands(data, 0x14, 4, m, Read(data[..0x20][0x14..0x18], m)) && Stands(data, 0x18, 4, m, Read(data[..0x20][0x18..0x1C], m))
    ensures Stands(data, 0x1C, 4, m, Read(data[..0x20][0x1C..0x20], m))
  {
    hide Read, Stands;
    SliceOfSlice(data, 0, 0x20, 0x0C, 0x10);
    SliceOfSlice(data, 0, 0x20, 0x10, 0x14);
    SliceOfSlice(data, 0, 0x20, 0x14, 0x18);
    SliceOfSlice(data, 0, 0x20, 0x18, 0x1C);
    SliceOfSlice(data, 0, 0x20, 0x1C, 0x20);
    ReadStands(data, 0x0C, 4, m);
    ReadStands(data, 0x10, 4, m);
    ReadStands(data, 0x14, 4, m);
    ReadStands(data, 0x18, 4, m);
    ReadStands(data, 0x1C, 4, m);
  }

  lemma TocIsThere(data: seq<byte>, n: nat, size: nat, count: nat, m: bool, compression: Option<Compression>, blockSize: nat, pathType: nat)
    requires ReadToc(ReadAt(data, 0x20, n), size, count, m, compression, blockSize, pathType).Understood?
    ensures var p := ReadToc(ReadAt(data, 0x20, n), size, count, m, compression, blockSize, pathType).p;
            && p.mismatch == m && p.compression == compression && p.blockSize == blockSize && p.pathType == pathType
            && |p.entries| == count > 0 && p.entries[0].plain > 0 && EntriesStand(data, size, m, p.entries)
            && 0x20 + n <= |data| && 0 <= size * count <= n
            && SizesAreRead(data, 0x20 + size * count, 0x20 + n, m, blockSize, p.sizes)
  {
    hide ReadEntries, ReadTable, ReadEntry, EntriesStand, SizesAreRead;
    var toc := ReadAt(data, 0x20, n);
    MulMonotone(size, 0, count - 1);
    EntryNumber(toc, size, m, count, 0);
    if 0x20 + n > |data| {
      assert toc == Repeat(0, n) && toc[0..] == toc;
      ZerosHaveNoManifest(n, m);
    } else {
      assert toc == data[0x20..0x20 + n];
      EntriesAreThere(data, 0x20 + n, size, m, count);
      MulMonotone(size, 0, count);
      var at: nat := size * count;
      SliceOfSlice(data, 0x20, 0x20 + n, at, n);
      assert toc[at..] == data[0x20 + at..0x20 + n];
      SizesAreThere(data, 0x20 + at, 0x20 + n, m, blockSize);
    }
  }
}
