/** `Upsync`: reading the header, the entries and the block table of an archive. */
module ContainerReader {

  import opened Bytes
  import opened Scalars
  import opened Powers
  import opened BlockFraming
  import opened Container

  datatype Status = ErrorDsarFile | ErrorHeader | ErrorManifest

  /** What is known of an archive; sizes of 0 are resolved. No compression is that of an unknown name. */
  datatype Parsed = Parsed(mismatch: bool, compression: Option<Compression>, blockSize: nat, pathType: nat,
                           entries: seq<Entry>, sizes: seq<nat>)

  /** `Malformed` stands for archives whose table of contents is shorter than its entries. */
  datatype Outcome = Understood(p: Parsed) | Refused(status: Status) | Malformed

  /** A read that goes beyond the end fails, and leaves the buffer as it was made: all zero. */
  function ReadAt(data: seq<byte>, at: nat, n: nat): (b: seq<byte>)
    ensures |b| == n
  {
    if at + n <= |data| then data[at..at + n] else Repeat(0, n)
  }

  /** `getCompressionType` looks at the first letter. */
  function CompressionOf(b: byte): Option<Compression> {
    if b == 0x7A then Some(Zlib) else if b == 0x6C then Some(Lzma) else None
  }

  /** The constructor of `TocEntry` from bytes */
  function ReadEntry(b: seq<byte>, mismatch: bool): Entry
    requires |b| >= ENTRY_SIZE
  {
    Entry(Read(b[0x10..0x14], mismatch), Read(b[0x14..0x19], mismatch), Read(b[0x19..0x1E], mismatch))
  }

  function ReadEntries(toc: seq<byte>, size: nat, mismatch: bool, n: nat): (entries: seq<Entry>)
    requires n > 0 ==> (n - 1) * size + ENTRY_SIZE <= |toc|
    ensures |entries| == n
  {
    if n == 0 then []
    else
      assert n > 1 ==> (n - 2) * size + size == (n - 1) * size;
      ReadEntries(toc, size, mismatch, n - 1) + [ReadEntry(toc[(n - 1) * size..], mismatch)]
  }

  function ReadSizes(table: seq<byte>, width: nat, mismatch: bool, n: nat): (sizes: seq<nat>)
    requires n * width <= |table|
    ensures |sizes| == n
  {
    if n == 0 then []
    else
      assert (n - 1) * width + width == n * width;
      ReadSizes(table, width, mismatch, n - 1) + [Read(table[(n - 1) * width..n * width], mismatch)]
  }

  /** The entries and the block table. */
  function ReadToc(toc: seq<byte>, entrySize: nat, count: nat, mismatch: bool, compression: Option<Compression>,
                   blockSize: nat, pathType: nat): Outcome
  {
    if count == 0 || entrySize * count > |toc| || (count - 1) * entrySize + ENTRY_SIZE > |toc| then Malformed
    else
      var entries := ReadEntries(toc, entrySize, mismatch, count);
      if entries[0].plain == 0 then Refused(ErrorManifest)
      else
        Understood(Parsed(mismatch, compression, blockSize, pathType, entries,
                          ReadTable(toc[entrySize * count..], blockSize, mismatch)))
  }

  /** As many sizes as there is room for, the zeros resolved. */
  function ReadTable(table: seq<byte>, blockSize: nat, mismatch: bool): seq<nat> {
    var width := SizeWidth(blockSize);
    FloorFits(|table|, width);
    AllResolved(ReadSizes(table, width, mismatch, |table| / width), blockSize)
  }

  lemma FloorFits(a: nat, b: nat)
    requires b > 0
    ensures a / b * b <= a && a / b >= 0
  {
  }

  /** What `Upsync` makes of an archive, up to the manifest. */
  function Upsynced(data: seq<byte>): Outcome {
    var head := ReadAt(data, 0, HEADER_SIZE);
    if head[..4] == DSAR_MAGIC then Refused(ErrorDsarFile)
    else if head[..4] != MAGIC then Refused(ErrorHeader)
    else
      var mismatch := LooksSwapped(head[4..6]);
      var tocActual := (Read(head[0x0C..0x10], mismatch) + 0x1_0000_0000 - HEADER_SIZE) % 0x1_0000_0000;
      ReadToc(ReadAt(data, HEADER_SIZE, tocActual), Read(head[0x10..0x14], mismatch), Read(head[0x14..0x18], mismatch),
              mismatch, CompressionOf(head[8]), Read(head[0x18..0x1C], mismatch), Read(head[0x1C..0x20], mismatch))
  }

  // ---------- What was written is understood ----------

  /** The byte order of the archive can be recognized from its version. */
  predicate Recognizable(s: Settings) {
    if s.mismatch then s.versionMajor % 0x100 != 0 else s.versionMajor <= 255
  }

  /** The fields of a header, as they were written. */
  lemma HeaderFields(s: Settings, count: nat, tocLength: nat)
    ensures var h, m := Header(s, count, tocLength), s.mismatch;
            && h[..4] == MAGIC && h[4..6] == Written(s.versionMajor, 2, m) && h[8] == CompressionBytes(s.compression)[0]
            && h[0x0C..0x10] == Written(tocLength, 4, m) && h[0x10..0x14] == Written(s.tocEntrySize, 4, m)
            && h[0x14..0x18] == Written(count, 4, m) && h[0x18..0x1C] == Written(s.blockSize, 4, m)
            && h[0x1C..0x20] == Written(s.pathType, 4, m)
  {
    hide Written;
  }

  lemma FourBytes(v: nat, mismatch: bool)
    requires v < 0x1_0000_0000
    ensures Read(Written(v, 4, mismatch), mismatch) == v
  {
    assert Range(4) == 0x1_0000_0000;
    WrittenIsRead(v, 4, mismatch);
  }

  lemma EntryIsRead(s: Settings, hash: seq<byte>, e: Entry, more: seq<byte>)
    requires |hash| == 16 && s.tocEntrySize >= ENTRY_SIZE
    requires e.blockOffset < 0x1_0000_0000 && e.plain < 0x100_0000_0000 && e.fileOffset < 0x100_0000_0000
    ensures ReadEntry(EntryBytes(s, hash, e) + more, s.mismatch) == e
  {
    hide Written, Read;
    var b, m := EntryBytes(s, hash, e) + more, s.mismatch;
    assert b[0x10..0x14] == Written(e.blockOffset, 4, m);
    assert b[0x14..0x19] == Written(e.plain, 5, m);
    assert b[0x19..0x1E] == Written(e.fileOffset, 5, m);
    FourBytes(e.blockOffset, m);
    assert Range(5) == 0x100_0000_0000;
    WrittenIsRead(e.plain, 5, m);
    WrittenIsRead(e.fileOffset, 5, m);
  }

  /** A recorded size is read back as the size of the block, whatever the width of the table. */
  lemma SizeIsRead(size: nat, blockSize: nat, mismatch: bool)
    requires 0 < blockSize < 0x1_0000_0000 && size <= blockSize
    ensures var w := SizeWidth(blockSize);
            Resolved(Read(Written(size, w, mismatch), mismatch), blockSize) == Resolved(size, blockSize)
  {
    var w := SizeWidth(blockSize);
    WrittenIsRead(size, w, mismatch);
    if size == Range(w) {
      ModIs(size, Range(w), 1, 0);
    }
  }

  lemma {:induction false} SizesAreRead(sizes: seq<nat>, blockSize: nat, mismatch: bool, n: nat)
    requires 0 < blockSize < 0x1_0000_0000 && n <= |sizes| && Bounded(sizes, blockSize)
    ensures n * SizeWidth(blockSize) <= |sizes| * SizeWidth(blockSize)
    ensures var w := SizeWidth(blockSize);
            AllResolved(ReadSizes(TableBytes(sizes, w, mismatch), w, mismatch, n), blockSize) == AllResolved(sizes[..n], blockSize)
  {
    var w := SizeWidth(blockSize);
    MulMonotone(w, n, |sizes|);
    if n > 0 {
      SizesAreRead(sizes, blockSize, mismatch, n - 1);
      TableEntryAt(sizes, w, mismatch, n - 1);
      SizeIsRead(sizes[n - 1], blockSize, mismatch);
      var b := TableBytes(sizes, w, mismatch);
      hide TableBytes, Read, Written, SizeWidth;
      var r, r1 := ReadSizes(b, w, mismatch, n), ReadSizes(b, w, mismatch, n - 1);
      assert r == r1 + [r[n - 1]];
      forall k | 0 <= k < n ensures AllResolved(r, blockSize)[k] == AllResolved(sizes[..n], blockSize)[k] {
        if k < n - 1 {
          assert AllResolved(r1, blockSize)[k] == AllResolved(sizes[..n - 1], blockSize)[k];
        }
      }
    }
  }

  lemma OneEntryIsRead(s: Settings, files: seq<Packed>, toc: seq<byte>, i: nat)
    requires Fits(s, files) && i < |files|
    requires TocBytes(s, files, |files|) <= toc
    ensures i * s.tocEntrySize + ENTRY_SIZE <= |toc|
    ensures ReadEntry(toc[i * s.tocEntrySize..], s.mismatch) == EntryOf(s, files, i)
  {
    hide TocBytes, EntryBytes, ReadEntry, EntryOf, TocLength;
    OffsetsFit(s, files, i);
    EntryAt(s, files, |files|, i);
    hide InLimits;
    var at, end: nat := i * s.tocEntrySize, (i + 1) * s.tocEntrySize;
    var e := EntryOf(s, files, i);
    SlicesAgree(TocBytes(s, files, |files|), toc, at, end);
    EntryIsRead(s, files[i].hash, e, toc[end..]);
  }

  lemma SlicesAgree(a: seq<byte>, b: seq<byte>, at: nat, end: nat)
    requires a <= b && at <= end <= |a|
    ensures b[at..] == a[at..end] + b[end..]
  {
  }

  lemma {:induction false} EntriesAreRead(s: Settings, files: seq<Packed>, toc: seq<byte>, n: nat)
    requires Fits(s, files) && n <= |files|
    requires TocBytes(s, files, |files|) <= toc
    ensures n > 0 ==> (n - 1) * s.tocEntrySize + ENTRY_SIZE <= |toc|
    ensures var entries := ReadEntries(toc, s.tocEntrySize, s.mismatch, n);
            forall i :: 0 <= i < n ==> entries[i] == EntryOf(s, files, i)
  {
    hide InLimits, TocBytes, EntryBytes, ReadEntry, EntryOf;
    if n > 0 {
      OneEntryIsRead(s, files, toc, n - 1);
      EntriesAreRead(s, files, toc, n - 1);
    }
  }

  lemma OffsetsFit(s: Settings, files: seq<Packed>, i: nat)
    requires Fits(s, files) && i < |files|
    ensures var e := EntryOf(s, files, i);
            e.blockOffset < 0x1_0000_0000 && e.plain < 0x100_0000_0000 && e.fileOffset < 0x100_0000_0000
    ensures |files[i].hash| == 16
  {
    SizesOf(files, i);
    assert EntryFits(EntryOf(s, files, i));
    hide AllSizes, AllBytes, SizeWidth;
    var n := |AllSizes(files)|;
    MulMonotone(n, 1, SizeWidth(s.blockSize));
    MulMonotone(s.tocEntrySize, 0, |files|);
  }

  // ---------- The whole table of contents ----------

  function AllEntries(s: Settings, files: seq<Packed>): (e: seq<Entry>)
    ensures |e| == |files| && forall i :: 0 <= i < |files| ==> e[i] == EntryOf(s, files, i)
  {
    seq(|files|, i requires 0 <= i < |files| => EntryOf(s, files, i))
  }

  /** What is to be read from an archive that was written. */
  function Expected(s: Settings, files: seq<Packed>): Parsed {
    Parsed(s.mismatch, Some(s.compression), s.blockSize, s.pathType, AllEntries(s, files),
           AllResolved(AllSizes(files), s.blockSize))
  }

  lemma {:induction false} AllSizesAreBounded(files: seq<Packed>, blockSize: nat)
    requires forall i :: 0 <= i < |files| ==> Bounded(files[i].framed.sizes, blockSize)
    ensures Bounded(AllSizes(files), blockSize)
  {
    var n := |files| - 1;
    if files != [] {
      AllSizesAreBounded(files[..n], blockSize);
      assert Bounded(files[n].framed.sizes, blockSize);
    }
  }

  lemma TableIsRead(s: Settings, files: seq<Packed>)
    requires Fits(s, files)
    ensures ReadTable(TableBytes(AllSizes(files), SizeWidth(s.blockSize), s.mismatch), s.blockSize, s.mismatch) ==
            AllResolved(AllSizes(files), s.blockSize)
  {
    hide AllSizes, TableBytes, SizeWidth;
    var sizes, w := AllSizes(files), SizeWidth(s.blockSize);
    AllSizesAreBounded(files, s.blockSize);
    ModIs(|sizes| * w, w, |sizes|, 0);
    SizesAreRead(sizes, s.blockSize, s.mismatch, |sizes|);
    assert sizes[..|sizes|] == sizes;
  }

  lemma TocIsRead(s: Settings, files: seq<Packed>, compression: Option<Compression>, pathType: nat)
    requires Fits(s, files) && files != []
    ensures var toc := TocBytes(s, files, |files|) + TableBytes(AllSizes(files), SizeWidth(s.blockSize), s.mismatch);
            ReadToc(toc, s.tocEntrySize, |files|, s.mismatch, compression, s.blockSize, pathType) ==
            if files[0].plain == 0 then Refused(ErrorManifest)
            else Understood(Expected(s, files).(compression := compression, pathType := pathType))
  {
    var toc := TocBytes(s, files, |files|) + TableBytes(AllSizes(files), SizeWidth(s.blockSize), s.mismatch);
    EntriesAreRead(s, files, toc, |files|);
    TableIsRead(s, files);
    hide InLimits, TocBytes, TableBytes, AllSizes, ReadEntries, ReadTable, SizeWidth;
    assert ReadEntries(toc, s.tocEntrySize, s.mismatch, |files|) == AllEntries(s, files);
    assert toc[s.tocEntrySize * |files|..] == TableBytes(AllSizes(files), SizeWidth(s.blockSize), s.mismatch);
  }

  /** The fields of the header lead to the table of contents behind it. */
  lemma HeaderIsRead(s: Settings, count: nat, len: nat, data: seq<byte>, toc: seq<byte>)
    requires s.versionMajor < 0x1_0000 && Recognizable(s)
    requires s.blockSize < 0x1_0000_0000 && s.pathType < 0x1_0000_0000 && s.tocEntrySize < 0x1_0000_0000
    requires count < 0x1_0000_0000 && |toc| + HEADER_SIZE == len < 0x1_0000_0000
    requires Header(s, count, len) + toc <= data
    ensures Upsynced(data) == ReadToc(toc, s.tocEntrySize, count, s.mismatch, Some(s.compression), s.blockSize, s.pathType)
  {
    hide Header, ReadToc, Written, Read, LooksSwapped;
    var head := Header(s, count, len);
    HeaderFields(s, count, len);
    ByteOrderIsRecognized(s.versionMajor, s.mismatch);
    FourBytes(s.tocEntrySize, s.mismatch);
    FourBytes(count, s.mismatch);
    FourBytes(s.blockSize, s.mismatch);
    FourBytes(s.pathType, s.mismatch);
    FourBytes(len, s.mismatch);
    assert data[..HEADER_SIZE] == head;
    assert data[HEADER_SIZE..len] == toc;
  }

  /**
   Reading an archive gives the settings it was written with, the entries in their order and the
   size of every block, whenever its byte order can be recognized; only an archive without files
   is refused, as its manifest is empty.
   */
  lemma ArchiveIsUnderstood(s: Settings, files: seq<Packed>)
    requires Fits(s, files) && files != [] && Recognizable(s)
    ensures Upsynced(Archive(s, files)) ==
            if files[0].plain == 0 then Refused(ErrorManifest) else Understood(Expected(s, files))
  {
    hide TocBytes, TableBytes, AllSizes, AllBytes, Header, ReadToc, SizeWidth, Upsynced, TocLength;
    var len := TocLength(s, files);
    var toc := TocBytes(s, files, |files|) + TableBytes(AllSizes(files), SizeWidth(s.blockSize), s.mismatch);
    TocIsRead(s, files, Some(s.compression), s.pathType);
    CountFits(s, files);
    assert Archive(s, files) == Header(s, |files|, len) + toc + AllBytes(files);
    HeaderIsRead(s, |files|, len, Archive(s, files), toc);
  }

  lemma CountFits(s: Settings, files: seq<Packed>)
    requires Fits(s, files)
    ensures |files| < 0x1_0000_0000
    ensures |TocBytes(s, files, |files|)| + |AllSizes(files)| * SizeWidth(s.blockSize) == TocLength(s, files) - HEADER_SIZE
  {
    hide AllSizes, SizeWidth, TocBytes;
    MulMonotone(|files|, 1, s.tocEntrySize);
    MulMonotone(|AllSizes(files)|, 0, SizeWidth(s.blockSize));
  }
}
