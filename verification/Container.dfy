/**
 The bytes of an archive: a header, an entry for each file, a table with the recorded size of
 every block, and the files. Offsets run on, so that files and their blocks lie side by side.
 */
module Container {

  import opened Bytes
  import opened Scalars
  import opened BlockFraming

  datatype Compression = Zlib | Lzma

  /** `PSArcSettings`; `mismatch` says that the byte order is not that of the host. */
  datatype Settings = Settings(versionMajor: nat, versionMinor: nat, compression: Compression, blockSize: nat,
                               tocEntrySize: nat, pathType: nat, mismatch: bool)

  /** A file that is ready to be written: the number of its plain bytes, its hash and its blocks. */
  datatype Packed = Packed(plain: nat, hash: seq<byte>, framed: Framed)

  /** `TocEntry` without its hash */
  datatype Entry = Entry(blockOffset: nat, plain: nat, fileOffset: nat)

  const HEADER_SIZE := 0x20
  const ENTRY_SIZE := 30

  /** `getBlockByteCountSize` */
  function SizeWidth(blockSize: nat): (w: nat)
    ensures 2 <= w <= 4
    ensures blockSize < 0x1_0000_0000 ==> blockSize <= Range(w)
    ensures w > 2 ==> Range(w - 1) < blockSize
  {
    assert Range(2) == 0x1_0000 && Range(3) == 0x100_0000 && Range(4) == 0x1_0000_0000;
    2 + (if blockSize > 0x1_0000 then 1 else 0) + (if blockSize > 0x100_0000 then 1 else 0)
  }

  // ---------- Layout ----------

  function AllSizes(files: seq<Packed>): seq<nat> {
    if files == [] then [] else AllSizes(files[..|files| - 1]) + files[|files| - 1].framed.sizes
  }

  function AllBytes(files: seq<Packed>): seq<byte> {
    if files == [] then [] else AllBytes(files[..|files| - 1]) + files[|files| - 1].framed.bytes
  }

  function TocLength(s: Settings, files: seq<Packed>): nat {
    HEADER_SIZE + s.tocEntrySize * |files| + |AllSizes(files)| * SizeWidth(s.blockSize)
  }

  /** The entry of file `i`: its blocks and bytes begin where those of the files before it end. */
  function EntryOf(s: Settings, files: seq<Packed>, i: nat): Entry
    requires i < |files|
  {
    Entry(|AllSizes(files[..i])|, files[i].plain, TocLength(s, files) + |AllBytes(files[..i])|)
  }

  ghost predicate Hashed(files: seq<Packed>) {
    forall i :: 0 <= i < |files| ==> |files[i].hash| == 16
  }

  /** Everything fits into the fields of the format. */
  ghost predicate InLimits(s: Settings, files: seq<Packed>) {
    && s.versionMajor < 0x1_0000 && s.versionMinor < 0x1_0000
    && 0 < s.blockSize < 0x1_0000_0000 && s.pathType < 0x1_0000_0000
    && ENTRY_SIZE <= s.tocEntrySize < 0x1_0000_0000
    && TocLength(s, files) < 0x1_0000_0000 && Hashed(files)
    && forall i :: 0 <= i < |files| ==> EntryFits(EntryOf(s, files, i))
  }

  predicate EntryFits(e: Entry) {
    e.plain < 0x100_0000_0000 && e.fileOffset < 0x100_0000_0000
  }

  ghost predicate Fits(s: Settings, files: seq<Packed>) {
    InLimits(s, files) && forall i :: 0 <= i < |files| ==> Bounded(files[i].framed.sizes, s.blockSize)
  }

  ghost predicate Bounded(sizes: seq<nat>, blockSize: nat) {
    forall k :: 0 <= k < |sizes| ==> sizes[k] <= blockSize
  }

  // ---------- Bytes ----------

  function CompressionBytes(c: Compression): (b: seq<byte>)
    ensures |b| == 4
  {
    match c
    case Zlib => [0x7A, 0x6C, 0x69, 0x62]
    case Lzma => [0x6C, 0x7A, 0x6D, 0x61]
  }

  const MAGIC: seq<byte> := [0x50, 0x53, 0x41, 0x52]
  const DSAR_MAGIC: seq<byte> := [0x44, 0x53, 0x41, 0x52]

  function Header(s: Settings, count: nat, tocLength: nat): (b: seq<byte>)
    ensures |b| == HEADER_SIZE
  {
    MAGIC + Written(s.versionMajor, 2, s.mismatch) + Written(s.versionMinor, 2, s.mismatch)
    + CompressionBytes(s.compression) + Written(tocLength, 4, s.mismatch) + Written(s.tocEntrySize, 4, s.mismatch)
    + Written(count, 4, s.mismatch) + Written(s.blockSize, 4, s.mismatch) + Written(s.pathType, 4, s.mismatch)
  }

  /** An entry; the bytes that an entry has beyond 30 are zero. */
  function EntryBytes(s: Settings, hash: seq<byte>, e: Entry): (b: seq<byte>)
    requires |hash| == 16 && s.tocEntrySize >= ENTRY_SIZE
    ensures |b| == s.tocEntrySize
  {
    hash + Written(e.blockOffset, 4, s.mismatch) + Written(e.plain, 5, s.mismatch) + Written(e.fileOffset, 5, s.mismatch)
    + Repeat(0, s.tocEntrySize - ENTRY_SIZE)
  }

  /** The entries of the first `n` files. */
  function TocBytes(s: Settings, files: seq<Packed>, n: nat): (b: seq<byte>)
    requires n <= |files| && s.tocEntrySize >= ENTRY_SIZE && Hashed(files)
    ensures |b| == s.tocEntrySize * n
  {
    if n == 0 then [] else TocBytes(s, files, n - 1) + EntryBytes(s, files[n - 1].hash, EntryOf(s, files, n - 1))
  }

  function TableBytes(sizes: seq<nat>, width: nat, mismatch: bool): (b: seq<byte>)
    ensures |b| == |sizes| * width
  {
    if sizes == [] then []
    else TableBytes(sizes[..|sizes| - 1], width, mismatch) + Written(sizes[|sizes| - 1], width, mismatch)
  }

  function Archive(s: Settings, files: seq<Packed>): (b: seq<byte>)
    requires s.tocEntrySize >= ENTRY_SIZE && Hashed(files)
    ensures |b| == TocLength(s, files) + |AllBytes(files)|
  {
    Header(s, |files|, TocLength(s, files)) + TocBytes(s, files, |files|)
    + TableBytes(AllSizes(files), SizeWidth(s.blockSize), s.mismatch) + AllBytes(files)
  }

  // ---------- Where things lie ----------

  lemma {:induction false} SizesOf(files: seq<Packed>, i: nat)
    requires i < |files|
    ensures var at, n := |AllSizes(files[..i])|, |files[i].framed.sizes|;
            at + n <= |AllSizes(files)| && AllSizes(files)[at..at + n] == files[i].framed.sizes
    ensures i + 1 < |files| ==> |AllSizes(files[..i + 1])| == |AllSizes(files[..i])| + |files[i].framed.sizes|
    decreases |files|
  {
    var k := |files| - 1;
    if i < k {
      SizesOf(files[..k], i);
      assert files[..k][..i] == files[..i] && files[..k][i] == files[i];
      assert files[..i + 1][..i] == files[..i];
    } else {
      assert AllSizes(files) == AllSizes(files[..i]) + files[i].framed.sizes;
    }
  }

  lemma {:induction false} BytesOf(files: seq<Packed>, i: nat)
    requires i < |files|
    ensures var at, n := |AllBytes(files[..i])|, |files[i].framed.bytes|;
            at + n <= |AllBytes(files)| && AllBytes(files)[at..at + n] == files[i].framed.bytes
    ensures i + 1 < |files| ==> |AllBytes(files[..i + 1])| == |AllBytes(files[..i])| + |files[i].framed.bytes|
    decreases |files|
  {
    var k := |files| - 1;
    if i < k {
      BytesOf(files[..k], i);
      assert files[..k][..i] == files[..i] && files[..k][i] == files[i];
      assert files[..i + 1][..i] == files[..i];
    } else {
      assert AllBytes(files) == AllBytes(files[..i]) + files[i].framed.bytes;
    }
  }

  /** The data of a file stand at the offset that its entry gives. */
  lemma FileLiesAtItsOffset(s: Settings, files: seq<Packed>, i: nat)
    requires s.tocEntrySize >= ENTRY_SIZE && i < |files| && Hashed(files)
    ensures var e, n := EntryOf(s, files, i), |files[i].framed.bytes|;
            e.fileOffset + n <= |Archive(s, files)| && Archive(s, files)[e.fileOffset..e.fileOffset + n] == files[i].framed.bytes
  {
    hide TocBytes, TableBytes, AllBytes, AllSizes, Header, TocLength;
    BytesOf(files, i);
    var head := Header(s, |files|, TocLength(s, files)) + TocBytes(s, files, |files|)
                + TableBytes(AllSizes(files), SizeWidth(s.blockSize), s.mismatch);
    assert Archive(s, files) == head + AllBytes(files);
    var at, n := |AllBytes(files[..i])|, |files[i].framed.bytes|;
    assert (head + AllBytes(files))[|head| + at..|head| + at + n] == AllBytes(files)[at..at + n];
  }

  /** Neighbours in the list are neighbours in the data and in the block table. */
  lemma EntriesAreContiguous(s: Settings, files: seq<Packed>, i: nat)
    requires i + 1 < |files|
    ensures var e, e1 := EntryOf(s, files, i), EntryOf(s, files, i + 1);
            && e1.fileOffset == e.fileOffset + |files[i].framed.bytes|
            && e1.blockOffset == e.blockOffset + |files[i].framed.sizes|
    ensures EntryOf(s, files, 0).fileOffset == TocLength(s, files) && EntryOf(s, files, 0).blockOffset == 0
  {
    BytesOf(files, i);
    SizesOf(files, i);
  }

  /** Entry `k` of a table begins at `k` times the width. */
  lemma {:induction false} TableEntryAt(sizes: seq<nat>, width: nat, mismatch: bool, k: nat)
    requires k < |sizes|
    ensures (k + 1) * width <= |TableBytes(sizes, width, mismatch)|
    ensures k * width + width == (k + 1) * width
    ensures TableBytes(sizes, width, mismatch)[k * width..(k + 1) * width] == Written(sizes[k], width, mismatch)
    decreases |sizes|
  {
    var n := |sizes| - 1;
    var before := TableBytes(sizes[..n], width, mismatch);
    var b := TableBytes(sizes, width, mismatch);
    assert k * width + width == (k + 1) * width;
    if k < n {
      TableEntryAt(sizes[..n], width, mismatch, k);
      assert b[k * width..(k + 1) * width] == before[k * width..(k + 1) * width];
    } else {
      assert b == before + Written(sizes[n], width, mismatch);
    }
  }

  lemma {:induction false} EntryAt(s: Settings, files: seq<Packed>, n: nat, i: nat)
    requires i < n <= |files| && s.tocEntrySize >= ENTRY_SIZE && Hashed(files)
    ensures 0 <= i * s.tocEntrySize && i * s.tocEntrySize + s.tocEntrySize == (i + 1) * s.tocEntrySize <= |TocBytes(s, files, n)|
    ensures TocBytes(s, files, n)[i * s.tocEntrySize..(i + 1) * s.tocEntrySize] ==
            EntryBytes(s, files[i].hash, EntryOf(s, files, i))
    decreases n
  {
    hide EntryBytes, EntryOf;
    var size := s.tocEntrySize;
    NextMultiple(size, i, n);
    var at: nat, end: nat := i * size, (i + 1) * size;
    if i < n - 1 {
      EntryAt(s, files, n - 1, i);
      SliceOfFirst(TocBytes(s, files, n - 1), EntryBytes(s, files[n - 1].hash, EntryOf(s, files, n - 1)), at, end);
    } else {
      SliceOfSecond(TocBytes(s, files, n - 1), EntryBytes(s, files[n - 1].hash, EntryOf(s, files, n - 1)), at, end);
    }
  }

  lemma NextMultiple(size: nat, i: nat, n: nat)
    ensures 0 <= i * size && i * size + size == (i + 1) * size
    ensures i < n ==> (i + 1) * size <= size * n
    ensures n > 0 ==> size * (n - 1) + size == size * n
  {
    if i < n {
      Distribute(size, i + 1, n - i - 1);
    }
    if n > 0 {
      Distribute(size, n - 1, 1);
    }
  }

  lemma Distribute(size: nat, a: nat, b: nat)
    ensures size * (a + b) == size * a + size * b && size * b >= 0 && size * a == a * size
  {
  }

  lemma SliceOfFirst(a: seq<byte>, b: seq<byte>, at: nat, end: nat)
    requires at <= end <= |a|
    ensures (a + b)[at..end] == a[at..end]
  {
  }

  lemma SliceOfSecond(a: seq<byte>, b: seq<byte>, at: nat, end: nat)
    requires at == |a| && end == |a| + |b|
    ensures (a + b)[at..end] == b
  {
  }
}
