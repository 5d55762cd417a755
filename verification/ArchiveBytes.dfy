/** The bytes of an archive at their absolute places, digit by digit, without reading them back. */
module ArchiveBytes {

  import opened Bytes
  import opened Powers
  import opened Scalars
  import opened BlockFraming
  import opened Container
  import opened BlockBytes

  /** Digit number `k` to the base 256 */
  function Digit(v: nat, k: nat): byte {
    DivNat(v, Range(k));
    v / Range(k) % 0x100
  }

  /** `width` bytes from `at` on are the lowest digits of `v` to the base 256, the highest of them first if `big`. */
  ghost predicate Spells(data: seq<byte>, at: nat, width: nat, big: bool, v: nat) {
    at + width <= |data|
    && forall p :: at <= p < at + width ==> data[p] == Digit(v, if big then at + width - 1 - p else p - at)
  }

  lemma {:induction false} DigitOf(v: nat, width: nat, k: nat)
    requires k < width
    ensures LittleBytes(v, width)[k] == Digit(v, k)
    decreases k
  {
    if k > 0 {
      DigitOf(v / 0x100, width - 1, k - 1);
      DivDiv(v, Range(k - 1));
    }
  }

  lemma DivDiv(v: nat, p: nat)
    requires p > 0
    ensures v / 0x100 / p == v / (0x100 * p)
  {
    var h := v / 0x100;
    var q, r := h / p, h % p;
    DivNat(h, p);
    assert v == 0x100 * p * q + (0x100 * r + v % 0x100) by {
      assert v == 0x100 * (p * q + r) + v % 0x100;
      assert 0x100 * (p * q) == 0x100 * p * q;
    }
    ModIs(v, 0x100 * p, q, 0x100 * r + v % 0x100);
  }

  /** What is written somewhere spells the number there. */
  lemma WrittenSpells(data: seq<byte>, at: nat, v: nat, width: nat, big: bool)
    requires at + width <= |data| && data[at..at + width] == Written(v, width, big)
    ensures Spells(data, at, width, big, v)
  {
    hide Digit, LittleBytes;
    forall p | at <= p < at + width ensures data[p] == Digit(v, if big then at + width - 1 - p else p - at) {
      DigitOf(v, width, if big then at + width - 1 - p else p - at);
      assert data[p] == data[at..at + width][p - at];
    }
  }

  /** The places of the header */
  ghost predicate HeaderStands(s: Settings, count: nat, tocLength: nat, data: seq<byte>) {
    && |data| >= 0x20 && data[..4] == [0x50, 0x53, 0x41, 0x52]
    && Spells(data, 0x04, 2, s.mismatch, s.versionMajor) && Spells(data, 0x06, 2, s.mismatch, s.versionMinor)
    && data[0x08..0x0C] == (if s.compression == Zlib then [0x7A, 0x6C, 0x69, 0x62] else [0x6C, 0x7A, 0x6D, 0x61])
    && Spells(data, 0x0C, 4, s.mismatch, tocLength) && Spells(data, 0x10, 4, s.mismatch, s.tocEntrySize)
    && Spells(data, 0x14, 4, s.mismatch, count) && Spells(data, 0x18, 4, s.mismatch, s.blockSize)
    && Spells(data, 0x1C, 4, s.mismatch, s.pathType)
  }

  lemma HeaderSpells(s: Settings, count: nat, tocLength: nat, rest: seq<byte>)
    ensures HeaderStands(s, count, tocLength, Header(s, count, tocLength) + rest)
  {
    hide Written, Spells;
    var m, data := s.mismatch, Header(s, count, tocLength) + rest;
    HeaderSlices(s, count, tocLength, rest);
    WrittenSpells(data, 0x04, s.versionMajor, 2, m);
    WrittenSpells(data, 0x06, s.versionMinor, 2, m);
    WrittenSpells(data, 0x0C, tocLength, 4, m);
    WrittenSpells(data, 0x10, s.tocEntrySize, 4, m);
    WrittenSpells(data, 0x14, count, 4, m);
    WrittenSpells(data, 0x18, s.blockSize, 4, m);
    WrittenSpells(data, 0x1C, s.pathType, 4, m);
  }

  lemma HeaderSlices(s: Settings, count: nat, tocLength: nat, rest: seq<byte>)
    ensures var data, m := Header(s, count, tocLength) + rest, s.mismatch;
            && data[..4] == [0x50, 0x53, 0x41, 0x52]
            && data[0x04..0x06] == Written(s.versionMajor, 2, m) && data[0x06..0x08] == Written(s.versionMinor, 2, m)
            && data[0x08..0x0C] == (if s.compression == Zlib then [0x7A, 0x6C, 0x69, 0x62] else [0x6C, 0x7A, 0x6D, 0x61])
            && data[0x0C..0x10] == Written(tocLength, 4, m) && data[0x10..0x14] == Written(s.tocEntrySize, 4, m)
            && data[0x14..0x18] == Written(count, 4, m) && data[0x18..0x1C] == Written(s.blockSize, 4, m)
            && data[0x1C..0x20] == Written(s.pathType, 4, m)
  {
    hide Written;
  }

  /** The places of an entry: its hash, block number, plain length and offset, and zeros up to the next one. */
  ghost predicate EntryStands(s: Settings, data: seq<byte>, at: nat, hash: seq<byte>, block: nat, plain: nat, offset: nat) {
    && ENTRY_SIZE <= s.tocEntrySize && at + s.tocEntrySize <= |data|
    && data[at..at + 16] == hash
    && Spells(data, at + 16, 4, s.mismatch, block)
    && Spells(data, at + 20, 5, s.mismatch, plain)
    && Spells(data, at + 25, 5, s.mismatch, offset)
    && forall p :: at + 30 <= p < at + s.tocEntrySize ==> data[p] == 0
  }

  lemma EntrySpells(s: Settings, data: seq<byte>, at: nat, hash: seq<byte>, e: Entry)
    requires |hash| == 16 && s.tocEntrySize >= ENTRY_SIZE && at + s.tocEntrySize <= |data|
    requires data[at..at + s.tocEntrySize] == EntryBytes(s, hash, e)
    ensures EntryStands(s, data, at, hash, e.blockOffset, e.plain, e.fileOffset)
  {
    hide Written, Spells;
    var m, b := s.mismatch, EntryBytes(s, hash, e);
    EntrySlices(s, hash, e);
    SliceOfSlice(data, at, at + s.tocEntrySize, 0, 16);
    SliceOfSlice(data, at, at + s.tocEntrySize, 16, 20);
    SliceOfSlice(data, at, at + s.tocEntrySize, 20, 25);
    SliceOfSlice(data, at, at + s.tocEntrySize, 25, 30);
    WrittenSpells(data, at + 16, e.blockOffset, 4, m);
    WrittenSpells(data, at + 20, e.plain, 5, m);
    WrittenSpells(data, at + 25, e.fileOffset, 5, m);
    forall p | at + 30 <= p < at + s.tocEntrySize ensures data[p] == 0 {
      assert data[p] == data[at..at + s.tocEntrySize][p - at] == b[30..][p - at - 30];
    }
  }

  lemma SliceOfSlice(data: seq<byte>, at: nat, end: nat, a: nat, b: nat)
    requires at <= end <= |data| && a <= b <= end - at
    ensures data[at..end][a..b] == data[at + a..at + b]
  {
    var whole := data[at..end];
    assert forall i :: 0 <= i < |whole| ==> whole[i] == data[at + i];
    var x, y := whole[a..b], data[at + a..at + b];
    forall i | 0 <= i < b - a ensures x[i] == y[i] {
      assert x[i] == whole[a + i];
    }
  }

  lemma EntrySlices(s: Settings, hash: seq<byte>, e: Entry)
    requires |hash| == 16 && s.tocEntrySize >= ENTRY_SIZE
    ensures var m, b := s.mismatch, EntryBytes(s, hash, e);
            && b[0..16] == hash && b[16..20] == Written(e.blockOffset, 4, m) && b[20..25] == Written(e.plain, 5, m)
            && b[25..30] == Written(e.fileOffset, 5, m) && b[30..] == Repeat(0, s.tocEntrySize - 30)
  {
    hide Written;
    assert EntryBytes(s, hash, e)[30..] == Repeat(0, s.tocEntrySize - ENTRY_SIZE);
  }

  /** The number of blocks of the first `n` files */
  function BlocksBefore(files: seq<Packed>, n: nat): nat
    requires n <= |files|
  {
    if n == 0 then 0 else BlocksBefore(files, n - 1) + |files[n - 1].framed.sizes|
  }

  function BytesBefore(files: seq<Packed>, n: nat): nat
    requires n <= |files|
  {
    if n == 0 then 0 else BytesBefore(files, n - 1) + |files[n - 1].framed.bytes|
  }

  lemma {:induction false} BeforeIs(files: seq<Packed>, n: nat)
    requires n <= |files|
    ensures |AllSizes(files[..n])| == BlocksBefore(files, n) && |AllBytes(files[..n])| == BytesBefore(files, n)
  {
    if n > 0 {
      BeforeIs(files, n - 1);
      assert files[..n][..n - 1] == files[..n - 1];
    }
  }

  /** Where the data of the files begin */
  function DataStart(s: Settings, files: seq<Packed>): nat {
    0x20 + s.tocEntrySize * |files|
    + BlocksBefore(files, |files|) * (if s.blockSize <= 0x1_0000 then 2 else if s.blockSize <= 0x100_0000 then 3 else 4)
  }

  lemma DataStartIs(s: Settings, files: seq<Packed>)
    ensures DataStart(s, files) == TocLength(s, files)
  {
    BeforeIs(files, |files|);
    assert files[..|files|] == files;
  }

  /**
   Entry `i` of an archive: it stands `i` entries behind the header; its numbers are those of the blocks and
   the bytes before its own; and where it says, there are the bytes of its file.
   */
  ghost predicate FileStands(s: Settings, files: seq<Packed>, data: seq<byte>, i: nat)
    requires i < |files|
  {
    var f, offset := files[i], DataStart(s, files) + BytesBefore(files, i);
    && 0 <= i * s.tocEntrySize
    && EntryStands(s, data, 0x20 + i * s.tocEntrySize, f.hash, BlocksBefore(files, i), f.plain, offset)
    && offset + |f.framed.bytes| <= |data| && data[offset..offset + |f.framed.bytes|] == f.framed.bytes
  }

  lemma FilesStand(s: Settings, files: seq<Packed>, i: nat)
    requires s.tocEntrySize >= ENTRY_SIZE && Hashed(files) && i < |files|
    ensures FileStands(s, files, Archive(s, files), i)
  {
    hide TocBytes, TableBytes, AllBytes, AllSizes, Header, TocLength, EntryBytes, Spells, DataStart;
    var n, size := |files|, s.tocEntrySize;
    EntryAt(s, files, n, i);
    FileLiesAtItsOffset(s, files, i);
    BeforeIs(files, i);
    DataStartIs(s, files);
    var at: nat, data := i * size, Archive(s, files);
    var head, toc := Header(s, n, TocLength(s, files)), TocBytes(s, files, n);
    var rest := TableBytes(AllSizes(files), SizeWidth(s.blockSize), s.mismatch) + AllBytes(files);
    assert data == head + toc + rest;
    Inside(head, toc, rest, at, at + size);
    EntrySpells(s, data, 0x20 + at, files[i].hash, EntryOf(s, files, i));
  }

  lemma Inside(a: seq<byte>, b: seq<byte>, c: seq<byte>, at: nat, end: nat)
    requires at <= end <= |b|
    ensures (a + b + c)[|a| + at..|a| + end] == b[at..end]
  {
  }

  /** Block `k` of the table, in the width that the size of a full block asks for */
  ghost predicate SizeStands(s: Settings, count: nat, data: seq<byte>, k: nat, size: nat) {
    var width := if s.blockSize <= 0x1_0000 then 2 else if s.blockSize <= 0x100_0000 then 3 else 4;
    0 <= s.tocEntrySize * count && 0 <= k * width
    && Spells(data, 0x20 + s.tocEntrySize * count + k * width, width, s.mismatch, size)
  }

  lemma SizesStand(s: Settings, files: seq<Packed>, k: nat)
    requires s.tocEntrySize >= ENTRY_SIZE && Hashed(files) && k < |AllSizes(files)|
    ensures SizeStands(s, |files|, Archive(s, files), k, AllSizes(files)[k])
  {
    hide TocBytes, TableBytes, AllBytes, AllSizes, Header, TocLength, Spells;
    var n, width := |files|, SizeWidth(s.blockSize);
    var sizes := AllSizes(files);
    TableEntryAt(sizes, width, s.mismatch, k);
    MulMonotone(s.tocEntrySize, 0, n);
    MulMonotone(width, 0, k);
    var at: nat, data := k * width, Archive(s, files);
    var head, table := Header(s, n, TocLength(s, files)) + TocBytes(s, files, n), TableBytes(sizes, width, s.mismatch);
    Inside(head, table, AllBytes(files), at, at + width);
    assert data == head + table + AllBytes(files);
    WrittenSpells(data, 0x20 + s.tocEntrySize * n + at, sizes[k], width, s.mismatch);
  }

  lemma HeaderOfArchive(s: Settings, files: seq<Packed>)
    requires s.tocEntrySize >= ENTRY_SIZE && Hashed(files)
    ensures HeaderStands(s, |files|, DataStart(s, files), Archive(s, files))
  {
    hide TocBytes, TableBytes, AllBytes, AllSizes, Header, TocLength, Spells, DataStart, HeaderStands;
    DataStartIs(s, files);
    var rest := TocBytes(s, files, |files|) + TableBytes(AllSizes(files), SizeWidth(s.blockSize), s.mismatch) + AllBytes(files);
    HeaderSpells(s, |files|, TocLength(s, files), rest);
    assert Archive(s, files) == Header(s, |files|, TocLength(s, files)) + rest;
  }

  // ---------- The blocks of a file ----------

  /** Block `k` of a content stands behind the ones before it, and so does its recorded size in the table. */
  ghost predicate BlockHeld(c: Codec, s: Settings, data: seq<byte>, count: nat, content: seq<byte>, block: nat, offset: nat, k: nat) {
    var x, at := Cut(content, s.blockSize, k), offset + StoredBefore(c, content, s.blockSize, s.blockSize, k);
    var z := Stored(c, x, s.blockSize);
    && at + |z| <= |data| && data[at..at + |z|] == z
    && SizeStands(s, count, data, block + k, if c.pack(x, s.blockSize).None? && |x| == s.blockSize then 0 else |z|)
  }

  /** Entry `i` names this block and this offset, and there the blocks of the content are. */
  ghost predicate LeadsTo(c: Codec, s: Settings, data: seq<byte>, count: nat, i: nat, content: seq<byte>, block: nat, offset: nat) {
    && 0 <= i * s.tocEntrySize
    && Spells(data, 0x20 + i * s.tocEntrySize + 16, 4, s.mismatch, block)
    && Spells(data, 0x20 + i * s.tocEntrySize + 25, 5, s.mismatch, offset)
    && forall k: nat :: Cut(content, s.blockSize, k) != [] ==> BlockHeld(c, s, data, count, content, block, offset, k)
  }

  ghost predicate HoldsContent(c: Codec, s: Settings, data: seq<byte>, count: nat, i: nat, content: seq<byte>) {
    exists block: nat, offset: nat :: LeadsTo(c, s, data, count, i, content, block, offset)
  }

  lemma CutHasNumber(src: seq<byte>, size: nat, k: nat, n: nat)
    requires size > 0 && Cut(src, size, k) != [] && |src| <= n * size
    ensures k < n
  {
    if k >= n {
      MulMonotone(size, n, k);
    }
  }

  lemma ContentIsHeld(c: Codec, s: Settings, files: seq<Packed>, i: nat, content: seq<byte>)
    requires s.tocEntrySize >= ENTRY_SIZE && s.blockSize > 0 && Hashed(files) && i < |files|
    requires files[i].framed == InBlocks(c, content, s.blockSize, s.blockSize)
    ensures HoldsContent(c, s, Archive(s, files), |files|, i, content)
  {
    hide InBlocks, Cut, Stored, StoredBefore, Spells, DataStart, Archive, AllSizes, SizeStands;
    var data, f := Archive(s, files), files[i].framed;
    var block, offset := BlocksBefore(files, i), DataStart(s, files) + BytesBefore(files, i);
    FilesStand(s, files, i);
    BlocksStand(c, content, s.blockSize, s.blockSize);
    SizesOf(files, i);
    BeforeIs(files, i);
    forall k: nat | Cut(content, s.blockSize, k) != [] ensures BlockHeld(c, s, data, |files|, content, block, offset, k) {
      CutHasNumber(content, s.blockSize, k, |f.sizes|);
      assert BlockStands(c, content, s.blockSize, s.blockSize, f, k);
      SizesStand(s, files, block + k);
      assert AllSizes(files)[block..block + |f.sizes|][k] == AllSizes(files)[block + k];
      var at, z := StoredBefore(c, content, s.blockSize, s.blockSize, k), Stored(c, Cut(content, s.blockSize, k), s.blockSize);
      SliceOfSlice(data, offset, offset + |f.bytes|, at, at + |z|);
    }
    assert LeadsTo(c, s, data, |files|, i, content, block, offset);
  }
}
