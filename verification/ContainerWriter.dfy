/** `Downsync`, from the compressed files on: writing the parts of an archive to a seekable endpoint. */
module ContainerWriter {

  import opened Bytes
  import opened Scalars
  import opened Powers
  import opened BlockFraming
  import opened Container

  /** The data with some bytes replaced; writing beyond the end pads with zeros. */
  function Overwritten(data: seq<byte>, at: nat, b: seq<byte>): seq<byte> {
    var padded := if at + |b| > |data| then data + Repeat(0, at + |b| - |data|) else data;
    padded[..at] + b + padded[at + |b|..]
  }

  /** `VectorOutputHandle` */
  class OutputHandle {
    var data: seq<byte>
    var cursor: nat

    constructor ()
      ensures data == [] && cursor == 0
    {
      data, cursor := [], 0;
    }

    method Seek(offset: nat)
      modifies this`cursor
      ensures cursor == offset
    {
      cursor := offset;
    }

    method Write(b: seq<byte>)
      modifies this
      ensures data == Overwritten(old(data), old(cursor), b) && cursor == old(cursor) + |b|
    {
      if cursor + |b| > |data| {
        data := data + Repeat(0, cursor + |b| - |data|);
      }
      data := data[..cursor] + b + data[cursor + |b|..];
      cursor := cursor + |b|;
    }
  }

  lemma Fills(head: seq<byte>, gap: nat, rest: seq<byte>, b: seq<byte>)
    requires |b| <= gap
    ensures Overwritten(head + Repeat(0, gap) + rest, |head|, b) == head + b + Repeat(0, gap - |b|) + rest
  {
    var data := head + Repeat(0, gap) + rest;
    assert data[..|head|] == head;
    assert Repeat(0, gap)[|b|..] == Repeat(0, gap - |b|);
    assert data[|head| + |b|..] == Repeat(0, gap)[|b|..] + rest;
  }

  lemma Appends(data: seq<byte>, gap: nat, b: seq<byte>)
    ensures Overwritten(data, |data| + gap, b) == data + Repeat(0, gap) + b
  {
    var padded := data + Repeat(0, gap + |b|);
    assert padded[..|data| + gap] == data + Repeat(0, gap);
  }

  // ---------- Header and entries ----------

  method Store(buf: array<byte>, at: nat, b: seq<byte>)
    requires at + |b| <= buf.Length
    modifies buf
    ensures buf[..] == old(buf[..at]) + b + old(buf[at + |b|..])
  {
    for i := 0 to |b|
      invariant buf[..at] == old(buf[..at]) && buf[at + |b|..] == old(buf[at + |b|..])
      invariant buf[at..at + i] == b[..i]
    {
      buf[at + i] := b[i];
    }
    assert buf[..] == buf[..at] + buf[at..at + |b|] + buf[at + |b|..];
  }

  /** The header, field by field; the length of the table of contents is only known at the end. */
  method WriteHeader(s: Settings, count: nat, tocLength: nat) returns (header: seq<byte>)
    ensures header == Header(s, count, tocLength)
  {
    hide Written, CompressionBytes;
    var buf := new byte[HEADER_SIZE](_ => 0);
    WriteNames(buf, s);
    ghost var first := buf[..0x0C];
    WriteNumbers(buf, s, count);
    ghost var second := buf[0x10..];
    WriteScalar(buf, 0x0C, tocLength, 4, s.mismatch);
    assert buf[..] == first + Written(tocLength, 4, s.mismatch) + second;
    header := buf[..];
  }

  method WriteNames(buf: array<byte>, s: Settings)
    requires buf.Length == HEADER_SIZE
    modifies buf
    ensures buf[..0x0C] == MAGIC + Written(s.versionMajor, 2, s.mismatch) + Written(s.versionMinor, 2, s.mismatch)
                           + CompressionBytes(s.compression)
  {
    hide Written, CompressionBytes;
    var m := s.mismatch;
    Store(buf, 0, MAGIC);
    assert buf[..0x04] == MAGIC;
    WriteScalar(buf, 0x04, s.versionMajor, 2, m);
    assert buf[..0x06] == MAGIC + Written(s.versionMajor, 2, m);
    WriteScalar(buf, 0x06, s.versionMinor, 2, m);
    assert buf[..0x08] == MAGIC + Written(s.versionMajor, 2, m) + Written(s.versionMinor, 2, m);
    Store(buf, 0x08, CompressionBytes(s.compression));
  }

  method WriteNumbers(buf: array<byte>, s: Settings, count: nat)
    requires buf.Length == HEADER_SIZE
    modifies buf
    ensures buf[..0x0C] == old(buf[..0x0C])
    ensures buf[0x10..] == Written(s.tocEntrySize, 4, s.mismatch) + Written(count, 4, s.mismatch)
                           + Written(s.blockSize, 4, s.mismatch) + Written(s.pathType, 4, s.mismatch)
  {
    hide Written;
    var m := s.mismatch;
    ghost var first := buf[..0x0C];
    WriteScalar(buf, 0x10, s.tocEntrySize, 4, m);
    assert buf[..0x0C] == first && buf[0x10..0x14] == Written(s.tocEntrySize, 4, m);
    WriteScalar(buf, 0x14, count, 4, m);
    assert buf[..0x0C] == first && buf[0x10..0x18] == Written(s.tocEntrySize, 4, m) + Written(count, 4, m);
    WriteScalar(buf, 0x18, s.blockSize, 4, m);
    ghost var second := Written(s.tocEntrySize, 4, m) + Written(count, 4, m) + Written(s.blockSize, 4, m);
    assert buf[..0x0C] == first && buf[0x10..0x1C] == second;
    WriteScalar(buf, 0x1C, s.pathType, 4, m);
    assert buf[..0x0C] == first && buf[0x10..] == second + Written(s.pathType, 4, m);
  }

  /** `TocEntry::ToByteArray`, over whatever the buffer holds. */
  method ToByteArray(buf: array<byte>, s: Settings, hash: seq<byte>, e: Entry)
    requires buf.Length == s.tocEntrySize >= ENTRY_SIZE && |hash| == 16
    requires buf[ENTRY_SIZE..] == Repeat(0, s.tocEntrySize - ENTRY_SIZE)
    modifies buf
    ensures buf[..] == EntryBytes(s, hash, e) && buf[ENTRY_SIZE..] == old(buf[ENTRY_SIZE..])
  {
    hide Written;
    var m := s.mismatch;
    ghost var pad := buf[ENTRY_SIZE..];
    Store(buf, 0, hash);
    assert buf[..0x10] == hash && buf[ENTRY_SIZE..] == pad;
    WriteScalar(buf, 0x10, e.blockOffset, 4, m);
    assert buf[..0x14] == hash + Written(e.blockOffset, 4, m) && buf[ENTRY_SIZE..] == pad;
    WriteScalar(buf, 0x14, e.plain, 5, m);
    assert buf[..0x19] == hash + Written(e.blockOffset, 4, m) + Written(e.plain, 5, m) && buf[ENTRY_SIZE..] == pad;
    WriteScalar(buf, 0x19, e.fileOffset, 5, m);
    assert buf[..] == buf[..0x1E] + buf[ENTRY_SIZE..];
  }

  // ---------- The parts, one after the other ----------

  lemma NextFile(head: seq<byte>, gap: nat, before: seq<byte>, b: seq<byte>)
    ensures var data := head + Repeat(0, gap) + before;
            Overwritten(data, |data|, b) == head + Repeat(0, gap) + (before + b)
    ensures Overwritten(head, |head| + gap, b) == head + Repeat(0, gap) + ([] + b)
  {
    var data := head + Repeat(0, gap) + before;
    Appends(data, 0, b);
    Appends(head, gap, b);
    assert data + Repeat(0, 0) + b == head + Repeat(0, gap) + (before + b);
    assert [] + b == b;
  }

  lemma OneMore(files: seq<Packed>, i: nat)
    requires i < |files|
    ensures AllBytes(files[..i + 1]) == AllBytes(files[..i]) + files[i].framed.bytes
    ensures AllSizes(files[..i + 1]) == AllSizes(files[..i]) + files[i].framed.sizes
  {
    assert files[..i + 1][..i] == files[..i];
  }

  lemma NoFiles()
    ensures AllBytes([]) == [] && AllSizes([]) == []
  {
  }

  /** Where the offset counters of the loop stand before file `i`. */
  ghost predicate AtFile(s: Settings, files: seq<Packed>, i: nat, dataOffset: nat, sizes: seq<nat>)
    requires i <= |files|
  {
    dataOffset == TocLength(s, files) + |AllBytes(files[..i])| && sizes == AllSizes(files[..i])
  }

  /** The files go behind the room for the table of contents; their entries and sizes are collected. */
  method WriteFiles(out: OutputHandle, s: Settings, files: seq<Packed>, tocLength: nat, ghost head: seq<byte>)
    returns (entries: seq<Entry>, sizes: seq<nat>)
    requires |head| <= tocLength == TocLength(s, files) && files != []
    requires out.data == head && out.cursor == tocLength
    modifies out
    ensures out.data == head + Repeat(0, tocLength - |head|) + AllBytes(files)
    ensures |entries| == |files| && forall i :: 0 <= i < |files| ==> entries[i] == EntryOf(s, files, i)
    ensures sizes == AllSizes(files)
  {
    hide Overwritten, TocLength, AllBytes, AllSizes;
    entries, sizes := [], [];
    var dataOffset := tocLength;
    ghost var gap: nat := tocLength - |head|;
    NoFiles();
    assert files[..0] == [];
    for i := 0 to |files|
      invariant out.cursor == dataOffset && AtFile(s, files, i, dataOffset, sizes)
      invariant out.data == if i == 0 then head else head + Repeat(0, gap) + AllBytes(files[..i])
      invariant |entries| == i && forall j :: 0 <= j < i ==> entries[j] == EntryOf(s, files, j)
    {
      var f := files[i].framed;
      entries := entries + [Entry(|sizes|, files[i].plain, dataOffset)];
      NextFile(head, gap, AllBytes(files[..i]), f.bytes);
      OneMore(files, i);
      out.Write(f.bytes);
      dataOffset := dataOffset + |f.bytes|;
      sizes := sizes + f.sizes;
    }
    assert files[..|files|] == files;
  }

  /** The entries go into the room behind the header. */
  method WriteToc(out: OutputHandle, s: Settings, files: seq<Packed>, entries: seq<Entry>, ghost head: seq<byte>, ghost gap: nat,
                  ghost rest: seq<byte>)
    requires s.tocEntrySize >= ENTRY_SIZE && Hashed(files)
    requires |entries| == |files| && forall i :: 0 <= i < |files| ==> entries[i] == EntryOf(s, files, i)
    requires out.data == head + Repeat(0, s.tocEntrySize * |files| + gap) + rest && out.cursor == |head|
    modifies out
    ensures out.data == head + TocBytes(s, files, |files|) + Repeat(0, gap) + rest
    ensures out.cursor == |head| + s.tocEntrySize * |files|
  {
    hide Overwritten, EntryBytes, EntryOf;
    var buf := new byte[s.tocEntrySize](_ => 0);
    assert buf[ENTRY_SIZE..] == Repeat(0, s.tocEntrySize - ENTRY_SIZE);
    ghost var size := s.tocEntrySize;
    assert head + TocBytes(s, files, 0) == head;
    for i := 0 to |files|
      invariant fresh(buf) && buf.Length == size && buf[ENTRY_SIZE..] == Repeat(0, size - ENTRY_SIZE)
      invariant 0 <= size * (|files| - i) && out.cursor == |head| + |TocBytes(s, files, i)|
      invariant out.data == head + TocBytes(s, files, i) + Repeat(0, size * (|files| - i) + gap) + rest
    {
      ToByteArray(buf, s, files[i].hash, entries[i]);
      ghost var done, b, room := head + TocBytes(s, files, i), buf[..], size * (|files| - i) + gap;
      assert size * (|files| - i) == size + size * (|files| - i - 1);
      MulMonotone(size, 0, |files| - i - 1);
      Fills(done, room, rest, b);
      assert head + TocBytes(s, files, i + 1) == done + b;
      out.Write(buf[..]);
    }
  }

  /** The table of recorded sizes, filled in memory first. */
  method MakeTable(sizes: seq<nat>, width: nat, mismatch: bool) returns (table: seq<byte>)
    ensures table == TableBytes(sizes, width, mismatch)
  {
    hide Written;
    MulMonotone(width, 0, |sizes|);
    var buf := new byte[width * |sizes|](_ => 0);
    for i := 0 to |sizes|
      invariant 0 <= width * i <= buf.Length
      invariant buf[..width * i] == TableBytes(sizes[..i], width, mismatch)
    {
      MulMonotone(width, i + 1, |sizes|);
      var at: nat := width * i;
      assert width * (i + 1) == at + width;
      ghost var before := buf[..at];
      WriteScalar(buf, at, sizes[i], width, mismatch);
      assert sizes[..i + 1][..i] == sizes[..i];
      assert buf[..at + width] == before + Written(sizes[i], width, mismatch);
    }
    assert sizes[..|sizes|] == sizes;
    table := buf[..];
  }

  lemma NoBlocksNegative(s: Settings, files: seq<Packed>)
    ensures 0 <= s.tocEntrySize * |files| && 0 <= |AllSizes(files)| * SizeWidth(s.blockSize)
  {
  }

  /**
   `Downsync` from the compressed files on. The number of blocks is the one that the workers have
   counted; the archive comes out right because it is that of the files.
   */
  method WriteArchive(out: OutputHandle, s: Settings, files: seq<Packed>, numBlocks: nat)
    requires out.data == [] && files != [] && s.tocEntrySize >= ENTRY_SIZE && Hashed(files)
    requires numBlocks == |AllSizes(files)|
    modifies out
    ensures out.data == Archive(s, files)
  {
    hide Header, TocBytes, TableBytes, AllBytes, AllSizes, SizeWidth, Overwritten;
    var width := SizeWidth(s.blockSize);
    NoBlocksNegative(s, files);
    var tocLength := HEADER_SIZE + s.tocEntrySize * |files| + numBlocks * width;
    var header := WriteHeader(s, |files|, tocLength);
    out.Seek(0);
    Appends([], 0, header);
    assert [] + Repeat(0, 0) + header == header;
    out.Write(header);
    out.Seek(tocLength);
    var entries, sizes := WriteFiles(out, s, files, tocLength, header);
    out.Seek(HEADER_SIZE);
    ghost var room: nat := numBlocks * width;
    WriteToc(out, s, files, entries, header, room, AllBytes(files));
    var table := MakeTable(sizes, width, s.mismatch);
    Fills(header + TocBytes(s, files, |files|), room, AllBytes(files), table);
    assert Repeat(0, room - |table|) == [];
    out.Write(table);
    assert out.data == header + TocBytes(s, files, |files|) + table + [] + AllBytes(files);
  }
}
