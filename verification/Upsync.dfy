/** `Upsync` as it runs: reading from an endpoint, and filling the lists of entries and block sizes. */
module Upsync {

  import opened Bytes
  import opened Scalars
  import opened Powers
  import opened BlockFraming
  import opened Container
  import opened ContainerReader

  /** `VectorInputHandle`: a read beyond the end fails and leaves the cursor. */
  class InputHandle {
    const data: seq<byte>
    var cursor: nat

    constructor (d: seq<byte>)
      ensures data == d && cursor == 0
    {
      data, cursor := d, 0;
    }

    method Seek(offset: nat)
      modifies this`cursor
      ensures cursor == offset
    {
      cursor := offset;
    }

    method Read(n: nat) returns (b: seq<byte>)
      modifies this`cursor
      ensures b == ReadAt(data, old(cursor), n)
      ensures cursor == if old(cursor) + n <= |data| then old(cursor) + n else old(cursor)
    {
      b := Repeat(0, n);
      if cursor + n <= |data| {
        b := data[cursor..cursor + n];
        cursor := cursor + n;
      }
    }
  }

  /** `i` entries have been read, and the next one begins at `at`. */
  ghost predicate EntriesUpTo(toc: seq<byte>, size: nat, mismatch: bool, i: nat, at: nat, entries: seq<Entry>) {
    at == i * size && (i > 0 ==> (i - 1) * size + ENTRY_SIZE <= |toc|) && entries == ReadEntries(toc, size, mismatch, i)
  }

  lemma NextEntry(toc: seq<byte>, size: nat, mismatch: bool, n: nat, i: nat, at: nat, entries: seq<Entry>)
    requires EntriesUpTo(toc, size, mismatch, i, at, entries) && i < n && (n - 1) * size + ENTRY_SIZE <= |toc|
    ensures at + ENTRY_SIZE <= |toc|
    ensures EntriesUpTo(toc, size, mismatch, i + 1, at + size, entries + [ReadEntry(toc[at..], mismatch)])
  {
    hide ReadEntry;
    MulMonotone(size, i, n - 1);
    assert (i + 1) * size == at + size;
  }

  /** The loop over the entries */
  method CollectEntries(toc: seq<byte>, size: nat, mismatch: bool, n: nat) returns (entries: seq<Entry>)
    requires n > 0 && (n - 1) * size + ENTRY_SIZE <= |toc|
    ensures entries == ReadEntries(toc, size, mismatch, n)
  {
    entries := [];
    var at: nat := 0;
    assert EntriesUpTo(toc, size, mismatch, 0, 0, []);
    for i := 0 to n
      invariant EntriesUpTo(toc, size, mismatch, i, at, entries)
    {
      hide EntriesUpTo;
      NextEntry(toc, size, mismatch, n, i, at, entries);
      entries := entries + [ReadEntry(toc[at..], mismatch)];
      at := at + size;
    }
  }

  /** `i` sizes have been read, and the next one begins at `at`. */
  ghost predicate SizesUpTo(table: seq<byte>, width: nat, mismatch: bool, i: nat, at: nat, sizes: seq<nat>) {
    at == i * width <= |table| && sizes == ReadSizes(table, width, mismatch, i)
  }

  lemma NextSize(table: seq<byte>, width: nat, mismatch: bool, n: nat, i: nat, at: nat, sizes: seq<nat>)
    requires SizesUpTo(table, width, mismatch, i, at, sizes) && i < n && n * width <= |table|
    ensures at + width <= |table|
    ensures SizesUpTo(table, width, mismatch, i + 1, at + width, sizes + [Scalars.Read(table[at..at + width], mismatch)])
  {
    hide Scalars.Read;
    MulMonotone(width, i + 1, n);
    assert (i + 1) * width == at + width;
  }

  /** The first loop over the block table */
  method CollectSizes(table: seq<byte>, width: nat, mismatch: bool, blocks: array<nat>)
    requires 0 <= blocks.Length * width <= |table|
    modifies blocks
    ensures blocks[..] == ReadSizes(table, width, mismatch, blocks.Length)
  {
    var n, at: nat := blocks.Length, 0;
    assert SizesUpTo(table, width, mismatch, 0, 0, blocks[..0]);
    for i := 0 to n
      invariant SizesUpTo(table, width, mismatch, i, at, blocks[..i])
    {
      hide SizesUpTo;
      NextSize(table, width, mismatch, n, i, at, blocks[..i]);
      ghost var before := blocks[..i];
      blocks[i] := Scalars.Read(table[at..at + width], mismatch);
      assert blocks[..i + 1] == before + [blocks[i]];
      at := at + width;
    }
    assert blocks[..n] == blocks[..];
  }

  /** The second loop: a size of 0 is that of a full block. */
  method ResolveSizes(blocks: array<nat>, blockSize: nat)
    modifies blocks
    ensures blocks[..] == AllResolved(old(blocks[..]), blockSize)
  {
    ghost var sizes := blocks[..];
    for i := 0 to blocks.Length
      invariant forall k :: 0 <= k < i ==> blocks[k] == Resolved(sizes[k], blockSize)
      invariant forall k :: i <= k < blocks.Length ==> blocks[k] == sizes[k]
    {
      blocks[i] := if blocks[i] > 0 then blocks[i] else blockSize;
    }
    assert blocks[..] == AllResolved(sizes, blockSize);
  }

  method CollectTable(table: seq<byte>, blockSize: nat, mismatch: bool) returns (blocks: array<nat>)
    ensures blocks[..] == ReadTable(table, blockSize, mismatch)
  {
    hide SizeWidth, ReadSizes, AllResolved;
    var width := SizeWidth(blockSize);
    FloorFits(|table|, width);
    blocks := new nat[|table| / width](_ => 0);
    CollectSizes(table, width, mismatch, blocks);
    ResolveSizes(blocks, blockSize);
  }

  /** The entries and the block table */
  method CollectToc(toc: seq<byte>, entrySize: nat, count: nat, mismatch: bool, compression: Option<Compression>,
                    blockSize: nat, pathType: nat) returns (o: Outcome)
    ensures o == ReadToc(toc, entrySize, count, mismatch, compression, blockSize, pathType)
  {
    hide ReadEntries, ReadTable;
    if count == 0 || entrySize * count > |toc| || (count - 1) * entrySize + ENTRY_SIZE > |toc| {
      return Malformed;
    }
    var entries := CollectEntries(toc, entrySize, mismatch, count);
    MulMonotone(entrySize, 0, count);
    var blocks := CollectTable(toc[entrySize * count..], blockSize, mismatch);
    if entries[0].plain == 0 {
      return Refused(ErrorManifest);
    }
    return Understood(Parsed(mismatch, compression, blockSize, pathType, entries, blocks[..]));
  }

  /** The header after its magic, and the table of contents */
  method ReadFields(endpoint: InputHandle, head: seq<byte>) returns (o: Outcome)
    requires |head| == HEADER_SIZE && endpoint.cursor == HEADER_SIZE
    requires head == ReadAt(endpoint.data, 0, HEADER_SIZE) && head[..4] == MAGIC
    modifies endpoint
    ensures o == Upsynced(endpoint.data)
  {
    hide ReadToc, Scalars.Read, LooksSwapped;
    var mismatch := LooksSwapped(head[4..6]);
    var compression := CompressionOf(head[8]);
    var tocLength := Scalars.Read(head[0x0C..0x10], mismatch);
    var tocEntrySize, tocEntriesCount := Scalars.Read(head[0x10..0x14], mismatch), Scalars.Read(head[0x14..0x18], mismatch);
    var blockSize, pathType := Scalars.Read(head[0x18..0x1C], mismatch), Scalars.Read(head[0x1C..0x20], mismatch);
    var tocActualLength := (tocLength + 0x1_0000_0000 - HEADER_SIZE) % 0x1_0000_0000;
    var toc := endpoint.Read(tocActualLength);
    o := CollectToc(toc, tocEntrySize, tocEntriesCount, mismatch, compression, blockSize, pathType);
  }

  /** `Upsync`, up to the manifest */
  method Upsync(endpoint: InputHandle) returns (o: Outcome)
    requires endpoint.cursor == 0
    modifies endpoint
    ensures o == Upsynced(endpoint.data)
  {
    var head := endpoint.Read(HEADER_SIZE);
    if head[..4] == DSAR_MAGIC {
      return Refused(ErrorDsarFile);
    }
    if head[..4] != MAGIC {
      return Refused(ErrorHeader);
    }
    assert endpoint.cursor == HEADER_SIZE by {
      assert head[0] == MAGIC[0];
    }
    o := ReadFields(endpoint, head);
  }
}
