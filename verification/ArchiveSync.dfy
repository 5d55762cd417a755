/**
 From an archive in memory to its bytes and back: `Downsync` in all its steps, and `Upsync` as far as
 the files it adds.
 */
module ArchiveSync {

  import opened Bytes
  import opened BlockFraming
  import opened Container
  import opened ContainerReader
  import opened FileBlocks
  import opened ArchiveBytes
  import opened ArchiveRoundTrip
  import opened ArchiveTree
  import opened ArchiveClass
  import opened Paths
  import ContainerWriter
  import FileContents
  import LzmaBlocks
  import Manifest
  import PackingOrder
  import Upsync

  /** The bytes of a file in memory, and the hash of a path. */
  datatype Store = Store(bytes: int -> seq<byte>, hash: seq<byte> -> seq<byte>)
  {
    ghost predicate Valid() {
      forall path :: |hash(path)| == 16
    }
  }

  // ---------- Downsync ----------

  function Lookup(contents: Contents, manifest: Option<File>, name: seq<byte>): Option<File> {
    if name == MANIFEST then manifest
    else if WithoutSlash(name) in contents then Some(contents[WithoutSlash(name)]) else None
  }

  function Lookups(contents: Contents, manifest: Option<File>, names: seq<seq<byte>>): (files: seq<Option<File>>)
    ensures |files| == |names| && forall i :: 0 <= i < |names| ==> files[i] == Lookup(contents, manifest, names[i])
  {
    seq(|names|, i requires 0 <= i < |names| => Lookup(contents, manifest, names[i]))
  }

  method LookUpAll(archive: Archive, names: seq<seq<byte>>, t: PathType) returns (files: seq<Option<File>>)
    requires archive.Valid()
    ensures files == Lookups(archive.contents, archive.manifest, names)
  {
    files := [];
    for i := 0 to |names|
      invariant |files| == i && forall j :: 0 <= j < i ==> files[j] == Lookup(archive.contents, archive.manifest, names[j])
    {
      var f := archive.FindFile(names[i], t);
      files := files + [f];
    }
  }

  lemma ListsOnceIsDistinct(files: seq<File>, contents: Contents)
    requires ListsOnce(files, contents)
    ensures PackingOrder.Distinct(files)
  {
    forall i, j | 0 <= i < j < |files| ensures files[i] != files[j] {
      assert ListedOnce(files, contents, files[i]);
      if files[i] == files[j] {
        CountedTwice(files, i, j);
      }
    }
  }

  lemma CountedTwice(files: seq<File>, i: nat, j: nat)
    requires i < j < |files| && files[i] == files[j]
    ensures multiset(files)[files[i]] >= 2
  {
    assert files == files[..j] + files[j..] && files[i] in files[..j] && files[j] in files[j..];
  }

  lemma SameFilesListed(a: seq<File>, b: seq<File>, contents: Contents)
    requires ListsOnce(a, contents) && multiset(a) == multiset(b)
    ensures ListsOnce(b, contents)
  {
    forall f: File ensures ListedOnce(b, contents, f) {
      assert ListedOnce(a, contents, f);
    }
  }

  lemma {:induction false} ListedOfSame(listed: seq<Option<File>>, a: seq<File>, b: seq<File>)
    requires multiset(a) == multiset(b)
    ensures PackingOrder.Listed(listed, a) == PackingOrder.Listed(listed, b)
  {
    if listed != [] {
      var last := listed[|listed| - 1];
      ListedOfSame(listed[..|listed| - 1], a, b);
      if last.Some? {
        assert last.value in a <==> last.value in multiset(a);
        assert last.value in b <==> last.value in multiset(b);
      }
    }
  }

  /**
   The files but the manifest, in the order in which they are packed: level by level, but first those that an
   earlier manifest lists; and if that is their order already, no file is moved.
   */
  method FilesInOrder(archive: Archive, store: Store, t: PathType) returns (files: seq<File>)
    requires archive.Valid()
    ensures ListsOnce(files, archive.contents)
    ensures archive.manifest.Some? ==>
              var lines := Manifest.Lines(store.bytes(archive.manifest.value.content));
              var listed, order := Lookups(archive.contents, archive.manifest, lines), Breadth([archive.rootDirectory]);
              && PackingOrder.Listed(listed, files) <= files
              && (PackingOrder.Listed(listed, order) <= order ==> files == order)
    ensures archive.manifest.None? ==> files == Breadth([archive.rootDirectory])
  {
    hide ListsOnce, Archive.Valid, PackingOrder.Listed, Breadth;
    var all := archive.AllFiles();
    if archive.manifest.None? {
      assert all[0..] == all;
      return all;
    }
    files := all[1..];
    var lines := Manifest.GetStringsFromManifest(store.bytes(archive.manifest.value.content));
    var listed := LookUpAll(archive, lines, t);
    ListsOnceIsDistinct(files, archive.contents);
    var sorted := PackingOrder.SortByManifest(files, listed);
    SameFilesListed(files, sorted, archive.contents);
    ListedOfSame(listed, files, sorted);
    files := sorted;
  }

  /** What goes into the archive for each file */
  function ItemOf(store: Store, t: PathType, f: File): Item {
    Item(PathString(f.path, t), store.hash(PathString(f.path, t)), store.bytes(f.content))
  }

  function ItemsOf(store: Store, t: PathType, files: seq<File>): (items: seq<Item>)
    ensures |items| == |files| && forall i :: 0 <= i < |files| ==> items[i] == ItemOf(store, t, files[i])
  {
    seq(|files|, i requires 0 <= i < |files| => ItemOf(store, t, files[i]))
  }

  /** The manifest, with its hash of zeros, and the files it lists */
  function WithManifest(items: seq<Item>): (all: seq<Item>)
    ensures |all| == |items| + 1
  {
    [Item(MANIFEST, Repeat(0, 16), Manifest.Joined(Names(items)))] + items
  }

  method CompressItems(c: Codec, blockSize: nat, items: seq<Item>) returns (packed: seq<Packed>, numBlocks: nat)
    requires blockSize > 0
    ensures packed == PackedItems(c, blockSize, items) && numBlocks == |AllSizes(packed)|
  {
    packed, numBlocks := [], 0;
    for i := 0 to |items|
      invariant |packed| == i && forall j :: 0 <= j < i ==> packed[j] == PackedItem(c, blockSize, items[j])
      invariant numBlocks == |AllSizes(packed)|
    {
      hide InBlocks;
      var framed := CompressBlocks(c, items[i].content, blockSize, blockSize);
      var one := Packed(|items[i].content|, items[i].hash, framed.value);
      assert (packed + [one])[..i] == packed;
      packed, numBlocks := packed + [one], numBlocks + |framed.value.sizes|;
    }
  }

  lemma ItemsAreHashed(store: Store, t: PathType, files: seq<File>, c: Codec, blockSize: nat)
    requires store.Valid() && blockSize > 0
    ensures Hashed(PackedItems(c, blockSize, WithManifest(ItemsOf(store, t, files))))
  {
  }

  /**
   The entries in the bytes of an archive: first that of the manifest, with sixteen zeros for a hash, then
   one for each file, with the hash of its path, the number of its plain bytes and the way to its blocks.
   */
  ghost predicate ListsFiles(data: seq<byte>, s: Settings, store: Store, t: PathType, files: seq<File>, c: Codec) {
    && HoldsEntry(s, c, data, |files| + 1, 0, Repeat(0, 16), Manifest.Joined(PathsOf(t, files)))
    && forall i :: 0 <= i < |files| ==>
         HoldsEntry(s, c, data, |files| + 1, i + 1, store.hash(PathString(files[i].path, t)), store.bytes(files[i].content))
  }

  /**
   Entry `i` begins with this hash, has the number of the plain bytes at its place, and leads to the blocks of
   the content, each of them packed exactly if that fits into the size of a block.
   */
  ghost predicate HoldsEntry(s: Settings, c: Codec, data: seq<byte>, count: nat, i: nat, hash: seq<byte>, content: seq<byte>) {
    && 0 <= i * s.tocEntrySize && 0x20 + i * s.tocEntrySize + 30 <= |data|
    && data[0x20 + i * s.tocEntrySize..0x20 + i * s.tocEntrySize + 16] == hash
    && Spells(data, 0x20 + i * s.tocEntrySize + 20, 5, s.mismatch, |content|)
    && HoldsContent(c, s, data, count, i, content)
  }

  /** The paths of the files, in the form of the archive */
  function PathsOf(t: PathType, files: seq<File>): (names: seq<seq<byte>>)
    ensures |names| == |files| && forall i :: 0 <= i < |files| ==> names[i] == PathString(files[i].path, t)
  {
    seq(|files|, i requires 0 <= i < |files| => PathString(files[i].path, t))
  }

  lemma ArchiveListsFiles(s: Settings, store: Store, t: PathType, files: seq<File>, c: Codec)
    requires store.Valid() && s.blockSize > 0 && s.tocEntrySize >= ENTRY_SIZE
    requires Hashed(PackedItems(c, s.blockSize, WithManifest(ItemsOf(store, t, files))))
    ensures ListsFiles(Container.Archive(s, PackedItems(c, s.blockSize, WithManifest(ItemsOf(store, t, files)))), s, store, t, files, c)
  {
    hide Container.Archive, Manifest.Joined, PathString, InBlocks, Spells, HoldsContent;
    var items := WithManifest(ItemsOf(store, t, files));
    var packed := PackedItems(c, s.blockSize, items);
    var data := Container.Archive(s, packed);
    assert Names(ItemsOf(store, t, files)) == PathsOf(t, files);
    forall i | 0 <= i < |items| ensures HoldsEntry(s, c, data, |items|, i, items[i].hash, items[i].content) {
      FilesStand(s, packed, i);
      ContentIsHeld(c, s, packed, i, items[i].content);
    }
    forall i | 0 <= i < |files|
      ensures HoldsEntry(s, c, data, |files| + 1, i + 1, store.hash(PathString(files[i].path, t)), store.bytes(files[i].content))
    {
      assert HoldsEntry(s, c, data, |items|, i + 1, items[i + 1].hash, items[i + 1].content);
    }
    assert HoldsEntry(s, c, data, |items|, 0, items[0].hash, items[0].content);
  }

  /** `Downsync`, the whole way. */
  method Downsync(archive: Archive, store: Store, t: PathType, s: Settings, c: Codec)
    returns (out: ContainerWriter.OutputHandle, files: seq<File>)
    requires archive.Valid() && store.Valid() && s.blockSize > 0 && s.tocEntrySize >= ENTRY_SIZE
    ensures ListsOnce(files, archive.contents)
    ensures archive.manifest.Some? ==>
              var lines := Manifest.Lines(store.bytes(archive.manifest.value.content));
              var listed, order := Lookups(archive.contents, archive.manifest, lines), Breadth([archive.rootDirectory]);
              && PackingOrder.Listed(listed, files) <= files
              && (PackingOrder.Listed(listed, order) <= order ==> files == order)
    ensures archive.manifest.None? ==> files == Breadth([archive.rootDirectory])
    ensures var packed := PackedItems(c, s.blockSize, WithManifest(ItemsOf(store, t, files)));
            && fresh(out) && Hashed(packed) && out.data == Container.Archive(s, packed)
            && HeaderStands(s, |files| + 1, DataStart(s, packed), out.data)
    ensures ListsFiles(out.data, s, store, t, files, c)
  {
    hide ListsOnce, Archive.Valid, PackingOrder.Listed, Container.Archive, ListsFiles, HeaderStands, DataStart, Breadth;
    files := FilesInOrder(archive, store, t);
    var items := ItemsOf(store, t, files);
    var bytes := Manifest.MakeManifest(Names(items));
    var all := [Item(MANIFEST, Repeat(0, 16), bytes)] + items;
    var packed, numBlocks := CompressItems(c, s.blockSize, all);
    ItemsAreHashed(store, t, files, c, s.blockSize);
    out := new ContainerWriter.OutputHandle();
    ContainerWriter.WriteArchive(out, s, packed, numBlocks);
    ArchiveListsFiles(s, store, t, files, c);
    HeaderOfArchive(s, packed);
  }

  // ---------- Upsync ----------

  /**
   The paths that the manifest of an archive lists, as many as there are entries behind it; nothing
   when the archive is refused, or when the source would read beyond its lists.
   */
  ghost function ListedIn(data: seq<byte>, c: Codec, beyond: byte, tail: seq<byte>): Option<seq<seq<byte>>> {
    match Upsynced(data)
    case Understood(p) => if p.entries == [] then None else ListedBy(DataOf(data, p, p.entries[0], beyond), c, tail, |p.entries| - 1)
    case _ => None
  }

  ghost function ListedBy(d: Option<FileData>, c: Codec, tail: seq<byte>, n: nat): Option<seq<seq<byte>>> {
    if d.None? || |d.value.flags| > |d.value.sizes| then None
    else
      var m := Decompressed(c, d.value.bytes, d.value.sizes, d.value.flags, tail);
      if m.None? || |Manifest.Lines(m.value)| < n then None else Some(Manifest.Lines(m.value)[..n])
  }

  method ReadManifest(endpoint: Upsync.InputHandle, p: Parsed, c: Codec, beyond: byte, tail: seq<byte>)
    returns (names: Option<seq<seq<byte>>>)
    requires p.entries != []
    modifies endpoint
    ensures names == ListedBy(DataOf(endpoint.data, p, p.entries[0], beyond), c, tail, |p.entries| - 1)
  {
    hide DataFrom, Decompressed;
    var e := p.entries[0];
    var d := GetData(endpoint, p, e, beyond);
    if d.None? {
      return None;
    }
    DataHasFlags(endpoint.data, p, e.plain, e.blockOffset, e.fileOffset, beyond);
    var m := DecompressBlocks(c, d.value.bytes, d.value.sizes, d.value.flags, tail);
    if m.None? {
      return None;
    }
    var lines := Manifest.GetStringsFromManifest(m.value);
    return if |lines| < |p.entries| - 1 then None else Some(lines[..|p.entries| - 1]);
  }

  /** `Upsync`, into an empty archive. */
  method Reload(endpoint: Upsync.InputHandle, back: Archive, c: Codec, beyond: byte, tail: seq<byte>) returns (ok: bool)
    requires endpoint.cursor == 0 && back.Valid() && back.contents == map[]
    modifies endpoint, back
    ensures back.Valid()
    ensures match ListedIn(endpoint.data, c, beyond, tail)
            case None => !ok && back.contents == map[]
            case Some(names) => (ok <==> Addable(names) == |names|) && back.contents == Listing(names, Addable(names))
  {
    hide Archive.Valid, Upsynced, Listing, Addable, DataFrom, ListedBy;
    var o := Upsync.Upsync(endpoint);
    if !o.Understood? || o.p.entries == [] {
      return false;
    }
    var names := ReadManifest(endpoint, o.p, c, beyond, tail);
    if names.None? {
      return false;
    }
    ok := AddListed(back, names.value);
  }

  // ---------- There and back ----------

  /** The paths can be listed: no line ends in them, and in the relative form they keep their first slash. */
  ghost predicate Listable(contents: Contents, t: PathType) {
    forall k :: k in contents ==> Manifest.NEWLINE !in k && (t.Relative? ==> k == [] || k[0] != SLASH)
  }

  lemma PathKeeps(f: File, t: PathType)
    requires Manifest.NEWLINE !in Key(f) && (t.Relative? ==> Key(f) == [] || Key(f)[0] != SLASH)
    ensures WithoutSlash(PathString(f.path, t)) == Key(f) && Elements(PathString(f.path, t)) == Elements(f.path)
    ensures Manifest.NEWLINE !in PathString(f.path, t)
    ensures Elements(f.path) != [] ==> PathString(f.path, t) != []
  {
    assert f.path != [] && f.path[0] == SLASH ==> f.path == [SLASH] + Key(f);
    SameElements(PathString(f.path, t), f.path);
  }

  lemma PackedIsHeld(contents: Contents, files: seq<File>, i: nat)
    requires Keyed(contents) && ListsOnce(files, contents) && i < |files|
    ensures Key(files[i]) in contents && contents[Key(files[i])] == files[i]
    ensures Elements(files[i].path) != [] && Key(files[i]) != MANIFEST
  {
    assert ListedOnce(files, contents, files[i]);
    assert files[i] in multiset(files);
  }

  /** The listed paths are plain lines that name the files of the archive. */
  lemma NamesAreGood(contents: Contents, store: Store, t: PathType, files: seq<File>)
    requires Keyed(contents) && ListsOnce(files, contents) && Listable(contents, t)
    ensures var names := Names(ItemsOf(store, t, files));
            && Manifest.Plain(names) && Different(names) && Addable(names) == |names|
            && (files != [] ==> names[|names| - 1] != [])
            && forall i :: 0 <= i < |files| ==> WithoutSlash(names[i]) == Key(files[i])
  {
    hide Keyed, ListsOnce, Elements, PathString, WithoutSlash;
    var names := Names(ItemsOf(store, t, files));
    ListsOnceIsDistinct(files, contents);
    forall i | 0 <= i < |files|
      ensures WithoutSlash(names[i]) == Key(files[i]) != MANIFEST && Elements(names[i]) != [] && Manifest.NEWLINE !in names[i]
      ensures names[i] != [] && Key(files[i]) in contents && contents[Key(files[i])] == files[i]
    {
      PackedIsHeld(contents, files, i);
      PathKeeps(files[i], t);
    }
    AllAddable(names);
  }

  lemma {:induction false} AllAddable(names: seq<seq<byte>>)
    requires forall i :: 0 <= i < |names| ==> Elements(names[i]) != []
    ensures Addable(names) == |names|
  {
    hide Elements;
    if names != [] {
      AllAddable(names[1..]);
    }
  }

  /** A manifest that is restored lists the files of the archive. */
  lemma ManifestIsRead(s: Settings, c: Codec, items: seq<Item>, beyond: byte, tail: seq<byte>)
    requires Writable(s, c, items) && Faithful(c) && BeginsWithManifest(items)
    requires s.tocEntrySize >= ENTRY_SIZE && Hashed(PackedItems(c, s.blockSize, items))
    requires var d := DataOfItem(s, c, items, 0, beyond);
             d.Some? && |d.value.flags| <= |d.value.sizes|
             && Decompressed(c, d.value.bytes, d.value.sizes, d.value.flags, tail) == Some(items[0].content)
    ensures ListedIn(Container.Archive(s, PackedItems(c, s.blockSize, items)), c, beyond, tail) == Some(Names(items[1..]))
  {
    hide Writable, Faithful, DataFrom, Decompressed, Upsynced, Container.Archive, Manifest.Plain, Manifest.Lines;
    var names := Names(items[1..]);
    FileComesBack(s, c, items, 0, beyond, tail);
    Manifest.ManifestRoundTrip(names);
    assert items[0].content != [] by {
      NotNothing(names);
    }
    assert names[..|names|] == names;
  }

  lemma NotNothing(names: seq<seq<byte>>)
    requires Manifest.Lines(Manifest.Joined(names)) == names != []
    ensures Manifest.Joined(names) != []
  {
  }

  /** Every file is there again, with the number of its entry, and there are no others. */
  ghost predicate Restocked(contents: Contents, was: Contents, files: seq<File>, t: PathType) {
    && contents.Keys == was.Keys
    && forall i :: 0 <= i < |files| ==>
         Key(files[i]) in contents && contents[Key(files[i])] == File(PathString(files[i].path, t), i + 1)
  }

  lemma ListingRestocks(was: Contents, store: Store, t: PathType, files: seq<File>)
    requires Keyed(was) && ListsOnce(files, was) && Listable(was, t)
    ensures var names := Names(ItemsOf(store, t, files)); Restocked(Listing(names, |names|), was, files, t)
  {
    hide Keyed, Listable, ListsOnce, Elements, PathString, WithoutSlash, Listing, Key, Manifest.Plain, Different;
    var names := Names(ItemsOf(store, t, files));
    NamesAreGood(was, store, t, files);
    ListingHolds(names, |names|, None);
    SameKeys(Listing(names, |names|), was, names, files);
    assert forall i :: 0 <= i < |files| ==> names[i] == PathString(files[i].path, t);
  }

  lemma SameKeys(contents: Contents, was: Contents, names: seq<seq<byte>>, files: seq<File>)
    requires Keyed(was) && ListsOnce(files, was) && |names| == |files| && HoldsListed(contents, names, |names|)
    requires forall i :: 0 <= i < |files| ==> WithoutSlash(names[i]) == Key(files[i])
    ensures contents.Keys == was.Keys
  {
    hide ListsOnce, Elements, WithoutSlash, Key;
    forall k ensures k in contents <==> k in was {
      if k in contents {
        var i :| 0 <= i < |names| && WithoutSlash(names[i]) == k;
        PackedIsHeld(was, files, i);
      }
      if k in was {
        HeldIsListed(files, was, k);
        var i :| 0 <= i < |files| && files[i] == was[k];
        assert WithoutSlash(names[i]) == k;
      }
    }
  }

  /** What the entry of file `i` holds, once it is read and decompressed */
  ghost function Content(s: Settings, c: Codec, items: seq<Item>, i: nat, beyond: byte, tail: seq<byte>): Option<seq<byte>>
    requires s.blockSize > 0 && s.tocEntrySize >= ENTRY_SIZE && Hashed(PackedItems(c, s.blockSize, items)) && i < |items|
  {
    var d := DataOfItem(s, c, items, i, beyond);
    if d.None? || |d.value.flags| > |d.value.sizes| then None
    else Decompressed(c, d.value.bytes, d.value.sizes, d.value.flags, tail)
  }

  /**
   An archive of LZMA files, packed and read again. If it can be written, if its paths can be listed
   and if its manifest comes back, then all its files are there again under their paths; and a file
   that is not empty has its content exactly if no block of it is compressed to other bytes of its
   own length.
   */
  method LzmaThereAndBack(archive: Archive, store: Store, t: PathType, s: Settings, coder: LzmaBlocks.Coder, beyond: byte, tail: seq<byte>)
    returns (out: ContainerWriter.OutputHandle, ok: bool, back: Archive, files: seq<File>)
    requires archive.Valid() && store.Valid() && s.blockSize > 0 && s.tocEntrySize >= ENTRY_SIZE
    requires UsualCoder(coder) && s.compression == Lzma
    ensures fresh(back) && back.Valid() && ListsOnce(files, archive.contents) && ListsFiles(out.data, s, store, t, files, LzmaBlocks.LzmaCodec(coder))
    ensures var c, items := LzmaBlocks.LzmaCodec(coder), WithManifest(ItemsOf(store, t, files));
            && Hashed(PackedItems(c, s.blockSize, items))
            && (Writable(s, c, items) && files != [] && Listable(archive.contents, t)
                && FileContents.Harmless(c, items[0].content, s.blockSize) ==>
                  && ok && Restocked(back.contents, archive.contents, files, t)
                  && ListedIn(out.data, c, beyond, tail) == Some(PathsOf(t, files))
                  && forall i :: 0 <= i < |files| && store.bytes(files[i].content) != [] ==>
                       (Content(s, c, items, i + 1, beyond, tail) == Some(store.bytes(files[i].content)) <==>
                        FileContents.Harmless(c, store.bytes(files[i].content), s.blockSize)))
  {
    hide Archive.Valid, ListsOnce, Writable, Listable, Container.Archive, Restocked, FileContents.Harmless, LzmaBlocks.LzmaCodec;
    hide ListsFiles, Content, ListedIn, Listing, Addable;
    var c := LzmaBlocks.LzmaCodec(coder);
    out, files := Downsync(archive, store, t, s, c);
    var endpoint := new Upsync.InputHandle(out.data);
    back := new Archive();
    ok := Reload(endpoint, back, c, beyond, tail);
    ItemsAreHashed(store, t, files, c, s.blockSize);
    ghost var items := WithManifest(ItemsOf(store, t, files));
    if Writable(s, c, items) && files != [] && Listable(archive.contents, t) && FileContents.Harmless(c, items[0].content, s.blockSize) {
      ValidIsKeyed(archive);
      ghost var names := FilesComeBack(archive.contents, store, t, files, s, coder, beyond, tail);
      forall i | 0 <= i < |files| && store.bytes(files[i].content) != []
        ensures Content(s, c, items, i + 1, beyond, tail) == Some(store.bytes(files[i].content)) <==>
                FileContents.Harmless(c, store.bytes(files[i].content), s.blockSize)
      {
        ContentComesBack(s, coder, items, i + 1, beyond, tail);
      }
    }
  }

  lemma ValidIsKeyed(archive: Archive)
    requires archive.Valid()
    ensures Keyed(archive.contents)
  {
  }

  /** The files are listed again. */
  lemma FilesComeBack(contents: Contents, store: Store, t: PathType, files: seq<File>, s: Settings, coder: LzmaBlocks.Coder,
                      beyond: byte, tail: seq<byte>) returns (names: seq<seq<byte>>)
    requires Keyed(contents) && ListsOnce(files, contents) && Listable(contents, t) && files != []
    requires UsualCoder(coder) && s.compression == Lzma && s.blockSize > 0 && s.tocEntrySize >= ENTRY_SIZE
    requires var c, items := LzmaBlocks.LzmaCodec(coder), WithManifest(ItemsOf(store, t, files));
             Writable(s, c, items) && FileContents.Harmless(c, items[0].content, s.blockSize)
    ensures var c, items := LzmaBlocks.LzmaCodec(coder), WithManifest(ItemsOf(store, t, files));
            && Hashed(PackedItems(c, s.blockSize, items))
            && ListedIn(Container.Archive(s, PackedItems(c, s.blockSize, items)), c, beyond, tail) == Some(names)
    ensures Addable(names) == |names| && Restocked(Listing(names, |names|), contents, files, t)
    ensures names == PathsOf(t, files)
  {
    hide Keyed, ListsOnce, Writable, Listable, Container.Archive, Restocked, FileContents.Harmless, LzmaBlocks.LzmaCodec;
    hide DataFrom, Decompressed, ListedIn, Listing, Addable, Manifest.Joined, Manifest.Plain, Manifest.Lines, Different, ItemsOf;
    hide FileContents.LzmaReread, NoEqualSize, InBlocks, Faithful;
    var c, items := LzmaBlocks.LzmaCodec(coder), WithManifest(ItemsOf(store, t, files));
    names := Names(ItemsOf(store, t, files));
    NamesAreGood(contents, store, t, files);
    Manifest.ManifestRoundTrip(names);
    NotNothing(names);
    assert items[1..] == ItemsOf(store, t, files);
    LzmaBlocks.LzmaIsFaithful(coder);
    LzmaArchiveRoundTrip(s, coder, items, 0, beyond, tail);
    ManifestIsRead(s, c, items, beyond, tail);
    ListingRestocks(contents, store, t, files);
  }

  /** The content of a file */
  lemma ContentComesBack(s: Settings, coder: LzmaBlocks.Coder, items: seq<Item>, i: nat, beyond: byte, tail: seq<byte>)
    requires UsualCoder(coder) && s.compression == Lzma && Writable(s, LzmaBlocks.LzmaCodec(coder), items)
    requires i < |items| && items[i].content != []
    ensures s.tocEntrySize >= ENTRY_SIZE && Hashed(PackedItems(LzmaBlocks.LzmaCodec(coder), s.blockSize, items))
    ensures Content(s, LzmaBlocks.LzmaCodec(coder), items, i, beyond, tail) == Some(items[i].content) <==>
            FileContents.Harmless(LzmaBlocks.LzmaCodec(coder), items[i].content, s.blockSize)
  {
    hide FileContents.Harmless, LzmaBlocks.LzmaCodec, DataFrom, Decompressed, InBlocks, FileContents.LzmaReread;
    LzmaArchiveRoundTrip(s, coder, items, i, beyond, tail);
  }
}
