/** The tree of directories of an archive, as a map from paths to files. */
module ArchiveTree {

  import opened Bytes
  import opened BlockFraming
  import opened Paths

  datatype File = File(path: seq<byte>, content: int)

  datatype Directory = Directory(name: Name, subs: seq<Directory>, files: seq<File>)

  /** The first file with this path, or the number of files. */
  function FileAt(files: seq<File>, rel: seq<byte>): (k: nat)
    ensures k <= |files|
    ensures k < |files| ==> WithoutSlash(files[k].path) == rel
    ensures forall i :: 0 <= i < k ==> WithoutSlash(files[i].path) != rel
  {
    if files == [] || WithoutSlash(files[0].path) == rel then 0 else 1 + FileAt(files[1..], rel)
  }

  /** The first directory with this name, or the number of directories. */
  function DirAt(subs: seq<Directory>, name: Name): (k: nat)
    ensures k <= |subs|
    ensures k < |subs| ==> subs[k].name == name
    ensures forall i :: 0 <= i < k ==> subs[i].name != name
  {
    if subs == [] || subs[0].name == name then 0 else 1 + DirAt(subs[1..], name)
  }

  /** The walk of `Archive::AddFile`: directories are made where there are none. */
  function Inserted(d: Directory, parts: seq<Name>, file: File): (r: Directory)
    requires parts != []
    ensures r.name == d.name
    decreases |parts|
  {
    if |parts| == 1 then
      var k := FileAt(d.files, WithoutSlash(file.path));
      d.(files := if k < |d.files| then d.files[k := file] else d.files + [file])
    else
      var k := DirAt(d.subs, parts[0]);
      if k < |d.subs| then d.(subs := d.subs[k := Inserted(d.subs[k], parts[1..], file)])
      else d.(subs := d.subs + [Inserted(Directory(parts[0], [], []), parts[1..], file)])
  }

  /** The first file whose path in form `t` is `key` */
  function FileNamed(files: seq<File>, key: seq<byte>, t: PathType): (k: nat)
    ensures k <= |files|
  {
    if files == [] || PathString(files[0].path, t) == key then 0 else 1 + FileNamed(files[1..], key, t)
  }

  /** The walk of `Archive::FindFile`: down by the elements of the name, then by the whole path. */
  function Searched(d: Directory, parts: seq<Name>, key: seq<byte>, t: PathType): Option<File>
    requires parts != []
    decreases |parts|
  {
    if |parts| == 1 then
      var k := FileNamed(d.files, key, t);
      if k < |d.files| then Some(d.files[k]) else None
    else
      var k := DirAt(d.subs, parts[0]);
      if k < |d.subs| then Searched(d.subs[k], parts[1..], key, t) else None
  }

  lemma {:induction false} NamedIsAt(files: seq<File>, name: seq<byte>, t: PathType)
    requires WithoutSlash(name) != []
    ensures FileNamed(files, PathString(name, t), t) == FileAt(files, WithoutSlash(name))
  {
    if files != [] {
      FormsAgree(files[0].path, name, t);
      NamedIsAt(files[1..], name, t);
    }
  }

  /** The form in which paths are compared makes no difference. */
  lemma {:induction false} SearchedIsFound(d: Directory, parts: seq<Name>, name: seq<byte>, t: PathType)
    requires parts != [] && WithoutSlash(name) != []
    ensures Searched(d, parts, PathString(name, t), t) == Found(d, parts, WithoutSlash(name))
    decreases |parts|
  {
    hide PathString, WithoutSlash;
    if |parts| == 1 {
      NamedIsAt(d.files, name, t);
    } else {
      var k := DirAt(d.subs, parts[0]);
      if k < |d.subs| {
        SearchedIsFound(d.subs[k], parts[1..], name, t);
      }
    }
  }

  /** The file with a path, whatever form it is compared in */
  function Found(d: Directory, parts: seq<Name>, rel: seq<byte>): Option<File>
    requires parts != []
    decreases |parts|
  {
    if |parts| == 1 then
      var k := FileAt(d.files, rel);
      if k < |d.files| then Some(d.files[k]) else None
    else
      var k := DirAt(d.subs, parts[0]);
      if k < |d.subs| then Found(d.subs[k], parts[1..], rel) else None
  }

  lemma FoundFirst(files: seq<File>, rel: seq<byte>, k: nat)
    requires k <= |files| && (k < |files| ==> WithoutSlash(files[k].path) == rel)
    requires forall i :: 0 <= i < k ==> WithoutSlash(files[i].path) != rel
    ensures FileAt(files, rel) == k
  {
  }

  lemma FirstDir(subs: seq<Directory>, name: Name, k: nat)
    requires k <= |subs| && (k < |subs| ==> subs[k].name == name)
    requires forall i :: 0 <= i < k ==> subs[i].name != name
    ensures DirAt(subs, name) == k
  {
  }

  /** After a file was added it is found, and every other file is found as before. */
  lemma {:induction false} InsertedIsFound(d: Directory, parts: seq<Name>, file: File, parts1: seq<Name>, rel1: seq<byte>)
    requires parts != [] && parts1 != []
    requires WithoutSlash(file.path) == rel1 ==> parts == parts1
    ensures Found(Inserted(d, parts, file), parts1, rel1) ==
            if WithoutSlash(file.path) == rel1 then Some(file) else Found(d, parts1, rel1)
    decreases |parts|
  {
    var r := Inserted(d, parts, file);
    if |parts| == 1 {
      if |parts1| == 1 {
        var k, k1 := FileAt(d.files, WithoutSlash(file.path)), FileAt(d.files, rel1);
        FoundFirst(r.files, rel1, if WithoutSlash(file.path) == rel1 then k else if k1 < |d.files| then k1 else |r.files|);
      }
    } else if |parts1| > 1 {
      var k, k1 := DirAt(d.subs, parts[0]), DirAt(d.subs, parts1[0]);
      if parts1[0] == parts[0] {
        FirstDir(r.subs, parts1[0], k);
        assert parts == [parts[0]] + parts[1..] && parts1 == [parts1[0]] + parts1[1..];
        InsertedIsFound(if k < |d.subs| then d.subs[k] else Directory(parts[0], [], []), parts[1..], file, parts1[1..], rel1);
        if k == |d.subs| {
          NothingInNew(parts[0], parts1[1..], rel1);
        }
      } else {
        FirstDir(r.subs, parts1[0], if k1 < |d.subs| then k1 else |r.subs|);
      }
    }
  }

  lemma NothingInNew(name: Name, parts: seq<Name>, rel: seq<byte>)
    requires parts != []
    ensures Found(Directory(name, [], []), parts, rel) == None
  {
  }

  // ---------- All files of a tree ----------

  /** The files of a directory and of its first `n` subdirectories, and of those below them. */
  function FilesUpTo(d: Directory, n: nat): multiset<File>
    requires n <= |d.subs|
    decreases d, n
  {
    if n == 0 then multiset(d.files) else FilesUpTo(d, n - 1) + TreeFiles(d.subs[n - 1])
  }

  function TreeFiles(d: Directory): multiset<File>
    decreases d, |d.subs| + 1
  {
    FilesUpTo(d, |d.subs|)
  }

  lemma {:induction false} UpToSame(d: Directory, e: Directory, n: nat)
    requires n <= |d.subs| && n <= |e.subs| && multiset(d.files) == multiset(e.files) && d.subs[..n] == e.subs[..n]
    ensures FilesUpTo(d, n) == FilesUpTo(e, n)
  {
    if n > 0 {
      assert d.subs[..n][..n - 1] == d.subs[..n - 1] && e.subs[..n][..n - 1] == e.subs[..n - 1];
      assert d.subs[n - 1] == d.subs[..n][n - 1] == e.subs[..n][n - 1];
      UpToSame(d, e, n - 1);
    }
  }

  /** Another file among the files of the directory itself. */
  lemma {:induction false} UpToFiles(d: Directory, e: Directory, n: nat, out: multiset<File>, into: multiset<File>)
    requires e.subs == d.subs && n <= |d.subs| && out <= multiset(d.files)
    requires multiset(e.files) == multiset(d.files) - out + into
    ensures out <= FilesUpTo(d, n) && FilesUpTo(e, n) == FilesUpTo(d, n) - out + into
  {
    if n > 0 {
      UpToFiles(d, e, n - 1, out, into);
    }
  }

  /** Another tree in place of subdirectory `k`. */
  lemma {:induction false} UpToSub(d: Directory, e: Directory, n: nat, k: nat, out: multiset<File>, into: multiset<File>)
    requires k < n <= |d.subs| == |e.subs| && e.files == d.files && e.subs == d.subs[k := e.subs[k]]
    requires out <= TreeFiles(d.subs[k]) && TreeFiles(e.subs[k]) == TreeFiles(d.subs[k]) - out + into
    ensures out <= FilesUpTo(d, n) && FilesUpTo(e, n) == FilesUpTo(d, n) - out + into
    decreases n
  {
    hide TreeFiles;
    if k == n - 1 {
      UpToSame(d, e, k);
    } else {
      UpToSub(d, e, n - 1, k, out, into);
      assert e.subs[n - 1] == d.subs[n - 1];
    }
  }

  function Held(f: Option<File>): multiset<File> {
    if f.Some? then multiset{f.value} else multiset{}
  }

  lemma ReplacedFile(files: seq<File>, k: nat, file: File)
    requires k <= |files|
    ensures var out := if k < |files| then multiset{files[k]} else multiset{};
            var r := if k < |files| then files[k := file] else files + [file];
            out <= multiset(files) && multiset(r) == multiset(files) - out + multiset{file}
  {
  }

  /** Adding a file takes the place of the one that was found under its path, and of no other. */
  lemma {:induction false} InsertedFiles(d: Directory, parts: seq<Name>, file: File)
    requires parts != []
    ensures var was := Held(Found(d, parts, WithoutSlash(file.path)));
            was <= TreeFiles(d) && TreeFiles(Inserted(d, parts, file)) == TreeFiles(d) - was + multiset{file}
    decreases |parts|
  {
    var r, rel := Inserted(d, parts, file), WithoutSlash(file.path);
    var was := Held(Found(d, parts, rel));
    if |parts| == 1 {
      ReplacedFile(d.files, FileAt(d.files, rel), file);
      UpToFiles(d, r, |d.subs|, was, multiset{file});
    } else {
      var k := DirAt(d.subs, parts[0]);
      if k < |d.subs| {
        InsertedFiles(d.subs[k], parts[1..], file);
        hide Found;
        UpToSub(d, r, |d.subs|, k, Held(Found(d.subs[k], parts[1..], rel)), multiset{file});
      } else {
        var new0 := Directory(parts[0], [], []);
        NothingInNew(parts[0], parts[1..], rel);
        InsertedFiles(new0, parts[1..], file);
        assert TreeFiles(new0) == multiset{};
        UpToSame(d, r, |d.subs|);
        assert r.subs[..|d.subs|] == d.subs;
        assert TreeFiles(r) == FilesUpTo(r, |d.subs|) + TreeFiles(r.subs[|d.subs|]);
      }
    }
  }

  // ---------- No directory without a file ----------

  ghost predicate Populated(d: Directory)
    decreases d
  {
    forall i :: 0 <= i < |d.subs| ==> TreeFiles(d.subs[i]) != multiset{} && Populated(d.subs[i])
  }

  lemma PopulatedWith(d: Directory, k: nat, sub: Directory)
    requires Populated(d) && k <= |d.subs| && TreeFiles(sub) != multiset{} && Populated(sub)
    ensures Populated(d.(subs := if k < |d.subs| then d.subs[k := sub] else d.subs + [sub]))
  {
    hide TreeFiles;
  }

  lemma {:induction false} InsertedPopulated(d: Directory, parts: seq<Name>, file: File)
    requires parts != [] && Populated(d)
    ensures Populated(Inserted(d, parts, file))
    decreases |parts|
  {
    hide TreeFiles, Found, FileAt, DirAt;
    if |parts| > 1 {
      var k := DirAt(d.subs, parts[0]);
      var sub := if k < |d.subs| then d.subs[k] else Directory(parts[0], [], []);
      InsertedPopulated(sub, parts[1..], file);
      InsertedFiles(sub, parts[1..], file);
      var sub1 := Inserted(sub, parts[1..], file);
      assert file in TreeFiles(sub1);
      PopulatedWith(d, k, sub1);
    }
  }
}
