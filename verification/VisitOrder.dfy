/** Where a file that is added goes, and in which order the files of an archive are visited. */
module VisitOrder {

  import opened Paths
  import opened ArchiveTree
  import opened ArchiveClass

  // ---------- Level by level ----------

  /** The files of these directories, one directory after the other */
  function FilesOf(level: seq<Directory>): seq<File> {
    if level == [] then [] else level[0].files + FilesOf(level[1..])
  }

  /** The directories right below these */
  function SubsOf(level: seq<Directory>): seq<Directory> {
    if level == [] then [] else level[0].subs + SubsOf(level[1..])
  }

  lemma {:induction false} LevelFirst(a: seq<Directory>, b: seq<Directory>)
    ensures Breadth(a + b) == FilesOf(a) + Breadth(b + SubsOf(a))
    decreases |a|
  {
    hide QueueSize;
    if a == [] {
      assert a + b == b && b + SubsOf(a) == b;
    } else {
      var d, rest := a[0], a[1..];
      LevelFirst(rest, b + d.subs);
      assert (a + b)[1..] + d.subs == rest + (b + d.subs);
      assert b + d.subs + SubsOf(rest) == b + (d.subs + SubsOf(rest));
      assert d.files + (FilesOf(rest) + Breadth(b + SubsOf(a))) == d.files + FilesOf(rest) + Breadth(b + SubsOf(a));
      assert (a + b)[0] == d;
    }
  }

  /** The files are visited level by level: all of a level, in the order of its directories, before any below. */
  lemma LevelByLevel(level: seq<Directory>)
    ensures Breadth(level) == FilesOf(level) + Breadth(SubsOf(level))
  {
    hide Breadth, FilesOf, SubsOf;
    LevelFirst(level, []);
    assert level + [] == level && [] + SubsOf(level) == SubsOf(level);
  }

  // ---------- Adding a file ----------

  /** The files of the directory that these names lead to, in their order */
  function FilesAt(d: Directory, names: seq<Name>): seq<File>
    decreases |names|
  {
    if names == [] then d.files
    else
      var k := DirAt(d.subs, names[0]);
      if k < |d.subs| then FilesAt(d.subs[k], names[1..]) else []
  }

  function NamesIn(subs: seq<Directory>): (names: seq<Name>)
    ensures |names| == |subs| && forall i :: 0 <= i < |subs| ==> names[i] == subs[i].name
  {
    seq(|subs|, i requires 0 <= i < |subs| => subs[i].name)
  }

  /** The names of the directories right below the one that these names lead to, in their order */
  function NamesAt(d: Directory, names: seq<Name>): seq<Name>
    decreases |names|
  {
    if names == [] then NamesIn(d.subs)
    else
      var k := DirAt(d.subs, names[0]);
      if k < |d.subs| then NamesAt(d.subs[k], names[1..]) else []
  }

  /** The file is there in place of one with the same path, or behind the others if there is none. */
  ghost predicate PutAmong(was: seq<File>, now: seq<File>, file: File) {
    if forall i :: 0 <= i < |was| ==> WithoutSlash(was[i].path) != WithoutSlash(file.path) then now == was + [file]
    else exists k :: 0 <= k < |was| && TakesPlace(was, now, file, k)
  }

  ghost predicate TakesPlace(was: seq<File>, now: seq<File>, file: File, k: nat) {
    k < |was| && WithoutSlash(was[k].path) == WithoutSlash(file.path) && now == was[k := file]
  }

  lemma PutWhereFound(files: seq<File>, file: File)
    ensures var k := FileAt(files, WithoutSlash(file.path));
            PutAmong(files, if k < |files| then files[k := file] else files + [file], file)
  {
    hide WithoutSlash;
    var k := FileAt(files, WithoutSlash(file.path));
    assert k < |files| ==> TakesPlace(files, files[k := file], file, k);
  }

  /** What one step down finds after the directory number `k` was replaced, or one was added behind the others */
  lemma DirAfter(subs: seq<Directory>, part: Name, sub: Directory, name: Name)
    requires sub.name == part
    ensures var k := DirAt(subs, part);
            var r := if k < |subs| then subs[k := sub] else subs + [sub];
            if name == part then DirAt(r, name) == k < |r| && r[k] == sub
            else if DirAt(subs, name) < |subs| then DirAt(r, name) == DirAt(subs, name) && r[DirAt(r, name)] == subs[DirAt(subs, name)]
            else DirAt(r, name) == |r|
  {
    var k, j := DirAt(subs, part), DirAt(subs, name);
    var r := if k < |subs| then subs[k := sub] else subs + [sub];
    FirstDir(r, name, if name == part then k else if j < |subs| then j else |r|);
  }

  lemma NothingBelow(name: Name, names: seq<Name>)
    ensures FilesAt(Directory(name, [], []), names) == [] && NamesAt(Directory(name, [], []), names) == []
  {
  }

  /**
   A file goes into the directory that its path leads to, in place of the file with the same path or behind
   the others; no other directory changes its files.
   */
  lemma {:induction false} FileGoes(d: Directory, parts: seq<Name>, file: File, names: seq<Name>)
    requires parts != []
    ensures if names == parts[..|parts| - 1] then PutAmong(FilesAt(d, names), FilesAt(Inserted(d, parts, file), names), file)
            else FilesAt(Inserted(d, parts, file), names) == FilesAt(d, names)
    decreases |parts|
  {
    hide PutAmong, DirAt, FileAt, WithoutSlash;
    if |parts| == 1 {
      PutWhereFound(d.files, file);
    } else if names != [] {
      var k := DirAt(d.subs, parts[0]);
      var sub := if k < |d.subs| then d.subs[k] else Directory(parts[0], [], []);
      DirAfter(d.subs, parts[0], Inserted(sub, parts[1..], file), names[0]);
      if names[0] == parts[0] {
        FileGoes(sub, parts[1..], file, names[1..]);
        NothingBelow(parts[0], names[1..]);
        assert parts[1..][..|parts| - 2] == parts[..|parts| - 1][1..];
        assert names == [names[0]] + names[1..] && parts[..|parts| - 1] == [parts[0]] + parts[..|parts| - 1][1..];
      }
    }
  }

  /** A directory that is missing on the way is made behind the others; no other directory is made, and none is moved. */
  lemma {:induction false} DirectoryGoes(d: Directory, parts: seq<Name>, file: File, names: seq<Name>)
    requires parts != []
    ensures NamesAt(Inserted(d, parts, file), names) ==
            NamesAt(d, names) + (if IsMissing(d, parts, names) then [parts[|names|]] else [])
    decreases |parts|
  {
    hide FileAt, WithoutSlash;
    var r := Inserted(d, parts, file);
    if |parts| == 1 {
      assert NamesAt(r, names) == NamesAt(d, names);
    } else {
      var k := DirAt(d.subs, parts[0]);
      var sub := if k < |d.subs| then d.subs[k] else Directory(parts[0], [], []);
      if names == [] {
        assert k < |d.subs| ==> NamesIn(d.subs)[k] == parts[0];
        assert NamesIn(r.subs) == NamesIn(d.subs) + (if k < |d.subs| then [] else [parts[0]]);
      } else {
        DirAfter(d.subs, parts[0], Inserted(sub, parts[1..], file), names[0]);
        if names[0] == parts[0] {
          DirectoryGoes(sub, parts[1..], file, names[1..]);
          NothingBelow(parts[0], names[1..]);
          MissingBelow(d, sub, parts, names);
        }
      }
    }
  }

  /** The way of the file goes through this directory to one that is not there. */
  ghost predicate IsMissing(d: Directory, parts: seq<Name>, names: seq<Name>) {
    |names| + 1 < |parts| && names == parts[..|names|] && parts[|names|] !in NamesAt(d, names)
  }

  lemma MissingBelow(d: Directory, sub: Directory, parts: seq<Name>, names: seq<Name>)
    requires names != [] && |parts| > 1 && names[0] == parts[0]
    requires var k := DirAt(d.subs, parts[0]); if k < |d.subs| then sub == d.subs[k] else sub == Directory(parts[0], [], [])
    ensures NamesAt(sub, names[1..]) == NamesAt(d, names)
    ensures IsMissing(d, parts, names) <==> IsMissing(sub, parts[1..], names[1..])
    ensures |names| < |parts| ==> parts[1..][|names| - 1] == parts[|names|]
  {
    NothingBelow(parts[0], names[1..]);
    if |names| < |parts| {
      assert names == [names[0]] + names[1..] && parts[..|names|] == [parts[0]] + parts[1..][..|names| - 1];
    }
  }
}
