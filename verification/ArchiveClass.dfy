/** `Archive`: adding and finding files, and visiting all of them with its iterator. */
module ArchiveClass {

  import opened Bytes
  import opened BlockFraming
  import opened Paths
  import opened ArchiveTree

  // ---------- The order of the iterator ----------

  function SizeUpTo(d: Directory, n: nat): (r: nat)
    requires n <= |d.subs|
    ensures r > 0
    decreases d, n
  {
    if n == 0 then 1 else SizeUpTo(d, n - 1) + Size(d.subs[n - 1])
  }

  /** The number of directories of a tree */
  function Size(d: Directory): (n: nat)
    ensures n > 0
    decreases d, |d.subs| + 1
  {
    SizeUpTo(d, |d.subs|)
  }

  function QueueSize(queue: seq<Directory>): nat {
    if queue == [] then 0 else Size(queue[0]) + QueueSize(queue[1..])
  }

  lemma {:induction false} QueueJoins(a: seq<Directory>, b: seq<Directory>)
    ensures QueueSize(a + b) == QueueSize(a) + QueueSize(b)
  {
    if a == [] {
      assert a + b == b;
    } else {
      assert (a + b)[1..] == a[1..] + b;
      QueueJoins(a[1..], b);
    }
  }

  lemma {:induction false} SubsSize(d: Directory, n: nat)
    requires n <= |d.subs|
    ensures SizeUpTo(d, n) == 1 + QueueSize(d.subs[..n])
  {
    if n > 0 {
      SubsSize(d, n - 1);
      var last := [d.subs[n - 1]];
      assert d.subs[..n] == d.subs[..n - 1] + last;
      QueueJoins(d.subs[..n - 1], last);
      assert last[1..] == [];
    }
  }

  lemma QueueShrinks(queue: seq<Directory>)
    requires queue != []
    ensures QueueSize(queue[1..] + queue[0].subs) < QueueSize(queue)
  {
    QueueJoins(queue[1..], queue[0].subs);
    SubsSize(queue[0], |queue[0].subs|);
    assert queue[0].subs[..|queue[0].subs|] == queue[0].subs;
  }

  /** The files of the directories in a queue, each directory adding its own to the end of the queue. */
  function Breadth(queue: seq<Directory>): seq<File>
    decreases QueueSize(queue)
  {
    if queue == [] then []
    else
      QueueShrinks(queue);
      queue[0].files + Breadth(queue[1..] + queue[0].subs)
  }

  function QueueFiles(queue: seq<Directory>): multiset<File> {
    if queue == [] then multiset{} else TreeFiles(queue[0]) + QueueFiles(queue[1..])
  }

  lemma {:induction false} QueueFilesJoin(a: seq<Directory>, b: seq<Directory>)
    ensures QueueFiles(a + b) == QueueFiles(a) + QueueFiles(b)
  {
    if a == [] {
      assert a + b == b;
    } else {
      assert (a + b)[1..] == a[1..] + b;
      QueueFilesJoin(a[1..], b);
    }
  }

  lemma {:induction false} SubsFiles(d: Directory, n: nat)
    requires n <= |d.subs|
    ensures FilesUpTo(d, n) == multiset(d.files) + QueueFiles(d.subs[..n])
  {
    if n > 0 {
      SubsFiles(d, n - 1);
      var last := [d.subs[n - 1]];
      assert d.subs[..n] == d.subs[..n - 1] + last;
      QueueFilesJoin(d.subs[..n - 1], last);
      assert last[1..] == [];
    }
  }

  /** Breadth first, every file of the trees comes exactly once. */
  lemma {:induction false} BreadthHasAll(queue: seq<Directory>)
    ensures multiset(Breadth(queue)) == QueueFiles(queue)
    decreases QueueSize(queue)
  {
    hide TreeFiles;
    if queue != [] {
      var d, next := queue[0], queue[1..] + queue[0].subs;
      QueueShrinks(queue);
      BreadthHasAll(next);
      QueueFilesJoin(queue[1..], d.subs);
      TreeIsFilesAndSubs(d);
      assert Breadth(queue) == d.files + Breadth(next);
    }
  }

  lemma TreeIsFilesAndSubs(d: Directory)
    ensures TreeFiles(d) == multiset(d.files) + QueueFiles(d.subs)
  {
    SubsFiles(d, |d.subs|);
    assert d.subs[..|d.subs|] == d.subs;
  }

  ghost predicate AllPopulated(queue: seq<Directory>) {
    forall i :: 0 <= i < |queue| ==> TreeFiles(queue[i]) != multiset{} && Populated(queue[i])
  }

  lemma PopulatedIsVisited(queue: seq<Directory>)
    requires AllPopulated(queue) && queue != []
    ensures Breadth(queue) != [] && AllPopulated(queue[1..] + queue[0].subs)
  {
    hide TreeFiles;
    BreadthHasAll(queue);
    assert Populated(queue[0]);
    assert multiset(Breadth(queue)) == TreeFiles(queue[0]) + QueueFiles(queue[1..]);
    var f :| f in TreeFiles(queue[0]);
    assert f in multiset(Breadth(queue));
  }

  // ---------- What `operator++` pops ----------

  /** The directories up to the first one with files */
  function Popped(queue: seq<Directory>): (n: nat)
    ensures n <= |queue|
  {
    if queue == [] then 0 else if queue[0].files != [] then 1 else 1 + Popped(queue[1..])
  }

  function PoppedFiles(queue: seq<Directory>): seq<File> {
    if queue == [] then [] else if queue[0].files != [] then queue[0].files else PoppedFiles(queue[1..])
  }

  function SubsOf(queue: seq<Directory>): seq<Directory> {
    if queue == [] then [] else queue[0].subs + SubsOf(queue[1..])
  }

  function Rest(files: seq<File>): seq<File> {
    if files == [] then [] else files[1..]
  }

  function NextDirs(files: seq<File>, queue: seq<Directory>): seq<Directory> {
    if files != [] then queue else queue[Popped(queue)..]
  }

  function NextFiles(files: seq<File>, queue: seq<Directory>): seq<File> {
    Rest(if files != [] then files else PoppedFiles(queue))
  }

  /** The subdirectories of the directories that are popped */
  function LostDirs(files: seq<File>, queue: seq<Directory>): seq<Directory> {
    if files != [] then [] else SubsOf(queue[..Popped(queue)])
  }

  /** The file that is taken off, if there is one */
  function TakenOff(files: seq<File>, queue: seq<Directory>): multiset<File> {
    var all := if files != [] then files else PoppedFiles(queue);
    if all == [] then multiset{} else multiset{all[0]}
  }

  lemma {:induction false} PoppedBreadth(queue: seq<Directory>, more: seq<Directory>)
    ensures var n := Popped(queue);
            Breadth(queue + more) == PoppedFiles(queue) + Breadth(queue[n..] + more + SubsOf(queue[..n]))
    decreases |queue|
  {
    hide Breadth;
    var n := Popped(queue);
    if queue == [] {
      assert queue + more == queue[n..] + more + SubsOf(queue[..n]);
    } else {
      var d, rest := queue[0], queue[1..];
      assert (queue + more)[1..] == rest + more;
      BreadthStep(queue + more);
      assert queue[..n][1..] == rest[..n - 1] && queue[n..] == rest[n - 1..];
      if d.files != [] {
        assert rest[..0] == [] && SubsOf(queue[..1]) == d.subs + SubsOf([]) == d.subs;
      } else {
        PoppedBreadth(rest, more + d.subs);
        assert rest + more + d.subs == rest + (more + d.subs);
        assert rest[n - 1..] + (more + d.subs) + SubsOf(rest[..n - 1]) == queue[n..] + more + SubsOf(queue[..n]);
      }
    }
  }

  lemma BreadthStep(queue: seq<Directory>)
    requires queue != []
    ensures Breadth(queue) == queue[0].files + Breadth(queue[1..] + queue[0].subs)
  {
    QueueShrinks(queue);
  }

  lemma {:induction false} SubsPopulated(queue: seq<Directory>)
    requires AllPopulated(queue)
    ensures AllPopulated(SubsOf(queue))
  {
    hide TreeFiles;
    if queue != [] {
      SubsPopulated(queue[1..]);
      assert Populated(queue[0]);
    }
  }

  lemma PopulatedHasFiles(queue: seq<Directory>)
    requires AllPopulated(queue) && queue != []
    ensures QueueFiles(queue) != multiset{}
  {
    assert TreeFiles(queue[0]) <= QueueFiles(queue);
  }

  lemma AdvanceIs(files: seq<File>, queue: seq<Directory>)
    requires AllPopulated(queue)
    ensures var was := files + Breadth(queue);
            var left, lost := NextFiles(files, queue) + Breadth(NextDirs(files, queue)), LostDirs(files, queue);
            && AllPopulated(NextDirs(files, queue))
            && multiset(was) == multiset(left) + QueueFiles(lost) + TakenOff(files, queue)
            && (left == Rest(was) <==> lost == [] || (TakenOff(files, queue) == multiset{} && |was| == 1))
  {
    hide Breadth, QueueFiles, TreeFiles, Popped, PoppedFiles, SubsOf, AllPopulated;
    if files != [] {
      assert (files + Breadth(queue))[1..] == files[1..] + Breadth(queue);
      assert files == [files[0]] + files[1..];
      NoQueueFiles();
    } else {
      PoppedIs(queue);
    }
  }

  lemma NoQueueFiles()
    ensures QueueFiles([]) == multiset{} && Breadth([]) == []
  {
  }

  lemma PoppedIs(queue: seq<Directory>)
    requires AllPopulated(queue)
    ensures var n, first := Popped(queue), PoppedFiles(queue);
            var left, lost := Rest(first) + Breadth(queue[n..]), SubsOf(queue[..n]);
            && AllPopulated(queue[n..])
            && multiset(Breadth(queue)) ==
               multiset(left) + QueueFiles(lost) + (if first == [] then multiset{} else multiset{first[0]})
            && (left == Rest([] + Breadth(queue)) <==> lost == [] || (first == [] && |Breadth(queue)| == 1))
  {
    hide Breadth, QueueFiles, TreeFiles, Popped, PoppedFiles, SubsOf;
    var n, first := Popped(queue), PoppedFiles(queue);
    var behind, lost := queue[n..], SubsOf(queue[..n]);
    PoppedBreadth(queue, []);
    assert queue + [] == queue && behind + [] + lost == behind + lost;
    assert [] + Breadth(queue) == Breadth(queue);
    BreadthHasAll(behind);
    BreadthHasAll(behind + lost);
    QueueFilesJoin(behind, lost);
    SubsPopulated(queue[..n]);
    NothingPopped(queue);
    NoQueueFiles();
    WhatIsLeft(first, behind, lost);
    if first == [] {
      assert behind == [] && first + Breadth(behind + lost) == Breadth(behind + lost);
    }
  }

  /** The files left and the files lost, if `first` and everything behind come first. */
  lemma WhatIsLeft(first: seq<File>, behind: seq<Directory>, lost: seq<Directory>)
    requires AllPopulated(lost)
    ensures var was, left := first + Breadth(behind + lost), Rest(first) + Breadth(behind);
            && multiset(was) == multiset(left) + QueueFiles(lost) + (if first == [] then multiset{} else multiset{first[0]})
            && (first != [] ==> (left == Rest(was) <==> lost == []))
            && (first == [] && behind == [] ==> (left == Rest(was) <==> lost == [] || |was| == 1))
  {
    hide Breadth, QueueFiles, TreeFiles;
    var all, some := Breadth(behind + lost), Breadth(behind);
    BreadthHasAll(behind);
    BreadthHasAll(behind + lost);
    QueueFilesJoin(behind, lost);
    NoQueueFiles();
    assert multiset(all) == multiset(some) + QueueFiles(lost);
    if first != [] {
      assert first == [first[0]] + first[1..];
      assert (first + all)[1..] == first[1..] + all;
    } else {
      assert first + all == all && Rest(first) + some == some;
    }
    if lost == [] {
      assert behind + lost == behind;
    } else {
      PopulatedHasFiles(lost);
      SameLength(all, some, QueueFiles(lost));
    }
  }

  lemma SameLength(all: seq<File>, some: seq<File>, more: multiset<File>)
    requires multiset(all) == multiset(some) + more && more != multiset{}
    ensures |all| > |some|
  {
    assert |all| == |multiset(all)| && |some| == |multiset(some)|;
  }

  lemma {:induction false} NothingPopped(queue: seq<Directory>)
    ensures PoppedFiles(queue) == [] ==> Popped(queue) == |queue|
  {
    if queue != [] {
      NothingPopped(queue[1..]);
    }
  }

  /** The loop of `operator++` is on its way to the same end. */
  ghost predicate PopsTo(files: seq<File>, queue: seq<Directory>, files1: seq<File>, queue1: seq<Directory>) {
    && NextDirs(files1, queue1) == NextDirs(files, queue)
    && NextFiles(files1, queue1) == NextFiles(files, queue)
  }

  lemma PopsFurther(files: seq<File>, queue: seq<Directory>, files1: seq<File>, queue1: seq<Directory>)
    requires PopsTo(files, queue, files1, queue1) && files1 == [] && queue1 != []
    ensures PopsTo(files, queue, files1 + queue1[0].files, queue1[1..])
  {
    assert [] + queue1[0].files == queue1[0].files;
  }

  lemma PopsEnd(files: seq<File>, queue: seq<Directory>, files1: seq<File>, queue1: seq<Directory>)
    requires PopsTo(files, queue, files1, queue1) && (files1 != [] || queue1 == [])
    ensures queue1 == NextDirs(files, queue) && Rest(files1) == NextFiles(files, queue)
  {
  }

  // ---------- The iterator ----------

  /** `Archive::Iterator` */
  class Iterator {
    var dirQueue: seq<Directory>
    var fileQueue: seq<File>

    ghost function Remaining(): seq<File>
      reads this
    {
      fileQueue + Breadth(dirQueue)
    }

    ghost predicate Valid()
      reads this
    {
      AllPopulated(dirQueue)
    }

    constructor (root: Directory, manifest: Option<File>)
      requires Populated(root)
      ensures Valid() && dirQueue == root.subs && fileQueue == (if manifest.Some? then [manifest.value] else []) + root.files
      ensures Remaining() == (if manifest.Some? then [manifest.value] else []) + Breadth([root])
    {
      dirQueue := root.subs;
      fileQueue := (if manifest.Some? then [manifest.value] else []) + root.files;
      assert [root][1..] + root.subs == root.subs;
      assert Breadth([root]) == root.files + Breadth(root.subs);
    }

    /** `operator==` against the end: both queues are empty, and so nothing is left. */
    method AtEnd() returns (end: bool)
      requires Valid()
      ensures end <==> Remaining() == []
    {
      end := dirQueue == [] && fileQueue == [];
      if dirQueue != [] {
        PopulatedIsVisited(dirQueue);
      }
    }

    /** `operator*`: null exactly at the end; what is left does not change. */
    method Current() returns (f: Option<File>)
      requires Valid()
      modifies this
      ensures Valid() && Remaining() == old(Remaining())
      ensures f == if Remaining() == [] then None else Some(Remaining()[0])
      ensures fileQueue == [] ==> dirQueue == []
    {
      while fileQueue == [] && dirQueue != []
        invariant Valid() && Remaining() == old(Remaining())
        decreases QueueSize(dirQueue)
      {
        var dir := dirQueue[0];
        PopulatedIsVisited(dirQueue);
        QueueShrinks(dirQueue);
        assert Breadth(dirQueue) == dir.files + Breadth(dirQueue[1..] + dir.subs);
        dirQueue := dirQueue[1..] + dir.subs;
        fileQueue := fileQueue + dir.files;
      }
      if fileQueue == [] {
        return None;
      }
      return Some(fileQueue[0]);
    }

    /**
     `operator++`. Its own loop does not queue subdirectories. What it loses besides the file it
     takes off are the files below the directories it pops, and it goes to the next file exactly if
     there are none, or if it only drops the last file. After `operator*` nothing is popped.
     */
    method Advance()
      requires Valid()
      modifies this
      ensures Valid()
      ensures dirQueue == NextDirs(old(fileQueue), old(dirQueue)) && fileQueue == NextFiles(old(fileQueue), old(dirQueue))
      ensures var lost := LostDirs(old(fileQueue), old(dirQueue));
              && multiset(old(Remaining())) ==
                 multiset(Remaining()) + QueueFiles(lost) + TakenOff(old(fileQueue), old(dirQueue))
              && (Remaining() == Rest(old(Remaining())) <==>
                  lost == [] || (TakenOff(old(fileQueue), old(dirQueue)) == multiset{} && |old(Remaining())| == 1))
    {
      hide Popped, PoppedFiles, SubsOf, Breadth, QueueFiles, TreeFiles;
      AdvanceIs(fileQueue, dirQueue);
      ghost var n := Popped(dirQueue);
      while fileQueue == [] && dirQueue != []
        invariant PopsTo(old(fileQueue), old(dirQueue), fileQueue, dirQueue)
        decreases |dirQueue|
      {
        var dir := dirQueue[0];
        PopsFurther(old(fileQueue), old(dirQueue), fileQueue, dirQueue);
        dirQueue := dirQueue[1..];
        fileQueue := fileQueue + dir.files;
      }
      PopsEnd(old(fileQueue), old(dirQueue), fileQueue, dirQueue);
      if fileQueue != [] {
        fileQueue := fileQueue[1..];
      }
    }
  }

  /** A directory with a file, and below it a directory with another file */
  function TwoLevels(f: File, g: File): Directory {
    Directory([], [Upper(f, g)], [])
  }

  function Upper(f: File, g: File): Directory {
    Directory([0x61], [Lower(g)], [f])
  }

  function Lower(g: File): Directory {
    Directory([0x62], [], [g])
  }

  lemma TwoLevelsPopulated(f: File, g: File)
    ensures Populated(TwoLevels(f, g))
  {
    var root, upper, lower := TwoLevels(f, g), Upper(f, g), Lower(g);
    TreeIsFilesAndSubs(upper);
    TreeIsFilesAndSubs(lower);
    hide TreeFiles;
    assert f in TreeFiles(upper) && g in TreeFiles(lower);
    assert Populated(lower);
    assert upper.subs[0] == lower && Populated(upper);
    assert root.subs[0] == upper;
  }

  lemma TwoLevelsIs(f: File, g: File)
    ensures Breadth([TwoLevels(f, g)]) == [f, g]
    ensures Breadth([Upper(f, g)]) == [f, g] && LostDirs([], [Upper(f, g)]) == [Lower(g)]
    ensures NextFiles([], [Upper(f, g)]) == [] && NextDirs([], [Upper(f, g)]) == []
  {
    hide Breadth;
    var root, upper, lower := TwoLevels(f, g), Upper(f, g), Lower(g);
    BreadthStep([lower]);
    NoQueueFiles();
    assert [lower][1..] + lower.subs == [] && [g] + [] == [g];
    BreadthStep([upper]);
    assert [upper][1..] + upper.subs == [lower] && [f] + [g] == [f, g];
    BreadthStep([root]);
    assert [root][1..] + root.subs == [upper] && [] + [f, g] == [f, g];
    assert [upper][..1] == [upper] && SubsOf([upper]) == [lower] + SubsOf([]) == [lower];
  }

  /** Stepping without looking: the file below is lost with the one that is taken off. */
  method StepWithoutLooking(f: File, g: File) returns (it: Iterator)
    ensures fresh(it) && it.Valid() && Breadth([TwoLevels(f, g)]) == [f, g] && it.Remaining() == []
  {
    hide Breadth, Populated;
    TwoLevelsPopulated(f, g);
    TwoLevelsIs(f, g);
    NoQueueFiles();
    it := new Iterator(TwoLevels(f, g), None);
    it.Advance();
  }

  // ---------- The archive ----------

  const MANIFEST: seq<byte> := [0x50, 0x53, 0x41, 0x72, 0x63, 0x4D, 0x61, 0x6E, 0x69, 0x66, 0x65, 0x73, 0x74, 0x2E, 0x62, 0x69, 0x6E]

  lemma ManifestName()
    ensures |MANIFEST| == |"PSArcManifest.bin"| && forall i :: 0 <= i < |MANIFEST| ==> MANIFEST[i] as int == "PSArcManifest.bin"[i] as int
  {
  }

  /** Files by their relative path, as a string: other spellings of a path are other files. */
  type Contents = map<seq<byte>, File>

  function Key(file: File): seq<byte> {
    WithoutSlash(file.path)
  }

  /** Every file of the map is found under its path, in the tree and nowhere else, and exactly once. */
  ghost predicate Mirrors(root: Directory, contents: Contents) {
    && (forall path: seq<byte> :: FoundAs(root, contents, path))
    && (forall f: File :: CountedAs(root, contents, f))
  }

  ghost predicate FoundAs(root: Directory, contents: Contents, path: seq<byte>) {
    Elements(path) != [] ==>
      Found(root, Elements(path), WithoutSlash(path)) ==
      if WithoutSlash(path) in contents then Some(contents[WithoutSlash(path)]) else None
  }

  ghost predicate CountedAs(root: Directory, contents: Contents, f: File) {
    TreeFiles(root)[f] == if Key(f) in contents && contents[Key(f)] == f then 1 else 0
  }

  /** Every file is held under its own path, which has elements and is not that of the manifest. */
  ghost predicate Keyed(contents: Contents) {
    forall k :: k in contents ==> Key(contents[k]) == k && Elements(contents[k].path) != [] && k != MANIFEST
  }

  /** Adding a file to the tree is adding it to the map. */
  lemma InsertedMirrors(root: Directory, contents: Contents, file: File)
    requires Mirrors(root, contents) && Keyed(contents) && Elements(file.path) != []
    ensures Mirrors(Inserted(root, Elements(file.path), file), contents[Key(file) := file])
  {
    hide Found, TreeFiles, Inserted, Split, Elements, WithoutSlash;
    var parts := Elements(file.path);
    var root1, contents1 := Inserted(root, parts, file), contents[Key(file) := file];
    assert FoundAs(root, contents, file.path);
    InsertedFiles(root, parts, file);
    forall path: seq<byte> ensures FoundAs(root1, contents1, path) {
      assert FoundAs(root, contents, path);
      SameElements(file.path, path);
      if Elements(path) != [] {
        InsertedIsFound(root, parts, file, Elements(path), WithoutSlash(path));
      }
    }
    assert Found(root, parts, WithoutSlash(file.path)) == if Key(file) in contents then Some(contents[Key(file)]) else None;
    forall f: File ensures CountedAs(root1, contents1, f) {
      assert CountedAs(root, contents, f);
    }
  }

  lemma KeyedWith(contents: Contents, file: File)
    requires Keyed(contents) && Elements(file.path) != [] && Key(file) != MANIFEST
    ensures Keyed(contents[Key(file) := file])
    ensures |contents[Key(file) := file]| == if Key(file) in contents then |contents| else |contents| + 1
  {
    hide Elements;
  }

  lemma InsertedKeeps(root: Directory, contents: Contents, file: File)
    requires Mirrors(root, contents) && Keyed(contents) && Populated(root) && Elements(file.path) != [] && Key(file) != MANIFEST
    ensures var root1, contents1 := Inserted(root, Elements(file.path), file), contents[Key(file) := file];
            && Mirrors(root1, contents1) && Keyed(contents1) && Populated(root1)
            && |contents1| == |contents| + (if Found(root, Elements(file.path), WithoutSlash(file.path)).None? then 1 else 0)
  {
    hide Found, Inserted, Mirrors, Elements, Populated, Keyed;
    MirrorsFound(root, contents, file.path);
    InsertedMirrors(root, contents, file);
    InsertedPopulated(root, Elements(file.path), file);
    KeyedWith(contents, file);
  }

  lemma SameElements(a: seq<byte>, b: seq<byte>)
    ensures WithoutSlash(a) == WithoutSlash(b) ==> Elements(a) == Elements(b)
  {
  }

  class Archive {
    var rootDirectory: Directory
    var manifest: Option<File>
    var fileCount: nat
    ghost var contents: Contents

    ghost predicate Valid()
      reads this
    {
      && Mirrors(rootDirectory, contents) && Populated(rootDirectory) && fileCount == |contents| && Keyed(contents)
    }

    constructor ()
      ensures Valid() && contents == map[] && manifest == None
    {
      rootDirectory := Directory([], [], []);
      manifest := None;
      fileCount := 0;
      contents := map[];
      new;
      forall path: seq<byte> ensures FoundAs(rootDirectory, contents, path) {
        if Elements(path) != [] {
          NothingInNew([], Elements(path), WithoutSlash(path));
        }
      }
    }

    /**
     `Archive::AddFile`: the manifest is kept apart, a file that is there already under the same path
     is replaced, and a path without elements, as "/", is refused.
     */
    method AddFile(file: File) returns (inserted: bool)
      requires Valid()
      modifies this
      ensures Valid()
      ensures inserted <==> Key(file) == MANIFEST || Elements(file.path) != []
      ensures manifest == if Key(file) == MANIFEST then Some(file) else old(manifest)
      ensures contents == if inserted && Key(file) != MANIFEST then old(contents)[Key(file) := file] else old(contents)
    {
      hide Found, Inserted, Mirrors, Elements, Populated, Keyed, WithoutSlash;
      var rel, parts := WithoutSlash(file.path), Elements(file.path);
      if rel == MANIFEST {
        manifest := Some(file);
        return true;
      }
      inserted := parts != [];
      if inserted {
        InsertedKeeps(rootDirectory, contents, file);
        var there := Found(rootDirectory, parts, rel);
        fileCount := fileCount + (if there.None? then 1 else 0);
        rootDirectory := Inserted(rootDirectory, parts, file);
        contents := contents[rel := file];
      }
    }

    /** `Archive::FindFile`; without elements in the name there is nothing to find. */
    method FindFile(name: seq<byte>, t: PathType) returns (f: Option<File>)
      requires Valid()
      ensures f == if name == MANIFEST then manifest
                   else if WithoutSlash(name) in contents then Some(contents[WithoutSlash(name)]) else None
    {
      if name == MANIFEST {
        return manifest;
      }
      hide Searched, Found, Elements;
      var parts := Elements(name);
      if parts == [] {
        NotHeld(contents, name);
        return None;
      }
      MirrorsFound(rootDirectory, contents, name);
      SearchedIsFound(rootDirectory, parts, name, t);
      return Searched(rootDirectory, parts, PathString(name, t), t);
    }

    /** Breadth first, every file of the map is visited exactly once. */
    lemma VisitsContents()
      requires Valid()
      ensures |Breadth([rootDirectory])| == fileCount && ListsOnce(Breadth([rootDirectory]), contents)
    {
      var order := Breadth([rootDirectory]);
      BreadthHasAll([rootDirectory]);
      assert [rootDirectory][1..] == [];
      assert multiset(order) == TreeFiles(rootDirectory);
      hide TreeFiles, Breadth, Populated;
      forall f: File ensures ListedOnce(order, contents, f) {
        assert CountedAs(rootDirectory, contents, f);
      }
      ListsHaveTheCount(order, contents);
    }

    /**
     The loop over all files, as `Downsync` runs it: the manifest comes first, then every file of
     the archive exactly once, and no null in between.
     */
    method AllFiles() returns (files: seq<File>)
      requires Valid()
      ensures var n := if manifest.Some? then 1 else 0;
              && |files| == n + fileCount && (manifest.Some? ==> files[0] == manifest.value)
              && ListsOnce(files[n..], contents) && files[n..] == Breadth([rootDirectory])
    {
      hide Mirrors, ListsOnce;
      var it := new Iterator(rootDirectory, manifest);
      VisitsContents();
      ghost var all := it.Remaining();
      files := [];
      while true
        invariant it.Valid() && fresh(it) && files + it.Remaining() == all
        decreases |it.Remaining()|
      {
        hide Iterator.Remaining, Iterator.Valid;
        var end := it.AtEnd();
        if end {
          break;
        }
        ghost var rest := it.Remaining();
        var f := it.Current();
        OneFurther(files, rest);
        files := files + [f.value];
        it.Advance();
      }
      assert files == all;
      var n := if manifest.Some? then 1 else 0;
      assert files[n..] == Breadth([rootDirectory]);
    }
  }

  // ---------- After reading an archive ----------

  /** The number of listed paths before the first one that cannot be added */
  function Addable(names: seq<seq<byte>>): (n: nat)
    ensures n <= |names|
  {
    if names == [] || (WithoutSlash(names[0]) != MANIFEST && Elements(names[0]) == []) then 0 else 1 + Addable(names[1..])
  }

  lemma {:induction false} AddableIs(names: seq<seq<byte>>, i: nat)
    requires i < |names| && i <= Addable(names)
    ensures i < Addable(names) <==> WithoutSlash(names[i]) == MANIFEST || Elements(names[i]) != []
    decreases i
  {
    hide Elements;
    if i > 0 {
      AddableIs(names[1..], i - 1);
    }
  }

  /** The files of the first `n` listed paths, each with the number of its entry; a later one replaces an earlier one. */
  function Listing(names: seq<seq<byte>>, n: nat): Contents
    requires n <= |names|
  {
    if n == 0 then map[]
    else
      var before, rel := Listing(names, n - 1), WithoutSlash(names[n - 1]);
      if rel == MANIFEST then before else before[rel := File(names[n - 1], n)]
  }

  function ListedManifest(m: Option<File>, names: seq<seq<byte>>, n: nat): Option<File>
    requires n <= |names|
  {
    if n == 0 then m
    else if WithoutSlash(names[n - 1]) == MANIFEST then Some(File(names[n - 1], n)) else ListedManifest(m, names, n - 1)
  }

  /**
   The loop of `Upsync` over the entries behind the manifest: every one becomes a file under its path.
   A path without elements ends the loop, with an error.
   */
  method AddListed(archive: Archive, names: seq<seq<byte>>) returns (ok: bool)
    requires archive.Valid() && archive.contents == map[]
    modifies archive
    ensures archive.Valid()
    ensures ok <==> Addable(names) == |names|
    ensures archive.contents == Listing(names, Addable(names))
    ensures archive.manifest == ListedManifest(old(archive.manifest), names, Addable(names))
  {
    hide Addable, Elements;
    for i := 0 to |names|
      invariant archive.Valid() && i <= Addable(names)
      invariant archive.contents == Listing(names, i) && archive.manifest == ListedManifest(old(archive.manifest), names, i)
    {
      AddableIs(names, i);
      var inserted := archive.AddFile(File(names[i], i + 1));
      if !inserted {
        return false;
      }
    }
    return true;
  }

  /** The paths name different files, and none of them the manifest. */
  ghost predicate Different(names: seq<seq<byte>>) {
    && (forall i :: 0 <= i < |names| ==> WithoutSlash(names[i]) != MANIFEST)
    && (forall i, j :: 0 <= i < j < |names| ==> WithoutSlash(names[i]) != WithoutSlash(names[j]))
  }

  /** The first `n` listed files are in the archive, each with the number of its entry, and no others. */
  ghost predicate HoldsListed(contents: Contents, names: seq<seq<byte>>, n: nat)
    requires n <= |names|
  {
    && |contents| == n
    && (forall i :: 0 <= i < n ==> WithoutSlash(names[i]) in contents && contents[WithoutSlash(names[i])] == File(names[i], i + 1))
    && (forall k :: k in contents ==> IsListed(names, n, k))
  }

  ghost predicate IsListed(names: seq<seq<byte>>, n: nat, k: seq<byte>)
    requires n <= |names|
  {
    exists i :: 0 <= i < n && WithoutSlash(names[i]) == k
  }

  lemma ListedMore(names: seq<seq<byte>>, n: nat, k: seq<byte>)
    requires n < |names|
    ensures IsListed(names, n, k) || WithoutSlash(names[n]) == k ==> IsListed(names, n + 1, k)
  {
    hide WithoutSlash;
    if WithoutSlash(names[n]) == k {
      assert 0 <= n < n + 1;
    }
  }

  /** If the listed paths differ, every one of them leads to the file of its entry, and there are no other files. */
  lemma {:induction false} ListingHolds(names: seq<seq<byte>>, n: nat, m: Option<File>)
    requires Different(names) && n <= |names|
    ensures HoldsListed(Listing(names, n), names, n) && ListedManifest(m, names, n) == m
  {
    hide WithoutSlash, IsListed;
    if n > 0 {
      ListingHolds(names, n - 1, m);
      var before, rel := Listing(names, n - 1), WithoutSlash(names[n - 1]);
      assert rel !in before by {
        if rel in before {
          NotListed(names, n - 1);
        }
      }
      forall k | k in Listing(names, n) ensures IsListed(names, n, k) {
        ListedMore(names, n - 1, k);
      }
    }
  }

  lemma NotListed(names: seq<seq<byte>>, n: nat)
    requires Different(names) && n < |names|
    ensures !IsListed(names, n, WithoutSlash(names[n]))
  {
  }

  lemma OneFurther(files: seq<File>, rest: seq<File>)
    requires rest != []
    ensures files + rest == files + [rest[0]] + rest[1..]
  {
  }

  ghost predicate ListedOnce(files: seq<File>, contents: Contents, f: File) {
    multiset(files)[f] == if Key(f) in contents && contents[Key(f)] == f then 1 else 0
  }

  /** The files of the map, each exactly once, and nothing else */
  ghost predicate ListsOnce(files: seq<File>, contents: Contents) {
    forall f: File :: ListedOnce(files, contents, f)
  }

  lemma HeldIsListed(files: seq<File>, contents: Contents, k: seq<byte>)
    requires ListsOnce(files, contents) && k in contents && Key(contents[k]) == k
    ensures contents[k] in files
  {
    assert ListedOnce(files, contents, contents[k]);
  }

  lemma {:induction false} ListsHaveTheCount(files: seq<File>, contents: Contents)
    requires ListsOnce(files, contents) && forall k :: k in contents ==> Key(contents[k]) == k
    ensures |files| == |contents|
    decreases |files|
  {
    hide Key;
    if files == [] {
      if contents != map[] {
        var k :| k in contents;
        HeldIsListed(files, contents, k);
      }
    } else {
      var n := |files| - 1;
      var last := files[n];
      var k := Key(last);
      assert files == files[..n] + [last];
      assert ListedOnce(files, contents, last);
      var rest := contents - {k};
      forall f: File ensures ListedOnce(files[..n], rest, f) {
        assert ListedOnce(files, contents, f);
      }
      ListsHaveTheCount(files[..n], rest);
      assert contents == rest[k := last];
    }
  }

  lemma MirrorsFound(root: Directory, contents: Contents, path: seq<byte>)
    requires Mirrors(root, contents)
    ensures FoundAs(root, contents, path)
  {
  }

  lemma NotHeld(contents: Contents, name: seq<byte>)
    requires Keyed(contents) && Elements(name) == []
    ensures WithoutSlash(name) !in contents
  {
    if WithoutSlash(name) in contents {
      SameElements(contents[WithoutSlash(name)].path, name);
    }
  }
}
