/** The order of the files in an archive: as an earlier manifest lists them, then the others. */
module PackingOrder {

  import opened BlockFraming

  // Files are compared as the source compares them, by being the same file in memory.

  ghost predicate Distinct<T>(files: seq<T>) {
    forall i, j :: 0 <= i < j < |files| ==> files[i] != files[j]
  }

  /** The listed files that are present, each where it is listed first. */
  function Listed<T(==)>(listed: seq<Option<T>>, files: seq<T>): seq<T> {
    if listed == [] then []
    else
      var before, last := Listed(listed[..|listed| - 1], files), listed[|listed| - 1];
      if last.Some? && last.value in files && last.value !in before then before + [last.value] else before
  }

  /** This file is listed before the other one is listed for the first time. */
  ghost predicate ListedBefore<T>(listed: seq<Option<T>>, f: T, g: T) {
    exists a :: 0 <= a < |listed| && listed[a] == Some(f) && Some(g) !in listed[..a + 1]
  }

  lemma BeforeStays<T>(listed: seq<Option<T>>, f: T, g: T)
    requires listed != [] && ListedBefore(listed[..|listed| - 1], f, g)
    ensures ListedBefore(listed, f, g)
  {
    var front := listed[..|listed| - 1];
    var a :| 0 <= a < |front| && front[a] == Some(f) && Some(g) !in front[..a + 1];
    assert listed[..a + 1] == front[..a + 1] && listed[a] == Some(f);
  }

  lemma LastIsAfter<T>(listed: seq<Option<T>>, f: T, g: T)
    requires listed != [] && Some(f) in listed[..|listed| - 1] && Some(g) !in listed[..|listed| - 1]
    ensures ListedBefore(listed, f, g)
  {
    var front := listed[..|listed| - 1];
    var a :| 0 <= a < |front| && front[a] == Some(f);
    assert listed[a] == Some(f) && listed[..a + 1] == front[..a + 1];
  }

  /** What comes first are the files that are listed and present, each once, in the order in which they are listed first. */
  lemma {:induction false} ListedAre<T>(listed: seq<Option<T>>, files: seq<T>)
    ensures var l := Listed(listed, files);
            && Distinct(l)
            && (forall i :: 0 <= i < |l| ==> Some(l[i]) in listed && l[i] in files)
            && (forall a :: 0 <= a < |listed| ==> listed[a].Some? && listed[a].value in files ==> listed[a].value in l)
            && forall i, j :: 0 <= i < j < |l| ==> ListedBefore(listed, l[i], l[j])
    decreases |listed|
  {
    hide ListedBefore;
    if listed != [] {
      var n := |listed| - 1;
      var before, last, l := Listed(listed[..n], files), listed[n], Listed(listed, files);
      ListedAre(listed[..n], files);
      assert listed == listed[..n] + [last];
      forall i, j | 0 <= i < j < |l| ensures ListedBefore(listed, l[i], l[j]) {
        if j < |before| {
          BeforeStays(listed, l[i], l[j]);
        } else {
          var f, g := before[i], last.value;
          NotYetListed(listed[..n], before, files, g);
          LastIsAfter(listed, f, g);
        }
      }
    }
  }

  lemma NotYetListed<T>(listed: seq<Option<T>>, l: seq<T>, files: seq<T>, g: T)
    requires forall a :: 0 <= a < |listed| ==> listed[a].Some? && listed[a].value in files ==> listed[a].value in l
    requires g in files && g !in l
    ensures Some(g) !in listed
  {
  }

  lemma {:induction false} ListedGrows<T>(listed: seq<Option<T>>, files: seq<T>, n: nat)
    requires n <= |listed|
    ensures Listed(listed[..n], files) <= Listed(listed, files)
    decreases |listed|
  {
    if n < |listed| {
      ListedGrows(listed[..|listed| - 1], files, n);
      assert listed[..|listed| - 1][..n] == listed[..n];
    } else {
      assert listed[..n] == listed;
    }
  }

  /** The first `|done|` files are in their places; the others are those that are left. */
  ghost predicate Sorting<T>(files: seq<T>, sorted: seq<T>, done: seq<T>) {
    Distinct(sorted) && multiset(sorted) == multiset(files) && done <= sorted
  }

  lemma SwappedIn<T>(files: seq<T>, sorted: seq<T>, done: seq<T>, k: nat)
    requires Sorting(files, sorted, done) && |done| <= k < |sorted|
    ensures var swapped := if k == |done| then sorted else sorted[k := sorted[|done|]][|done| := sorted[k]];
            Sorting(files, swapped, done + [sorted[k]])
  {
    var n := |done|;
    var swapped := if k == n then sorted else sorted[k := sorted[n]][n := sorted[k]];
    assert multiset(swapped) == multiset(sorted) by {
      if k != n {
        Swap(sorted, n, k);
      }
    }
    assert swapped[..n] == sorted[..n] == done;
    assert swapped[..n + 1] == done + [sorted[k]];
  }

  lemma Swap<T>(s: seq<T>, i: nat, j: nat)
    requires i < |s| && j < |s|
    ensures multiset(s[j := s[i]][i := s[j]]) == multiset(s)
  {
  }

  lemma Present<T>(files: seq<T>, sorted: seq<T>, done: seq<T>, f: T)
    requires Sorting(files, sorted, done)
    ensures f in files && f !in done <==> f in sorted[|done|..]
  {
    assert f in files <==> f in multiset(files);
    assert f in sorted <==> f in multiset(sorted);
    assert sorted == done + sorted[|done|..];
  }

  lemma AtRest<T>(sorted: seq<T>, index: nat, k: nat)
    requires index <= k < |sorted|
    ensures sorted[k] in sorted[index..]
  {
    assert sorted[k] == sorted[index..][k - index];
  }

  /** If the files are in order already, the next one that is listed is found in its place. */
  lemma StaysInPlace<T>(files: seq<T>, listed: seq<Option<T>>, sorted: seq<T>, i: nat, k: nat)
    requires i < |listed| && listed[i].Some? && Sorting(files, sorted, Listed(listed[..i], files))
    requires |Listed(listed[..i], files)| <= k < |sorted| && sorted[k] == listed[i].value
    ensures Listed(listed[..i + 1], files) == Listed(listed[..i], files) + [sorted[k]]
    ensures Listed(listed, files) <= files && sorted == files ==> k == |Listed(listed[..i], files)|
  {
    var done := Listed(listed[..i], files);
    assert listed[..i + 1][..i] == listed[..i];
    AtRest(sorted, |done|, k);
    Present(files, sorted, done, sorted[k]);
    ListedGrows(listed, files, i + 1);
    hide Listed;
    if Listed(listed, files) <= files && sorted == files {
      assert (done + [sorted[k]])[|done|] == files[|done|];
    }
  }

  /**
   The swaps of `Downsync`. What comes out has the same files, and begins with those that are
   listed and present, in the order in which they are listed first. If they are in that order already,
   no file is moved.
   */
  method SortByManifest<T(==)>(files: seq<T>, listed: seq<Option<T>>) returns (sorted: seq<T>)
    requires Distinct(files)
    ensures multiset(sorted) == multiset(files) && Listed(listed, files) <= sorted
    ensures Listed(listed, files) <= files ==> sorted == files
  {
    sorted := files;
    var index := 0;
    for i := 0 to |listed|
      invariant Sorting(files, sorted, Listed(listed[..i], files)) && index == |Listed(listed[..i], files)|
      invariant Listed(listed, files) <= files ==> sorted == files
    {
      ghost var done := Listed(listed[..i], files);
      assert listed[..i + 1][..i] == listed[..i];
      if listed[i].None? {
        continue;
      }
      var file := listed[i].value;
      var k := index;
      while k < |sorted| && sorted[k] != file
        invariant index <= k <= |sorted| && file !in sorted[index..k]
      {
        assert sorted[index..k + 1] == sorted[index..k] + [sorted[k]];
        k := k + 1;
      }
      Present(files, sorted, done, file);
      if k != |sorted| {
        AtRest(sorted, index, k);
        SwappedIn(files, sorted, done, k);
        StaysInPlace(files, listed, sorted, i, k);
        if k != index {
          sorted := sorted[k := sorted[index]];
          sorted := sorted[index := file];
        }
        index := index + 1;
      } else {
        assert sorted[index..|sorted|] == sorted[index..];
      }
    }
    assert listed[..|listed|] == listed;
  }
}
