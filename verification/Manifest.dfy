/** The manifest: the paths of the other files, one per line, the last line without an end. */
module Manifest {

  import opened Bytes

  const NEWLINE: byte := 0x0A

  /** The manifest that `Downsync` writes. */
  function Joined(names: seq<seq<byte>>): seq<byte> {
    if names == [] then []
    else if |names| == 1 then names[0]
    else names[0] + [NEWLINE] + Joined(names[1..])
  }

  lemma {:induction false} JoinedMore(names: seq<seq<byte>>, last: seq<byte>)
    requires names != []
    ensures Joined(names + [last]) == Joined(names) + [10] + last && Joined([last]) == last
    decreases |names|
  {
    if |names| > 1 {
      JoinedMore(names[1..], last);
      assert (names + [last])[1..] == names[1..] + [last];
      assert names[0] + [NEWLINE] + (Joined(names[1..]) + [NEWLINE] + last) == Joined(names) + [NEWLINE] + last;
    } else {
      assert (names + [last])[1..] == [last];
    }
  }

  /** The loop of `Downsync` that writes the manifest: every path but the last gets a newline behind it. */
  method MakeManifest(names: seq<seq<byte>>) returns (bytes: seq<byte>)
    ensures bytes == Joined(names)
  {
    bytes := [];
    for i := 0 to |names|
      invariant bytes == if 0 < i < |names| then Joined(names[..i]) + [NEWLINE] else Joined(names[..i])
    {
      assert names[..i + 1] == names[..i] + [names[i]];
      if i > 0 {
        JoinedMore(names[..i], names[i]);
      }
      var filePath := names[i];
      if i + 1 != |names| {
        filePath := filePath + [NEWLINE];
      }
      assert bytes + (names[i] + [NEWLINE]) == bytes + names[i] + [NEWLINE];
      bytes := bytes + filePath;
    }
    assert names[..|names|] == names;
  }

  /** The first newline at or after `from`, or the length when there is none. */
  function Find(s: seq<byte>, from: nat): (p: nat)
    requires from <= |s|
    ensures from <= p <= |s| && (p < |s| ==> s[p] == NEWLINE) && NEWLINE !in s[from..p]
    decreases |s| - from
  {
    if from == |s| || s[from] == NEWLINE then from
    else
      var p := Find(s, from + 1);
      assert s[from..p] == [s[from]] + s[from + 1..p];
      p
  }

  /** The lines of a manifest; an empty rest behind the last newline is not a line. */
  function Lines(s: seq<byte>): (names: seq<seq<byte>>)
    ensures forall i :: 0 <= i < |names| ==> NEWLINE !in names[i]
    decreases |s|
  {
    if s == [] then []
    else
      var p := Find(s, 0);
      if p == |s| then
        assert s[0..p] == s;
        [s]
      else [s[0..p]] + Lines(s[p + 1..])
  }

  /** `GetStringsFromManifest` */
  method GetStringsFromManifest(s: seq<byte>) returns (res: seq<seq<byte>>)
    ensures res == Lines(s)
  {
    hide Lines, Find;
    res := [];
    var posStart: nat, posEnd: nat := 0, Find(s, 0);
    assert s[0..] == s;
    while posEnd < |s|
      invariant posStart <= posEnd <= |s| && posEnd == Find(s, posStart)
      invariant Lines(s) == res + Lines(s[posStart..])
      decreases |s| - posStart
    {
      NextLine(s, posStart);
      var line := s[posStart..posEnd];
      assert res + ([line] + Lines(s[posEnd + 1..])) == res + [line] + Lines(s[posEnd + 1..]);
      res := res + [line];
      posStart := posEnd + 1;
      posEnd := Find(s, posStart);
    }
    NextLine(s, posStart);
    if posStart < |s| {
      res := res + [s[posStart..]];
    }
  }

  lemma NextLine(s: seq<byte>, start: nat)
    requires start <= |s|
    ensures var p := Find(s, start);
            Lines(s[start..]) == if p < |s| then [s[start..p]] + Lines(s[p + 1..]) else if start < |s| then [s[start..]] else []
  {
    var p := Find(s, start);
    FindInRest(s, start, start);
    if p < |s| {
      assert s[start..][0..p - start] == s[start..p];
      assert s[start..][p - start + 1..] == s[p + 1..];
    }
  }

  lemma {:induction false} FindInRest(s: seq<byte>, start: nat, from: nat)
    requires start <= from <= |s|
    ensures Find(s[start..], from - start) == Find(s, from) - start
    decreases |s| - from
  {
    if from < |s| && s[from] != NEWLINE {
      FindInRest(s, start, from + 1);
    }
  }

  // ---------- The round trip ----------

  ghost predicate Plain(names: seq<seq<byte>>) {
    forall i :: 0 <= i < |names| ==> NEWLINE !in names[i]
  }

  lemma {:induction false} FindAfterName(name: seq<byte>, rest: seq<byte>, from: nat)
    requires NEWLINE !in name && from <= |name| && (rest == [] || rest[0] == NEWLINE)
    ensures Find(name + rest, from) == |name|
    decreases |name| - from
  {
    if from < |name| {
      assert (name + rest)[from] == name[from] != NEWLINE;
      FindAfterName(name, rest, from + 1);
    }
  }

  lemma {:induction false} PlainNamesAreRead(names: seq<seq<byte>>)
    requires Plain(names) && (names != [] ==> names[|names| - 1] != [])
    ensures Lines(Joined(names)) == names
    decreases |names|
  {
    if |names| == 1 {
      FindAfterName(names[0], [], 0);
      assert names[0] + [] == names[0];
    } else if |names| > 1 {
      var rest := [NEWLINE] + Joined(names[1..]);
      FindAfterName(names[0], rest, 0);
      assert Joined(names) == names[0] + rest;
      assert (names[0] + rest)[..|names[0]|] == names[0];
      assert (names[0] + rest)[|names[0]| + 1..] == Joined(names[1..]);
      PlainNamesAreRead(names[1..]);
    }
  }

  /** An empty name at the end is lost. */
  lemma {:induction false} EmptyEndIsLost(names: seq<seq<byte>>)
    requires Plain(names) && names != [] && names[|names| - 1] == []
    ensures Lines(Joined(names)) == names[..|names| - 1]
    decreases |names|
  {
    if |names| > 1 {
      var rest := [NEWLINE] + Joined(names[1..]);
      FindAfterName(names[0], rest, 0);
      assert Joined(names) == names[0] + rest;
      assert (names[0] + rest)[..|names[0]|] == names[0];
      assert (names[0] + rest)[|names[0]| + 1..] == Joined(names[1..]);
      EmptyEndIsLost(names[1..]);
      assert names[..|names| - 1] == [names[0]] + names[1..][..|names| - 2];
    }
  }

  /** Names come back from a manifest exactly if none holds a newline, which is byte 10, and the last is not empty. */
  lemma ManifestRoundTrip(names: seq<seq<byte>>)
    ensures Lines(Joined(names)) == names <==>
            (forall i :: 0 <= i < |names| ==> 10 !in names[i]) && (names != [] ==> names[|names| - 1] != [])
    ensures Plain(names) <==> forall i :: 0 <= i < |names| ==> 10 !in names[i]
  {
    if Plain(names) {
      if names == [] || names[|names| - 1] != [] {
        PlainNamesAreRead(names);
      } else {
        EmptyEndIsLost(names);
      }
    }
  }
}
