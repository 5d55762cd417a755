/** Paths of files in an archive, as strings and as lists of names. */
module Paths {

  import opened Bytes

  type Name = seq<byte>

  const SLASH: byte := 0x2F

  datatype PathType = Relative | Absolute

  function WithoutSlash(path: seq<byte>): seq<byte> {
    if path != [] && path[0] == SLASH then path[1..] else path
  }

  /** `File::GetPathString`; `FindFile` brings the name it looks for into the same form. */
  function PathString(path: seq<byte>, t: PathType): seq<byte> {
    match t
    case Relative => WithoutSlash(path)
    case Absolute => if path == [] || path[0] == SLASH then path else [SLASH] + path
  }

  /** The names between the slashes. */
  function Split(s: seq<byte>): (parts: seq<Name>)
    ensures parts != []
    decreases |s|
  {
    if s == [] then [[]]
    else
      var rest := Split(s[1..]);
      if s[0] == SLASH then [[]] + rest else [[s[0]] + rest[0]] + rest[1..]
  }

  function Join(parts: seq<Name>): seq<byte>
    requires parts != []
  {
    if |parts| == 1 then parts[0] else parts[0] + [SLASH] + Join(parts[1..])
  }

  function NotEmpty(parts: seq<Name>): (names: seq<Name>)
    ensures forall i :: 0 <= i < |names| ==> names[i] != []
  {
    if parts == [] then [] else (if parts[0] == [] then [] else [parts[0]]) + NotEmpty(parts[1..])
  }

  /**
   The elements of a path below its root, as `std::filesystem::path` iterates over them: slashes that
   follow each other count as one, and a slash at the end gives an empty last element.
   */
  function Elements(path: seq<byte>): (parts: seq<Name>)
    ensures forall i :: 0 <= i < |parts| - 1 ==> parts[i] != []
    ensures WithoutSlash(path) == [] ==> parts == []
  {
    var rel := WithoutSlash(path);
    if rel == [] then []
    else
      var names := NotEmpty(Split(rel));
      if names == [] || rel[|rel| - 1] != SLASH then names else names + [[]]
  }

  /** No slash follows another one, or ends the path. */
  predicate Clean(path: seq<byte>) {
    [] !in Split(WithoutSlash(path))
  }

  lemma {:induction false} AllNotEmpty(parts: seq<Name>)
    requires [] !in parts
    ensures NotEmpty(parts) == parts
  {
    if parts != [] {
      AllNotEmpty(parts[1..]);
    }
  }

  lemma {:induction false} SlashEnds(s: seq<byte>)
    requires s != [] && s[|s| - 1] == SLASH
    ensures [] in Split(s)
    decreases |s|
  {
    if |s| > 1 && s[0] != SLASH {
      SlashEnds(s[1..]);
      var rest := Split(s[1..]);
      if rest[0] == [] {
        StartsWithSlash(s[1..]);
        EmptyBehind(s[1..]);
      }
      assert Split(s)[1..] == rest[1..];
    }
  }

  lemma StartsWithSlash(s: seq<byte>)
    requires Split(s)[0] == []
    ensures s == [] || s[0] == SLASH
  {
  }

  lemma {:induction false} EmptyBehind(s: seq<byte>)
    requires s != [] && s[0] == SLASH && s[|s| - 1] == SLASH
    ensures [] in Split(s)[1..]
    decreases |s|
  {
    if |s| == 1 {
      assert Split(s)[1..] == Split([]) == [[]];
    } else {
      SlashEnds(s[1..]);
      assert Split(s)[1..] == Split(s[1..]);
    }
  }

  /**
   Paths that are the same but for a slash in front have the same elements. The converse holds for
   clean paths, and not for every path: "a/b" and "a//b" name two files.
   */
  lemma ElementsOfClean(a: seq<byte>, b: seq<byte>)
    ensures WithoutSlash(a) == WithoutSlash(b) ==> Elements(a) == Elements(b)
    ensures Clean(a) ==> Elements(a) == Split(WithoutSlash(a)) && Join(Elements(a)) == WithoutSlash(a)
    ensures Clean(a) && Clean(b) ==> (Elements(a) == Elements(b) <==> WithoutSlash(a) == WithoutSlash(b))
    ensures Elements([0x61, 0x2F, 0x62]) == Elements([0x61, 0x2F, 0x2F, 0x62]) == [[0x61], [0x62]]
  {
    JoinOfSplit(WithoutSlash(a));
    JoinOfSplit(WithoutSlash(b));
    if Clean(a) { CleanElements(a); }
    if Clean(b) { CleanElements(b); }
    TwoSpellings();
  }

  lemma CleanElements(a: seq<byte>)
    requires Clean(a)
    ensures Elements(a) == Split(WithoutSlash(a))
  {
    var rel := WithoutSlash(a);
    AllNotEmpty(Split(rel));
    var none: seq<byte> := [];
    assert Split(none) == [none] && none in [none];
    if rel != [] && rel[|rel| - 1] == SLASH {
      SlashEnds(rel);
    }
  }

  lemma SplitLetter(c: byte, s: seq<byte>)
    requires c != SLASH
    ensures Split([c] + s) == [[c] + Split(s)[0]] + Split(s)[1..]
  {
    assert ([c] + s)[1..] == s;
  }

  lemma SplitSlash(s: seq<byte>)
    ensures Split([SLASH] + s) == [[]] + Split(s)
  {
    assert ([SLASH] + s)[1..] == s;
  }

  lemma TwoSpellings()
    ensures Elements([0x61, 0x2F, 0x62]) == Elements([0x61, 0x2F, 0x2F, 0x62]) == [[0x61], [0x62]]
  {
    var a, b: seq<byte> := [0x61], [0x62];
    ElementsJoin(a, b);
    ElementsJoin(b, []);
    ElementsJoin(a, [0x2F] + b);
    hide Elements;
    assert a + [0x2F] + b == [0x61, 0x2F, 0x62] && a + [0x2F] + ([0x2F] + b) == [0x61, 0x2F, 0x2F, 0x62];
    assert [a] + [b] == [a, b];
  }

  lemma {:induction false} JoinOfSplit(s: seq<byte>)
    ensures Join(Split(s)) == s
    decreases |s|
  {
    if s != [] {
      JoinOfSplit(s[1..]);
      var rest := Split(s[1..]);
      assert s == [s[0]] + s[1..];
      if s[0] == SLASH {
        assert ([[]] + rest)[1..] == rest;
        assert Join([[]] + rest) == [] + [SLASH] + Join(rest);
      } else {
        var parts := [[s[0]] + rest[0]] + rest[1..];
        assert parts[1..] == rest[1..];
        if |rest| > 1 {
          assert [s[0]] + rest[0] + [SLASH] + Join(rest[1..]) == [s[0]] + (rest[0] + [SLASH] + Join(rest[1..]));
        }
      }
    }
  }

  /** Whole paths are compared, and the form that they are brought into makes no difference. */
  lemma FormsAgree(a: seq<byte>, b: seq<byte>, t: PathType)
    requires WithoutSlash(b) != []
    ensures PathString(a, t) == PathString(b, t) <==> WithoutSlash(a) == WithoutSlash(b)
  {
    if t == Absolute {
      assert PathString(b, t) == [SLASH] + WithoutSlash(b);
      assert a != [] ==> PathString(a, t) == [SLASH] + WithoutSlash(a);
      assert PathString(b, t)[1..] == WithoutSlash(b);
      assert a != [] ==> PathString(a, t)[1..] == WithoutSlash(a);
    }
  }

  /** A path without two slashes in front names the same file in every form it is written in. */
  lemma FormNamesTheSame(a: seq<byte>, t: PathType)
    requires WithoutSlash(a) != [] && WithoutSlash(a)[0] != SLASH
    ensures WithoutSlash(PathString(a, t)) == WithoutSlash(a) && Elements(PathString(a, t)) == Elements(a)
  {
  }

  // ---------- Elements and forms, spelled out ----------

  lemma {:induction false} SplitJoins(a: seq<byte>, b: seq<byte>)
    ensures Split(a + [0x2F] + b) == Split(a) + Split(b)
  {
    hide Split;
    if a == [] {
      assert a + [0x2F] + b == [0x2F] + b;
      OneName(a);
      SplitSlash(b);
    } else {
      SplitJoins(a[1..], b);
      var first, rest := a[0], Split(a[1..]);
      assert a == [first] + a[1..] && a + [0x2F] + b == [first] + (a[1..] + [0x2F] + b);
      assert (rest + Split(b))[1..] == rest[1..] + Split(b);
      if first == SLASH {
        SplitSlash(a[1..]);
        SplitSlash(a[1..] + [0x2F] + b);
        assert [[]] + (rest + Split(b)) == [[]] + rest + Split(b);
      } else {
        SplitLetter(first, a[1..]);
        SplitLetter(first, a[1..] + [0x2F] + b);
        assert [[first] + rest[0]] + (rest[1..] + Split(b)) == [[first] + rest[0]] + rest[1..] + Split(b);
      }
    }
  }

  lemma {:induction false} NotEmptyJoins(a: seq<Name>, b: seq<Name>)
    ensures NotEmpty(a + b) == NotEmpty(a) + NotEmpty(b)
  {
    if a == [] {
      assert a + b == b;
    } else {
      NotEmptyJoins(a[1..], b);
      var first: seq<Name> := if a[0] == [] then [] else [a[0]];
      assert (a + b)[1..] == a[1..] + b && (a + b)[0] == a[0];
      assert first + (NotEmpty(a[1..]) + NotEmpty(b)) == first + NotEmpty(a[1..]) + NotEmpty(b);
    }
  }

  lemma {:induction false} OneName(s: seq<byte>)
    requires 0x2F !in s
    ensures Split(s) == [s]
    decreases |s|
  {
    if s != [] {
      OneName(s[1..]);
      assert s == [s[0]] + s[1..];
    }
  }

  lemma NoName()
    ensures NotEmpty([[]]) == []
  {
    var none: seq<Name> := [[]];
    assert none[1..] == [];
  }

  lemma FrontSlash(s: seq<byte>)
    ensures NotEmpty(Split([0x2F] + s)) == NotEmpty(Split(s))
  {
    hide Split, NotEmpty;
    SplitSlash(s);
    NotEmptyJoins([[]], Split(s));
    NoName();
  }

  /** A slash in front plays no part in the names. */
  lemma NamesOf(s: seq<byte>)
    ensures NotEmpty(Split(s)) == NotEmpty(Split(WithoutSlash(s)))
    ensures Elements(s) == [] <==> NotEmpty(Split(s)) == []
    ensures Elements(s) != [] ==> Elements(s) == NotEmpty(Split(s)) + (if s[|s| - 1] == 0x2F then [[]] else [])
  {
    hide Split, NotEmpty;
    OneName([]);
    NoName();
    if s != [] && s[0] == SLASH {
      assert s == [0x2F] + s[1..];
      FrontSlash(s[1..]);
    }
  }

  lemma {:induction false} EndsInName(s: seq<byte>)
    requires s != [] && s[|s| - 1] != 0x2F
    ensures var parts := Split(s); parts[|parts| - 1] != []
    decreases |s|
  {
    if |s| > 1 {
      EndsInName(s[1..]);
    } else {
      OneName(s);
    }
  }

  /**
   What the elements of a path are, by its slashes: a name alone is one element, with or without a slash in
   front; and a slash after a name joins what is before it and what is behind it, where nothing but
   slashes behind it is one empty element.
   */
  lemma ElementsJoin(a: seq<byte>, b: seq<byte>)
    ensures a != [] && 0x2F !in a ==> Elements(a) == Elements([0x2F] + a) == [a]
    ensures a != [] && a[|a| - 1] != 0x2F ==>
              Elements(a + [0x2F] + b) == Elements(a) + (if Elements(b) == [] then [[]] else Elements(b))
    ensures Elements([]) == Elements([0x2F]) == []
  {
    hide Split, NotEmpty;
    if a != [] && 0x2F !in a {
      OneName(a);
      OneIsNotEmpty(a);
      assert ([0x2F] + a)[1..] == a;
    }
    if a != [] && a[|a| - 1] != 0x2F {
      NamesJoin(a, b);
    }
  }

  lemma OneIsNotEmpty(a: Name)
    requires a != []
    ensures NotEmpty([a]) == [a]
  {
    assert [a][1..] == [];
  }

  lemma NamesJoin(a: seq<byte>, b: seq<byte>)
    requires a != [] && a[|a| - 1] != 0x2F
    ensures Elements(a + [0x2F] + b) == Elements(a) + (if Elements(b) == [] then [[]] else Elements(b))
  {
    hide Split, NotEmpty, Elements;
    var s := a + [0x2F] + b;
    SplitJoins(a, b);
    NotEmptyJoins(Split(a), Split(b));
    EndsInName(a);
    LastIsName(Split(a));
    NamesOf(s);
    NamesOf(a);
    NamesOf(b);
    assert s[|s| - 1] == if b == [] then 0x2F else b[|b| - 1];
    if Elements(b) == [] && b != [] {
      OnlySlashes(b);
    }
    var x, y := NotEmpty(Split(a)), NotEmpty(Split(b));
    var last: Name := [];
    assert Elements(a) == x by {
      assert x + [] == x;
    }
    if s[|s| - 1] == 0x2F {
      assert Elements(s) == x + y + [last];
      assert x + y + [last] == x + (y + [last]);
      assert Elements(b) == [] ==> x + y == x;
    } else {
      assert x + y + [] == x + (y + []);
    }
  }

  /** Without a name there are only slashes. */
  lemma OnlySlashes(b: seq<byte>)
    requires NotEmpty(Split(b)) == [] && b != []
    ensures b[|b| - 1] == 0x2F
  {
    hide Split, NotEmpty;
    if b[|b| - 1] != 0x2F {
      EndsInName(b);
      LastIsName(Split(b));
    }
  }

  lemma LastIsName(parts: seq<Name>)
    requires parts != [] && parts[|parts| - 1] != []
    ensures NotEmpty(parts) != []
  {
    var n := |parts| - 1;
    assert parts == parts[..n] + [parts[n]];
    NotEmptyJoins(parts[..n], [parts[n]]);
    OneIsNotEmpty(parts[n]);
    hide NotEmpty;
  }

  /** The two forms of a path, by what they look like: one has no slash in front that could be taken off, the other has one. */
  lemma FormsLookAlike(a: seq<byte>)
    ensures PathString([0x2F] + a, Relative) == a
    ensures a == [] || a[0] != 0x2F ==> PathString(a, Relative) == a
    ensures a != [] && a[0] != 0x2F ==> PathString(a, Absolute) == [0x2F] + a
    ensures a == [] || a[0] == 0x2F ==> PathString(a, Absolute) == a
  {
    assert ([0x2F] + a)[1..] == a;
  }
}
