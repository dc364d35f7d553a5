/**
 * pathToRootLeaf: a slash-separated path cut at its last '/' into the folder
 * part (root) and the final name (leaf), by way of String.prototype.split and
 * Array.prototype.join.
 */
module Paths {

  /** `s.split(sep)`: the pieces between separators, always at least one (possibly empty). */
  function Split(s: string, sep: char): (parts: seq<string>)
    ensures |parts| >= 1
    ensures forall i :: 0 <= i < |parts| ==> sep !in parts[i]
  {
    if s == [] then [""]
    else
      var rest := Split(s[1..], sep);
      if s[0] == sep then [""] + rest
      else [[s[0]] + rest[0]] + rest[1..]
  }

  /** `parts.join(sep)`: the parts with one separator between neighbours; "" for no parts. */
  function Join(parts: seq<string>, sep: char): string
  {
    if parts == [] then ""
    else if |parts| == 1 then parts[0]
    else parts[0] + [sep] + Join(parts[1..], sep)
  }

  /** pathToRootLeaf: all pieces but the last joined back as the root, the last piece as the leaf. */
  function PathToRootLeaf(path: string): (string, string)
  {
    var parts := Split(path, '/');
    (Join(parts[..|parts| - 1], '/'), parts[|parts| - 1])
  }

  // ---------------------------------------------------------------------------
  // Split and Join are inverse

  /** Joining after a leading character: the character goes in front of the first part. */
  lemma JoinPrefix(c: char, parts: seq<string>, sep: char)
    requires |parts| >= 1
    ensures Join([[c] + parts[0]] + parts[1..], sep) == [c] + Join(parts, sep)
  {
    var ps := [[c] + parts[0]] + parts[1..];
    assert ps[1..] == parts[1..];
  }

  /** Joining the pieces of a string gives the string back. */
  lemma {:induction false} JoinSplit(s: string, sep: char)
    ensures Join(Split(s, sep), sep) == s
    decreases |s|
  {
    if s != [] {
      var rest := Split(s[1..], sep);
      JoinSplit(s[1..], sep);
      if s[0] == sep {
        assert ([""] + rest)[1..] == rest;
      } else {
        JoinPrefix(s[0], rest, sep);
      }
      assert s == [s[0]] + s[1..];
    }
  }

  /** A string without separators followed by the rest: it extends the first piece of the rest. */
  lemma {:induction false} SplitPrefix(a: string, t: string, sep: char)
    requires sep !in a
    ensures Split(a + t, sep) == [a + Split(t, sep)[0]] + Split(t, sep)[1..]
    decreases |a|
  {
    if a != [] {
      var st := Split(t, sep);
      SplitPrefix(a[1..], t, sep);
      assert (a + t)[0] == a[0] && (a + t)[1..] == a[1..] + t;
      var rest := Split(a[1..] + t, sep);
      assert rest == [a[1..] + st[0]] + st[1..];
      assert rest[0] == a[1..] + st[0] && rest[1..] == st[1..];
      assert Split(a + t, sep) == [[a[0]] + rest[0]] + rest[1..];
      assert [a[0]] + (a[1..] + st[0]) == a + st[0];
    } else {
      var st := Split(t, sep);
      assert a + t == t && a + st[0] == st[0];
      assert st == [st[0]] + st[1..];
    }
  }

  /** Splitting joined parts that hold no separator gives the parts back. */
  lemma {:induction false} SplitJoin(parts: seq<string>, sep: char)
    requires |parts| >= 1 && forall i :: 0 <= i < |parts| ==> sep !in parts[i]
    ensures Split(Join(parts, sep), sep) == parts
    decreases |parts|
  {
    if |parts| == 1 {
      SplitPrefix(parts[0], "", sep);
      assert parts[0] + "" == parts[0];
    } else {
      var t := Join(parts[1..], sep);
      SplitJoin(parts[1..], sep);
      assert ([sep] + t)[0] == sep && ([sep] + t)[1..] == t;
      assert Split([sep] + t, sep) == [""] + parts[1..];
      assert Join(parts, sep) == parts[0] + [sep] + t;
      SplitPrefix(parts[0], [sep] + t, sep);
      var st := Split([sep] + t, sep);
      assert st[0] == "" && st[1..] == parts[1..];
      assert parts[0] + st[0] == parts[0];
      assert parts[0] + [sep] + t == parts[0] + ([sep] + t);
      assert parts == [parts[0]] + parts[1..];
    }
  }

  /** A string with no separator is a single piece. */
  lemma {:induction false} SplitNone(s: string, sep: char)
    requires sep !in s
    ensures Split(s, sep) == [s]
  {
    SplitPrefix(s, "", sep);
    assert s + "" == s;
  }

  /** A string with a separator has at least two pieces. */
  lemma {:induction false} SplitSome(s: string, sep: char)
    requires sep in s
    ensures |Split(s, sep)| >= 2
    decreases |s|
  {
    if s[0] != sep {
      SplitSome(s[1..], sep);
    }
  }

  /** Joining all but the last part, then the last part, is joining them all. */
  lemma {:induction false} JoinLast(parts: seq<string>, sep: char)
    requires |parts| >= 2
    ensures Join(parts[..|parts| - 1], sep) + [sep] + parts[|parts| - 1] == Join(parts, sep)
    decreases |parts|
  {
    if |parts| > 2 {
      var tail := parts[1..];
      JoinLast(tail, sep);
      assert parts[..|parts| - 1][1..] == tail[..|tail| - 1];
      assert tail[|tail| - 1] == parts[|parts| - 1];
    } else {
      assert parts[..1] == [parts[0]];
    }
  }

  // ---------------------------------------------------------------------------
  // pathToRootLeaf

  /** The leaf never contains '/'. */
  lemma LeafHasNoSlash(path: string)
    ensures '/' !in PathToRootLeaf(path).1
  {
  }

  /** A path with a '/' is its root, a '/', and its leaf. */
  lemma RootSlashLeaf(path: string)
    requires '/' in path
    ensures PathToRootLeaf(path).0 + "/" + PathToRootLeaf(path).1 == path
  {
    SplitSome(path, '/');
    JoinLast(Split(path, '/'), '/');
    JoinSplit(path, '/');
  }

  /** A path without '/' is all leaf, with an empty root. */
  lemma NoSlashIsLeaf(path: string)
    requires '/' !in path
    ensures PathToRootLeaf(path) == ("", path)
  {
    SplitNone(path, '/');
  }

  /** The root is the text before the last '/': the '/' follows it and none comes after. */
  lemma RootBeforeLastSlash(path: string)
    requires '/' in path
    ensures var root := PathToRootLeaf(path).0;
      |root| < |path| && path[..|root|] == root && path[|root|] == '/' && '/' !in path[|root| + 1..]
  {
    RootSlashLeaf(path);
    var (root, leaf) := PathToRootLeaf(path);
    assert path == root + "/" + leaf;
    assert path[|root| + 1..] == leaf;
  }

  /** A trailing '/' leaves an empty leaf. */
  lemma TrailingSlash()
    ensures PathToRootLeaf("a/") == ("a", "")
  {
    var a, slash := "a", "/";
    assert Split("", '/') == [""];
    assert "a/" == a + slash;
    SplitPrefix(a, slash, '/');
    assert slash[0] == '/' && slash[1..] == "";
    assert Split(slash, '/') == ["", ""];
    assert a + "" == a;
    assert Split("a/", '/') == ["a", ""];
    assert ["a", ""][..1] == ["a"];
  }
}
