/**
 * Paths as the download listener handles them: `split("/")`, `join("/")`,
 * and `replaceLastPathSegment`, which overwrites the last element of the
 * split and joins again.
 */
module PathSegment {
  import opened JsText

  /** `s.split("/")`: the slash-free pieces between slashes; never empty, [""] for "". */
  function Split(s: JsString): (parts: seq<JsString>)
    ensures 1 <= |parts|
    ensures forall k :: 0 <= k < |parts| ==> Slash !in parts[k]
  {
    if s == [] then [[]]
    else
      var rest := Split(s[1..]);
      if s[0] == Slash then [[]] + rest
      else [[s[0]] + rest[0]] + rest[1..]
  }

  /** `parts.join("/")`. */
  function Join(parts: seq<JsString>): JsString {
    if |parts| == 0 then []
    else if |parts| == 1 then parts[0]
    else parts[0] + [Slash] + Join(parts[1..])
  }

  /** Joining the pieces of a split gives back the path. */
  lemma {:induction false} JoinSplit(s: JsString)
    ensures Join(Split(s)) == s
    decreases |s|
  {
    if s != [] {
      JoinSplit(s[1..]);
      var rest := Split(s[1..]);
      if s[0] == Slash {
        assert Split(s) == [[]] + rest;
        assert Join(Split(s)) == [Slash] + Join(rest);
      } else {
        var parts := Split(s);
        if |rest| == 1 {
          assert Join(parts) == [s[0]] + rest[0];
        } else {
          assert parts[1..] == rest[1..];
          assert Join(parts) == [s[0]] + rest[0] + [Slash] + Join(rest[1..]);
          assert Join(rest) == rest[0] + [Slash] + Join(rest[1..]);
        }
      }
      assert s == [s[0]] + s[1..];
    }
  }

  /** A path without a slash is one segment. */
  lemma {:induction false} SplitWithoutSlash(s: JsString)
    requires Slash !in s
    ensures Split(s) == [s]
    decreases |s|
  {
    if s != [] {
      SplitWithoutSlash(s[1..]);
      assert s == [s[0]] + s[1..];
    }
  }

  /** Splitting at a slash splits the two sides separately. */
  lemma {:induction false} SplitAtSlash(a: JsString, b: JsString)
    ensures Split(a + [Slash] + b) == Split(a) + Split(b)
    decreases |a|
  {
    var s := a + [Slash] + b;
    if a == [] {
      assert s == [Slash] + b;
      assert s[1..] == b;
    } else {
      assert s[0] == a[0];
      assert s[1..] == a[1..] + [Slash] + b;
      SplitAtSlash(a[1..], b);
      var rest := Split(a[1..]);
      assert Split(s[1..]) == rest + Split(b);
    }
  }

  /** Joining one more piece appends a slash and that piece. */
  lemma {:induction false} JoinAppend(parts: seq<JsString>, last: JsString)
    requires 1 <= |parts|
    ensures Join(parts + [last]) == Join(parts) + [Slash] + last
    decreases |parts|
  {
    if |parts| == 1 {
      assert (parts + [last])[1..] == [last];
    } else {
      assert (parts + [last])[1..] == parts[1..] + [last];
      JoinAppend(parts[1..], last);
    }
  }

  /** Splitting slash-free pieces joined by slashes gives back the pieces. */
  lemma {:induction false} SplitJoin(parts: seq<JsString>)
    requires 1 <= |parts|
    requires forall k :: 0 <= k < |parts| ==> Slash !in parts[k]
    ensures Split(Join(parts)) == parts
    decreases |parts|
  {
    if |parts| == 1 {
      SplitWithoutSlash(parts[0]);
    } else {
      SplitJoin(parts[1..]);
      SplitWithoutSlash(parts[0]);
      SplitAtSlash(parts[0], Join(parts[1..]));
      assert parts == [parts[0]] + parts[1..];
    }
  }

  /** The prefix of s up to and including its last slash; empty when s has none. */
  function Directory(s: JsString): (dir: JsString)
    ensures dir <= s
    ensures dir == [] || dir[|dir| - 1] == Slash
    ensures Slash !in s[|dir|..]
  {
    if s == [] then []
    else if s[|s| - 1] == Slash then s
    else
      var dir := Directory(s[..|s| - 1]);
      assert s[|dir|..] == s[..|s| - 1][|dir|..] + [s[|s| - 1]];
      dir
  }

  /** Directory is the longest prefix ending in a slash. */
  lemma {:induction false} DirectoryOfSplitPath(dir: JsString, base: JsString)
    requires dir == [] || dir[|dir| - 1] == Slash
    requires Slash !in base
    ensures Directory(dir + base) == dir
    decreases |base|
  {
    var s := dir + base;
    if base == [] {
      assert s == dir;
    } else {
      assert s[..|s| - 1] == dir + base[..|base| - 1];
      assert s[|s| - 1] == base[|base| - 1];
      DirectoryOfSplitPath(dir, base[..|base| - 1]);
    }
  }

  /** The last `/`-segment, what the listener calls the original base. */
  function LastSegment(path: JsString): JsString {
    var parts := Split(path);
    parts[|parts| - 1]
  }

  /** `replaceLastPathSegment`. */
  function ReplaceLastPathSegment(path: JsString, newName: JsString): JsString {
    var parts := Split(path);
    Join(parts[..|parts| - 1] + [newName])
  }

  /** The split of a path is the split of its directory, then its last segment. */
  lemma SplitDirectory(path: JsString)
    ensures Directory(path) != [] ==>
      Split(path) == Split(Directory(path)[..|Directory(path)| - 1]) + [path[|Directory(path)|..]]
    ensures Directory(path) == [] ==> Split(path) == [path]
  {
    var dir := Directory(path);
    var base := path[|dir|..];
    SplitWithoutSlash(base);
    if dir == [] {
      assert path == base;
    } else {
      var front := dir[..|dir| - 1];
      assert path == front + [Slash] + base;
      SplitAtSlash(front, base);
    }
  }

  /** The last segment is what follows the last slash. */
  lemma LastSegmentFollowsDirectory(path: JsString)
    ensures path == Directory(path) + LastSegment(path)
    ensures Slash !in LastSegment(path)
  {
    SplitDirectory(path);
  }

  /** Replacing the last segment keeps everything up to the last slash and appends the new name. */
  lemma ReplaceKeepsDirectory(path: JsString, newName: JsString)
    ensures ReplaceLastPathSegment(path, newName) == Directory(path) + newName
  {
    SplitDirectory(path);
    var dir := Directory(path);
    var parts := Split(path);
    if dir != [] {
      var front := dir[..|dir| - 1];
      assert parts[..|parts| - 1] == Split(front);
      JoinAppend(Split(front), newName);
      JoinSplit(front);
      assert dir == front + [Slash];
    }
  }

  /** A path without a slash is replaced by the new name outright. */
  lemma ReplaceBareName(path: JsString, newName: JsString)
    requires Slash !in path
    ensures ReplaceLastPathSegment(path, newName) == newName
  {
    SplitWithoutSlash(path);
  }

  /**
   * A new name without a slash keeps the number of segments, keeps every
   * segment but the last, and becomes the last one.
   */
  lemma ReplaceKeepsSegments(path: JsString, newName: JsString)
    requires Slash !in newName
    ensures Split(ReplaceLastPathSegment(path, newName)) == Split(path)[..|Split(path)| - 1] + [newName]
    ensures |Split(ReplaceLastPathSegment(path, newName))| == |Split(path)|
    ensures LastSegment(ReplaceLastPathSegment(path, newName)) == newName
  {
    var parts := Split(path);
    var replaced := parts[..|parts| - 1] + [newName];
    assert forall k :: 0 <= k < |replaced| ==> Slash !in replaced[k] by {
      forall k | 0 <= k < |replaced| ensures Slash !in replaced[k] {
        if k < |parts| - 1 {
          assert replaced[k] == parts[k];
        }
      }
    }
    SplitJoin(replaced);
  }

  /** ("a/b/c.txt", "d.txt") gives "a/b/d.txt"; ("c.txt", "d.txt") gives "d.txt". */
  lemma ReplaceExamples()
    ensures ReplaceLastPathSegment(Ascii("a/b/c.txt"), Ascii("d.txt")) == Ascii("a/b/d.txt")
    ensures ReplaceLastPathSegment(Ascii("c.txt"), Ascii("d.txt")) == Ascii("d.txt")
  {
    var path := Ascii("a/b/c.txt");
    assert path == Ascii("a/b/") + Ascii("c.txt");
    DirectoryOfSplitPath(Ascii("a/b/"), Ascii("c.txt"));
    ReplaceKeepsDirectory(path, Ascii("d.txt"));
    assert Ascii("a/b/d.txt") == Ascii("a/b/") + Ascii("d.txt");
    ReplaceBareName(Ascii("c.txt"), Ascii("d.txt"));
  }
}
