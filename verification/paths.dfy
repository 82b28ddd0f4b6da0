/** Slash-separated paths and S3 keys, as the modelled code handles them:
    Python's `str.split("/")`, the inverse `"/".join(...)`, the last segment
    of a path, and POSIX `os.path.join`. */
module Paths {

  /** Number of '/' characters in `s`. */
  function Slashes(s: string): (n: nat)
    ensures n == 0 <==> '/' !in s
  {
    if |s| == 0 then 0
    else
      assert s == [s[0]] + s[1..];
      (if s[0] == '/' then 1 else 0) + Slashes(s[1..])
  }

  /** The segments of `[c] + t`, given the segments of `t`: a separator
      starts a new empty first segment, any other character extends the
      first one. */
  function Prepend(c: char, parts: seq<string>): seq<string>
    requires |parts| > 0
  {
    if c == '/' then [""] + parts else [[c] + parts[0]] + parts[1..]
  }

  /** Python's `s.split("/")`: every separator ends a segment, so empty
      segments (leading, doubled or trailing separators) are kept and the
      result is never empty. */
  function Split(s: string): (parts: seq<string>)
    ensures |parts| == Slashes(s) + 1
    ensures forall i :: 0 <= i < |parts| ==> '/' !in parts[i]
    decreases |s|
  {
    if |s| == 0 then [""] else Prepend(s[0], Split(s[1..]))
  }

  /** Python's `"/".join(parts)`. */
  function Unsplit(parts: seq<string>): string
    requires |parts| > 0
  {
    if |parts| == 1 then parts[0] else parts[0] + "/" + Unsplit(parts[1..])
  }

  /** A string without separators is a single segment. */
  lemma {:induction false} SplitSlashFree(s: string)
    requires '/' !in s
    ensures Split(s) == [s]
  {
    if |s| > 0 {
      assert '/' !in s[1..];
      SplitSlashFree(s[1..]);
      assert [s[0]] + s[1..] == s;
    }
  }

  /** One step of `Split`. */
  lemma SplitCons(c: char, t: string)
    ensures Split([c] + t) == Prepend(c, Split(t))
  {
    assert ([c] + t)[0] == c;
    assert ([c] + t)[1..] == t;
  }

  /** Prepending a character only touches the first segment. */
  lemma PrependAppend(c: char, p: seq<string>, q: seq<string>)
    requires |p| > 0
    ensures Prepend(c, p + q) == Prepend(c, p) + q
  {
    if c != '/' {
      assert (p + q)[0] == p[0];
      assert (p + q)[1..] == p[1..] + q;
    }
  }

  /** Splitting at an explicit separator splits the two sides apart. */
  lemma {:induction false} SplitConcat(a: string, b: string)
    ensures Split(a + "/" + b) == Split(a) + Split(b)
  {
    if |a| == 0 {
      assert a + "/" + b == ['/'] + b;
      SplitCons('/', b);
    } else {
      var c, t := a[0], a[1..];
      SplitConcat(t, b);
      assert a == [c] + t;
      assert a + "/" + b == [c] + (t + "/" + b);
      SplitCons(c, t + "/" + b);
      SplitCons(c, t);
      PrependAppend(c, Split(t), Split(b));
    }
  }

  /** Joining the segments of a string with "/" gives the string back. */
  lemma {:induction false} UnsplitSplit(s: string)
    ensures Unsplit(Split(s)) == s
    decreases |s|
  {
    if |s| > 0 {
      var rest := Split(s[1..]);
      UnsplitSplit(s[1..]);
      if s[0] == '/' {
        assert Split(s) == [""] + rest;
        assert ([""] + rest)[1..] == rest;
        assert s == "" + "/" + s[1..];
      } else {
        var p := Split(s);
        assert p == [[s[0]] + rest[0]] + rest[1..];
        if |rest| == 1 {
          assert s == [s[0]] + s[1..];
        } else {
          assert p[1..] == rest[1..];
          assert Unsplit(rest) == rest[0] + "/" + Unsplit(rest[1..]);
          assert s == [s[0]] + s[1..];
        }
      }
    }
  }

  /** Splitting a "/"-join of separator-free segments gives the segments
      back. */
  lemma {:induction false} SplitUnsplit(parts: seq<string>)
    requires |parts| > 0
    requires forall i :: 0 <= i < |parts| ==> '/' !in parts[i]
    ensures Split(Unsplit(parts)) == parts
  {
    SplitSlashFree(parts[0]);
    if |parts| > 1 {
      SplitUnsplit(parts[1..]);
      SplitConcat(parts[0], Unsplit(parts[1..]));
      assert parts == [parts[0]] + parts[1..];
    }
  }

  /** Appending one segment to a join appends a separator and the
      segment. */
  lemma {:induction false} UnsplitSnoc(parts: seq<string>, x: string)
    requires |parts| > 0
    ensures Unsplit(parts + [x]) == Unsplit(parts) + "/" + x
  {
    var q := parts + [x];
    assert q[0] == parts[0];
    if |parts| == 1 {
      assert q[1..] == [x];
    } else {
      assert q[1..] == parts[1..] + [x];
      UnsplitSnoc(parts[1..], x);
    }
  }

  /** The last segment of a split is a suffix of the string, preceded by a
      separator unless it is the whole string. */
  lemma SplitLastIsSuffix(s: string)
    ensures var parts := Split(s); var name := parts[|parts| - 1];
      |name| <= |s| && s[|s| - |name|..] == name &&
      (|name| < |s| ==> s[|s| - |name| - 1] == '/')
  {
    var parts := Split(s);
    var n := |parts|;
    UnsplitSplit(s);
    if n > 1 {
      assert parts == parts[..n - 1] + [parts[n - 1]];
      UnsplitSnoc(parts[..n - 1], parts[n - 1]);
      assert s == Unsplit(parts[..n - 1]) + "/" + parts[n - 1];
    }
  }

  /** Python's `s.split("/")[-1]`: the text after the last separator. */
  function LastSegment(s: string): (name: string)
    ensures '/' !in name
  {
    var parts := Split(s);
    parts[|parts| - 1]
  }

  /** The last segment is the longest separator-free suffix: all of `s`,
      or the part after its last '/'. */
  lemma LastSegmentIsSuffix(s: string)
    ensures var name := LastSegment(s);
      |name| <= |s| && s[|s| - |name|..] == name &&
      (|name| < |s| ==> s[|s| - |name| - 1] == '/')
  {
    SplitLastIsSuffix(s);
  }

  /** A path that `os.path.join` treats as absolute. */
  predicate IsAbsolute(p: string) {
    |p| > 0 && p[0] == '/'
  }

  /** The segments a directory contributes to a path joined under it: a
      trailing separator adds no segment of its own, and "" adds none. */
  function DirSegments(a: string): seq<string> {
    var parts := Split(a);
    if parts[|parts| - 1] == "" then parts[..|parts| - 1] else parts
  }

  /** POSIX `os.path.join(a, b)` for two components: an absolute `b`
      replaces `a`; otherwise a separator is inserted unless `a` is empty
      or already ends in one. Three components join left to right. The
      result holds all of `b`, all of `a` unless `b` is absolute, and at
      most one added separator. */
  function Join(a: string, b: string): (j: string)
    ensures |b| <= |j| <= |a| + 1 + |b|
    ensures !IsAbsolute(b) ==> |a| + |b| <= |j|
  {
    if IsAbsolute(b) then b
    else if |a| == 0 || a[|a| - 1] == '/' then a + b
    else a + "/" + b
  }

  /** A joined path ends with its second component, and starts with the
      first unless the second is absolute. */
  lemma JoinAffixes(a: string, b: string)
    ensures var r := Join(a, b);
      |b| <= |r| && r[|r| - |b|..] == b &&
      (IsAbsolute(b) ==> r == b) &&
      (!IsAbsolute(b) ==> |a| <= |r| && r[..|a|] == a)
  {
    var r := Join(a, b);
    if !IsAbsolute(b) && !(|a| == 0 || a[|a| - 1] == '/') {
      assert r == a + ("/" + b);
    }
  }

  /** Joining under a directory appends the segments of a relative path to
      the directory's own segments. */
  lemma JoinSplit(a: string, b: string)
    requires !IsAbsolute(b)
    ensures Split(Join(a, b)) == DirSegments(a) + Split(b)
  {
    if |a| == 0 {
      assert Join(a, b) == b;
    } else if a[|a| - 1] == '/' {
      var a' := a[..|a| - 1];
      assert a == a' + "/" + "";
      SplitConcat(a', "");
      assert Split(a) == Split(a') + [""];
      assert DirSegments(a) == Split(a');
      assert Join(a, b) == a' + "/" + b;
      SplitConcat(a', b);
    } else {
      SplitConcat(a, b);
      LastSegmentIsSuffix(a);
      assert LastSegment(a) != "";
    }
  }

  /** Joining a separator-free file name under a directory: the name becomes
      the last segment and the directory's segments come before it. */
  lemma JoinName(dir: string, name: string)
    requires '/' !in name
    ensures Split(Join(dir, name)) == DirSegments(dir) + [name]
    ensures LastSegment(Join(dir, name)) == name
  {
    assert !IsAbsolute(name) by {
      if |name| > 0 { assert name[0] in name; }
    }
    JoinSplit(dir, name);
    SplitSlashFree(name);
  }
}
