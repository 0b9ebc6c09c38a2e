/** The two `str` operations the exporter uses: `split` on one separator, and its inverse `join`. */
module PyStr {

  /** `s.split(sep)`: the pieces between separators, always at least one (`"".split("/") == [""]`). */
  function Split(s: string, sep: char): (parts: seq<string>)
    ensures |parts| >= 1
    ensures forall i | 0 <= i < |parts| :: sep !in parts[i]
  {
    if s == [] then [""]
    else
      var rest := Split(s[1..], sep);
      if s[0] == sep then [""] + rest
      else [[s[0]] + rest[0]] + rest[1..]
  }

  /** `sep.join(parts)`. */
  function Join(parts: seq<string>, sep: char): string {
    if parts == [] then ""
    else if |parts| == 1 then parts[0]
    else parts[0] + [sep] + Join(parts[1..], sep)
  }

  /** Joining the pieces of a split gives back the original string. */
  lemma {:induction false} JoinSplit(s: string, sep: char)
    ensures Join(Split(s, sep), sep) == s
  {
    if s != [] {
      var rest := Split(s[1..], sep);
      JoinSplit(s[1..], sep);
      if s[0] != sep {
        var parts := Split(s, sep);
        assert parts[1..] == rest[1..];
        if |rest| > 1 {
          assert Join(rest, sep) == rest[0] + [sep] + Join(rest[1..], sep);
        }
        assert s == [s[0]] + s[1..];
      } else {
        assert s == [sep] + s[1..];
      }
    }
  }

  /** A string without the separator splits into itself. */
  lemma {:induction false} SplitNoSeparator(a: string, sep: char)
    requires sep !in a
    ensures Split(a, sep) == [a]
  {
    if a != [] {
      SplitNoSeparator(a[1..], sep);
      assert a == [a[0]] + a[1..];
    }
  }

  /** Splitting `a + sep + t`, where `a` holds no separator, yields `a` and then the pieces of `t`. */
  lemma {:induction false} SplitAtFirstSeparator(a: string, sep: char, t: string)
    requires sep !in a
    ensures Split(a + [sep] + t, sep) == [a] + Split(t, sep)
  {
    if a == [] {
      assert a + [sep] + t == [sep] + t;
      assert ([sep] + t)[1..] == t;
    } else {
      var s := a + [sep] + t;
      assert s[1..] == a[1..] + [sep] + t;
      SplitAtFirstSeparator(a[1..], sep, t);
      assert [a[0]] + a[1..] == a;
    }
  }

  /** Splitting a join of separator-free pieces gives back the pieces. */
  lemma {:induction false} SplitJoin(parts: seq<string>, sep: char)
    requires |parts| >= 1
    requires forall i | 0 <= i < |parts| :: sep !in parts[i]
    ensures Split(Join(parts, sep), sep) == parts
  {
    if |parts| == 1 {
      SplitNoSeparator(parts[0], sep);
    } else {
      SplitJoin(parts[1..], sep);
      SplitAtFirstSeparator(parts[0], sep, Join(parts[1..], sep));
      assert parts == [parts[0]] + parts[1..];
    }
  }

  /** `path.split('/')[-1]`: the last `/`-separated segment of `path`. */
  function Basename(path: string): (b: string)
    ensures '/' !in b
    ensures |b| <= |path|
  {
    LastPieceIsSuffix(path, '/');
    var parts := Split(path, '/');
    parts[|parts| - 1]
  }

  /**
   * The basename is the suffix of `path` after its last `/`: it holds no `/`,
   * it ends `path`, and what precedes it is empty or ends in `/`. A path
   * without `/` is its own basename.
   */
  lemma {:induction false} BasenameIsLastSegment(path: string)
    ensures var b := Basename(path);
      && '/' !in b
      && |b| <= |path| && path[|path| - |b|..] == b
      && (|b| < |path| ==> path[|path| - |b| - 1] == '/')
      && ('/' !in path ==> b == path)
  {
    LastPieceIsSuffix(path, '/');
    if '/' !in path {
      SplitNoSeparator(path, '/');
    }
  }

  lemma {:induction false} LastPieceIsSuffix(s: string, sep: char)
    ensures var parts := Split(s, sep); var b := parts[|parts| - 1];
      && |b| <= |s| && s[|s| - |b|..] == b
      && (|b| < |s| ==> s[|s| - |b| - 1] == sep)
      && (|b| < |s| <==> |parts| > 1)
  {
    if s != [] {
      LastPieceIsSuffix(s[1..], sep);
      var rest := Split(s[1..], sep);
      var b := rest[|rest| - 1];
      assert s[1..][|s[1..]| - |b|..] == s[|s| - |b|..];
      if s[0] == sep {
        assert Split(s, sep) == [""] + rest;
      } else if |rest| == 1 {
        assert Split(s, sep) == [[s[0]] + b];
        assert s == [s[0]] + s[1..];
      } else {
        assert Split(s, sep) == [[s[0]] + rest[0]] + rest[1..];
        assert s[|s| - |b| - 1] == s[1..][|s[1..]| - |b| - 1];
      }
    }
  }
}
