/** Node's POSIX `path.extname`, `path.basename(p, suffix)` and `path.join`
    (join without normalisation), as the server uses them on file names. */
module NodePath {
  import opened JsText

  /** Index of the last occurrence of `c` in `s`. */
  function LastIndexOfChar(s: string, c: char): (r: Option<nat>)
    ensures r.Some? ==> r.value < |s| && s[r.value] == c && c !in s[r.value + 1..]
    ensures r.None? ==> c !in s
  {
    if s == [] then None
    else if s[|s| - 1] == c then Some(|s| - 1)
    else
      var r := LastIndexOfChar(s[..|s| - 1], c);
      assert r.Some? ==> s[r.value + 1..] == s[..|s| - 1][r.value + 1..] + [s[|s| - 1]];
      r
  }

  lemma LastIndexOfCharAt(x: string, c: char, y: string)
    requires c !in y
    ensures LastIndexOfChar(x + [c] + y, c) == Some(|x|)
  {
    var s := x + [c] + y;
    assert s[|x|] == c;
    assert s[|x| + 1..] == y;
  }

  /** The path without its trailing '/' characters. */
  function StripTrailingSlashes(p: string): (r: string)
    ensures |r| <= |p| && r == p[..|r|]
    ensures r == [] || r[|r| - 1] != '/'
    ensures '/' !in p ==> r == p
  {
    if p != [] && p[|p| - 1] == '/' then StripTrailingSlashes(p[..|p| - 1]) else p
  }

  /** The text after the last '/'. */
  function LastSegment(t: string): (r: string)
    ensures |r| <= |t| && r == t[|t| - |r|..]
    ensures '/' !in r
    ensures '/' !in t ==> r == t
  {
    match LastIndexOfChar(t, '/')
    case None => t
    case Some(i) => t[i + 1..]
  }

  /** The extension of one path segment: from its last '.' on, unless that dot
      is the segment's first character or the segment is "..". */
  function ExtOfSegment(seg: string): string {
    match LastIndexOfChar(seg, '.')
    case None => ""
    case Some(d) => if d == 0 || seg == ".." then "" else seg[d..]
  }

  /** path.extname: the extension of the last segment, trailing slashes ignored. */
  function ExtName(p: string): (r: string)
    ensures r == "" || (r[0] == '.' && '.' !in r[1..] && '/' !in r)
  {
    var seg := LastSegment(StripTrailingSlashes(p));
    var r := ExtOfSegment(seg);
    assert r != "" ==> r == seg[LastIndexOfChar(seg, '.').value..];
    r
  }

  /** path.basename(p, suffix): the last segment, trailing slashes ignored,
      with `suffix` removed when the segment ends with it and is longer than it
      (Node returns "" when the path equals the suffix, and the rest of the path
      when a segment shorter than the suffix is a tail of it). */
  function BaseName(p: string, suffix: string): string {
    var t := StripTrailingSlashes(p);
    var seg := LastSegment(t);
    if |suffix| == 0 || |suffix| > |p| then seg
    else if p == suffix then ""
    else if |seg| > |suffix| && seg[|seg| - |suffix|..] == suffix then seg[..|seg| - |suffix|]
    else if |seg| < |suffix| && suffix[|suffix| - |seg|..] == seg then p[|t| - |seg|..]
    else seg
  }

  /** path.join of a directory and a file name (normalisation not modelled). */
  function Join(dir: string, name: string): (r: string)
    ensures |r| > |dir| && r[..|dir| + 1] == dir + "/" && r[|dir| + 1..] == name
  {
    dir + "/" + name
  }

  /** For a file name (no '/'), basename(f, extname(f)) + extname(f) == f. */
  lemma BaseNamePlusExtName(f: string)
    requires '/' !in f
    ensures BaseName(f, ExtName(f)) + ExtName(f) == f
    ensures |ExtName(f)| < |f| || f == ""
  {
    var ext := ExtName(f);
    assert StripTrailingSlashes(f) == f && LastSegment(f) == f;
    if ext != "" {
      var d := LastIndexOfChar(f, '.').value;
      assert ext == f[d..] && d > 0;
      assert f[..d] + f[d..] == f;
    }
  }

  /** The extension of `a.b` is `.b` when `b` holds no dot. */
  lemma ExtNameAfterDot(a: string, b: string)
    requires |a| > 0 && '/' !in a && '/' !in b && '.' !in b
    requires a + "." + b != ".."
    ensures ExtName(a + "." + b) == "." + b
  {
    var s := a + "." + b;
    assert '/' !in s by {
      assert forall i :: 0 <= i < |s| ==> s[i] == (if i < |a| then a[i] else if i == |a| then '.' else b[i - |a| - 1]);
    }
    assert StripTrailingSlashes(s) == s && LastSegment(s) == s;
    LastIndexOfCharAt(a, '.', b);
    assert s[|a|..] == "." + b;
  }

  /** Without a trailing '/', the extension is a suffix of the path. */
  lemma ExtNameIsSuffix(p: string)
    requires p != [] && p[|p| - 1] != '/'
    ensures |ExtName(p)| <= |p| && ExtName(p) == p[|p| - |ExtName(p)|..]
  {
    assert StripTrailingSlashes(p) == p;
    var seg := LastSegment(p);
    assert seg == p[|p| - |seg|..];
    match LastIndexOfChar(seg, '.')
    case None =>
    case Some(d) =>
      if d != 0 && seg != ".." {
        assert seg[d..] == p[|p| - |seg| + d..];
      }
  }

  /** A nonempty extension ends with the path's last character, when that is
      not a '/'. */
  lemma ExtNameLastChar(p: string)
    requires p != [] && p[|p| - 1] != '/'
    ensures ExtName(p) == "" || ExtName(p)[|ExtName(p)| - 1] == p[|p| - 1]
  {
    ExtNameIsSuffix(p);
  }
}
