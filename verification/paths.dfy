/** The parts of `std::filesystem::path` the source relies on, for POSIX-style
    paths with '/' as the only separator: `filename()`, `extension()`,
    `replace_extension()`, `parent_path()` and `+=`. */
module Paths {
  import opened Wrappers

  /** Index of the last occurrence of `c` in `s`. */
  function LastIndex(s: string, c: char): (r: Option<nat>)
    ensures r.None? ==> forall i :: 0 <= i < |s| ==> s[i] != c
    ensures r.Some? ==> r.value < |s| && s[r.value] == c
    ensures r.Some? ==> forall j :: r.value < j < |s| ==> s[j] != c
  {
    if |s| == 0 then None
    else if s[|s| - 1] == c then Some(|s| - 1)
    else LastIndex(s[..|s| - 1], c)
  }

  /** Appending text free of `c` does not move the last `c`. */
  lemma {:induction false} LastIndexAppendAbsent(a: string, b: string, c: char)
    requires forall i :: 0 <= i < |b| ==> b[i] != c
    ensures LastIndex(a + b, c) == LastIndex(a, c)
    decreases |b|
  {
    if |b| == 0 {
      assert a + b == a;
    } else {
      var b' := b[..|b| - 1];
      assert (a + b)[..|a + b| - 1] == a + b';
      LastIndexAppendAbsent(a, b', c);
    }
  }

  /** Appending text whose only `c` is its first character moves the last
      `c` to the join point. */
  lemma LastIndexAppendLeading(a: string, b: string, c: char)
    requires 0 < |b| && b[0] == c
    requires forall i :: 1 <= i < |b| ==> b[i] != c
    ensures LastIndex(a + b, c) == Some(|a|)
  {
    var tail := b[1..];
    assert a + b == (a + [c]) + tail;
    LastIndexAppendAbsent(a + [c], tail, c);
  }

  /** `path::filename()`: everything after the last separator. */
  function Filename(p: string): (f: string)
    ensures forall i :: 0 <= i < |f| ==> f[i] != '/'
    ensures |f| <= |p| && p[|p| - |f|..] == f
  {
    match LastIndex(p, '/')
    case None => p
    case Some(k) => p[k + 1..]
  }

  /** `path::extension()`: from the last period of the file name, unless that
      period starts the name or the name is "." or "..". */
  function Extension(p: string): (e: string)
    ensures |e| < |Filename(p)| || e == ""
    ensures e != "" ==> e[0] == '.' && Filename(p)[|Filename(p)| - |e|..] == e
    ensures forall i :: 1 <= i < |e| ==> e[i] != '.'
  {
    var f := Filename(p);
    if f == "." || f == ".." then ""
    else
      match LastIndex(f, '.')
      case None => ""
      case Some(d) => if d == 0 then "" else f[d..]
  }

  /** A replacement extension of the shape the source uses (".spv", ".frag"):
      a period followed by at least one character, none a period or a separator. */
  predicate SimpleExtension(ext: string) {
    2 <= |ext| && ext[0] == '.'
    && forall i :: 1 <= i < |ext| ==> ext[i] != '.' && ext[i] != '/'
  }

  /** Appending text without separators extends the file name. */
  lemma FilenameAppend(q: string, tail: string)
    requires forall i :: 0 <= i < |tail| ==> tail[i] != '/'
    ensures Filename(q + tail) == Filename(q) + tail
  {
    LastIndexAppendAbsent(q, tail, '/');
    var r := LastIndex(q, '/');
    if r.Some? {
      var k := r.value;
      assert Filename(q + tail) == (q + tail)[k + 1..];
      assert (q + tail)[k + 1..] == q[k + 1..] + tail;
    }
  }

  /** Appending a simple extension to a path with a non-empty file name makes
      that the path's extension. */
  lemma ExtensionOfAppended(q: string, ext: string)
    requires SimpleExtension(ext)
    requires Filename(q) != ""
    ensures Extension(q + ext) == ext
  {
    var fq := Filename(q);
    assert forall i :: 0 <= i < |ext| ==> ext[i] != '/';
    FilenameAppend(q, ext);
    var f := fq + ext;
    assert Filename(q + ext) == f;
    assert |f| >= 3;
    LastIndexAppendLeading(fq, ext, '.');
    assert f[|fq|..] == ext;
  }

  /** `path::replace_extension(ext)` for a replacement starting with '.':
      the current extension is dropped and `ext` appended. */
  function ReplaceExtension(p: string, ext: string): string
    requires SimpleExtension(ext)
  {
    p[..|p| - |Extension(p)|] + ext
  }

  /** After `replace_extension(ext)` the extension is `ext` and the stem of the
      file name is unchanged. */
  lemma ReplaceExtensionSets(p: string, ext: string)
    requires SimpleExtension(ext)
    requires Filename(p) != ""
    ensures Extension(ReplaceExtension(p, ext)) == ext
    ensures var f := Filename(ReplaceExtension(p, ext));
            f == Filename(p)[..|Filename(p)| - |Extension(p)|] + ext
  {
    var q := p[..|p| - |Extension(p)|];
    StemKeepsFilename(p);
    ExtensionOfAppended(q, ext);
    assert forall i :: 0 <= i < |ext| ==> ext[i] != '/';
    FilenameAppend(q, ext);
  }

  /** Removing the extension leaves a non-empty file name (the stem). */
  lemma StemKeepsFilename(p: string)
    requires Filename(p) != ""
    ensures Filename(p[..|p| - |Extension(p)|]) == Filename(p)[..|Filename(p)| - |Extension(p)|]
    ensures Filename(p[..|p| - |Extension(p)|]) != ""
  {
    var e := Extension(p);
    var f := Filename(p);
    var q := p[..|p| - |e|];
    assert |e| < |f|;
    assert p == q + e;
    forall i | 0 <= i < |e| ensures e[i] != '/' {
      assert e[i] == f[|f| - |e| + i];
    }
    FilenameAppend(q, e);
    assert f == Filename(q) + e;
    assert f[..|f| - |e|] == Filename(q);
  }

  /** `path::parent_path()`: everything before the last separator, the root
      "/" when that separator is the first character, and "" for a bare name. */
  function ParentPath(p: string): (d: string)
    ensures |d| <= |p|
  {
    match LastIndex(p, '/')
    case None => ""
    case Some(k) => if k == 0 then "/" else p[..k]
  }

  /** `operator/` on a directory and a file name. */
  function Join(dir: string, name: string): string {
    if dir == "" then name
    else if dir == "/" then "/" + name
    else dir + "/" + name
  }

  /** Splitting a path into directory and file name loses nothing. */
  lemma SplitRejoins(p: string)
    requires !(2 <= |p| && p[0] == '/' && p[1] == '/')
    ensures Join(ParentPath(p), Filename(p)) == p
  {
    var r := LastIndex(p, '/');
    if r.Some? {
      var k := r.value;
      if k == 0 {
        assert p == "/" + p[1..];
      } else {
        assert p[..k] != "/";
        assert p == p[..k] + "/" + p[k + 1..];
      }
    }
  }
}
