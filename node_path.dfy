/**
 * The two functions of Node's `path` module that the server calls.
 *
 * `path.resolve` canonicalises paths against the process's working directory;
 * the model takes it as a parameter and says nothing about it.  `path.extname`
 * is defined here by Node's rule for POSIX paths.
 */
module NodePath {
  import opened Wrappers

  /** `path.resolve(...segments)`, supplied by the caller. */
  type Resolver = seq<string> -> string

  const Separator := '/'

  /** `s` ends with `e`. */
  predicate IsSuffix(e: string, s: string) {
    |e| <= |s| && s[|s| - |e|..] == e
  }

  /** The index of the last occurrence of `c` in `s`, if there is one. */
  function LastIndexOf(s: string, c: char): (r: Option<nat>)
    ensures r.Some? ==> r.value < |s| && s[r.value] == c
    ensures r.Some? ==> forall j :: r.value < j < |s| ==> s[j] != c
    ensures r.None? ==> forall j :: 0 <= j < |s| ==> s[j] != c
  {
    if |s| == 0 then None
    else if s[|s| - 1] == c then Some(|s| - 1)
    else LastIndexOf(s[..|s| - 1], c)
  }

  /** `p` without the run of separators it ends with. */
  function TrimTrailingSeparators(p: string): (q: string)
    ensures |q| <= |p| && q == p[..|q|]
    ensures q == [] || q[|q| - 1] != Separator
    ensures forall j :: |q| <= j < |p| ==> p[j] == Separator
  {
    if |p| > 0 && p[|p| - 1] == Separator then TrimTrailingSeparators(p[..|p| - 1]) else p
  }

  /** The last segment of `p`, trailing separators ignored (Node's basename). */
  function LastSegment(p: string): (b: string)
    ensures Separator !in b
    ensures IsSuffix(b, TrimTrailingSeparators(p))
  {
    var q := TrimTrailingSeparators(p);
    match LastIndexOf(q, Separator)
    case None => q
    case Some(i) => q[i + 1..]
  }

  /**
   * `path.extname`: the last segment from its last `.` to its end, or `""`
   * when that segment has no `.`, when its only `.` that could start an
   * extension is its first character, or when the segment is `..`.
   */
  function Extname(p: string): (e: string)
    ensures e == "" || (e[0] == '.' && '.' !in e[1..])
    ensures Separator !in e
    ensures IsSuffix(e, TrimTrailingSeparators(p))
    ensures (p == [] || p[|p| - 1] != Separator) ==> IsSuffix(e, p)
  {
    var b := LastSegment(p);
    match LastIndexOf(b, '.')
    case None => ""
    case Some(i) => if i == 0 || b == ".." then "" else b[i..]
  }

  /** A well-formed extension: a `.` followed by at least one character, none of them `.` or a separator. */
  predicate IsExtension(ext: string) {
    |ext| >= 2 && ext[0] == '.' && '.' !in ext[1..] && Separator !in ext
  }

  /** The last occurrence of `c` is the one with no `c` after it. */
  lemma LastIndexOfIs(s: string, c: char, k: nat)
    requires k < |s| && s[k] == c
    requires forall j :: k < j < |s| ==> s[j] != c
    ensures LastIndexOf(s, c) == Some(k)
  {
  }

  /** The last segment of such a file name is a non-empty part of the stem followed by the extension. */
  lemma LastSegmentOfStemAndExtension(stem: string, ext: string)
    requires IsExtension(ext)
    requires stem != [] && stem[|stem| - 1] != Separator
    ensures |LastSegment(stem + ext)| > |ext| && IsSuffix(ext, LastSegment(stem + ext))
  {
    var p := stem + ext;
    assert p[|p| - 1] == ext[|ext| - 1];
    assert TrimTrailingSeparators(p) == p;
    match LastIndexOf(p, Separator) {
      case None =>
      case Some(i) =>
        assert i < |stem| - 1;
        assert p[i + 1..] == stem[i + 1..] + ext;
    }
  }

  /**
   * A file name made of a non-empty stem that does not end in a separator
   * and a well-formed extension has exactly that extension.
   */
  lemma {:induction false} ExtnameOfStemAndExtension(stem: string, ext: string)
    requires IsExtension(ext)
    requires stem != [] && stem[|stem| - 1] != Separator
    ensures Extname(stem + ext) == ext
  {
    var b := LastSegment(stem + ext);
    LastSegmentOfStemAndExtension(stem, ext);
    var d := |b| - |ext|;
    assert b[d..] == ext;
    forall j | d < j < |b|
      ensures b[j] != '.'
    {
      assert b[j] == ext[j - d] == ext[1..][j - d - 1];
    }
    LastIndexOfIs(b, '.', d);
    assert b != "..";
  }
}
