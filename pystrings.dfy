/**
 * The few Python string and path primitives the driver relies on:
 * `str.startswith`, `str.rfind`, `str.find`, `str.replace(old, new, 1)`
 * and the POSIX `os.path.splitext`, each stated as an explicit rule.
 */
module PyStrings {

  /** `s.startswith(prefix)` */
  predicate StartsWith(s: string, prefix: string) {
    prefix <= s
  }

  /** `s.rfind(c)` for a one-character needle: the last index holding `c`, or -1. */
  function LastIndexOf(s: string, c: char): (r: int)
    ensures -1 <= r < |s|
    ensures r >= 0 ==> s[r] == c
    ensures forall k :: r < k < |s| ==> s[k] != c
  {
    if s == [] then -1
    else if s[|s| - 1] == c then |s| - 1
    else LastIndexOf(s[..|s| - 1], c)
  }

  /** `pat` occurs in `s` starting at index `k`. */
  predicate OccursAt(s: string, pat: string, k: int) {
    0 <= k && k + |pat| <= |s| && s[k..k + |pat|] == pat
  }

  /** `s.find(pat, i)`: the first occurrence of `pat` at or after `i`, or -1. */
  function IndexOfFrom(s: string, pat: string, i: nat): (r: int)
    requires i <= |s|
    ensures r == -1 || (i <= r && OccursAt(s, pat, r))
    ensures forall k :: i <= k && (r == -1 || k < r) ==> !OccursAt(s, pat, k)
    decreases |s| - i
  {
    if i + |pat| > |s| then -1
    else if s[i..i + |pat|] == pat then i
    else IndexOfFrom(s, pat, i + 1)
  }

  /** `s.replace(target, replacement, 1)`: replace the first occurrence of `target`, if any. */
  function ReplaceFirst(s: string, target: string, replacement: string): string {
    var i := IndexOfFrom(s, target, 0);
    if i == -1 then s else s[..i] + replacement + s[i + |target|..]
  }

  /**
   * `os.path.splitext(p)` on POSIX: the extension runs from the last '.'
   * to the end, provided that '.' lies in the final path component (after
   * the last '/') and is preceded in that component by a character other
   * than '.'; leading dots of a file name ("..cu", ".bashrc") do not start
   * an extension.
   */
  function SplitExt(p: string): (r: (string, string))
    ensures r.0 + r.1 == p
    ensures r.1 != [] ==> r.1[0] == '.' && '.' !in r.1[1..] && '/' !in r.1
  {
    var sep := LastIndexOf(p, '/');
    var dot := LastIndexOf(p, '.');
    if dot > sep && exists k :: sep < k < dot && p[k] != '.' then
      assert p[..dot] + p[dot..] == p;
      (p[..dot], p[dot..])
    else
      (p, "")
  }

  /** Independent description of a path that has a non-empty extension. */
  ghost predicate HasExtension(p: string) {
    exists j, i :: 0 <= j < i < |p| && p[i] == '.' && p[j] != '.' && '/' !in p[j..]
  }

  lemma SplitExtNonEmptyIff(p: string)
    ensures SplitExt(p).1 != [] <==> HasExtension(p)
  {
  }

  /** After its last '/', the name has a character other than '.'. */
  ghost predicate HasNonDotName(stem: string) {
    exists k :: 0 <= k < |stem| && stem[k] != '.' && '/' !in stem[k..]
  }

  /** A stem whose last character is neither '.' nor '/' is not only dots. */
  lemma NonDotLast(stem: string)
    requires |stem| > 0 && stem[|stem| - 1] != '.' && stem[|stem| - 1] != '/'
    ensures HasNonDotName(stem)
  {
    assert stem[|stem| - 1..] == [stem[|stem| - 1]];
  }

  /**
   * A file name `stem + ext`, whose stem is not only dots after its last
   * '/', splits at `ext`: "a..c" gives ("a.", ".c").
   */
  lemma SplitExtOfFileName(stem: string, ext: string)
    requires HasNonDotName(stem)
    requires |ext| > 0 && ext[0] == '.' && '.' !in ext[1..] && '/' !in ext
    ensures SplitExt(stem + ext) == (stem, ext)
  {
    var p := stem + ext;
    var sep := LastIndexOf(p, '/');
    var dot := LastIndexOf(p, '.');
    var j :| 0 <= j < |stem| && stem[j] != '.' && '/' !in stem[j..];
    forall k | |stem| < k < |p|
      ensures p[k] != '.' && p[k] != '/'
    {
      assert p[k] == ext[1..][k - |stem| - 1];
    }
    forall k | j <= k < |stem|
      ensures p[k] != '/'
    {
      assert p[k] == stem[j..][k - j];
    }
    assert p[|stem|] == '.';
    assert p[j] == stem[j];
    assert dot == |stem|;
    assert sep < j;
    assert p[..dot] == stem && p[dot..] == ext;
  }
}
