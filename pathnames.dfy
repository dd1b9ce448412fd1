/**
 * `os.path.splitext(os.path.basename(path))[0]`, the scenario name of last
 * resort, with the POSIX separator `/`.
 */
module PathNames {
  import opened Records

  /** `str.rfind` for one character: the last index holding `c`, or -1. */
  function LastIndexOf(s: string, c: char): (k: int)
    ensures -1 <= k < |s|
    ensures k >= 0 ==> s[k] == c
    ensures forall j :: k < j < |s| ==> s[j] != c
  {
    if |s| == 0 then -1
    else if s[|s| - 1] == c then |s| - 1
    else
      var k := LastIndexOf(s[..|s| - 1], c);
      assert forall j :: 0 <= j < |s| - 1 ==> s[..|s| - 1][j] == s[j];
      k
  }

  /**
   * `posixpath.basename`: the tail of the path after its directory part. It
   * holds no `/`, and the path is either the basename itself or ends in
   * `/` followed by the basename.
   */
  function Basename(path: Path): (name: string)
    ensures |name| <= |path| && path[|path| - |name|..] == name
    ensures |name| < |path| ==> path[|path| - |name| - 1] == '/'
    ensures forall i :: 0 <= i < |name| ==> name[i] != '/'
  {
    path[LastIndexOf(path, '/') + 1..]
  }

  /**
   * `splitext(name)[0]` for a name without separators. The stem is a prefix
   * of the name, and what it drops is an extension: a `.` followed by no
   * other `.`, preceded by at least one character that is not a dot (so a
   * leading-dot name such as `.bashrc` keeps its dot). A non-empty name has
   * a non-empty stem. Conversely, a name with a `.` somewhere after a
   * character that is not a dot always loses its extension.
   */
  function Stem(name: string): (stem: string)
    ensures |stem| <= |name| && name[..|stem|] == stem
    ensures |stem| < |name| ==>
              name[|stem|] == '.' &&
              (forall j :: |stem| < j < |name| ==> name[j] != '.') &&
              (exists j :: 0 <= j < |stem| && name[j] != '.')
    ensures |name| > 0 ==> |stem| > 0
    ensures (exists i, j :: 0 <= i < j < |name| && name[i] != '.' && name[j] == '.') ==> |stem| < |name|
  {
    var dot := LastIndexOf(name, '.');
    if dot > 0 && exists j | 0 <= j < dot :: name[j] != '.' then name[..dot] else name
  }
}
