/** Path strings as ellsync handles them: `clean_dir` and the two-argument
    form of POSIX `os.path.join`. Paths are plain strings; nothing here
    looks at a filesystem. */
module PathUtil {

  predicate EndsWithSlash(s: string) {
    |s| > 0 && s[|s| - 1] == '/'
  }

  predicate IsAbsolute(s: string) {
    |s| > 0 && s[0] == '/'
  }

  /** `clean_dir`: the shortest extension of `dirname` that ends in '/'. */
  function CleanDir(dirname: string): (r: string)
    ensures EndsWithSlash(r)
    ensures dirname <= r && |r| <= |dirname| + 1
    ensures EndsWithSlash(dirname) ==> r == dirname
  {
    if EndsWithSlash(dirname) then dirname else dirname + "/"
  }

  lemma CleanDirIdempotent(dirname: string)
    ensures CleanDir(CleanDir(dirname)) == CleanDir(dirname)
  {
  }

  /** What the join puts between its two arguments when the second is
      relative: just enough for a non-empty first path to end in exactly
      its own trailing '/' or one added '/'. */
  function JoinSeparator(a: string): (sep: string)
    ensures sep == "" || sep == "/"
    ensures a + sep == (if a == "" then "" else CleanDir(a))
  {
    if a == "" || EndsWithSlash(a) then "" else "/"
  }

  /** `os.path.join(a, b)` with two arguments: an absolute second path
      replaces the first; a relative one follows a non-empty first path
      after exactly one '/'. */
  function Join(a: string, b: string): (r: string)
    ensures IsAbsolute(b) ==> r == b
    ensures !IsAbsolute(b) ==> r == (if a == "" then "" else CleanDir(a)) + b
  {
    if IsAbsolute(b) then b
    else if a == "" || EndsWithSlash(a) then a + b
    else a + "/" + b
  }

  /** Whatever the arguments, the joined path ends with the second one, and
      a relative second argument keeps the first as a prefix with at most
      one '/' inserted, never doubling one. */
  lemma JoinShape(a: string, b: string)
    ensures |b| <= |Join(a, b)| && Join(a, b)[|Join(a, b)| - |b|..] == b
    ensures !IsAbsolute(b) ==> a <= Join(a, b) && |Join(a, b)| <= |a| + 1 + |b|
    ensures !IsAbsolute(b) ==> Join(a, b) == a + b || Join(a, b) == a + "/" + b
    ensures !IsAbsolute(b) && a != "" && EndsWithSlash(a) ==> Join(a, b) == a + b
  {
  }

  /** Cleaning a path that ends in a non-empty relative piece only touches
      that piece: the root and the separator are kept as they are. */
  lemma CleanDirJoin(a: string, b: string)
    requires b != "" && !IsAbsolute(b)
    ensures CleanDir(Join(a, b)) == a + JoinSeparator(a) + CleanDir(b)
  {
    var j := a + JoinSeparator(a);
    assert Join(a, b) == j + b;
    assert EndsWithSlash(j + b) <==> EndsWithSlash(b);
    assert CleanDir(j + b) == j + CleanDir(b);
  }
}
