/** The stream router: a sequence of named (from, to) root pairs, resolved
    either forward from a `stream:subdir` argument or in reverse from an
    explicit pair of directories. The JSON object the router is read from
    becomes a sequence in its iteration order; as a dictionary it has
    unique keys, which UniqueNames states. */
module Router {
  import opened Outcomes
  import opened PathUtil

  datatype Stream = Stream(name: string, fromRoot: string, toRoot: string)

  /** A directory pair ready for syncing, and the stream it belongs to. */
  datatype Resolved = Resolved(fromDir: string, toDir: string, stream: string)

  predicate UniqueNames(router: seq<Stream>) {
    forall i, j :: 0 <= i < j < |router| ==> router[i].name != router[j].name
  }

  // ---------------------------------------------------------------------
  // Splitting `stream:subdir`

  function Count(s: string, c: char): (n: nat)
    ensures n == 0 <==> c !in s
    ensures n <= |s|
  {
    if s == [] then 0
    else (if s[0] == c then 1 else 0) + Count(s[1..], c)
  }

  /** Python's `s.split(sep)` for a one-character separator: the maximal
      separator-free pieces between the occurrences of `sep`. */
  function Split(s: string, sep: char): (pieces: seq<string>)
    ensures |pieces| == Count(s, sep) + 1
    ensures forall i :: 0 <= i < |pieces| ==> sep !in pieces[i]
  {
    if s == [] then [""]
    else
      var rest := Split(s[1..], sep);
      if s[0] == sep then [""] + rest
      else [[s[0]] + rest[0]] + rest[1..]
  }

  /** `sep.join(pieces)`, the inverse of Split. */
  function JoinWith(pieces: seq<string>, sep: char): string
  {
    if |pieces| == 0 then ""
    else if |pieces| == 1 then pieces[0]
    else pieces[0] + [sep] + JoinWith(pieces[1..], sep)
  }

  lemma {:induction false} SplitJoinWith(s: string, sep: char)
    ensures JoinWith(Split(s, sep), sep) == s
  {
    if s != [] {
      SplitJoinWith(s[1..], sep);
      var rest := Split(s[1..], sep);
      if s[0] == sep {
        assert ([""] + rest)[1..] == rest;
      } else {
        var pieces := [[s[0]] + rest[0]] + rest[1..];
        if |rest| == 1 {
          assert pieces == [[s[0]] + rest[0]];
        } else {
          assert pieces[1..] == rest[1..];
          assert JoinWith(rest, sep) == rest[0] + [sep] + JoinWith(rest[1..], sep);
        }
      }
    }
  }

  lemma {:induction false} SplitNoSeparator(s: string, sep: char)
    requires sep !in s
    ensures Split(s, sep) == [s]
  {
    if s != [] {
      SplitNoSeparator(s[1..], sep);
      assert [s[0]] + s[1..] == s;
    }
  }

  /** An argument with exactly one separator splits into the text before it
      and the text after it. */
  lemma {:induction false} SplitPair(a: string, b: string, sep: char)
    requires sep !in a && sep !in b
    ensures Split(a + [sep] + b, sep) == [a, b]
  {
    var s := a + [sep] + b;
    if a == [] {
      assert s[1..] == b;
      SplitNoSeparator(b, sep);
    } else {
      assert s[1..] == a[1..] + [sep] + b;
      SplitPair(a[1..], b, sep);
      assert [a[0]] + a[1..] == a;
    }
  }

  // ---------------------------------------------------------------------
  // Forward resolution: `stream:subdir` -> directories

  /** `router[name]`, failing rather than defaulting on a missing key. */
  function Lookup(router: seq<Stream>, name: string): (r: Option<Stream>)
    ensures r.Some? ==> r.value in router && r.value.name == name
    ensures r.None? <==> forall i :: 0 <= i < |router| ==> router[i].name != name
  {
    if router == [] then None
    else if router[0].name == name then Some(router[0])
    else Lookup(router[1..], name)
  }

  lemma LookupUnique(router: seq<Stream>, k: nat)
    requires UniqueNames(router) && k < |router|
    ensures Lookup(router, router[k].name) == Some(router[k])
  {
  }

  /** Lines 39-53 of main(): the argument is split at every ':', the two
      pieces name a stream and a subdirectory, and a non-empty subdirectory
      is joined onto both roots, each result cleaned. An empty subdirectory
      leaves the configured roots untouched. */
  function ForwardResolve(router: seq<Stream>, arg: string): Result<Resolved>
  {
    if ':' !in arg then Err(CommandNotImplemented(arg))
    else
      var pieces := Split(arg, ':');
      if |pieces| != 2 then Err(UnpackMismatch(|pieces|))
      else
        var name, subdir := pieces[0], pieces[1];
        match Lookup(router, name)
        case None => Err(UnknownStream(name))
        case Some(s) =>
          if subdir != "" then
            Ok(Resolved(CleanDir(Join(s.fromRoot, subdir)), CleanDir(Join(s.toRoot, subdir)), name))
          else
            Ok(Resolved(s.fromRoot, s.toRoot, name))
  }

  /** The result of resolving `name:subdir` for a stream of the router. */
  lemma ForwardResolveStream(router: seq<Stream>, k: nat, subdir: string)
    requires UniqueNames(router) && k < |router|
    requires ':' !in router[k].name && ':' !in subdir
    ensures var s := router[k];
      ForwardResolve(router, s.name + ":" + subdir) ==
        if subdir == "" then Ok(Resolved(s.fromRoot, s.toRoot, s.name))
        else Ok(Resolved(CleanDir(Join(s.fromRoot, subdir)), CleanDir(Join(s.toRoot, subdir)), s.name))
  {
    var arg := router[k].name + ":" + subdir;
    SplitPair(router[k].name, subdir, ':');
    assert arg[|router[k].name|] == ':';
    LookupUnique(router, k);
  }

  /** `name:subdir` with a name that no stream has fails with that name. */
  lemma ForwardResolveUnknown(router: seq<Stream>, name: string, subdir: string)
    requires ':' !in name && ':' !in subdir
    requires forall i :: 0 <= i < |router| ==> router[i].name != name
    ensures ForwardResolve(router, name + ":" + subdir) == Err(UnknownStream(name))
  {
    var arg := name + ":" + subdir;
    SplitPair(name, subdir, ':');
    assert arg[|name|] == ':';
  }

  /** Forward resolution succeeds exactly when the argument holds one ':'
      and names a stream; no ':' at all, or more than one, are the two
      other failures. */
  lemma ForwardResolveOutcome(router: seq<Stream>, arg: string)
    ensures Count(arg, ':') == 0 <==> ForwardResolve(router, arg) == Err(CommandNotImplemented(arg))
    ensures Count(arg, ':') >= 2 <==> ForwardResolve(router, arg) == Err(UnpackMismatch(Count(arg, ':') + 1))
    ensures ForwardResolve(router, arg).Ok? <==>
      Count(arg, ':') == 1 && Lookup(router, Split(arg, ':')[0]).Some?
    ensures ForwardResolve(router, arg).Ok? ==> ForwardResolve(router, arg).value.stream == Split(arg, ':')[0]
  {
  }

  // ---------------------------------------------------------------------
  // Reverse resolution: directories -> stream

  /** Both configured roots are string prefixes of the two directories. */
  predicate Matches(s: Stream, fromDir: string, toDir: string) {
    s.fromRoot <= fromDir && s.toRoot <= toDir
  }

  predicate IsFirstMatch(router: seq<Stream>, fromDir: string, toDir: string, k: nat) {
    && k < |router|
    && Matches(router[k], fromDir, toDir)
    && forall j :: 0 <= j < k ==> !Matches(router[j], fromDir, toDir)
  }

  /** What the first prefix-matching stream decides. */
  function Verdict(s: Stream, fromDir: string, toDir: string): Result<Resolved>
    requires Matches(s, fromDir, toDir)
  {
    var fromSuffix := fromDir[|s.fromRoot|..];
    var toSuffix := toDir[|s.toRoot|..];
    if fromSuffix != toSuffix then Err(InconsistentSubdir(fromSuffix, toSuffix))
    else Ok(Resolved(fromDir, toDir, s.name))
  }

  /** The scan of lines 58-67 over already-cleaned directories. */
  function ReverseFrom(router: seq<Stream>, fromDir: string, toDir: string): Result<Resolved>
  {
    if router == [] then Err(StreamNotFound(fromDir, toDir))
    else
      if Matches(router[0], fromDir, toDir) then Verdict(router[0], fromDir, toDir)
      else ReverseFrom(router[1..], fromDir, toDir)
  }

  /** Lines 55-67 of main(): clean both directories, then scan. */
  function ReverseResolve(router: seq<Stream>, fromArg: string, toArg: string): Result<Resolved>
  {
    ReverseFrom(router, CleanDir(fromArg), CleanDir(toArg))
  }

  lemma {:induction false} ReverseFromFirstMatch(router: seq<Stream>, fromDir: string, toDir: string, k: nat)
    requires IsFirstMatch(router, fromDir, toDir, k)
    ensures ReverseFrom(router, fromDir, toDir) == Verdict(router[k], fromDir, toDir)
  {
    if k > 0 {
      assert !Matches(router[0], fromDir, toDir);
      assert router[1..][k - 1] == router[k];
      forall j | 0 <= j < k - 1 ensures !Matches(router[1..][j], fromDir, toDir) {
        assert router[1..][j] == router[j + 1];
      }
      ReverseFromFirstMatch(router[1..], fromDir, toDir, k - 1);
    }
  }

  lemma {:induction false} ReverseFromNone(router: seq<Stream>, fromDir: string, toDir: string)
    requires forall k :: 0 <= k < |router| ==> !Matches(router[k], fromDir, toDir)
    ensures ReverseFrom(router, fromDir, toDir) == Err(StreamNotFound(fromDir, toDir))
  {
    if router != [] {
      forall j | 0 <= j < |router| - 1 ensures !Matches(router[1..][j], fromDir, toDir) {
        assert router[1..][j] == router[j + 1];
      }
      ReverseFromNone(router[1..], fromDir, toDir);
    }
  }

  /** Any matching stream has a first one ahead of or at it. */
  lemma FirstMatchExists(router: seq<Stream>, fromDir: string, toDir: string, k: nat) returns (first: nat)
    requires k < |router| && Matches(router[k], fromDir, toDir)
    ensures first <= k && IsFirstMatch(router, fromDir, toDir, first)
  {
    first := k;
    while exists j :: 0 <= j < first && Matches(router[j], fromDir, toDir)
      invariant first <= k && Matches(router[first], fromDir, toDir)
      decreases first
    {
      var j :| 0 <= j < first && Matches(router[j], fromDir, toDir);
      first := j;
    }
  }

  /** The first stream, in router order, whose roots prefix both cleaned
      directories wins: equal leftover suffixes select it, different ones
      fail carrying both. */
  lemma ReverseResolveFirstMatch(router: seq<Stream>, fromArg: string, toArg: string, k: nat)
    requires IsFirstMatch(router, CleanDir(fromArg), CleanDir(toArg), k)
    ensures var f, t, s := CleanDir(fromArg), CleanDir(toArg), router[k];
      ReverseResolve(router, fromArg, toArg) ==
        if f[|s.fromRoot|..] == t[|s.toRoot|..] then Ok(Resolved(f, t, s.name))
        else Err(InconsistentSubdir(f[|s.fromRoot|..], t[|s.toRoot|..]))
  {
    ReverseFromFirstMatch(router, CleanDir(fromArg), CleanDir(toArg), k);
  }

  /** "Not found" exactly when no stream prefixes both cleaned directories. */
  lemma ReverseResolveNotFound(router: seq<Stream>, fromArg: string, toArg: string)
    ensures (forall k :: 0 <= k < |router| ==> !Matches(router[k], CleanDir(fromArg), CleanDir(toArg)))
      <==> ReverseResolve(router, fromArg, toArg) == Err(StreamNotFound(CleanDir(fromArg), CleanDir(toArg)))
  {
    var f, t := CleanDir(fromArg), CleanDir(toArg);
    if k :| 0 <= k < |router| && Matches(router[k], f, t) {
      var first := FirstMatchExists(router, f, t, k);
      ReverseFromFirstMatch(router, f, t, first);
    } else {
      ReverseFromNone(router, f, t);
    }
  }

  /** Once the first matching stream is reached the scan stops: the
      streams after it, whatever they are, cannot change the outcome. */
  lemma ReverseResolveIgnoresLater(router: seq<Stream>, rest: seq<Stream>, fromArg: string, toArg: string, k: nat)
    requires IsFirstMatch(router, CleanDir(fromArg), CleanDir(toArg), k)
    ensures ReverseResolve(router[..k + 1] + rest, fromArg, toArg) == ReverseResolve(router, fromArg, toArg)
  {
    var f, t := CleanDir(fromArg), CleanDir(toArg);
    var other := router[..k + 1] + rest;
    assert other[k] == router[k];
    assert forall j :: 0 <= j < k ==> other[j] == router[j];
    ReverseFromFirstMatch(other, f, t, k);
    ReverseFromFirstMatch(router, f, t, k);
  }

  /** The `for ... break` loop of lines 57-67 over the router in order. */
  method SelectStream(router: seq<Stream>, fromArg: string, toArg: string) returns (r: Result<Resolved>)
    ensures r == ReverseResolve(router, fromArg, toArg)
  {
    var fromDir := CleanDir(fromArg);
    var toDir := CleanDir(toArg);
    var selected: Option<string> := None;
    var i := 0;
    while i < |router|
      invariant 0 <= i <= |router|
      invariant selected.None?
      invariant ReverseFrom(router, fromDir, toDir) == ReverseFrom(router[i..], fromDir, toDir)
    {
      var s := router[i];
      assert router[i..][0] == s && router[i..][1..] == router[i + 1..];
      if s.fromRoot <= fromDir && s.toRoot <= toDir {
        var fromSuffix := fromDir[|s.fromRoot|..];
        var toSuffix := toDir[|s.toRoot|..];
        if fromSuffix != toSuffix {
          return Err(InconsistentSubdir(fromSuffix, toSuffix));
        }
        selected := Some(s.name);
        break;
      }
      i := i + 1;
    }
    if selected.None? {
      return Err(StreamNotFound(fromDir, toDir));
    }
    r := Ok(Resolved(fromDir, toDir, selected.value));
  }

  // ---------------------------------------------------------------------
  // How the two directions relate

  /** Directories produced by `name:subdir` resolve back to the same stream
      and directories, provided no earlier stream claims them and both
      roots take the same separator in the join. */
  lemma ForwardThenReverse(router: seq<Stream>, k: nat, subdir: string)
    requires UniqueNames(router) && k < |router|
    requires ':' !in router[k].name && ':' !in subdir
    requires subdir != "" && !IsAbsolute(subdir)
    requires JoinSeparator(router[k].fromRoot) == JoinSeparator(router[k].toRoot)
    requires forall j :: 0 <= j < k ==>
      !Matches(router[j], CleanDir(Join(router[k].fromRoot, subdir)), CleanDir(Join(router[k].toRoot, subdir)))
    ensures ForwardResolve(router, router[k].name + ":" + subdir)
      == Ok(Resolved(CleanDir(Join(router[k].fromRoot, subdir)), CleanDir(Join(router[k].toRoot, subdir)), router[k].name))
    ensures ReverseResolve(router, CleanDir(Join(router[k].fromRoot, subdir)), CleanDir(Join(router[k].toRoot, subdir)))
      == Ok(Resolved(CleanDir(Join(router[k].fromRoot, subdir)), CleanDir(Join(router[k].toRoot, subdir)), router[k].name))
  {
    var s := router[k];
    var f, t := CleanDir(Join(s.fromRoot, subdir)), CleanDir(Join(s.toRoot, subdir));
    ForwardResolveStream(router, k, subdir);
    JoinedSuffix(s.fromRoot, subdir);
    JoinedSuffix(s.toRoot, subdir);
    assert CleanDir(f) == f && CleanDir(t) == t;
    assert IsFirstMatch(router, CleanDir(f), CleanDir(t), k);
    ReverseResolveFirstMatch(router, f, t, k);
  }

  /** The root is a prefix of a cleaned join, and what follows it is the
      separator and the cleaned subdirectory. */
  lemma JoinedSuffix(root: string, subdir: string)
    requires subdir != "" && !IsAbsolute(subdir)
    ensures root <= CleanDir(Join(root, subdir))
    ensures CleanDir(Join(root, subdir))[|root|..] == JoinSeparator(root) + CleanDir(subdir)
  {
    CleanDirJoin(root, subdir);
    assert CleanDir(Join(root, subdir)) == root + (JoinSeparator(root) + CleanDir(subdir));
  }

  /** Without the same separator the round trip breaks, in either
      direction. When one root takes a '/' in the join and the other does
      not (it is empty or already ends in '/'), the directories that
      `name:subdir` produces are refused in reverse, with suffixes that
      differ by that one '/'. */
  lemma ForwardThenReverseMixedSeparators(router: seq<Stream>, k: nat, subdir: string)
    requires k < |router|
    requires subdir != "" && !IsAbsolute(subdir)
    requires JoinSeparator(router[k].fromRoot) != JoinSeparator(router[k].toRoot)
    requires forall j :: 0 <= j < k ==>
      !Matches(router[j], CleanDir(Join(router[k].fromRoot, subdir)), CleanDir(Join(router[k].toRoot, subdir)))
    ensures ReverseResolve(router, CleanDir(Join(router[k].fromRoot, subdir)), CleanDir(Join(router[k].toRoot, subdir)))
      == Err(InconsistentSubdir(JoinSeparator(router[k].fromRoot) + CleanDir(subdir),
                                JoinSeparator(router[k].toRoot) + CleanDir(subdir)))
    ensures JoinSeparator(router[k].fromRoot) == "" ==>
      ReverseResolve(router, CleanDir(Join(router[k].fromRoot, subdir)), CleanDir(Join(router[k].toRoot, subdir)))
        == Err(InconsistentSubdir(CleanDir(subdir), "/" + CleanDir(subdir)))
    ensures JoinSeparator(router[k].toRoot) == "" ==>
      ReverseResolve(router, CleanDir(Join(router[k].fromRoot, subdir)), CleanDir(Join(router[k].toRoot, subdir)))
        == Err(InconsistentSubdir("/" + CleanDir(subdir), CleanDir(subdir)))
  {
    var s := router[k];
    var f, t := CleanDir(Join(s.fromRoot, subdir)), CleanDir(Join(s.toRoot, subdir));
    JoinedSuffix(s.fromRoot, subdir);
    JoinedSuffix(s.toRoot, subdir);
    assert CleanDir(f) == f && CleanDir(t) == t;
    var fs, ts := JoinSeparator(s.fromRoot) + CleanDir(subdir), JoinSeparator(s.toRoot) + CleanDir(subdir);
    assert f[|s.fromRoot|..] == fs && t[|s.toRoot|..] == ts;
    assert |fs| != |ts|;
    assert JoinSeparator(s.fromRoot) == "" ==> JoinSeparator(s.toRoot) == "/";
    assert JoinSeparator(s.toRoot) == "" ==> JoinSeparator(s.fromRoot) == "/";
    assert "" + CleanDir(subdir) == CleanDir(subdir);
    assert IsFirstMatch(router, CleanDir(f), CleanDir(t), k);
    ReverseResolveFirstMatch(router, f, t, k);
  }

  /** The condition that no earlier stream claims the directories is
      needed: an earlier stream with empty roots prefixes everything, and
      is the one that decides. */
  lemma ForwardThenReverseEarlierStream()
    ensures ForwardResolve([Stream("a", "", ""), Stream("b", "x", "y")], "b:s")
      == Ok(Resolved("x/s/", "y/s/", "b"))
    ensures ReverseResolve([Stream("a", "", ""), Stream("b", "x", "y")], "x/s/", "y/s/")
      == Err(InconsistentSubdir("x/s/", "y/s/"))
  {
    var r := [Stream("a", "", ""), Stream("b", "x", "y")];
    assert UniqueNames(r);
    ForwardResolveStream(r, 1, "s");
    assert "b" + ":" + "s" == "b:s";
    assert Join("x", "s") == "x/s" && Join("y", "s") == "y/s";
    assert CleanDir("x/s") == "x/s/" && CleanDir("y/s") == "y/s/";
    assert CleanDir("x/s/") == "x/s/" && CleanDir("y/s/") == "y/s/";
    assert "x/s/"[0..] == "x/s/" && "y/s/"[0..] == "y/s/";
  }

  /** The explicit-directories case of the test suite: the roots
      `canonical` and `cache` are stored without '/', so they prefix the
      cleaned directories with the common suffix "/". */
  lemma ReverseResolveBasic()
    ensures ReverseResolve([Stream("basic", "canonical", "cache")], "canonical", "cache")
      == Ok(Resolved("canonical/", "cache/", "basic"))
  {
    assert CleanDir("canonical") == "canonical/" && CleanDir("cache") == "cache/";
    assert "canonical" <= "canonical/" && "cache" <= "cache/";
    assert "canonical/"[9..] == "/" && "cache/"[5..] == "/";
  }

  /** Matching is on strings, not on path components: a root `canon`
      claims the directory `canonical`. */
  lemma ReverseResolveStringPrefix()
    ensures ReverseResolve([Stream("s", "canon", "cach")], "canonical", "cache")
      == Err(InconsistentSubdir("ical/", "e/"))
  {
    assert CleanDir("canonical") == "canonical/" && CleanDir("cache") == "cache/";
    assert "canon" <= "canonical/" && "cach" <= "cache/";
    assert "canonical/"[5..] == "ical/" && "cache/"[4..] == "e/";
  }
}
