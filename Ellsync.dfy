/** What main() does once it has a directory pair: check that both are
    directories, build the rsync command line, and decide whether to run
    it. The filesystem is a set of paths that are directories, spelled
    exactly as they are passed to `os.path.isdir`; running the command is
    not modelled, only the decision to run it. */
module Ellsync {
  import opened Outcomes
  import opened Router

  /** The command printed by main(), and whether main() then runs it. */
  datatype Invocation = Invocation(command: string, execute: bool)

  /** The loop over `(from_dir, to_dir)` of lines 69-71: the first path that
      is not a directory is reported, `from` before `to`. */
  method CheckDirectories(fromDir: string, toDir: string, dirs: set<string>) returns (missing: Option<string>)
    ensures fromDir !in dirs ==> missing == Some(fromDir)
    ensures fromDir in dirs && toDir !in dirs ==> missing == Some(toDir)
    ensures fromDir in dirs && toDir in dirs ==> missing == None
  {
    var paths := [fromDir, toDir];
    assert paths[0] == fromDir && paths[1] == toDir;
    missing := None;
    var i := 0;
    while i < |paths|
      invariant 0 <= i <= |paths|
      invariant missing == None
      invariant forall j :: 0 <= j < i ==> paths[j] in dirs
    {
      if paths[i] !in dirs {
        return Some(paths[i]);
      }
      i := i + 1;
    }
    assert paths[0] in dirs && paths[1] in dirs;
  }

  const RsyncFlags: string := "--archive --verbose --delete "

  /** Lines 72-73: the exact command line, option prefix first. */
  function RsyncCommand(fromDir: string, toDir: string, dryRun: bool): string
  {
    "rsync " + (if dryRun then "--dry-run " else "") + RsyncFlags + fromDir + " " + toDir
  }

  /** The command starts with the dry-run option exactly when it is asked
      for, and otherwise starts with the fixed flags. */
  lemma RsyncCommandDryRun(fromDir: string, toDir: string, dryRun: bool)
    ensures ("rsync --dry-run " <= RsyncCommand(fromDir, toDir, dryRun)) <==> dryRun
    ensures !dryRun ==> "rsync " + RsyncFlags <= RsyncCommand(fromDir, toDir, dryRun)
  {
    var cmd := RsyncCommand(fromDir, toDir, dryRun);
    if !dryRun {
      assert cmd == ("rsync " + RsyncFlags) + (fromDir + " " + toDir);
      assert cmd[8] == 'a';
      assert "rsync --dry-run "[8] == 'd';
    } else {
      assert cmd == "rsync --dry-run " + (RsyncFlags + fromDir + " " + toDir);
    }
  }

  lemma SpacedAt(a: string, b: string, i: nat)
    ensures i < |a| ==> (a + " " + b)[i] == a[i]
    ensures i == |a| ==> (a + " " + b)[i] == ' '
  {
  }

  /** Two texts without spaces followed by a space cannot be told apart
      except by being equal. */
  lemma SpaceSeparatedUnique(a1: string, b1: string, a2: string, b2: string)
    requires ' ' !in a1 && ' ' !in a2
    requires a1 + " " + b1 == a2 + " " + b2
    ensures a1 == a2 && b1 == b2
  {
    SpacedAt(a1, b1, |a1|);
    SpacedAt(a2, b2, |a2|);
    SpacedAt(a1, b1, |a2|);
    SpacedAt(a2, b2, |a1|);
    if |a1| != |a2| {
      assert false;
    }
    var s := a1 + " " + b1;
    assert a1 == s[..|a1|] == a2;
    assert b1 == s[|a1| + 1..] == b2;
  }

  /** The command line determines the paths and the dry-run choice, as long
      as the from path holds no space (paths are not quoted). */
  lemma RsyncCommandInjective(f1: string, t1: string, d1: bool, f2: string, t2: string, d2: bool)
    requires ' ' !in f1 && ' ' !in f2
    requires RsyncCommand(f1, t1, d1) == RsyncCommand(f2, t2, d2)
    ensures f1 == f2 && t1 == t2 && d1 == d2
  {
    RsyncCommandDryRun(f1, t1, d1);
    RsyncCommandDryRun(f2, t2, d2);
    var prefix := "rsync " + (if d1 then "--dry-run " else "") + RsyncFlags;
    assert RsyncCommand(f1, t1, d1) == prefix + (f1 + " " + t1);
    assert RsyncCommand(f2, t2, d2) == prefix + (f2 + " " + t2);
    assert f1 + " " + t1 == RsyncCommand(f1, t1, d1)[|prefix|..];
    assert f2 + " " + t2 == RsyncCommand(f2, t2, d2)[|prefix|..];
    SpaceSeparatedUnique(f1, t1, f2, t2);
  }

  /** The command line the dry-run test expects on standard output. */
  lemma RsyncCommandBasic()
    ensures RsyncCommand("canonical/", "cache/", false) == "rsync --archive --verbose --delete canonical/ cache/"
  {
    var head := "rsync " + "" + RsyncFlags;
    assert head == "rsync --archive --verbose --delete ";
    assert head + "canonical/" == "rsync --archive --verbose --delete canonical/";
    assert head + "canonical/" + " " == "rsync --archive --verbose --delete canonical/ ";
  }

  /** The resolution that SyncSpec starts from. */
  function Resolve(router: seq<Stream>, fromArg: string, toArg: Option<string>): Result<Resolved>
  {
    if toArg.None? then ForwardResolve(router, fromArg) else ReverseResolve(router, fromArg, toArg.value)
  }

  /** Lines 39-76 of main(), from the parsed arguments to the invocation:
      forward resolution when only one argument is given, reverse
      resolution when two are, then the directory check, then the command. */
  function SyncSpec(router: seq<Stream>, fromArg: string, toArg: Option<string>,
                    dryRun: bool, apply: bool, dirs: set<string>): Result<Invocation>
  {
    match Resolve(router, fromArg, toArg)
    case Err(e) => Err(e)
    case Ok(p) =>
      if p.fromDir !in dirs then Err(DirectoryNotPresent(p.fromDir))
      else if p.toDir !in dirs then Err(DirectoryNotPresent(p.toDir))
      else Ok(Invocation(RsyncCommand(p.fromDir, p.toDir, dryRun), apply))
  }

  method Sync(router: seq<Stream>, fromArg: string, toArg: Option<string>,
              dryRun: bool, apply: bool, dirs: set<string>) returns (r: Result<Invocation>)
    ensures r == SyncSpec(router, fromArg, toArg, dryRun, apply, dirs)
  {
    var resolved: Result<Resolved>;
    if toArg.None? {
      resolved := ForwardResolve(router, fromArg);
    } else {
      resolved := SelectStream(router, fromArg, toArg.value);
    }
    if resolved.Err? {
      return Err(resolved.error);
    }
    var p := resolved.value;
    var missing := CheckDirectories(p.fromDir, p.toDir, dirs);
    if missing.Some? {
      return Err(DirectoryNotPresent(missing.value));
    }
    r := Ok(Invocation(RsyncCommand(p.fromDir, p.toDir, dryRun), apply));
  }

  /** A sync succeeds exactly when resolution succeeds and both resolved
      paths are directories; the command is then built from those paths,
      and it is run exactly when `apply` is set, dry run or not. */
  lemma SyncSucceeds(router: seq<Stream>, fromArg: string, toArg: Option<string>,
                     dryRun: bool, apply: bool, dirs: set<string>)
    ensures var r, p := SyncSpec(router, fromArg, toArg, dryRun, apply, dirs), Resolve(router, fromArg, toArg);
      r.Ok? <==> p.Ok? && p.value.fromDir in dirs && p.value.toDir in dirs
    ensures var r, p := SyncSpec(router, fromArg, toArg, dryRun, apply, dirs), Resolve(router, fromArg, toArg);
      r.Ok? ==> r.value == Invocation(RsyncCommand(p.value.fromDir, p.value.toDir, dryRun), apply)
  {
  }

  /** Failures keep their order: a resolution error comes before any
      directory is looked at, and a missing from directory is reported even
      when the to directory is missing as well. */
  lemma SyncFailureOrder(router: seq<Stream>, fromArg: string, toArg: Option<string>,
                         dryRun: bool, apply: bool, dirs: set<string>)
    ensures var r, p := SyncSpec(router, fromArg, toArg, dryRun, apply, dirs), Resolve(router, fromArg, toArg);
      p.Err? ==> r == Err(p.error)
    ensures var r, p := SyncSpec(router, fromArg, toArg, dryRun, apply, dirs), Resolve(router, fromArg, toArg);
      p.Ok? && p.value.fromDir !in dirs ==> r == Err(DirectoryNotPresent(p.value.fromDir))
    ensures var r, p := SyncSpec(router, fromArg, toArg, dryRun, apply, dirs), Resolve(router, fromArg, toArg);
      p.Ok? && p.value.fromDir in dirs && p.value.toDir !in dirs ==> r == Err(DirectoryNotPresent(p.value.toDir))
  {
  }

  /** The dry-run test: explicit directories `canonical` and `cache`, both
      present, neither option given. The command carries the cleaned
      directories and no dry-run flag, and is only printed. */
  lemma SyncExplicitDirectories()
    ensures SyncSpec([Stream("basic", "canonical", "cache")], "canonical", Some("cache"),
                     false, false, {"canonical/", "cache/"})
      == Ok(Invocation("rsync --archive --verbose --delete canonical/ cache/", false))
  {
    ReverseResolveBasic();
    RsyncCommandBasic();
  }

  /** The apply test: the same command, and this time it is run. */
  lemma SyncExplicitDirectoriesApply()
    ensures SyncSpec([Stream("basic", "canonical", "cache")], "canonical", Some("cache"),
                     false, true, {"canonical/", "cache/"})
      == Ok(Invocation("rsync --archive --verbose --delete canonical/ cache/", true))
  {
    ReverseResolveBasic();
    RsyncCommandBasic();
  }
}
