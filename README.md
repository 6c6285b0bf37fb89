# ellsync stream router, modelled in Dafny

ellsync syncs a canonical directory tree onto a cache tree with rsync. A
*router* is a JSON object that names *streams*, each a pair of roots
`{from, to}`. The `main()` entry point takes one of two forms:

- a `stream:subdir` argument. The stream's roots are looked up, and a
  non-empty subdirectory is joined onto both of them.
- two explicit directories. These are matched back to the first stream
  whose roots are string prefixes of both, and both sides must leave the
  same subdirectory.

Then both paths must be directories (`os.path.isdir`, main.py:70). `main()` prints the command
`rsync [--dry-run ]--archive --verbose --delete FROM TO` and runs it only
with `--apply`.

This project models that logic, pulled apart from the argument parsing,
the JSON reading and the process call:

- `Outcomes.dfy`: `Option`, `Result`, and the `Error` kinds that `main()`
  can raise on these paths.
- `PathUtil.dfy`: `clean_dir` (`CleanDir`) and two-argument POSIX
  `os.path.join` (`Join`).
- `Router.dfy`: the router as an ordered sequence of `Stream`s.
  - Python's `str.split(':')` (`Split`) and the dictionary lookup
    (`Lookup`).
  - Forward resolution (`ForwardResolve`).
  - Reverse resolution: a specification function `ReverseResolve` and the
    loop that implements it (`SelectStream`, a method with the source's
    `for`/`break` shape).
  - Lemmas relating the two directions.
- `Ellsync.dfy`: the directory check loop (`CheckDirectories`) and
  the exact command line (`RsyncCommand`).
  - `SyncSpec` composes all of it as a function.
  - `Sync` is the same flow as a method that calls the loop methods.

The filesystem is a parameter, `dirs: set<string>`. It holds the path
strings for which `os.path.isdir` would answer true, spelled exactly as
passed. The result of `main()` is an `Invocation(command, execute)`: the
line that is printed, and whether it is then run.

Facts about `src/ellsync/main.py` that the model keeps:

- The code does not quote paths in the command (main.py:73).
- The only rsync flags are the dry-run option and `--archive --verbose
  --delete`; there is no checksum mode (main.py:72-73).
- Dry run and apply are independent options: without `--apply` the
  command is printed and not run, and it carries `--dry-run ` only when
  that option is given (main.py:72-76).
- With an empty subdirectory (`name:`) the configured roots are used as
  they are and are not cleaned (main.py:49-51).
- The argument is split on every `:` and unpacked into two values, so
  exactly one `:` is required (main.py:41).
- Matching uses string prefixes, not path components (main.py:59).

The JSON object becomes a sequence in its iteration order. Under Python 2,
which this code targets, that is the dictionary's own order. The
first-match lemmas hold for every router sequence, so they hold whatever
order the dictionary yields.

Two observations are proved about resolving forward and then in reverse.

- `ForwardThenReverse`: for a non-empty relative subdirectory, the
  directories produced by `name:subdir` resolve back to the same stream
  under two conditions. No earlier stream in the router may prefix both
  directories, and both roots must take the same separator in the join.
  (An empty subdirectory leaves the roots uncleaned, and an absolute one
  replaces them, so neither case round-trips in general.)
- The first condition is needed. `ForwardThenReverseEarlierStream` shows
  this: an earlier stream with empty roots prefixes everything, and its
  suffixes decide.
- The second condition is needed too. `ForwardThenReverseMixedSeparators`
  shows that, for a non-empty relative subdirectory and no earlier
  matching stream, when one root takes a '/' in the join and the other
  does not, in either order, the pair is refused. The suffixes then differ by
  that '/'. For example, roots `canonical/` and `cache` with subdir
  `2019` give `canonical/2019/` and `cache/2019/`, and the leftover
  suffixes are `2019/` and `/2019/`.

## Model

| member | source | states |
|---|---|---|
| PathUtil.CleanDir | src/ellsync/main.py:7-10 | the result ends in '/', extends the input by at most one character, and is the input itself when that already ends in '/' |
| PathUtil.CleanDirIdempotent | src/ellsync/main.py:7-10 | cleaning twice is cleaning once |
| PathUtil.JoinSeparator | src/ellsync/main.py:52-53 | the separator is empty or one '/', and a non-empty first path followed by it is that path cleaned |
| PathUtil.Join | src/ellsync/main.py:52-53 | an absolute second path replaces the first; a relative one follows a non-empty first path after exactly one '/' (the first path cleaned), and follows an empty one directly |
| PathUtil.JoinShape | src/ellsync/main.py:52-53 | the joined path ends with the second path; for a relative second path it is the first path followed either directly by the second or by one '/' and then the second, and never adds a '/' after a trailing '/' |
| PathUtil.CleanDirJoin | src/ellsync/main.py:52-53 | cleaning a join onto a non-empty relative subdirectory keeps the root and separator and cleans only the subdirectory |
| Router.Split | src/ellsync/main.py:41 | `split(':')` gives one more piece than there are separators, and no piece contains the separator |
| Router.SplitJoinWith | src/ellsync/main.py:41 | joining the pieces with the separator gives back the argument |
| Router.SplitPair | src/ellsync/main.py:41 | an argument with exactly one ':' splits into the text before it and the text after it |
| Router.Lookup | src/ellsync/main.py:48 | the lookup returns an entry of the router with that name, and fails exactly when no entry has the name |
| Router.LookupUnique | src/ellsync/main.py:48 | with unique names (a dictionary), looking up a stream's name returns that stream |
| Router.ForwardResolveStream | src/ellsync/main.py:48-53 | `name:subdir` for a configured stream gives its raw roots when the subdirectory is empty, and otherwise both roots joined with the subdirectory and cleaned |
| Router.ForwardResolveUnknown | src/ellsync/main.py:48 | a name that no stream has fails with that name |
| Router.ForwardResolveOutcome | src/ellsync/main.py:40-48 | no ':' fails as an unimplemented command; two or more fail as an unpacking error counting the pieces; the result is Ok exactly when there is one ':' and the name is a key; the resolved stream is the name |
| Router.FirstMatchExists | src/ellsync/main.py:58-65 | if any stream prefixes both directories, a first such stream exists at or before it |
| Router.ReverseResolveFirstMatch | src/ellsync/main.py:55-65 | the first stream whose roots prefix both cleaned directories decides: equal suffixes select it with the cleaned directories, different suffixes fail carrying both |
| Router.ReverseResolveNotFound | src/ellsync/main.py:66-67 | "not found", naming the cleaned directories, exactly when no stream prefixes both |
| Router.ReverseResolveIgnoresLater | src/ellsync/main.py:62-65 | streams after the first match never change the outcome, whether it is a selection or an inconsistency |
| Router.SelectStream | src/ellsync/main.py:55-67 | the for/break scan over the router returns exactly what ReverseResolve specifies |
| Router.ForwardThenReverse | src/ellsync/main.py:39-67 | for a non-empty relative subdirectory, directories produced from `name:subdir` resolve back to the same stream and directories when no earlier stream matches and both roots take the same join separator |
| Router.ForwardThenReverseMixedSeparators | src/ellsync/main.py:52-63 | for a non-empty relative subdirectory and when no earlier stream matches, if the two roots take different separators in the join, in either order, the produced directories are refused in reverse, with each suffix being its root's separator plus the cleaned subdirectory |
| Router.ForwardThenReverseEarlierStream | src/ellsync/main.py:58-63 | `b:s` resolves forward to stream `b`'s directories `x/s/` and `y/s/`; in reverse an earlier stream with empty roots claims them, and its differing suffixes cause a refusal |
| Router.ReverseResolveBasic | src/ellsync/main.py:55-65 | roots `canonical` and `cache` match the explicit directories `canonical` and `cache`, cleaned, with common suffix "/" |
| Router.ReverseResolveStringPrefix | src/ellsync/main.py:59-63 | matching is by string prefix: root `canon` claims `canonical/`, and the suffix comparison then decides |
| Ellsync.CheckDirectories | src/ellsync/main.py:69-71 | a missing from directory is reported first, then a missing to directory, otherwise nothing |
| Ellsync.RsyncCommandDryRun | src/ellsync/main.py:72-73 | the command starts with `rsync --dry-run ` exactly when dry run is asked for, and otherwise starts with the fixed flag set |
| Ellsync.RsyncCommandInjective | src/ellsync/main.py:73 | the command line determines the from path, the to path and the dry-run choice when the from path has no space |
| Ellsync.RsyncCommandBasic | src/ellsync/tests.py:47 | the command for `canonical/` and `cache/` without dry run is the exact line the test expects |
| Ellsync.Sync | src/ellsync/main.py:39-76 | the method computes exactly SyncSpec: resolution, directory check, command, run decision |
| Ellsync.SyncSucceeds | src/ellsync/main.py:69-76 | a sync succeeds exactly when resolution succeeds and both paths are directories; the command is then built from the resolved paths and runs exactly when apply is set |
| Ellsync.SyncFailureOrder | src/ellsync/main.py:39-71 | resolution errors come before the directory check, and a missing from directory is reported even when the to directory is missing too |
| Ellsync.SyncExplicitDirectories | src/ellsync/tests.py:43-47 | the dry-run test's invocation: the exact command with cleaned directories, not run |
| Ellsync.SyncExplicitDirectoriesApply | src/ellsync/tests.py:49-51 | with apply the same command is run |

## Left out

- Argument parsing (argparse, including the usage exit of the test that gives only the router argument), reading the router file, and JSON decoding: the router and the options are inputs. A router entry is assumed to have string `from` and `to` values; a missing key or a non-string value raises in Python and is not modelled.
- `print` of the command and of rsync's output: the printed command is the `command` field of the result.
- `check_output(cmd, shell=True)`: running rsync, its output and a non-zero exit status are outside the model, which only decides whether the command runs.
- `os.path.isdir`: replaced by membership in the `dirs` set of path strings, so the model knows nothing of symbolic links, relative-path resolution or trailing-slash equivalence on a real filesystem.
- The `list` and unknown-command branches: both surface as `CommandNotImplemented` carrying the argument. The two different messages they raise are not distinguished.
- Python 2 dictionary iteration order: the router is a sequence, and the reverse-resolution lemmas hold for every sequence; which order a given dictionary yields is not modelled.
- Python 2 text handling: strings are modelled as sequences of characters. Under Python 2, `json.loads` yields unicode roots while the arguments are byte strings. Non-ASCII text then raises KeyError in the router lookup (main.py:48, a non-ASCII byte-string name never equals the unicode key, while `Lookup` finds the stream), UnicodeDecodeError in `os.path.join` for a relative non-ASCII subdirectory (main.py:52-53) and in `startswith` (main.py:59), and UnicodeEncodeError in the `format` call (main.py:73). The model returns a result in those cases instead.
