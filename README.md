# load-symbols, modelled in Dafny

`load-symbols` is a debugger command, written in Python for gdb. It loads
debug-symbol files into the running session. Given a path, it does one of two things:

- For a single file, it loads the file if its absolute path ends with one of
  the symbol extensions.
- For a directory, it walks the tree and loads every file whose name ends with
  one of those extensions.

The extensions are `.debug`, `.so` and `.sym`, plus any given with `--ext`.
The command remembers the `os.path.abspath` of every file it loaded, in the
module-level set `_loaded`, and never loads a file with a remembered key again.
When it finishes, it reports one of the following:

- the total of a single-file load;
- an unsupported file;
- a missing path;
- an unreadable directory;
- for a directory, one of three summaries: files were loaded, everything was
  already loaded, or nothing was loaded.

The model is in four modules:

- `Text` (`text.dfy`) covers the Python string operations the command relies
  on:
  - `str.isspace` and `str.strip()`;
  - `str.split(",")`, including the empty string splitting into one empty piece;
  - `str.endswith`.
- `Extensions` (`extensions.dfy`) covers `DEFAULT_EXTS` and `parse_extensions`:
  - `ParseExtensions` is the loop, with the set it builds;
  - `ExtensionSet` is the same set stated as a function;
  - `EndsWithAny` is the test `name.endswith(exts)`.
- `Loader` (`loader.dfy`) covers `try_load` and `load_dir`:
  - The `Debugger` class holds the symbol files that the debugger's
    `add-symbol-file` command has added.
  - The `Session` class holds `_loaded`, with `TryLoad` and `LoadDir` as
    methods.
  - `Scan` states what `load_dir` computes: its two counters, the new
    `_loaded`, and the files handed to the debugger.
  - `Candidates` lists the files `load_dir` looks at, in walk order.
  - The invariant `Session.Valid` says that `_loaded` is exactly the set of keys of the files this
    session added to the debugger, and that no two of those files share a key.
- `Command` (`command.dfy`) covers `LoadSymbolsCommand.invoke`:
  - The method `Invoke` is proved against the function `Outcome`.
  - `Outcome` gives the report, the new `_loaded` and the files added.
  - The lemmas characterise each report.

The outside world enters as parameters:

- `os.path.abspath` is an arbitrary function `abs`, held by the `Session`.
  It stands for `abspath` under one working directory. A change of working
  directory between two commands is not modelled (see "## Left out").
- Whether `add-symbol-file` succeeds for a path is the debugger's `accepts`
  function.
- `os.path.isfile`, `os.path.isdir`, `os.access(path, R_OK | X_OK)` and `os.walk`
  are the fields of a `FileSystem` value. The walk is a sequence of
  `WalkEntry(root, files)`.
- `os.path.join` is modelled by `JoinPath`, following the POSIX rules.

Where one might expect otherwise, the model follows the code:

- Extensions are neither lower-cased nor matched case-insensitively. `endswith`
  is case-sensitive, so `libc.SO` is not a symbol file by default. `CaseSensitiveMatch`
  states this.
- The key of a loaded file is `os.path.abspath` of its path, which is absolute
  but not symlink-resolved. Two links to one file are two keys.
- When a file is already loaded, `try_load` returns 0 silently; there is no
  "already loaded" message for a single file. A second directory scan skips
  every file whose key is loaded. That number can exceed the first scan's
  loaded count, when the tree holds files loaded earlier or two names with one
  key. `Rescan` states the bounds.
- There is no list of unsupported files and no bounded list of failure
  reasons. Non-matching files are simply not looked at.

## Model

| member | source | states |
|---|---|---|
| Text.Strip | load-symbols.py:41 | definition of `str.strip()`; characterised by `TrimLeftSpec`, `TrimRightSpec`, `StripSpec` and `StripIdempotent` |
| Extensions.PieceExt | load-symbols.py:41-43 | definition of what one piece adds; characterised by `SinglePiece` and `BlankPieceIgnored` |
| Extensions.UserExts | load-symbols.py:41-43 | definition of the extensions the pieces add; characterised by `UserExtsMember` and `UserExtsAppend` |
| Extensions.ExtensionSet | load-symbols.py:40-44 | definition of the set `parse_extensions` returns; characterised by `ExtensionSetMember`, `ExtensionsDotted`, `BlankGivesDefaults` and `ExtensionSetConcat` |
| Extensions.EndsWithAny | load-symbols.py:79 | definition of `name.endswith(exts)`, also used for the path at load-symbols.py:111; characterised by `DefaultFilter` and `JoinedPathMatches` |
| Loader.JoinPath | load-symbols.py:80 | definition of `os.path.join` on POSIX; characterised by `JoinPathSpec` |
| Loader.Matching | load-symbols.py:78-80 | definition of the paths looked at in one directory; characterised by `MatchingMember` and `MatchingSnoc` |
| Loader.Candidates | load-symbols.py:77-80 | definition of the paths looked at in a walk; characterised by `CandidatesFromDirs`, `CandidatesMember` and `CandidatesSnoc` |
| Loader.Visit | load-symbols.py:82-86 | definition of one matching file's visit; characterised by `ScanFromSnoc`, `ScanAdds` and `ScanCounts` |
| Loader.ScanFrom | load-symbols.py:76-86 | definition of the loop carrying on from a tally; characterised by `ScanFromSnoc` and `ScanFromAppend` |
| Loader.Scan | load-symbols.py:69-86 | definition of what `load_dir` computes; characterised by `ScanAdds`, `ScanCounts`, `ScanLoadsIff`, `ScanNothingNew`, `ScanSettles`, `ScanSkipsKnown` and `Rescan`, and implemented by `Session.LoadDir` |
| Command.Summary | load-symbols.py:136-151 | definition of the directory summary; characterised by `DirTotalLoaded`, `DirAllAlreadyLoaded` and `DirNoneLoaded` |
| Command.Outcome | load-symbols.py:106-151 | definition of one run of the command; implemented by `Invoke` and characterised by `RunAdds`, `RunAddsMatching`, `SingleFileReport`, `RefusalsChangeNothing` and the directory and repeat lemmas |
| Text.TrimLeftSpec | load-symbols.py:41 | the leading part `strip()` removes is all whitespace, what remains is a suffix of the input and does not start with whitespace |
| Text.TrimRightSpec | load-symbols.py:41 | the trailing part `strip()` removes is all whitespace, what remains is a prefix and does not end with whitespace |
| Text.StripSpec | load-symbols.py:41 | `strip()` gives the infix of the piece between a whitespace prefix and a whitespace suffix, neither end of it is whitespace, and it is empty exactly when the piece is all whitespace |
| Text.StripIdempotent | load-symbols.py:41 | stripping a stripped piece changes nothing |
| Text.Split | load-symbols.py:41 | `s.split(",")` gives at least one piece and no piece contains a comma |
| Text.JoinSplit | load-symbols.py:41 | joining the pieces of a split with the separator gives back the original text: splitting loses nothing |
| Text.SplitJoin | load-symbols.py:41 | splitting a join of comma-free pieces gives back those pieces |
| Text.SplitAt | load-symbols.py:41 | splitting `a,b` gives the pieces of `a` followed by those of `b` |
| Text.SplitWithoutSep | load-symbols.py:41 | text without a comma splits into itself alone |
| Extensions.Dotted | load-symbols.py:43 | a stored extension always starts with `.` |
| Extensions.ParseExtensions | load-symbols.py:35-44 | the loop builds exactly `ExtensionSet(s)`, which contains the three defaults and only dot-prefixed extensions |
| Extensions.UserExtsMember | load-symbols.py:41-43 | an extension comes from the user pieces exactly when some piece contributes it |
| Extensions.UserExtsAppend | load-symbols.py:41-43 | the pieces are handled independently: the extensions of two lists of pieces together are the union of each list's |
| Extensions.ExtensionsDotted | load-symbols.py:19 | every extension the parser returns, default or user-supplied, starts with `.` |
| Extensions.ExtensionSetMember | load-symbols.py:40-44 | an extension is in the result exactly when it is a default or the stripped, dot-prefixed form of some non-blank piece between commas |
| Extensions.BlankGivesDefaults | load-symbols.py:31 | the default `--ext ""`, or any all-whitespace text, gives exactly the default extensions |
| Extensions.ExtensionSetConcat | load-symbols.py:40-44 | parsing `a,b` gives the union of parsing `a` and parsing `b`, so the order and repetition of pieces do not matter |
| Extensions.BlankPieceIgnored | load-symbols.py:42 | a blank piece, such as the one after a trailing comma, adds nothing |
| Extensions.SinglePiece | load-symbols.py:41-43 | one piece without commas adds its stripped, dot-prefixed form, or nothing when blank |
| Extensions.DefaultFilter | load-symbols.py:111 | with no `--ext`, a name is accepted exactly when it ends with `.debug`, `.so` or `.sym`, letter for letter |
| Extensions.CaseSensitiveMatch | load-symbols.py:111 | as a consequence of `DefaultFilter`, `libc.so` matches and `libc.SO` does not: matching is case-sensitive |
| Loader.JoinPathSpec | load-symbols.py:80 | the joined path ends with the file name, and a relative name is placed under the directory |
| Loader.JoinedPathMatches | load-symbols.py:79-80 | a file name that ends with an extension gives a joined path that ends with it too |
| Loader.MatchingMember | load-symbols.py:78-80 | the paths looked at in one directory are exactly the joined paths of its files whose names end with an extension |
| Loader.CandidatesFromDirs | load-symbols.py:77-80 | the paths looked at in a walk are exactly those looked at in some directory of it |
| Loader.CandidatesMember | load-symbols.py:77-80 | `load_dir` looks at exactly the files of the walk whose names end with an extension, each joined to its directory; other files are never looked at |
| Loader.MatchingSnoc | load-symbols.py:78-80 | one more file of a directory adds its joined path to the looked-at paths exactly when its name matches |
| Loader.CandidatesSnoc | load-symbols.py:77-78 | one more directory of the walk adds its matching paths after the earlier ones |
| Loader.AppendFreshKey | load-symbols.py:57 | recording a key that was not yet loaded adds exactly that key and keeps the loaded files' keys distinct |
| Loader.ScanFromSnoc | load-symbols.py:82-86 | one more matching file continues the scan with one more visit |
| Loader.ScanFromAppend | load-symbols.py:76-86 | the scan over two runs of files is the scan of the second carrying on from the first |
| Loader.ScanAdds | load-symbols.py:82-86 | during a scan `_loaded` only grows, and grows by exactly the keys of the files the debugger added; each of those files was accepted, had a key not loaded before, and was a matching file; no two share a key |
| Loader.ScanCounts | load-symbols.py:69-86 | `new_loaded` equals the number of keys added to `_loaded`, and `new_loaded + skipped` is at most the number of matching files |
| Loader.ScanOverKnown | load-symbols.py:82-83 | when every matching file's key is already loaded, nothing is loaded and every file is skipped |
| Loader.ScanLoadsAcceptedNew | load-symbols.py:84-86 | a matching file with a key not yet loaded that the debugger accepts makes `new_loaded` positive |
| Loader.ScanLoadsIff | load-symbols.py:82-86 | `new_loaded > 0` exactly when some matching file has a key not yet loaded and is accepted |
| Loader.ScanNothingNew | load-symbols.py:82-86 | a scan that loads nothing leaves `_loaded` unchanged and skips exactly the files whose key was loaded |
| Loader.CountKnownPositive | load-symbols.py:82-83 | some file has a loaded key exactly when the count of such files is positive |
| Loader.CountKnownMonotone | load-symbols.py:82-83 | more loaded keys never means fewer files with a loaded key |
| Loader.ScanSettles | load-symbols.py:82-86 | after a scan every matching file has its key loaded or was refused by the debugger |
| Loader.ScanSkipsKnown | load-symbols.py:82-83 | every matching file whose key was loaded when the scan started is counted in `skipped` |
| Loader.LoadedStaysSkipped | load-symbols.py:82-86 | a file loaded by one scan keeps its key in `_loaded`; any later scan that visits it counts every file with a loaded key, this one included, in `skipped`, and never hands it to the debugger again |
| Loader.Rescan | load-symbols.py:76-86 | scanning again loads nothing, leaves `_loaded` and the debugger alone, and skips at least every file the first scan loaded or skipped |
| Loader.Debugger.constructor | load-symbols.py:55 | the debugger starts with the given symbol files and the given answers |
| Loader.Debugger.AddSymbolFile | load-symbols.py:55 | `add-symbol-file` adds the file on success and changes nothing on failure |
| Loader.Session.constructor | load-symbols.py:21 | `_loaded` starts empty, and the invariant holds |
| Loader.Session.TryLoad | load-symbols.py:47-61 | if the key is already loaded: 0, and the debugger is not called. If the debugger accepts the file: 1, and the key is added. If it refuses: 0, and nothing changes |
| Loader.Session.LoadFiles | load-symbols.py:78-86 | the inner loop over one directory continues the scan from the counters and `_loaded` it is given |
| Loader.Session.LoadDir | load-symbols.py:64-93 | the counters, `_loaded` and the debugger's files are those of `Scan` over the matching files of the walk; `_loaded` only grows, `new_loaded` is the number of keys added, and `new_loaded + skipped` is at most the number of matching files |
| Command.Invoke | load-symbols.py:100-151 | the report, `_loaded` and the debugger's files are those of `Outcome`, and the session invariant is kept |
| Command.RunAdds | load-symbols.py:106-151 | every run only grows `_loaded`, by exactly the keys of the files it added; those files were accepted, had keys not loaded before, and have distinct keys |
| Command.RunAddsMatching | load-symbols.py:109-112 | every file a run hands the debugger ends with one of the extensions: the single-file path was tested itself, and a walked file's joined path ends with its matching name |
| Command.SingleFileReport | load-symbols.py:110-121 | for a path that is a file: it is reported unsupported exactly when the path ends with no extension, and otherwise reports a single-file total of 0 or 1, which is 1 exactly when the key is new and the debugger accepts the file |
| Command.DirTotalLoaded | load-symbols.py:147-151 | a directory run reports a total exactly when some matching file has a key not yet loaded and is accepted; the total is the number of keys added |
| Command.DirAllAlreadyLoaded | load-symbols.py:136-141 | a directory run reports "already loaded" exactly when no matching file can be loaded and at least one has a loaded key |
| Command.DirNoneLoaded | load-symbols.py:142-146 | a directory run reports "no symbol files were loaded" exactly when every matching file has a key not yet loaded and is refused, or when there are none |
| Command.RefusalsChangeNothing | load-symbols.py:109-133 | an unsupported file, a missing path and an unreadable directory leave `_loaded` and the debugger unchanged, and the report names the absolute path |
| Command.RepeatLoadsNothing | load-symbols.py:47-52 | running the same command again adds no file and no key, and never reports a positive total |
| Command.RepeatDirAllAlreadyLoaded | load-symbols.py:136-141 | repeating a directory run whose first run loaded or skipped something reports "already loaded" |

## Left out

- Argument parsing with `argparse` and the `SystemExit` catch (load-symbols.py:23-32, 101-104) are not modelled. `Invoke` receives the already-parsed path and `--ext` text. A malformed argument line, which returns without doing anything, is not modelled.
- The `KeyboardInterrupt` early return (load-symbols.py:87-88) is left out because it is asynchronous. For an interrupt between two files, the counters returned would be those of `Scan` over the files visited so far, which is the loop invariant of `LoadDir`. That does not hold for an interrupt inside one file's visit, and there are two such windows:
  - After `add-symbol-file` succeeds (load-symbols.py:55) and before `_loaded.add` (load-symbols.py:57), the debugger has the file but its key is not recorded, so a later run loads it again.
  - After load-symbols.py:57 and before `new_loaded += 1` (load-symbols.py:86), `new_loaded` is one short of the keys added.
- The `onerror` collection of unreadable subdirectories and their messages (load-symbols.py:70-74, 90-92) are left out, because they only produce output. An unreadable subdirectory simply contributes no entries to the walk.
- Console output is not modelled. The final message of each command (load-symbols.py:113-150) becomes a `Report` value. The `Color` escape codes (load-symbols.py:9-15), the per-file "Loaded" line (load-symbols.py:56) and the debugger's error text for a failed load (load-symbols.py:59-60) are dropped.
- A change of the working directory between two commands is not modelled, for example by gdb's `cd`. `abs` is one function for the life of a `Session`. After a `cd`, the same path argument can resolve to another absolute path at load-symbols.py:106, so `Command.RepeatLoadsNothing` and `Command.RepeatDirAllAlreadyLoaded` promise nothing across a `cd`. The keys already in `_loaded` are not affected, because load-symbols.py:49 and 81 apply `abspath` to paths that are already absolute.
- Command registration with gdb (load-symbols.py:96-98, 154) is left out.
- `os.path.abspath`, `os.path.isfile`, `os.path.isdir`, `os.access` and `os.walk` are parameters, not definitions. The order of the walk is whatever the `FileSystem` value gives.
- `Loader.Debugger.AddSymbolFile`: success is a fixed function of the path. A file that fails once and succeeds later, for example after the debugger's state changes, is not modelled.
- `Extensions.ParseExtensions`: it returns the set, not Python's `tuple(exts)`. The tuple's order is unspecified, and `str.endswith` only depends on which suffixes it holds.
- `Loader.Session.LoadFiles`: the inner `for f in files` loop of `load_dir` is its own method, with the counters passed in and returned. The nested loops are otherwise as in the source.
