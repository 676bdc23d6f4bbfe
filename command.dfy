/**
 * The `load-symbols PATH [--ext EXTS]` debugger command (`invoke`): resolves
 * the path with `os.path.abspath`, parses the extensions, and then loads a
 * single file, reports a missing or unreadable path, or loads a whole
 * directory tree and reports the totals.
 *
 * The file system enters as a `FileSystem` value: what `os.path.isfile`,
 * `os.path.isdir`, `os.access(path, R_OK | X_OK)` and `os.walk` answer.
 */
module Command {
  import opened Extensions
  import opened Loader

  /** The answers of the file system to the queries the command makes. */
  datatype FileSystem = FileSystem(
    isFile: string -> bool,
    isDir: string -> bool,
    accessible: string -> bool,
    walk: string -> seq<WalkEntry>)

  /** The message the command writes, one per outcome. */
  datatype Report =
    | SingleFile(total: nat)      // "Total loaded <total> symbol file."
    | Unsupported(path: string)   // "Unsupported file: '<path>'"
    | NoSuchPath(path: string)    // "load-symbols: no such path: '<path>'"
    | PermissionDenied(path: string)  // "Permission denied: '<path>'"
    | AllAlreadyLoaded(path: string)  // "All symbol files in '<path>' have already been loaded."
    | NoneLoaded(path: string)    // "No symbol files were loaded from: '<path>'"
    | TotalLoaded(total: nat)     // "Total loaded <total> symbol files."

  /** What one run of the command does: its report, the new `_loaded` and the symbol files the debugger added. */
  datatype Run = Run(report: Report, loaded: set<string>, added: seq<string>)

  /** The summary `invoke` writes after `load_dir` returned `(newLoaded, skipped)` for `path`. */
  function Summary(path: string, newLoaded: nat, skipped: nat): Report {
    if newLoaded == 0 then
      if skipped > 0 then AllAlreadyLoaded(path) else NoneLoaded(path)
    else TotalLoaded(newLoaded)
  }

  /**
   * What `invoke` does for the arguments `rawPath` and `extArg`, given the
   * file system, the key function, the debugger's answers and `_loaded`.
   */
  function Outcome(fs: FileSystem, abs: string -> string, accepts: string -> bool, loaded: set<string>,
                   rawPath: string, extArg: string): Run
  {
    var path := abs(rawPath);
    var exts := ExtensionSet(extArg);
    if fs.isFile(path) then
      if EndsWithAny(path, exts) then
        if abs(path) !in loaded && accepts(path) then Run(SingleFile(1), loaded + {abs(path)}, [path])
        else Run(SingleFile(0), loaded, [])
      else Run(Unsupported(path), loaded, [])
    else if !fs.isDir(path) then Run(NoSuchPath(path), loaded, [])
    else if !fs.accessible(path) then Run(PermissionDenied(path), loaded, [])
    else
      var t := Scan(abs, accepts, loaded, Candidates(fs.walk(path), exts));
      Run(Summary(path, t.newLoaded, t.skipped), t.loaded, t.added)
  }

  /** The files a directory run of the command looks at. */
  function DirCandidates(fs: FileSystem, abs: string -> string, rawPath: string, extArg: string): seq<string> {
    Candidates(fs.walk(abs(rawPath)), ExtensionSet(extArg))
  }

  /** Whether the command, given `rawPath`, walks a directory. */
  predicate WalksDir(fs: FileSystem, abs: string -> string, rawPath: string) {
    var path := abs(rawPath);
    !fs.isFile(path) && fs.isDir(path) && fs.accessible(path)
  }

  /**
   * `LoadSymbolsCommand.invoke`: the parsed arguments are the path and the
   * `--ext` text. The report and the new state are those of `Outcome`.
   */
  method Invoke(session: Session, fs: FileSystem, rawPath: string, extArg: string) returns (report: Report)
    requires session.Valid()
    modifies session, session.dbg
    ensures session.Valid()
    ensures var o := Outcome(fs, session.abs, session.dbg.accepts, old(session.loaded), rawPath, extArg);
      && report == o.report && session.loaded == o.loaded
      && session.dbg.symbolFiles == old(session.dbg.symbolFiles) + o.added
  {
    var path := session.abs(rawPath);
    var exts := ParseExtensions(extArg);

    if fs.isFile(path) {
      if EndsWithAny(path, exts) {
        var total := session.TryLoad(path);
        report := SingleFile(total);
      } else {
        report := Unsupported(path);
      }
      return;
    }

    if !fs.isDir(path) {
      return NoSuchPath(path);
    }

    if !fs.accessible(path) {
      return PermissionDenied(path);
    }

    var totalLoaded, totalSkipped := session.LoadDir(fs.walk(path), exts);
    report := Summary(path, totalLoaded, totalSkipped);
  }

  /**
   * Every run keeps `_loaded` as a record of what it added: the set only
   * grows, by exactly the keys of the files the debugger added, and those
   * files were accepted, had keys not loaded before, and have distinct keys.
   */
  lemma RunAdds(fs: FileSystem, abs: string -> string, accepts: string -> bool, loaded: set<string>,
                rawPath: string, extArg: string)
    ensures var o := Outcome(fs, abs, accepts, loaded, rawPath, extArg);
      && loaded <= o.loaded
      && o.loaded == loaded + Keys(abs, o.added)
      && DistinctKeys(abs, o.added)
      && (forall p :: p in o.added ==> abs(p) !in loaded && accepts(p))
  {
    if WalksDir(fs, abs, rawPath) {
      ScanAdds(abs, accepts, loaded, DirCandidates(fs, abs, rawPath, extArg));
    }
  }

  /**
   * Every file a run hands the debugger ends with one of the extensions:
   * for a single file the absolute path was tested, for a directory the file
   * name was tested and the joined path ends with that name.
   */
  lemma RunAddsMatching(fs: FileSystem, abs: string -> string, accepts: string -> bool, loaded: set<string>,
                        rawPath: string, extArg: string)
    ensures var o := Outcome(fs, abs, accepts, loaded, rawPath, extArg);
      forall p :: p in o.added ==> EndsWithAny(p, ExtensionSet(extArg))
  {
    var o := Outcome(fs, abs, accepts, loaded, rawPath, extArg);
    if WalksDir(fs, abs, rawPath) {
      var exts := ExtensionSet(extArg);
      var walk := fs.walk(abs(rawPath));
      var paths := Candidates(walk, exts);
      ScanAdds(abs, accepts, loaded, paths);
      forall p | p in o.added
        ensures EndsWithAny(p, exts)
      {
        CandidatesMember(walk, exts, p);
        var i, j :| 0 <= i < |walk| && 0 <= j < |walk[i].files|
          && EndsWithAny(walk[i].files[j], exts) && p == JoinPath(walk[i].root, walk[i].files[j]);
        JoinedPathMatches(walk[i].root, walk[i].files[j], exts);
      }
    }
  }

  /**
   * A path that is a file is loaded only when it ends with one of the
   * extensions, and is reported as unsupported otherwise; the file run
   * reports at most one loaded file.
   */
  lemma SingleFileReport(fs: FileSystem, abs: string -> string, accepts: string -> bool, loaded: set<string>,
                         rawPath: string, extArg: string)
    requires fs.isFile(abs(rawPath))
    ensures var o := Outcome(fs, abs, accepts, loaded, rawPath, extArg);
      && (o.report.Unsupported? <==> !EndsWithAny(abs(rawPath), ExtensionSet(extArg)))
      && (!o.report.Unsupported? ==> o.report.SingleFile? && o.report.total <= 1)
      && (o.report == SingleFile(1) <==>
          EndsWithAny(abs(rawPath), ExtensionSet(extArg)) && abs(abs(rawPath)) !in loaded && accepts(abs(rawPath)))
  {
  }

  /**
   * A directory run reports a total exactly when some file it looks at has a
   * key not yet loaded and is accepted by the debugger, and the total is the
   * number of keys it added to `_loaded`.
   */
  lemma DirTotalLoaded(fs: FileSystem, abs: string -> string, accepts: string -> bool, loaded: set<string>,
                       rawPath: string, extArg: string)
    requires WalksDir(fs, abs, rawPath)
    ensures var o := Outcome(fs, abs, accepts, loaded, rawPath, extArg);
      && (o.report.TotalLoaded? <==>
          exists p :: p in DirCandidates(fs, abs, rawPath, extArg) && abs(p) !in loaded && accepts(p))
      && (o.report.TotalLoaded? ==> o.report.total == |o.loaded - loaded|)
  {
    var paths := DirCandidates(fs, abs, rawPath, extArg);
    ScanLoadsIff(abs, accepts, loaded, paths);
    ScanCounts(abs, accepts, loaded, paths);
  }

  /**
   * A directory run reports that everything was already loaded exactly when
   * it can load none of its files and at least one of them has a loaded key.
   */
  lemma DirAllAlreadyLoaded(fs: FileSystem, abs: string -> string, accepts: string -> bool, loaded: set<string>,
                            rawPath: string, extArg: string)
    requires WalksDir(fs, abs, rawPath)
    ensures var o := Outcome(fs, abs, accepts, loaded, rawPath, extArg);
      var paths := DirCandidates(fs, abs, rawPath, extArg);
      o.report.AllAlreadyLoaded? <==>
        (forall p :: p in paths ==> abs(p) in loaded || !accepts(p))
        && exists p :: p in paths && abs(p) in loaded
  {
    var paths := DirCandidates(fs, abs, rawPath, extArg);
    var t := Scan(abs, accepts, loaded, paths);
    ScanLoadsIff(abs, accepts, loaded, paths);
    if t.newLoaded == 0 {
      ScanNothingNew(abs, accepts, loaded, paths);
      CountKnownPositive(abs, loaded, paths);
    }
  }

  /**
   * A directory run reports that nothing was loaded exactly when none of its
   * files has a loaded key and the debugger refuses every one of them; in
   * particular when the walk finds no matching file at all.
   */
  lemma DirNoneLoaded(fs: FileSystem, abs: string -> string, accepts: string -> bool, loaded: set<string>,
                      rawPath: string, extArg: string)
    requires WalksDir(fs, abs, rawPath)
    ensures var o := Outcome(fs, abs, accepts, loaded, rawPath, extArg);
      var paths := DirCandidates(fs, abs, rawPath, extArg);
      o.report.NoneLoaded? <==> forall p :: p in paths ==> abs(p) !in loaded && !accepts(p)
  {
    var paths := DirCandidates(fs, abs, rawPath, extArg);
    var t := Scan(abs, accepts, loaded, paths);
    ScanLoadsIff(abs, accepts, loaded, paths);
    if t.newLoaded == 0 {
      ScanNothingNew(abs, accepts, loaded, paths);
      CountKnownPositive(abs, loaded, paths);
    }
  }

  /**
   * The runs that stop before loading anything (an unsupported single file,
   * a path that is neither file nor directory, an unreadable directory)
   * leave `_loaded` and the debugger as they were.
   */
  lemma RefusalsChangeNothing(fs: FileSystem, abs: string -> string, accepts: string -> bool, loaded: set<string>,
                              rawPath: string, extArg: string)
    ensures var o := Outcome(fs, abs, accepts, loaded, rawPath, extArg);
      o.report.Unsupported? || o.report.NoSuchPath? || o.report.PermissionDenied? ==>
        o.loaded == loaded && o.added == [] && o.report.path == abs(rawPath)
  {
  }

  /**
   * Running the same command a second time loads nothing new: the debugger
   * receives no file, `_loaded` stays as the first run left it, and the
   * report is never a positive total.
   */
  lemma RepeatLoadsNothing(fs: FileSystem, abs: string -> string, accepts: string -> bool, loaded: set<string>,
                           rawPath: string, extArg: string)
    ensures var o1 := Outcome(fs, abs, accepts, loaded, rawPath, extArg);
      var o2 := Outcome(fs, abs, accepts, o1.loaded, rawPath, extArg);
      && o2.loaded == o1.loaded && o2.added == []
      && !o2.report.TotalLoaded? && o2.report != SingleFile(1)
  {
    if WalksDir(fs, abs, rawPath) {
      Rescan(abs, accepts, loaded, DirCandidates(fs, abs, rawPath, extArg));
    }
  }

  /**
   * Running the command again over a directory reports that everything was
   * already loaded whenever the first run loaded or skipped any file.
   */
  lemma RepeatDirAllAlreadyLoaded(fs: FileSystem, abs: string -> string, accepts: string -> bool, loaded: set<string>,
                                  rawPath: string, extArg: string)
    requires WalksDir(fs, abs, rawPath)
    requires var o1 := Outcome(fs, abs, accepts, loaded, rawPath, extArg);
      o1.report.TotalLoaded? || o1.report.AllAlreadyLoaded?
    ensures var o1 := Outcome(fs, abs, accepts, loaded, rawPath, extArg);
      Outcome(fs, abs, accepts, o1.loaded, rawPath, extArg).report == AllAlreadyLoaded(abs(rawPath))
  {
    Rescan(abs, accepts, loaded, DirCandidates(fs, abs, rawPath, extArg));
  }
}
