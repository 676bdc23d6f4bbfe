/**
 * The de-duplicating loader of `load-symbols`: `try_load`, which keeps the
 * module-wide set `_loaded` of `os.path.abspath` keys, and `load_dir`, which
 * walks a directory tree and counts new loads and skipped files.
 *
 * The outside world enters as parameters: `os.path.abspath` is the session's
 * `abs` function (it depends on the working directory, which the model does
 * not see), the debugger's `add-symbol-file` command is `Debugger.AddSymbolFile`
 * (its success is the debugger's `accepts` oracle), and the result of `os.walk`
 * is a sequence of `WalkEntry` values.
 */
module Loader {
  import opened Text
  import opened Extensions

  /** One directory produced by `os.walk`: its path and the names of the files directly in it. */
  datatype WalkEntry = WalkEntry(root: string, files: seq<string>)

  /** `os.path.join(root, name)` on POSIX. */
  function JoinPath(root: string, name: string): string {
    if |name| > 0 && name[0] == '/' then name
    else if root == [] || root[|root| - 1] == '/' then root + name
    else root + ['/'] + name
  }

  /** Joining keeps the file name as the end of the path, and a relative name lands under the directory. */
  lemma JoinPathSpec(root: string, name: string)
    ensures EndsWith(JoinPath(root, name), name)
    ensures !(|name| > 0 && name[0] == '/') ==> JoinPath(root, name)[..|root|] == root
  {
    var p := JoinPath(root, name);
    assert p[|p| - |name|..] == name;
  }

  /** A file name that has one of the extensions gives a joined path that has it too. */
  lemma JoinedPathMatches(root: string, name: string, exts: set<string>)
    requires EndsWithAny(name, exts)
    ensures EndsWithAny(JoinPath(root, name), exts)
  {
    var e :| e in exts && EndsWith(name, e);
    var p := JoinPath(root, name);
    JoinPathSpec(root, name);
    assert p[|p| - |e|..] == name[|name| - |e|..] by {
      assert p[|p| - |name|..] == name;
    }
    assert EndsWith(p, e);
  }

  /** The paths, in walk order, of the files of one directory whose names match an extension. */
  function Matching(root: string, files: seq<string>, exts: set<string>): seq<string>
    decreases |files|
  {
    if files == [] then []
    else
      var f := files[|files| - 1];
      Matching(root, files[..|files| - 1], exts) + (if EndsWithAny(f, exts) then [JoinPath(root, f)] else [])
  }

  /** The paths, in walk order, of every matching file of the walk: the files `load_dir` looks at. */
  function Candidates(walk: seq<WalkEntry>, exts: set<string>): seq<string>
    decreases |walk|
  {
    if walk == [] then []
    else
      var last := walk[|walk| - 1];
      Candidates(walk[..|walk| - 1], exts) + Matching(last.root, last.files, exts)
  }

  lemma {:induction false} MatchingMember(root: string, files: seq<string>, exts: set<string>, p: string)
    ensures p in Matching(root, files, exts) <==>
      exists j :: 0 <= j < |files| && EndsWithAny(files[j], exts) && p == JoinPath(root, files[j])
    decreases |files|
  {
    if files != [] {
      var n := |files| - 1;
      var init := files[..n];
      var f := files[n];
      var last := if EndsWithAny(f, exts) then [JoinPath(root, f)] else [];
      assert Matching(root, files, exts) == Matching(root, init, exts) + last;
      MatchingMember(root, init, exts, p);
      if p in Matching(root, init, exts) {
        var j :| 0 <= j < |init| && EndsWithAny(init[j], exts) && p == JoinPath(root, init[j]);
        assert files[j] == init[j];
      }
      if exists j :: 0 <= j < |files| && EndsWithAny(files[j], exts) && p == JoinPath(root, files[j]) {
        var j :| 0 <= j < |files| && EndsWithAny(files[j], exts) && p == JoinPath(root, files[j]);
        if j < n {
          assert init[j] == files[j];
          assert p in Matching(root, init, exts);
        } else {
          assert p in last;
        }
      }
    }
  }

  /** The paths of a walk are the matching paths of its directories. */
  lemma {:induction false} CandidatesFromDirs(walk: seq<WalkEntry>, exts: set<string>, p: string)
    ensures p in Candidates(walk, exts) <==>
      exists i :: 0 <= i < |walk| && p in Matching(walk[i].root, walk[i].files, exts)
    decreases |walk|
  {
    if walk != [] {
      var n := |walk| - 1;
      var init := walk[..n];
      var last := Matching(walk[n].root, walk[n].files, exts);
      assert Candidates(walk, exts) == Candidates(init, exts) + last;
      CandidatesFromDirs(init, exts, p);
      if p in Candidates(init, exts) {
        var i :| 0 <= i < |init| && p in Matching(init[i].root, init[i].files, exts);
        assert walk[i] == init[i];
      } else if p in last {
        assert p in Matching(walk[n].root, walk[n].files, exts);
      }
      if exists i :: 0 <= i < |walk| && p in Matching(walk[i].root, walk[i].files, exts) {
        var i :| 0 <= i < |walk| && p in Matching(walk[i].root, walk[i].files, exts);
        if i < n {
          assert init[i] == walk[i];
          assert p in Candidates(init, exts);
        } else {
          assert p in last;
        }
      }
    }
  }

  /**
   * `load_dir` considers exactly the files whose names end with one of the
   * extensions, each under the directory the walk found it in; files that
   * match no extension are not looked at.
   */
  lemma CandidatesMember(walk: seq<WalkEntry>, exts: set<string>, p: string)
    ensures p in Candidates(walk, exts) <==>
      exists i, j :: 0 <= i < |walk| && 0 <= j < |walk[i].files|
        && EndsWithAny(walk[i].files[j], exts) && p == JoinPath(walk[i].root, walk[i].files[j])
  {
    CandidatesFromDirs(walk, exts, p);
    if p in Candidates(walk, exts) {
      var i :| 0 <= i < |walk| && p in Matching(walk[i].root, walk[i].files, exts);
      MatchingMember(walk[i].root, walk[i].files, exts, p);
    }
    if exists i, j :: (0 <= i < |walk| && 0 <= j < |walk[i].files|
        && EndsWithAny(walk[i].files[j], exts) && p == JoinPath(walk[i].root, walk[i].files[j]))
    {
      var i, j :| 0 <= i < |walk| && 0 <= j < |walk[i].files|
        && EndsWithAny(walk[i].files[j], exts) && p == JoinPath(walk[i].root, walk[i].files[j]);
      MatchingMember(walk[i].root, walk[i].files, exts, p);
    }
  }

  /** The keys (`os.path.abspath` results) of some paths. */
  function Keys(abs: string -> string, paths: seq<string>): set<string> {
    set p | p in paths :: abs(p)
  }

  /** No two of the paths share a key: the same file was never loaded twice. */
  ghost predicate DistinctKeys(abs: string -> string, paths: seq<string>) {
    forall i, j :: 0 <= i < j < |paths| ==> abs(paths[i]) != abs(paths[j])
  }

  lemma AppendFreshKey(abs: string -> string, paths: seq<string>, p: string)
    requires DistinctKeys(abs, paths) && abs(p) !in Keys(abs, paths)
    ensures Keys(abs, paths + [p]) == Keys(abs, paths) + {abs(p)}
    ensures DistinctKeys(abs, paths + [p])
  {
    var ps := paths + [p];
    forall i, j | 0 <= i < j < |ps| ensures abs(ps[i]) != abs(ps[j]) {
      assert ps[i] == paths[i];
      if j < |paths| {
        assert ps[j] == paths[j];
      } else {
        assert abs(paths[i]) in Keys(abs, paths);
      }
    }
  }

  /** What `load_dir` has accumulated so far: its two counters, `_loaded`, and the paths the debugger added. */
  datatype Tally = Tally(newLoaded: nat, skipped: nat, loaded: set<string>, added: seq<string>)

  /**
   * One matching file in `load_dir`: skipped when its key is already loaded,
   * otherwise handed to `try_load`, which records the key and counts it only
   * when the debugger accepts it.
   */
  function Visit(abs: string -> string, accepts: string -> bool, t: Tally, path: string): Tally {
    var key := abs(path);
    if key in t.loaded then t.(skipped := t.skipped + 1)
    else if accepts(path) then
      t.(newLoaded := t.newLoaded + 1, loaded := t.loaded + {key}, added := t.added + [path])
    else t
  }

  /** `load_dir` over the given matching paths, continuing from the tally `t`. */
  function ScanFrom(abs: string -> string, accepts: string -> bool, t: Tally, paths: seq<string>): Tally
    decreases |paths|
  {
    if paths == [] then t
    else Visit(abs, accepts, ScanFrom(abs, accepts, t, paths[..|paths| - 1]), paths[|paths| - 1])
  }

  /** `load_dir` over the given matching paths, starting with both counters at 0 and the loaded-key set `loaded`. */
  function Scan(abs: string -> string, accepts: string -> bool, loaded: set<string>, paths: seq<string>): Tally {
    ScanFrom(abs, accepts, Tally(0, 0, loaded, []), paths)
  }

  lemma ScanFromSnoc(abs: string -> string, accepts: string -> bool, t: Tally, paths: seq<string>, p: string)
    ensures ScanFrom(abs, accepts, t, paths + [p]) == Visit(abs, accepts, ScanFrom(abs, accepts, t, paths), p)
  {
    assert (paths + [p])[..|paths|] == paths;
  }

  /** Scanning `a + b` is scanning `a` and then carrying on over `b`. */
  lemma {:induction false} ScanFromAppend(abs: string -> string, accepts: string -> bool, t: Tally, a: seq<string>, b: seq<string>)
    ensures ScanFrom(abs, accepts, t, a + b) == ScanFrom(abs, accepts, ScanFrom(abs, accepts, t, a), b)
    decreases |b|
  {
    if b == [] {
      assert a + b == a;
    } else {
      var init := b[..|b| - 1];
      var p := b[|b| - 1];
      ScanFromAppend(abs, accepts, t, a, init);
      assert a + b == (a + init) + [p];
      ScanFromSnoc(abs, accepts, t, a + init, p);
    }
  }

  lemma MatchingSnoc(root: string, files: seq<string>, j: nat, exts: set<string>)
    requires j < |files|
    ensures Matching(root, files[..j + 1], exts) ==
      Matching(root, files[..j], exts) + (if EndsWithAny(files[j], exts) then [JoinPath(root, files[j])] else [])
  {
    assert files[..j + 1][..j] == files[..j];
  }

  lemma CandidatesSnoc(walk: seq<WalkEntry>, i: nat, exts: set<string>)
    requires i < |walk|
    ensures Candidates(walk[..i + 1], exts) == Candidates(walk[..i], exts) + Matching(walk[i].root, walk[i].files, exts)
  {
    assert walk[..i + 1][..i] == walk[..i];
  }

  /** The number of paths whose key is in `loaded`. */
  function CountKnown(abs: string -> string, loaded: set<string>, paths: seq<string>): nat
    decreases |paths|
  {
    if paths == [] then 0
    else CountKnown(abs, loaded, paths[..|paths| - 1]) + (if abs(paths[|paths| - 1]) in loaded then 1 else 0)
  }

  /**
   * What a scan adds to `_loaded`: the set only grows, and grows by exactly
   * the keys of the files the debugger added; those files are matching paths
   * of the scan, accepted by the debugger, with keys not loaded before, and no
   * two of them share a key.
   */
  lemma {:induction false} ScanAdds(abs: string -> string, accepts: string -> bool, loaded: set<string>, paths: seq<string>)
    ensures var t := Scan(abs, accepts, loaded, paths);
      && loaded <= t.loaded
      && t.loaded == loaded + Keys(abs, t.added)
      && DistinctKeys(abs, t.added)
      && (forall p :: p in t.added ==> abs(p) !in loaded && accepts(p) && p in paths)
    decreases |paths|
  {
    if paths != [] {
      var init := paths[..|paths| - 1];
      var p := paths[|paths| - 1];
      ScanAdds(abs, accepts, loaded, init);
      var t := Scan(abs, accepts, loaded, init);
      assert forall q :: q in init ==> q in paths;
      if abs(p) !in t.loaded && accepts(p) {
        AppendFreshKey(abs, t.added, p);
      }
    }
  }

  /**
   * The counters of a scan: `new_loaded` is the number of keys added to
   * `_loaded`, and every matching path is counted at most once, in
   * `new_loaded` or in `skipped`.
   */
  lemma {:induction false} ScanCounts(abs: string -> string, accepts: string -> bool, loaded: set<string>, paths: seq<string>)
    ensures var t := Scan(abs, accepts, loaded, paths);
      && t.newLoaded == |t.added| == |t.loaded - loaded|
      && t.newLoaded + t.skipped <= |paths|
    decreases |paths|
  {
    if paths != [] {
      var init := paths[..|paths| - 1];
      var p := paths[|paths| - 1];
      ScanCounts(abs, accepts, loaded, init);
      ScanAdds(abs, accepts, loaded, init);
      var t := Scan(abs, accepts, loaded, init);
      var key := abs(p);
      if key !in t.loaded && accepts(p) {
        assert (t.loaded + {key}) - loaded == (t.loaded - loaded) + {key};
      }
    }
  }

  /** A scan in which every path's key is already loaded loads nothing and skips every path. */
  lemma {:induction false} ScanOverKnown(abs: string -> string, accepts: string -> bool, loaded: set<string>, paths: seq<string>)
    requires forall p :: p in paths ==> abs(p) in loaded
    ensures Scan(abs, accepts, loaded, paths) == Tally(0, |paths|, loaded, [])
    decreases |paths|
  {
    if paths != [] {
      var init := paths[..|paths| - 1];
      assert forall q :: q in init ==> q in paths;
      ScanOverKnown(abs, accepts, loaded, init);
      assert paths[|paths| - 1] in paths;
    }
  }

  /** A matching path whose key was not loaded and that the debugger accepts makes the scan load something. */
  lemma {:induction false} ScanLoadsAcceptedNew(abs: string -> string, accepts: string -> bool, loaded: set<string>, paths: seq<string>, q: string)
    requires q in paths && abs(q) !in loaded && accepts(q)
    ensures Scan(abs, accepts, loaded, paths).newLoaded > 0
    decreases |paths|
  {
    var init := paths[..|paths| - 1];
    var p := paths[|paths| - 1];
    var s := Scan(abs, accepts, loaded, init);
    assert paths == init + [p];
    if q in init {
      ScanLoadsAcceptedNew(abs, accepts, loaded, init, q);
    } else if abs(p) in s.loaded {
      ScanCounts(abs, accepts, loaded, init);
      assert abs(p) in s.loaded - loaded;
    }
  }

  /**
   * A scan loads something exactly when some matching path has a key that was
   * not loaded and is accepted by the debugger.
   */
  lemma ScanLoadsIff(abs: string -> string, accepts: string -> bool, loaded: set<string>, paths: seq<string>)
    ensures Scan(abs, accepts, loaded, paths).newLoaded > 0 <==>
      exists p :: p in paths && abs(p) !in loaded && accepts(p)
  {
    var t := Scan(abs, accepts, loaded, paths);
    if t.newLoaded > 0 {
      ScanAdds(abs, accepts, loaded, paths);
      ScanCounts(abs, accepts, loaded, paths);
      assert t.added[0] in t.added;
    }
    if exists p :: p in paths && abs(p) !in loaded && accepts(p) {
      var p :| p in paths && abs(p) !in loaded && accepts(p);
      ScanLoadsAcceptedNew(abs, accepts, loaded, paths, p);
    }
  }

  /** A scan that loads nothing leaves `_loaded` as it was and skips exactly the paths whose key was already loaded. */
  lemma {:induction false} ScanNothingNew(abs: string -> string, accepts: string -> bool, loaded: set<string>, paths: seq<string>)
    requires Scan(abs, accepts, loaded, paths).newLoaded == 0
    ensures Scan(abs, accepts, loaded, paths) == Tally(0, CountKnown(abs, loaded, paths), loaded, [])
    decreases |paths|
  {
    if paths != [] {
      var init := paths[..|paths| - 1];
      ScanNothingNew(abs, accepts, loaded, init);
    }
  }

  /** Some path has a loaded key exactly when the count of such paths is positive. */
  lemma {:induction false} CountKnownPositive(abs: string -> string, loaded: set<string>, paths: seq<string>)
    ensures CountKnown(abs, loaded, paths) > 0 <==> exists p :: p in paths && abs(p) in loaded
    decreases |paths|
  {
    if paths != [] {
      var init := paths[..|paths| - 1];
      CountKnownPositive(abs, loaded, init);
      assert forall q :: q in paths ==> q in init || q == paths[|paths| - 1];
      assert forall q :: q in init ==> q in paths;
    }
  }

  lemma {:induction false} CountKnownMonotone(abs: string -> string, a: set<string>, b: set<string>, paths: seq<string>)
    requires a <= b
    ensures CountKnown(abs, a, paths) <= CountKnown(abs, b, paths)
    decreases |paths|
  {
    if paths != [] {
      CountKnownMonotone(abs, a, b, paths[..|paths| - 1]);
    }
  }

  /** After a scan, every path it counted has its key loaded, and every other path was refused by the debugger. */
  lemma {:induction false} ScanSettles(abs: string -> string, accepts: string -> bool, loaded: set<string>, paths: seq<string>)
    ensures var t := Scan(abs, accepts, loaded, paths);
      && t.newLoaded + t.skipped <= CountKnown(abs, t.loaded, paths)
      && forall p :: p in paths ==> abs(p) in t.loaded || !accepts(p)
    decreases |paths|
  {
    if paths != [] {
      var init := paths[..|paths| - 1];
      var p := paths[|paths| - 1];
      var s := Scan(abs, accepts, loaded, init);
      var t := Scan(abs, accepts, loaded, paths);
      ScanSettles(abs, accepts, loaded, init);
      assert s.loaded <= t.loaded;
      CountKnownMonotone(abs, s.loaded, t.loaded, init);
      assert forall q :: q in paths ==> q in init || q == p;
    }
  }

  /** Every path whose key is loaded when the scan starts is counted in `skipped`, since `_loaded` only grows during the scan. */
  lemma {:induction false} ScanSkipsKnown(abs: string -> string, accepts: string -> bool, loaded: set<string>, paths: seq<string>)
    ensures CountKnown(abs, loaded, paths) <= Scan(abs, accepts, loaded, paths).skipped
    decreases |paths|
  {
    if paths != [] {
      var init := paths[..|paths| - 1];
      ScanSkipsKnown(abs, accepts, loaded, init);
      ScanAdds(abs, accepts, loaded, init);
    }
  }

  /**
   * A file a scan loaded is skipped by any later scan that visits it, as
   * long as `_loaded` still holds what the first scan left in it: its key is
   * loaded, so the later scan counts it in `skipped` and never hands it to
   * the debugger again.
   */
  lemma LoadedStaysSkipped(abs: string -> string, accepts: string -> bool, loaded: set<string>, paths: seq<string>,
                           later: set<string>, laterPaths: seq<string>, p: string)
    requires p in Scan(abs, accepts, loaded, paths).added
    requires Scan(abs, accepts, loaded, paths).loaded <= later
    requires p in laterPaths
    ensures abs(p) in later
    ensures p !in Scan(abs, accepts, later, laterPaths).added
    ensures 0 < CountKnown(abs, later, laterPaths) <= Scan(abs, accepts, later, laterPaths).skipped
  {
    ScanAdds(abs, accepts, loaded, paths);
    var t := Scan(abs, accepts, loaded, paths);
    assert abs(p) in Keys(abs, t.added);
    ScanAdds(abs, accepts, later, laterPaths);
    CountKnownPositive(abs, later, laterPaths);
    ScanSkipsKnown(abs, accepts, later, laterPaths);
  }

  /**
   * Scanning the same files again right after a scan loads nothing, leaves
   * `_loaded` unchanged, and skips at least every file the first scan loaded
   * or skipped.
   */
  lemma Rescan(abs: string -> string, accepts: string -> bool, loaded: set<string>, paths: seq<string>)
    ensures var t := Scan(abs, accepts, loaded, paths);
      var u := Scan(abs, accepts, t.loaded, paths);
      u.newLoaded == 0 && u.loaded == t.loaded && u.added == []
      && t.newLoaded + t.skipped <= u.skipped <= |paths|
  {
    var t := Scan(abs, accepts, loaded, paths);
    ScanSettles(abs, accepts, loaded, paths);
    ScanLoadsIff(abs, accepts, t.loaded, paths);
    ScanNothingNew(abs, accepts, t.loaded, paths);
    ScanCounts(abs, accepts, t.loaded, paths);
  }

  /** The debugger's side: the `add-symbol-file` command and the symbol files it has added. */
  class Debugger {
    /** Whether `add-symbol-file <path>` succeeds for a path; the debugger's reasons are not modelled. */
    const accepts: string -> bool
    /** The paths added with `add-symbol-file`, in order. */
    var symbolFiles: seq<string>

    constructor (accepts: string -> bool, symbolFiles: seq<string>)
      ensures this.accepts == accepts && this.symbolFiles == symbolFiles
    {
      this.accepts := accepts;
      this.symbolFiles := symbolFiles;
    }

    /** `gdb.execute("add-symbol-file " + path)`: on success the file is added, on failure nothing changes. */
    method AddSymbolFile(path: string) returns (ok: bool)
      modifies this
      ensures ok == accepts(path)
      ensures symbolFiles == old(symbolFiles) + (if ok then [path] else [])
    {
      ok := accepts(path);
      if ok {
        symbolFiles := symbolFiles + [path];
      }
    }
  }

  /**
   * The loader's state for the life of the debugger session: the set
   * `_loaded` of keys of files loaded so far, with the `abs` function that
   * computes keys and the debugger it loads into.
   */
  class Session {
    const abs: string -> string
    const dbg: Debugger
    var loaded: set<string>
    /** How many symbol files the debugger had before this session loaded any. */
    ghost const start: nat

    /**
     * `_loaded` holds exactly the keys of the files this session added to
     * the debugger, and the debugger never received two files with one key.
     */
    ghost predicate Valid()
      reads this, dbg
    {
      start <= |dbg.symbolFiles|
      && loaded == Keys(abs, dbg.symbolFiles[start..])
      && DistinctKeys(abs, dbg.symbolFiles[start..])
    }

    /** `_loaded: set[str] = set()` at module load. */
    constructor (abs: string -> string, dbg: Debugger)
      ensures Valid() && this.abs == abs && this.dbg == dbg && loaded == {}
    {
      this.abs := abs;
      this.dbg := dbg;
      loaded := {};
      start := |dbg.symbolFiles|;
    }

    /**
     * `try_load(path)`: 0 without calling the debugger when the key is
     * already loaded; otherwise 1 and the key recorded if the debugger loads
     * the file, 0 and nothing recorded if it fails.
     */
    method TryLoad(path: string) returns (r: nat)
      requires Valid()
      modifies this, dbg
      ensures Valid()
      ensures abs(path) in old(loaded) ==> r == 0 && loaded == old(loaded) && unchanged(dbg)
      ensures abs(path) !in old(loaded) && dbg.accepts(path) ==>
        r == 1 && loaded == old(loaded) + {abs(path)} && dbg.symbolFiles == old(dbg.symbolFiles) + [path]
      ensures abs(path) !in old(loaded) && !dbg.accepts(path) ==>
        r == 0 && loaded == old(loaded) && dbg.symbolFiles == old(dbg.symbolFiles)
    {
      var key := abs(path);
      if key in loaded {
        return 0;
      }
      ghost var mine := dbg.symbolFiles[start..];
      var ok := dbg.AddSymbolFile(path);
      if ok {
        assert dbg.symbolFiles[start..] == mine + [path];
        AppendFreshKey(abs, mine, path);
        loaded := loaded + {key};
        return 1;
      }
      assert dbg.symbolFiles[start..] == mine;
      return 0;
    }

    /**
     * The inner loop of `load_dir`, over the files of one directory of the
     * walk, carrying on from the counters `newLoaded0` and `skipped0`: a
     * matching file whose key is already loaded is counted in `skipped`, any
     * other matching file goes to `try_load` and is counted in `new_loaded`
     * when that returns 1. `t0` is what the scan had accumulated before this
     * directory and `base` the debugger's symbol files before the scan.
     */
    method LoadFiles(root: string, files: seq<string>, exts: set<string>, newLoaded0: nat, skipped0: nat,
                     ghost t0: Tally, ghost base: seq<string>) returns (newLoaded: nat, skipped: nat)
      requires Valid()
      requires newLoaded0 == t0.newLoaded && skipped0 == t0.skipped && loaded == t0.loaded
      requires dbg.symbolFiles == base + t0.added
      modifies this, dbg
      ensures Valid()
      ensures var t := ScanFrom(abs, dbg.accepts, t0, Matching(root, files, exts));
        && newLoaded == t.newLoaded && skipped == t.skipped && loaded == t.loaded
        && dbg.symbolFiles == base + t.added
    {
      newLoaded, skipped := newLoaded0, skipped0;
      ghost var t := t0;
      var j := 0;
      while j < |files|
        invariant 0 <= j <= |files|
        invariant Valid()
        invariant t == ScanFrom(abs, dbg.accepts, t0, Matching(root, files[..j], exts))
        invariant newLoaded == t.newLoaded && skipped == t.skipped && loaded == t.loaded
        invariant dbg.symbolFiles == base + t.added
      {
        var f := files[j];
        ghost var seen := Matching(root, files[..j], exts);
        MatchingSnoc(root, files, j, exts);
        if EndsWithAny(f, exts) {
          var path := JoinPath(root, f);
          ScanFromSnoc(abs, dbg.accepts, t0, seen, path);
          if abs(path) in loaded {
            skipped := skipped + 1;
          } else {
            var r := TryLoad(path);
            if r != 0 {
              newLoaded := newLoaded + 1;
            }
          }
          t := Visit(abs, dbg.accepts, t, path);
          assert t == ScanFrom(abs, dbg.accepts, t0, seen + [path]);
        } else {
          assert seen + [] == seen;
        }
        j := j + 1;
      }
      assert files[..|files|] == files;
    }

    /**
     * `load_dir(dir, exts)` over the walk of `dir`: visits every matching
     * file in walk order; one whose key is already loaded is counted in
     * `skipped`, any other goes to `try_load` and is counted in `new_loaded`
     * when that returns 1.
     */
    method LoadDir(walk: seq<WalkEntry>, exts: set<string>) returns (newLoaded: nat, skipped: nat)
      requires Valid()
      modifies this, dbg
      ensures Valid()
      ensures var t := Scan(abs, dbg.accepts, old(loaded), Candidates(walk, exts));
        && newLoaded == t.newLoaded && skipped == t.skipped && loaded == t.loaded
        && dbg.symbolFiles == old(dbg.symbolFiles) + t.added
      ensures old(loaded) <= loaded && newLoaded == |loaded - old(loaded)|
      ensures newLoaded + skipped <= |Candidates(walk, exts)|
    {
      newLoaded, skipped := 0, 0;
      ghost var t := Tally(0, 0, loaded, []);
      var i := 0;
      while i < |walk|
        invariant 0 <= i <= |walk|
        invariant Valid()
        invariant t == Scan(abs, dbg.accepts, old(loaded), Candidates(walk[..i], exts))
        invariant newLoaded == t.newLoaded && skipped == t.skipped && loaded == t.loaded
        invariant dbg.symbolFiles == old(dbg.symbolFiles) + t.added
      {
        var root, files := walk[i].root, walk[i].files;
        ghost var t0 := t;
        newLoaded, skipped := LoadFiles(root, files, exts, newLoaded, skipped, t0, old(dbg.symbolFiles));
        t := ScanFrom(abs, dbg.accepts, t0, Matching(root, files, exts));
        assert t == Scan(abs, dbg.accepts, old(loaded), Candidates(walk[..i + 1], exts)) by {
          CandidatesSnoc(walk, i, exts);
          ScanFromAppend(abs, dbg.accepts, Tally(0, 0, old(loaded), []), Candidates(walk[..i], exts), Matching(root, files, exts));
        }
        i := i + 1;
      }
      assert walk[..|walk|] == walk;
      ScanAdds(abs, dbg.accepts, old(loaded), Candidates(walk, exts));
      ScanCounts(abs, dbg.accepts, old(loaded), Candidates(walk, exts));
    }
  }
}
