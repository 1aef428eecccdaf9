/**
 * The cache write of main.go:272-291 loses information in two ways. This
 * module exhibits both on concrete inputs for the step as written
 * (`Resolution.Step`) and proves, for the write as evidently intended, that
 * a resolved module stays a cache hit for the rest of the run, that the
 * index keeps indexing the whole list, and that the list keeps one entry
 * per path.
 */
module Findings {
  import opened Wrappers
  import opened CacheTypes
  import opened CacheIndex
  import opened VersionScan
  import opened Resolution

  /**
   * The corrected cache write: the new sub-record is appended to the path's
   * indexed entry in the list, and a new path is appended to the list and
   * indexed.
   */
  function InsertIntended(st: CacheState, m: Module, lic: License, now: Time): (r: CacheState)
    requires ValidState(st)
    ensures ValidState(r)
  {
    var entry := NewEntry(m, lic, now);
    if m.path in st.lookup then
      var j := st.lookup[m.path];
      st.(modules := st.modules[j := st.modules[j].(verLic := st.modules[j].verLic + [entry])])
    else
      CacheState(st.modules + [CachedModule(m.path, [entry])], st.lookup[m.path := |st.modules|])
  }

  /** The resolve step with the intended cache write; everything else is as in `Resolution.Step`. */
  function StepIntended(configured: bool, st: CacheState, m: Module, now: Time,
                        find: Module -> FindResult, translate: Module -> Module): (r: StepResult)
    requires ValidState(st)
    ensures ValidState(r.state)
  {
    if !configured then
      var (res, q) := FindWithFallback(m, find, translate);
      StepResult(st, Done(res), q)
    else
      match CacheLookup(st, m)
      case Mismatch => StepResult(st, Abort, [])
      case Match(i) => CacheHit(st, m, i, now)
      case NoMatch =>
        var (res, q) := FindWithFallback(m, find, translate);
        StepResult(if res.Succeeded() then InsertIntended(st, m, res.lic.value, now) else st, Done(res), q)
  }

  /** With the corrected write a step still never puts two records of one version into one entry. */
  lemma IntendedKeepsVersionsDistinct(configured: bool, st: CacheState, m: Module, now: Time,
                                      find: Module -> FindResult, translate: Module -> Module)
    requires ValidState(st) && VersionsDistinct(st.modules)
    ensures VersionsDistinct(StepIntended(configured, st, m, now, find, translate).state.modules)
  {
  }

  /** Appending a record of a version the records lack makes it the last match. */
  lemma ScanAfterAppend(vl: seq<VersionLicense>, m: Module, e: VersionLicense)
    requires !HasVersion(vl, m) && e.version == m.version && e.hash == m.hash
    ensures Scan(vl + [e], m) == Match(|vl|)
  {
    assert (vl + [e])[..|vl|] == vl;
  }

  /**
   * A step from `st` on `m` is a cache hit that returns `res`: the index
   * knows the path, and the last record of the version carries `res`'s
   * license with no error.
   */
  ghost predicate CachedAs(st: CacheState, m: Module, res: FindResult)
    requires ValidState(st)
  {
    match CacheLookup(st, m)
    case Match(i) =>
      var v := st.modules[st.lookup[m.path]].verLic[i];
      res == FindResult(Some(License(v.license, v.spdx)), None)
    case _ => false
  }

  /** The modules resolved one after another with the intended write, stopping at an abort, as `Resolution.Run` does. */
  function RunIntended(configured: bool, st: CacheState, mods: seq<Module>, now: nat -> Time,
                       find: Module -> FindResult, translate: Module -> Module): (r: RunResult)
    requires ValidState(st)
    ensures ValidState(r.state)
    decreases |mods|
  {
    if mods == [] then RunResult(st, [], false)
    else
      var n := |mods| - 1;
      var prev := RunIntended(configured, st, mods[..n], now, find, translate);
      if prev.aborted then prev
      else
        var s := StepIntended(configured, prev.state, mods[n], now(n), find, translate);
        if s.outcome.Abort? then RunResult(prev.state, prev.results, true)
        else RunResult(s.state, prev.results + [s.outcome.result], false)
  }

  /** With the intended write, a successful lookup leaves the module cached with the answer it gave. */
  lemma IntendedCaches(st: CacheState, m: Module, now: Time,
                       find: Module -> FindResult, translate: Module -> Module)
    requires ValidState(st)
    requires StepIntended(true, st, m, now, find, translate).outcome.Done?
    requires StepIntended(true, st, m, now, find, translate).outcome.result.Succeeded()
    ensures var r := StepIntended(true, st, m, now, find, translate);
      CachedAs(r.state, m, r.outcome.result)
  {
    var r := StepIntended(true, st, m, now, find, translate);
    match CacheLookup(st, m)
    case Match(i) =>
      var j := st.lookup[m.path];
      ScanIgnoresLastUsed(st.modules[j].verLic, m, i, now);
    case NoMatch =>
      var res := r.outcome.result;
      var entry := NewEntry(m, res.lic.value, now);
      if m.path in st.lookup {
        ScanAfterAppend(st.modules[st.lookup[m.path]].verLic, m, entry);
      } else {
        ScanAfterAppend([], m, entry);
        assert [] + [entry] == [entry];
      }
  }

  /** A cached module is a hit: the step returns the cached answer and calls no finder. */
  lemma CachedHits(st: CacheState, m: Module, now: Time, res: FindResult,
                   find: Module -> FindResult, translate: Module -> Module)
    requires ValidState(st) && CachedAs(st, m, res)
    ensures var r := StepIntended(true, st, m, now, find, translate);
      r.outcome == Done(res) && r.queried == []
  {
  }

  /** With the intended write, a step on any module leaves a cached module cached with the same answer. */
  lemma StaysCached(configured: bool, st: CacheState, m: Module, res: FindResult, m': Module, now: Time,
                    find: Module -> FindResult, translate: Module -> Module)
    requires ValidState(st) && CachedAs(st, m, res)
    ensures CachedAs(StepIntended(configured, st, m', now, find, translate).state, m, res)
  {
    var i := CacheLookup(st, m).index;
    var j := st.lookup[m.path];
    var vl := st.modules[j].verLic;
    if configured {
      match CacheLookup(st, m')
      case Mismatch =>
      case Match(i') =>
        if st.lookup[m'.path] == j {
          ScanIgnoresLastUsed(vl, m, i', now);
        }
      case NoMatch =>
        var res' := FindWithFallback(m', find, translate).0;
        if res'.Succeeded() && m'.path in st.lookup && st.lookup[m'.path] == j {
          var e := NewEntry(m', res'.lic.value, now);
          assert vl[i].version == m.version;
          assert (vl + [e])[..|vl|] == vl;
        }
    }
  }

  /** What `StaysCached` says for one step holds over a whole run with the intended write. */
  lemma {:induction false} RunStaysCached(configured: bool, st: CacheState, m: Module, res: FindResult,
                                          mods: seq<Module>, now: nat -> Time,
                                          find: Module -> FindResult, translate: Module -> Module)
    requires ValidState(st) && CachedAs(st, m, res)
    ensures CachedAs(RunIntended(configured, st, mods, now, find, translate).state, m, res)
    decreases |mods|
  {
    if mods != [] {
      var n := |mods| - 1;
      RunStaysCached(configured, st, m, res, mods[..n], now, find, translate);
      var prev := RunIntended(configured, st, mods[..n], now, find, translate);
      if !prev.aborted {
        StaysCached(configured, prev.state, m, res, mods[n], now(n), find, translate);
      }
    }
  }

  /**
   * With the intended write, a module that resolved successfully resolves
   * from the cache from then on: after any further modules, resolved at any
   * times, it gives the same outcome with no finder call.
   */
  lemma IntendedRepeatHits(st: CacheState, m: Module, now: Time, mods: seq<Module>, nows: nat -> Time,
                           later: Time, find: Module -> FindResult, translate: Module -> Module)
    requires ValidState(st)
    requires StepIntended(true, st, m, now, find, translate).outcome.Done?
    requires StepIntended(true, st, m, now, find, translate).outcome.result.Succeeded()
    ensures var r1 := StepIntended(true, st, m, now, find, translate);
      var rest := RunIntended(true, r1.state, mods, nows, find, translate);
      var r2 := StepIntended(true, rest.state, m, later, find, translate);
      r2.outcome == r1.outcome && r2.queried == []
  {
    var r1 := StepIntended(true, st, m, now, find, translate);
    IntendedCaches(st, m, now, find, translate);
    RunStaysCached(true, r1.state, m, r1.outcome.result, mods, nows, find, translate);
    var rest := RunIntended(true, r1.state, mods, nows, find, translate);
    CachedHits(rest.state, m, later, r1.outcome.result, find, translate);
  }

  /** No two entries of the list have the same path. */
  ghost predicate UniquePaths(mods: seq<CachedModule>) {
    forall a, b :: 0 <= a < b < |mods| ==> mods[a].path != mods[b].path
  }

  /** With the intended write, a list with one entry per path keeps one entry per path after any step. */
  lemma IntendedKeepsUniquePaths(configured: bool, st: CacheState, m: Module, now: Time,
                                 find: Module -> FindResult, translate: Module -> Module)
    requires IsLastIndexMap(st.modules, st.lookup) && UniquePaths(st.modules)
    ensures UniquePaths(StepIntended(configured, st, m, now, find, translate).state.modules)
  {
  }

  /**
   * Over a whole run with the intended write, an index that covers the
   * list keeps covering it, and the list keeps one entry per path.
   */
  lemma {:induction false} RunIntendedKeepsIndex(configured: bool, st: CacheState, mods: seq<Module>,
                                                 now: nat -> Time, find: Module -> FindResult,
                                                 translate: Module -> Module)
    requires IsLastIndexMap(st.modules, st.lookup) && UniquePaths(st.modules)
    ensures var r := RunIntended(configured, st, mods, now, find, translate).state;
      IsLastIndexMap(r.modules, r.lookup) && UniquePaths(r.modules)
    decreases |mods|
  {
    if mods != [] {
      var n := |mods| - 1;
      RunIntendedKeepsIndex(configured, st, mods[..n], now, find, translate);
      var prev := RunIntended(configured, st, mods[..n], now, find, translate);
      if !prev.aborted {
        IntendedKeepsIndex(configured, prev.state, mods[n], now(n), find, translate);
        IntendedKeepsUniquePaths(configured, prev.state, mods[n], now(n), find, translate);
      }
    }
  }

  /** With the intended write, an index that indexes the whole list still does after any step. */
  lemma IntendedKeepsIndex(configured: bool, st: CacheState, m: Module, now: Time,
                           find: Module -> FindResult, translate: Module -> Module)
    requires IsLastIndexMap(st.modules, st.lookup)
    ensures var r := StepIntended(configured, st, m, now, find, translate);
      IsLastIndexMap(r.state.modules, r.state.lookup)
  {
    if configured {
      match CacheLookup(st, m)
      case Mismatch =>
      case Match(i) =>
        var j := st.lookup[m.path];
        SamePathsKeepIndex(st.modules, Touch(st.modules, j, i, now), st.lookup);
      case NoMatch =>
        var res := FindWithFallback(m, find, translate).0;
        if res.Succeeded() {
          InsertIntendedKeepsIndex(st, m, res.lic.value, now);
        }
    }
  }

  /** An index of a list also indexes any list of the same length with the same paths. */
  lemma SamePathsKeepIndex(a: seq<CachedModule>, b: seq<CachedModule>, lookup: map<string, nat>)
    requires IsLastIndexMap(a, lookup)
    requires |a| == |b| && forall k :: 0 <= k < |a| ==> b[k].path == a[k].path
    ensures IsLastIndexMap(b, lookup)
  {
    assert Paths(b) == Paths(a);
  }

  /** The corrected write keeps an index that covers the whole list covering it. */
  lemma InsertIntendedKeepsIndex(st: CacheState, m: Module, lic: License, now: Time)
    requires IsLastIndexMap(st.modules, st.lookup)
    ensures var r := InsertIntended(st, m, lic, now);
      IsLastIndexMap(r.modules, r.lookup)
  {
    var r := InsertIntended(st, m, lic, now);
    if m.path in st.lookup {
      SamePathsKeepIndex(st.modules, r.modules, st.lookup);
    } else {
      assert Paths(r.modules) == Paths(st.modules) + {m.path} by {
        assert forall k :: 0 <= k < |st.modules| ==> r.modules[k] == st.modules[k];
        assert r.modules[|st.modules|].path == m.path;
      }
    }
  }

  /** A finder that gives every module the MIT license. */
  function MitFinder(x: Module): (r: FindResult) {
    FindResult(Some(License("MIT", "MIT")), None)
  }

  /** A translator that leaves every module as it is. */
  function Unchanged(x: Module): (r: Module) {
    x
  }

  /**
   * As written, a new version of a path the index already knows is found,
   * but not cached (the append into `c2` is dropped): resolving it again
   * calls the finder chain again.
   */
  lemma KnownPathVersionNotCached()
    ensures var st := CacheState(
              [CachedModule("github.com/x/a", [VersionLicense("v1.0.0", "MIT", "MIT", "h1", 0, 0)])],
              map["github.com/x/a" := 0]);
      var m := Module("github.com/x/a", "v1.1.0", "h2");
      ValidState(st) &&
      var r1 := Step(true, st, m, 1, MitFinder, Unchanged);
      r1.outcome == Done(MitFinder(m)) && r1.state == st &&
      Step(true, r1.state, m, 2, MitFinder, Unchanged).queried == [m]
  {
    var vl := [VersionLicense("v1.0.0", "MIT", "MIT", "h1", 0, 0)];
    assert vl[..0] == [];
  }

  /**
   * As written, a module of a new path is appended to the list but not to
   * the index, so the index no longer indexes the whole list.
   */
  lemma NewPathNotIndexed()
    ensures var st := CacheState([], map[]);
      var m := Module("github.com/x/a", "v1.0.0", "h1");
      IsLastIndexMap(st.modules, st.lookup) &&
      var r := Step(true, st, m, 0, MitFinder, Unchanged);
      !IsLastIndexMap(r.state.modules, r.state.lookup)
  {
    var r := Step(true, CacheState([], map[]), Module("github.com/x/a", "v1.0.0", "h1"), 0, MitFinder, Unchanged);
    assert r.state.modules[0].path in Paths(r.state.modules);
  }

  /**
   * The consequence across runs: two versions of one new path resolved in a
   * run leave two entries for that path; when the saved list is loaded
   * again, the index points at the later entry only, and the first version
   * is looked up with the finder chain again.
   */
  lemma ReloadHidesEarlierVersion(lookup: map<string, nat>)
    ensures var m1 := Module("github.com/x/a", "v1.0.0", "h1");
      var m2 := Module("github.com/x/a", "v2.0.0", "h2");
      var r1 := Step(true, CacheState([], map[]), m1, 0, MitFinder, Unchanged);
      var r2 := Step(true, r1.state, m2, 0, MitFinder, Unchanged);
      var saved := r2.state.modules;
      |saved| == 2 && saved[0].path == saved[1].path &&
      (IsLastIndexMap(saved, lookup) ==>
        Step(true, CacheState(saved, lookup), m1, 1, MitFinder, Unchanged).queried == [m1])
  {
    var m1 := Module("github.com/x/a", "v1.0.0", "h1");
    var r1 := Step(true, CacheState([], map[]), m1, 0, MitFinder, Unchanged);
    var r2 := Step(true, r1.state, Module("github.com/x/a", "v2.0.0", "h2"), 0, MitFinder, Unchanged);
    var saved := r2.state.modules;
    assert |saved| == 2 && saved[0].path == m1.path && saved[1].path == m1.path;
    if IsLastIndexMap(saved, lookup) {
      assert saved[0].path in Paths(saved);
      assert IsLastIndexOf(saved, m1.path, lookup[m1.path]);
      assert lookup[m1.path] == 1;
      var vl := saved[1].verLic;
      assert vl[..0] == [];
    }
  }
}
