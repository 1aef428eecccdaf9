/**
 * The per-module resolve step of golicense (main.go:240-303), as a function
 * of the cache before the step, together with the properties the step keeps.
 * `find` stands for the finder chain (`license.Find` with its finders) and
 * `translate` for the translator chain (`license.Translate`); both live in
 * packages outside this model and are taken as given total functions.
 */
module Resolution {
  import opened Wrappers
  import opened CacheTypes
  import opened CacheIndex
  import opened VersionScan

  /**
   * The cache as the resolve step sees it: the persisted list
   * `cacheData.Modules` and the index `cacheDataLookup`. Go's index holds
   * copies of the list's entries whose `VerLic` slices share their storage
   * with the list, so the index is modelled by positions in the list.
   */
  datatype CacheState = CacheState(modules: seq<CachedModule>, lookup: map<string, nat>)

  /**
   * Every key of the index names the last module of the list with that path.
   * The list may hold paths the index does not know (modules appended while
   * resolving).
   */
  ghost predicate ValidState(st: CacheState) {
    forall p :: p in st.lookup ==> IsLastIndexOf(st.modules, p, st.lookup[p])
  }

  /**
   * `after` keeps every entry of `before` at its position, with its path and
   * its records; a record may differ only in its `LastUsed`. More entries may
   * follow.
   */
  ghost predicate KeepsEntries(before: seq<CachedModule>, after: seq<CachedModule>) {
    |before| <= |after| &&
    forall k :: 0 <= k < |before| ==>
      && after[k].path == before[k].path
      && |after[k].verLic| == |before[k].verLic|
      && forall i :: 0 <= i < |before[k].verLic| ==>
           after[k].verLic[i] == before[k].verLic[i].(lastUsed := after[k].verLic[i].lastUsed)
  }

  /** No entry holds two records of one version. */
  ghost predicate VersionsDistinct(mods: seq<CachedModule>) {
    forall k, i, j :: 0 <= k < |mods| && 0 <= i < j < |mods[k].verLic| ==>
      mods[k].verLic[i].version != mods[k].verLic[j].version
  }

  /** The cache after a step, the module's outcome, and the modules handed to the finder chain, in order. */
  datatype StepResult = StepResult(state: CacheState, outcome: Outcome, queried: seq<Module>)

  /**
   * Look the module up, and look up its translation only when that gives no
   * license or an error (main.go:267-270 and 298-301). The second component
   * lists the modules the finder chain was called on.
   */
  function FindWithFallback(m: Module, find: Module -> FindResult, translate: Module -> Module)
    : (r: (FindResult, seq<Module>))
    ensures 1 <= |r.1| <= 2 && r.1[0] == m
    ensures |r.1| == 2 <==> find(m).lic.None? || find(m).err.Some?
    ensures |r.1| == 2 ==> r.1[1] == translate(m) && r.0 == find(translate(m))
    ensures |r.1| == 1 ==> r.0 == find(m)
  {
    var first := find(m);
    if first.lic.None? || first.err.Some? then
      var t := translate(m);
      (find(t), [m, t])
    else
      (first, [m])
  }

  /** The sub-record written for a freshly found license (main.go:275-281). */
  function NewEntry(m: Module, lic: License, now: Time): (r: VersionLicense)
    ensures Scan([r], m) == Match(0)
    ensures License(r.license, r.spdx) == lic
    ensures r.created == now && r.lastUsed == now
  {
    VersionLicense(m.version, lic.name, lic.spdx, m.hash, now, now)
  }

  /** The list with the `LastUsed` of sub-record `i` of module `j` set to `now` (main.go:259-260). */
  function Touch(mods: seq<CachedModule>, j: nat, i: nat, now: Time): (r: seq<CachedModule>)
    requires j < |mods| && i < |mods[j].verLic|
    ensures |r| == |mods|
    ensures forall k :: 0 <= k < |mods| && k != j ==> r[k] == mods[k]
    ensures r[j].path == mods[j].path && |r[j].verLic| == |mods[j].verLic|
    ensures forall k :: 0 <= k < |mods[j].verLic| && k != i ==> r[j].verLic[k] == mods[j].verLic[k]
    ensures r[j].verLic[i] == mods[j].verLic[i].(lastUsed := now)
    ensures KeepsEntries(mods, r)
  {
    var vl := mods[j].verLic;
    mods[j := mods[j].(verLic := vl[i := vl[i].(lastUsed := now)])]
  }

  /** The scan of the indexed record of the module's path; a path the index lacks scans as no match. */
  function CacheLookup(st: CacheState, m: Module): (r: ScanResult)
    requires ValidState(st)
    ensures r.NoMatch? <==> m.path !in st.lookup || !HasVersion(st.modules[st.lookup[m.path]].verLic, m)
    ensures r.Mismatch? <==> m.path in st.lookup && HashMismatch(st.modules[st.lookup[m.path]].verLic, m)
    ensures r.Match? ==>
              && m.path in st.lookup
              && IsLastMatch(st.modules[st.lookup[m.path]].verLic, m, r.index)
              && st.modules[st.lookup[m.path]].verLic[r.index].hash == m.hash
  {
    if m.path in st.lookup then Scan(st.modules[st.lookup[m.path]].verLic, m) else NoMatch
  }

  /** A cache hit on sub-record `i`: its license is the result and its `LastUsed` becomes `now`. */
  function CacheHit(st: CacheState, m: Module, i: nat, now: Time): (r: StepResult)
    requires ValidState(st) && m.path in st.lookup
    requires i < |st.modules[st.lookup[m.path]].verLic|
    ensures ValidState(r.state)
  {
    var j := st.lookup[m.path];
    var vv := st.modules[j].verLic[i];
    StepResult(
      st.(modules := Touch(st.modules, j, i, now)),
      Done(FindResult(Some(License(vv.license, vv.spdx)), None)),
      [])
  }

  /**
   * The cache write after a successful lookup, as main.go:272-291 performs
   * it: for a path the index knows, the append goes into the local copy `c2`
   * and is lost; for any other path a new module is appended to the list but
   * not added to the index.
   */
  function InsertAsWritten(st: CacheState, m: Module, lic: License, now: Time): (r: CacheState)
    requires ValidState(st)
    ensures ValidState(r)
  {
    if m.path in st.lookup then st
    else st.(modules := st.modules + [CachedModule(m.path, [NewEntry(m, lic, now)])])
  }

  /**
   * One module through the goroutine body of main.go:240-303: the cache
   * check when a cache is configured, then find, translate-and-find, and the
   * cache write.
   */
  function Step(configured: bool, st: CacheState, m: Module, now: Time,
                find: Module -> FindResult, translate: Module -> Module): (r: StepResult)
    requires ValidState(st)
    ensures ValidState(r.state)
  {
    if !configured then
      var (res, q) := FindWithFallback(m, find, translate);
      StepResult(st, Done(res), q)
    else
      match CacheLookup(st, m)
      case Mismatch => StepResult(st, Abort, [])
      case Match(i) => CacheHit(st, m, i, now)
      case NoMatch =>
        var (res, q) := FindWithFallback(m, find, translate);
        StepResult(if res.Succeeded() then InsertAsWritten(st, m, res.lic.value, now) else st, Done(res), q)
  }

  /**
   * The run stops exactly when a cache is configured, the index knows the
   * path, and the indexed record holds the module's version under another
   * hash; the cache is then untouched and no finder was called.
   */
  lemma AbortIff(configured: bool, st: CacheState, m: Module, now: Time,
                 find: Module -> FindResult, translate: Module -> Module)
    requires ValidState(st)
    ensures var r := Step(configured, st, m, now, find, translate);
      (r.outcome.Abort? <==>
        configured && m.path in st.lookup && HashMismatch(st.modules[st.lookup[m.path]].verLic, m)) &&
      (r.outcome.Abort? ==> r.state == st && r.queried == [])
  {
  }

  /**
   * A hit: the indexed record holds the module's version, never under
   * another hash. The result is the license of the last record of that
   * version, no finder is called, and only that record's `LastUsed` changes.
   */
  lemma HitReturnsCachedLicense(st: CacheState, m: Module, now: Time,
                                find: Module -> FindResult, translate: Module -> Module, i: nat)
    requires ValidState(st) && m.path in st.lookup
    requires !HashMismatch(st.modules[st.lookup[m.path]].verLic, m)
    requires IsLastMatch(st.modules[st.lookup[m.path]].verLic, m, i)
    ensures var r := Step(true, st, m, now, find, translate);
      var j := st.lookup[m.path];
      var vl := st.modules[j].verLic;
      var mods := r.state.modules;
      r.outcome == Done(FindResult(Some(License(vl[i].license, vl[i].spdx)), None)) &&
      r.queried == [] &&
      r.state.lookup == st.lookup &&
      |mods| == |st.modules| &&
      (forall k :: 0 <= k < |mods| && k != j ==> mods[k] == st.modules[k]) &&
      mods[j].path == m.path &&
      |mods[j].verLic| == |vl| &&
      (forall k :: 0 <= k < |vl| && k != i ==> mods[j].verLic[k] == vl[k]) &&
      mods[j].verLic[i] == vl[i].(lastUsed := now)
  {
    LastMatchUnique(st.modules[st.lookup[m.path]].verLic, m, i, CacheLookup(st, m).index);
  }

  /**
   * A miss (no cache configured, a path the index lacks, or no record of the
   * version): the finder chain runs on the module, and on its translation only
   * when the first answer has no license or an error; otherwise the first
   * answer is the result.
   */
  lemma MissFindsThenTranslates(configured: bool, st: CacheState, m: Module, now: Time,
                                find: Module -> FindResult, translate: Module -> Module)
    requires ValidState(st)
    requires !configured || m.path !in st.lookup || !HasVersion(st.modules[st.lookup[m.path]].verLic, m)
    ensures var r := Step(configured, st, m, now, find, translate);
      var first := find(m);
      var retried := first.lic.None? || first.err.Some?;
      r.outcome == Done(if retried then find(translate(m)) else first) &&
      r.queried == (if retried then [m, translate(m)] else [m])
  {
  }

  /**
   * What a miss writes: the index never changes, and the list grows by one
   * new module exactly when a cache is configured, the lookup succeeded and
   * the index lacks the path; in every other case the list is unchanged.
   */
  lemma MissWritesOnlyUnindexedPaths(configured: bool, st: CacheState, m: Module, now: Time,
                                     find: Module -> FindResult, translate: Module -> Module)
    requires ValidState(st)
    requires !configured || m.path !in st.lookup || !HasVersion(st.modules[st.lookup[m.path]].verLic, m)
    ensures var r := Step(configured, st, m, now, find, translate);
      var res := r.outcome.result;
      r.state.lookup == st.lookup &&
      r.state.modules ==
        if configured && res.Succeeded() && m.path !in st.lookup then
          st.modules + [CachedModule(m.path, [VersionLicense(m.version, res.lic.value.name,
                                                             res.lic.value.spdx, m.hash, now, now)])]
        else st.modules
  {
  }

  /**
   * Whatever happens, the index is unchanged, every entry keeps its path and
   * its records apart from `LastUsed`, and the list grows at its end by at
   * most one module, and only when the module finished.
   */
  lemma StepOnlyAppends(configured: bool, st: CacheState, m: Module, now: Time,
                        find: Module -> FindResult, translate: Module -> Module)
    requires ValidState(st)
    ensures var r := Step(configured, st, m, now, find, translate);
      r.state.lookup == st.lookup &&
      KeepsEntries(st.modules, r.state.modules) &&
      |r.state.modules| <= |st.modules| + (if r.outcome.Done? then 1 else 0)
  {
  }

  /** A step never puts two records of one version into one entry. */
  lemma StepKeepsVersionsDistinct(configured: bool, st: CacheState, m: Module, now: Time,
                                  find: Module -> FindResult, translate: Module -> Module)
    requires ValidState(st) && VersionsDistinct(st.modules)
    ensures VersionsDistinct(Step(configured, st, m, now, find, translate).state.modules)
  {
  }

  /** The cache after a run, the results of the modules that finished, and whether the run stopped. */
  datatype RunResult = RunResult(state: CacheState, results: seq<FindResult>, aborted: bool)

  /**
   * The modules resolved one after another, the k-th at time `now(k)`, until
   * one of them stops the run. The source runs the steps concurrently in an
   * unspecified order; this is one of those orders.
   */
  function Run(configured: bool, st: CacheState, mods: seq<Module>, now: nat -> Time,
               find: Module -> FindResult, translate: Module -> Module): (r: RunResult)
    requires ValidState(st)
    ensures ValidState(r.state)
    decreases |mods|
  {
    if mods == [] then RunResult(st, [], false)
    else
      var n := |mods| - 1;
      var prev := Run(configured, st, mods[..n], now, find, translate);
      if prev.aborted then prev
      else
        var s := Step(configured, prev.state, mods[n], now(n), find, translate);
        if s.outcome.Abort? then RunResult(prev.state, prev.results, true)
        else RunResult(s.state, prev.results + [s.outcome.result], false)
  }

  /** The recursion of `Run` on its last module, spelled out. */
  lemma RunLast(configured: bool, st: CacheState, mods: seq<Module>, now: nat -> Time,
                find: Module -> FindResult, translate: Module -> Module)
    requires ValidState(st) && mods != []
    ensures var n := |mods| - 1;
      var prev := Run(configured, st, mods[..n], now, find, translate);
      var r := Run(configured, st, mods, now, find, translate);
      (prev.aborted ==> r == prev) &&
      (!prev.aborted ==>
        var s := Step(configured, prev.state, mods[n], now(n), find, translate);
        r == if s.outcome.Abort? then RunResult(prev.state, prev.results, true)
             else RunResult(s.state, prev.results + [s.outcome.result], false))
  {
  }

  /** A run finishes at most one module per module given, and all of them unless it stops. */
  lemma {:induction false} RunResultCount(configured: bool, st: CacheState, mods: seq<Module>,
                                          now: nat -> Time, find: Module -> FindResult,
                                          translate: Module -> Module)
    requires ValidState(st)
    ensures var r := Run(configured, st, mods, now, find, translate);
      (r.aborted ==> |r.results| < |mods|) && (!r.aborted ==> |r.results| == |mods|)
    decreases |mods|
  {
    if mods != [] {
      RunResultCount(configured, st, mods[..|mods| - 1], now, find, translate);
      RunLast(configured, st, mods, now, find, translate);
    }
  }

  /** The run over `mods` stops at position `k`: the run over the modules before it did not stop, and its step aborts. */
  ghost predicate AbortsAt(configured: bool, st: CacheState, mods: seq<Module>, now: nat -> Time,
                           find: Module -> FindResult, translate: Module -> Module, k: nat)
    requires ValidState(st)
  {
    k < |mods| &&
    var p := Run(configured, st, mods[..k], now, find, translate);
    !p.aborted &&
    Step(configured, p.state, mods[k], now(k), find, translate).outcome.Abort?
  }

  /**
   * A run that stops has finished exactly the modules before the one whose
   * cache check aborted, and leaves the cache as those modules left it.
   */
  lemma {:induction false} RunStopsAtAbort(configured: bool, st: CacheState, mods: seq<Module>,
                                           now: nat -> Time, find: Module -> FindResult,
                                           translate: Module -> Module)
    requires ValidState(st)
    requires Run(configured, st, mods, now, find, translate).aborted
    ensures var r := Run(configured, st, mods, now, find, translate);
      var k := |r.results|;
      AbortsAt(configured, st, mods, now, find, translate, k) &&
      Run(configured, st, mods[..k], now, find, translate) == RunResult(r.state, r.results, false)
    decreases |mods|
  {
    var n := |mods| - 1;
    var prev := Run(configured, st, mods[..n], now, find, translate);
    RunLast(configured, st, mods, now, find, translate);
    if prev.aborted {
      RunStopsAtAbort(configured, st, mods[..n], now, find, translate);
      AbortCarriesOver(configured, st, mods, now, find, translate);
    } else {
      RunResultCount(configured, st, mods[..n], now, find, translate);
      assert mods[..n] == mods[..|prev.results|];
    }
  }

  /** An abort inside the modules before the last one is where the whole run stops too. */
  lemma AbortCarriesOver(configured: bool, st: CacheState, mods: seq<Module>, now: nat -> Time,
                         find: Module -> FindResult, translate: Module -> Module)
    requires ValidState(st) && mods != []
    requires var prev := Run(configured, st, mods[..|mods| - 1], now, find, translate);
      prev.aborted &&
      AbortsAt(configured, st, mods[..|mods| - 1], now, find, translate, |prev.results|) &&
      Run(configured, st, mods[..|mods| - 1][..|prev.results|], now, find, translate) ==
        RunResult(prev.state, prev.results, false)
    requires Run(configured, st, mods, now, find, translate) ==
      Run(configured, st, mods[..|mods| - 1], now, find, translate)
    ensures var r := Run(configured, st, mods, now, find, translate);
      AbortsAt(configured, st, mods, now, find, translate, |r.results|) &&
      Run(configured, st, mods[..|r.results|], now, find, translate) == RunResult(r.state, r.results, false)
  {
    var n := |mods| - 1;
    var k := |Run(configured, st, mods[..n], now, find, translate).results|;
    assert mods[..n][..k] == mods[..k];
    assert mods[..n][k] == mods[k];
  }

  /**
   * Without a cache every module finishes, with the finder chain's answer for
   * the module or, failing that, for its translation, and nothing is cached.
   */
  lemma {:induction false} RunUncached(st: CacheState, mods: seq<Module>, now: nat -> Time,
                                       find: Module -> FindResult, translate: Module -> Module)
    requires ValidState(st)
    ensures var r := Run(false, st, mods, now, find, translate);
      !r.aborted && r.state == st && |r.results| == |mods| &&
      forall k :: 0 <= k < |mods| ==> r.results[k] == FindWithFallback(mods[k], find, translate).0
    decreases |mods|
  {
    if mods != [] {
      var n := |mods| - 1;
      RunUncached(st, mods[..n], now, find, translate);
      assert forall k :: 0 <= k < n ==> mods[..n][k] == mods[k];
    }
  }

  /** Keeping entries composes: two steps that each keep the entries before them keep them together. */
  lemma KeepsEntriesTransitive(a: seq<CachedModule>, b: seq<CachedModule>, c: seq<CachedModule>)
    requires KeepsEntries(a, b) && KeepsEntries(b, c)
    ensures KeepsEntries(a, c)
  {
  }

  /**
   * Over a whole run the index is unchanged, every loaded entry keeps its
   * path and its records apart from `LastUsed`, and the list grows at its
   * end by at most one module per module that finished.
   */
  lemma {:induction false} RunOnlyAppends(configured: bool, st: CacheState, mods: seq<Module>,
                                          now: nat -> Time, find: Module -> FindResult,
                                          translate: Module -> Module)
    requires ValidState(st)
    ensures var r := Run(configured, st, mods, now, find, translate);
      r.state.lookup == st.lookup &&
      KeepsEntries(st.modules, r.state.modules) &&
      |r.state.modules| <= |st.modules| + |r.results|
    decreases |mods|
  {
    if mods != [] {
      var n := |mods| - 1;
      RunOnlyAppends(configured, st, mods[..n], now, find, translate);
      RunLast(configured, st, mods, now, find, translate);
      var prev := Run(configured, st, mods[..n], now, find, translate);
      if !prev.aborted {
        StepOnlyAppends(configured, prev.state, mods[n], now(n), find, translate);
        var s := Step(configured, prev.state, mods[n], now(n), find, translate);
        KeepsEntriesTransitive(st.modules, prev.state.modules, s.state.modules);
      }
    } else {
      assert KeepsEntries(st.modules, st.modules);
    }
  }

  /** Over a whole run no entry comes to hold two records of one version. */
  lemma {:induction false} RunKeepsVersionsDistinct(configured: bool, st: CacheState, mods: seq<Module>,
                                                    now: nat -> Time, find: Module -> FindResult,
                                                    translate: Module -> Module)
    requires ValidState(st) && VersionsDistinct(st.modules)
    ensures VersionsDistinct(Run(configured, st, mods, now, find, translate).state.modules)
    decreases |mods|
  {
    if mods != [] {
      var n := |mods| - 1;
      RunKeepsVersionsDistinct(configured, st, mods[..n], now, find, translate);
      RunLast(configured, st, mods, now, find, translate);
      var prev := Run(configured, st, mods[..n], now, find, translate);
      if !prev.aborted {
        StepKeepsVersionsDistinct(configured, prev.state, mods[n], now(n), find, translate);
      }
    }
  }
}
