/**
 * The shared cache state of golicense's main.go (the globals `cacheData`
 * and `cacheDataLookup`) with the operations that change it, proved against
 * the step function of module Resolution.
 */
module LicenseCacheState {
  import opened Wrappers
  import opened CacheTypes
  import opened CacheIndex
  import opened VersionScan
  import opened Resolution

  class LicenseCache {
    /** A cache file was given (`flagCache != ""`). */
    const configured: bool
    /** `cacheData.Modules`: the list that is written back at the end of the run. */
    var modules: seq<CachedModule>
    /** `cacheDataLookup`: each path to the position in `modules` of the entry the map holds a copy of. */
    var lookup: map<string, nat>

    ghost predicate Valid()
      reads this
    {
      ValidState(CacheState(modules, lookup))
    }

    /** The cache as a value. */
    function State(): (s: CacheState)
      reads this
    {
      CacheState(modules, lookup)
    }

    /** No cache file given: nothing is loaded and the cache is never consulted. */
    constructor Disabled()
      ensures Valid() && !configured
      ensures modules == [] && lookup == map[]
    {
      configured := false;
      modules := [];
      lookup := map[];
    }

    /**
     * `readFile`: `loaded` is the decoded list, or the empty list when the
     * file could not be read or decoded. The index is built from it.
     */
    constructor Load(loaded: seq<CachedModule>)
      ensures Valid() && configured
      ensures modules == loaded && IsLastIndexMap(loaded, lookup)
    {
      configured := true;
      modules := loaded;
      var index := BuildIndex(loaded);
      lookup := index;
    }

    /**
     * The goroutine body for one module at time `now`. `queried` lists the
     * modules handed to the finder chain.
     */
    method Resolve(m: Module, now: Time, find: Module -> FindResult, translate: Module -> Module)
      returns (outcome: Outcome, queried: seq<Module>)
      requires Valid()
      modifies this
      ensures Valid()
      ensures StepResult(State(), outcome, queried) == Step(configured, old(State()), m, now, find, translate)
    {
      if !configured {
        var (res, q) := FindWithFallback(m, find, translate);
        return Done(res), q;
      }
      var scan := NoMatch;
      if m.path in lookup {
        scan := ScanVerLic(modules[lookup[m.path]].verLic, m);
      }
      assert scan == CacheLookup(State(), m);
      match scan {
        case Mismatch =>
          return Abort, [];
        case Match(index) =>
          // The copy in the index shares its sub-records with the list, so
          // the write lands in `modules`.
          var j := lookup[m.path];
          var ccc := modules[j];
          var vv := ccc.verLic[index];
          ccc := ccc.(verLic := ccc.verLic[index := vv.(lastUsed := now)]);
          modules := modules[j := ccc];
          return Done(FindResult(Some(License(vv.license, vv.spdx)), None)), [];
        case NoMatch =>
      }
      var (res, q) := FindWithFallback(m, find, translate);
      if res.Succeeded() {
        var newVerLic := NewEntry(m, res.lic.value, now);
        if m.path in lookup {
          // The append goes into a copy that is never stored back.
          var c2 := modules[lookup[m.path]];
          c2 := c2.(verLic := c2.verLic + [newVerLic]);
        } else {
          modules := modules + [CachedModule(m.path, [newVerLic])];
        }
      }
      outcome, queried := Done(res), q;
    }

    /**
     * Every module resolved in turn, the k-th at time `now(k)`, until one
     * aborts the run; `results` holds the outcomes of the modules finished.
     */
    method ResolveAll(mods: seq<Module>, now: nat -> Time,
                      find: Module -> FindResult, translate: Module -> Module)
      returns (results: seq<FindResult>, aborted: bool)
      requires Valid()
      modifies this
      ensures Valid()
      ensures RunResult(State(), results, aborted) == Run(configured, old(State()), mods, now, find, translate)
    {
      results, aborted := [], false;
      for i := 0 to |mods|
        invariant Valid()
        invariant RunResult(State(), results, false) == Run(configured, old(State()), mods[..i], now, find, translate)
      {
        ghost var before := State();
        var outcome, q := Resolve(mods[i], now(i), find, translate);
        RunExtend(configured, old(State()), mods, i, now, find, translate, before, results);
        if outcome.Abort? {
          RunAbortIsFinal(configured, old(State()), mods, i + 1, now, find, translate);
          return results, true;
        }
        results := results + [outcome.result];
      }
      assert mods[..|mods|] == mods;
    }
  }

  /** One more module: the run over the longer prefix is the run over the shorter one followed by a step. */
  lemma RunExtend(configured: bool, st: CacheState, mods: seq<Module>, i: nat,
                  now: nat -> Time, find: Module -> FindResult, translate: Module -> Module,
                  before: CacheState, results: seq<FindResult>)
    requires ValidState(st) && i < |mods|
    requires Run(configured, st, mods[..i], now, find, translate) == RunResult(before, results, false)
    ensures ValidState(before)
    ensures var s := Step(configured, before, mods[i], now(i), find, translate);
      Run(configured, st, mods[..i + 1], now, find, translate) ==
        if s.outcome.Abort? then RunResult(before, results, true)
        else RunResult(s.state, results + [s.outcome.result], false)
  {
    assert mods[..i + 1][..i] == mods[..i];
    RunLast(configured, st, mods[..i + 1], now, find, translate);
  }

  /** Once a prefix of the modules has aborted, the run over all of them has too, with the same result. */
  lemma {:induction false} RunAbortIsFinal(configured: bool, st: CacheState, mods: seq<Module>, k: nat,
                                           now: nat -> Time, find: Module -> FindResult,
                                           translate: Module -> Module)
    requires ValidState(st) && k <= |mods|
    requires Run(configured, st, mods[..k], now, find, translate).aborted
    ensures Run(configured, st, mods, now, find, translate) == Run(configured, st, mods[..k], now, find, translate)
    decreases |mods| - k
  {
    if k < |mods| {
      assert mods[..k + 1][..k] == mods[..k];
      RunAbortIsFinal(configured, st, mods, k + 1, now, find, translate);
    } else {
      assert mods[..k] == mods;
    }
  }
}
