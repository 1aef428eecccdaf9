# golicense license cache and resolve step, in Dafny

golicense reads the modules compiled into a Go binary and resolves the license
of each one. This project models the sequential core of `main.go`:

- the license cache: the persisted list `cacheData.Modules` of
  `cachedModule{Path, VerLic}` records, and the index `cacheDataLookup` that
  `readFile` builds over it;
- the per-module resolve step that runs in each goroutine: the cache check
  with its hash-integrity abort, then find, then translate-and-find, then the
  cache write;
- the deduplication of the modules read from all binaries.

The finder chain (`license.Find`) and the translator chain
(`license.Translate`) are in packages that are not part of this model. They
are parameters `find: Module -> FindResult` and `translate: Module -> Module`.
The clock is a parameter `now`. Each resolve step also returns `queried`, the
modules handed to the finder chain in order. "No finder is called" can then
be stated as `queried == []`.

Layout:

- `wrappers.dfy`: `Option`, standing for nil pointers and nil errors.
- `cache_types.dfy`: the records `moduleVersionLicense` and `cachedModule`,
  a module, a license, a finder answer and a step outcome (`Abort` or `Done`).
- `cache_index.dfy`: the index loop of `readFile` (`BuildIndex`) and the
  predicate it establishes. Positions `k` and paths are related as "position k
  holds the last module with path p".
- `version_scan.dfy`: the scan over a path's `VerLic` records (`Scan`, and the
  loop `ScanVerLic` proved equal to it).
- `resolution.dfy`: the resolve step as a function `Step` of the cache before
  it, the sequential run `Run`, and the lemmas about both.
- `license_cache.dfy`: class `LicenseCache`. It holds the two globals as the
  fields `modules` and `lookup`. Its methods `Resolve` and `ResolveAll` update
  them in place and are proved equal to `Step` and `Run`.
- `dedup.dfy`: `CollectModules`, the set-then-list dedup loop.
- `findings.dfy`: the two ways the cache write loses data, shown on concrete
  inputs, and the corrected write with its properties proved.

The index is modelled as a map from path to a position in the list. In Go,
the map holds struct copies, but each copy's `VerLic` slice shares its
backing array with the entry in the list. So the hit's write to
`VerLic[index].LastUsed` (main.go:260) changes the persisted list. The model
writes that sub-record of `modules` at the indexed position.

What the code does at three points that are easy to misread:

- The integrity check aborts when any record of the module's version has a
  different hash. The scan stops at the first such record. It does not check
  only "the stored sub-record".
- A successful lookup is not always written to the cache. For a path already
  in the index, the new sub-record is appended to a local copy and then
  dropped. For a new path, the new entry is appended to the list but not to
  the index (see Findings).
- Modules are deduplicated by the whole `module.Module` value, here
  (path, version, hash). Two builds of one path@version with different
  hashes both stay in the list.

## Model

| member | source | states |
|---|---|---|
| `CacheIndex.BuildIndex` | main.go:81-85 | After the loop, the index has exactly the list's paths as keys. Each path maps to the position of the last module with that path. |
| `CacheIndex.LastIndexMapUnique` | main.go:81-85 | The list determines the index: two maps that both index it are equal. |
| `VersionScan.Scan` | main.go:244-257 | The scan gives `Mismatch` exactly when some record of the module's version has another hash. It gives `NoMatch` exactly when no record holds the version. Otherwise it gives the last record of the version, and that record's hash equals the module's. |
| `VersionScan.ScanVerLic` | main.go:244-257 | The `found`/`index` loop, which stops at the first mismatching hash, computes `Scan`. |
| `VersionScan.ScanIgnoresLastUsed` | main.go:258-260 | Changing a record's `LastUsed` does not change what the scan decides. |
| `Resolution.FindWithFallback` | main.go:267-270 | The finder is called on the module first. It is called on the translated module too exactly when the first answer has no license or has an error, and then the second answer is the result; otherwise the first answer is. The same code is at main.go:298-301. `Resolution.MissFindsThenTranslates` states this for a whole step. |
| `Resolution.NewEntry` | main.go:275-281 | The new record is a cache hit for the module. The license read back from it is the license found, and both its `Created` and `LastUsed` are `now`. `Resolution.MissWritesOnlyUnindexedPaths` states where it is written. |
| `Resolution.Touch` | main.go:259-260 | Exactly one record changes: record `i` of entry `j`, and only in its `LastUsed`, which becomes `now`. The list length, every other entry and record, and every path stay as they were. `Resolution.HitReturnsCachedLicense` states this for a whole hit. |
| `Resolution.CacheLookup` | main.go:244-257 | The cache check: no match when the index lacks the path or its record lacks the version. Mismatch exactly when the indexed record has the version under another hash. A match names the last record of the version. |
| `Resolution.CacheHit` | main.go:258-262 | A hit keeps the cache invariant: every key of the index names the last module of the list with that path. |
| `Resolution.InsertAsWritten` | main.go:272-291 | The cache write as written keeps the cache invariant. |
| `Resolution.Step` | main.go:240-303 | Any resolve step keeps the cache invariant. |
| `Resolution.AbortIff` | main.go:246-252 | The run stops exactly when a cache is configured, the index has the path, and its record holds the module's version under another hash. On a stop, the cache is unchanged and no finder was called. |
| `Resolution.HitReturnsCachedLicense` | main.go:258-262 | On a hit, the result is `{License, SPDX}` of the last record of the version with no error, and no finder is called. Only that record's `LastUsed` changes, to `now`. Every other module, record and field, the list length and the index stay as they were. |
| `Resolution.MissFindsThenTranslates` | main.go:263-270 | On a miss, with or without a cache (also main.go:294-301), the finder runs on the module. It runs on the translated module only when the first answer has no license or has an error. In that case the second answer is the result; otherwise the first answer is returned unchanged. |
| `Resolution.MissWritesOnlyUnindexedPaths` | main.go:272-291 | After a miss the index is unchanged. The list grows by exactly `{m.Path, [{m.Version, lic.Name, lic.SPDX, m.Hash, now, now}]}` when a cache is configured, the lookup gave a license with no error, and the index lacks the path. In every other case, including a path the index has, the list is unchanged. |
| `Resolution.StepOnlyAppends` | main.go:240-303 | A step never changes the index. Every entry keeps its position, path and records; a record can differ only in its `LastUsed`. The list grows at its end by at most one module, and only when the module finished. |
| `Resolution.StepKeepsVersionsDistinct` | main.go:240-303 | If no entry holds two records of one version before a step, none does after it. |
| `Resolution.Run` | main.go:225-312 | Resolving modules one after another, stopping at an abort, keeps the cache invariant. |
| `Resolution.RunResultCount` | main.go:225-312 | A run that does not stop finishes every module. A run that stops finishes fewer modules than it was given. |
| `Resolution.RunStopsAtAbort` | main.go:248-252 | A run that stops has finished exactly the modules before the first one whose cache check aborted. The cache is as those modules left it. |
| `Resolution.RunUncached` | main.go:294-301 | Without a cache, every module finishes with `find(m)` or, when that fails, `find(translate(m))`, and nothing is cached. |
| `Resolution.RunOnlyAppends` | main.go:225-312 | Over a run, the index never changes, and every loaded entry keeps its position, path and records apart from `LastUsed`. The list grows only at its end, by at most one module per module that finished. |
| `Resolution.RunKeepsVersionsDistinct` | main.go:225-312 | Over a run, no entry comes to hold two records of one version. |
| `LicenseCacheState.LicenseCache.Disabled` | main.go:119-121 | Without a cache file, nothing is loaded and the cache is empty. |
| `LicenseCacheState.LicenseCache.Load` | main.go:59-86 | Loading keeps the decoded list as the persisted list and builds its index. An unreadable or malformed file gives the empty list; otherwise `loaded` is what was decoded. |
| `LicenseCacheState.LicenseCache.Resolve` | main.go:240-303 | The goroutine body updates `modules` and `lookup` in place. The new state, the outcome and the finder calls are those of `Step`, and the cache invariant is kept. |
| `LicenseCacheState.LicenseCache.ResolveAll` | main.go:225-312 | Resolving every module in turn leaves the state and results of `Run`. |
| `LicenseCacheState.RunAbortIsFinal` | main.go:250-252 | Once an abort happens, no further module changes the run's result. |
| `ModuleSet.CollectModules` | main.go:140-177 | The run fails exactly when some binary cannot be read or parsed. Otherwise the list has no repeats and holds exactly the modules parsed from all binaries. |
| `Findings.InsertIntended` | main.go:272-291 | The corrected cache write keeps the cache invariant. |
| `Findings.StepIntended` | main.go:240-303 | The resolve step with the corrected write keeps the cache invariant. |
| `Findings.IntendedKeepsVersionsDistinct` | main.go:272-291 | With the corrected write, no entry comes to hold two records of one version, even though the write now appends to existing entries. |
| `Findings.InsertIntendedKeepsIndex` | main.go:286-290 | The corrected write keeps an index that covers the whole list covering it. |
| `Findings.IntendedCaches` | main.go:272-291 | With the corrected write, a step that resolves a module successfully leaves it cached: the next cache check on it matches a record that carries the answer just given. |
| `Findings.StaysCached` | main.go:240-303 | With the corrected write, a step on any module, at any time, leaves a cached module cached with the same answer. |
| `Findings.RunIntended` | main.go:225-312 | Resolving modules one after another with the corrected write, stopping at an abort, keeps the cache invariant. |
| `Findings.RunStaysCached` | main.go:225-312 | With the corrected write, a cached module stays cached with the same answer over any run of further modules. |
| `Findings.IntendedRepeatHits` | main.go:272-291 | With the corrected write, a module that resolved successfully resolves from the cache from then on: after any further modules, resolved at any times, it gives the same outcome with no finder call. |
| `Findings.IntendedKeepsIndex` | main.go:286-290 | With the corrected write, an index that covers the whole list still covers it after any step. |
| `Findings.IntendedKeepsUniquePaths` | main.go:286-290 | With the corrected write, a list whose index covers it and that holds one entry per path still holds one entry per path after any step. |
| `Findings.RunIntendedKeepsIndex` | main.go:225-312 | Over any run with the corrected write, an index that covers the list keeps covering it, and the list keeps one entry per path. |
| `Findings.KnownPathVersionNotCached` | main.go:283-284 | As written: a cache holds `a@v1.0.0` and a lookup of `a@v1.1.0` succeeds. The cache is unchanged, and resolving `a@v1.1.0` again calls the finder again. |
| `Findings.NewPathNotIndexed` | main.go:286-290 | As written: after a new path is cached, the index no longer covers the whole list. |
| `Findings.ReloadHidesEarlierVersion` | main.go:286-290 | As written: two versions of one new path leave two list entries for that path. After a reload, the first version goes to the finder again. |

## Left out

- JSON decoding and encoding, and reading and writing the cache file (main.go:61-79, 316-323). Loading is "given a list". A file that cannot be read or is not valid JSON leaves the list empty; otherwise `loaded` is whatever `json.Unmarshal` decoded, possibly only part of the file. After a run, the saved value is `modules`. A failed save (`log.Fatal`) is not modelled. After an abort, nothing is saved: `ResolveAll` still returns the state at the abort, and the caller must not save it.
- Flag parsing, help text and exit codes (main.go:88-117, 336-356). These are command-line plumbing. "A cache file was given" is the constant `configured`.
- `version.ReadExe`, `module.ParseExeData` and `config.ParseFile` (main.go:129, 143, 163) are external readers. Each binary's parsed modules are given; a read, empty-module-info or parse failure is `None`.
- The finder and translator chains, their strategies (mapper, resolver, golang, gopkg, GitHub) and the GitHub client (main.go:198-219) live in other packages. They are taken as given total functions, so the chains' own short-circuit order is not modelled.
- Goroutines, `sync.WaitGroup` and the semaphore of 5 (main.go:222-233, 311-312) are concurrency; the modules are resolved one after another in list order. The source's order is unspecified, and it takes no lock around the cache. The unsynchronised `count` and `ctx` are not modelled either.
- The launch cut-off `if count > 5 { break }` (main.go:306-308) is not modelled. It stops launching goroutines once a counter passes 5, and running goroutines also increment that counter without synchronisation. So how many modules get resolved depends on scheduling. The model resolves every module.
- The output sinks and status listener (main.go:184-190, 236, 239, 303, 327) are output. `ResolveAll` returns the results that `out.Finish` would receive.
- `Resolution.MissWritesOnlyUnindexedPaths`: `Created` and `LastUsed` of a new record are the one value `now`. The source calls `time.Now()` twice, a few nanoseconds apart.
- `Resolution.HitReturnsCachedLicense`: `LastUsed` becomes `now` and is not shown to grow, because `now` is a parameter and no real clock is modelled.
- `ModuleSet.CollectModules`: the order of the list follows Go's map iteration, which is unspecified. The model picks elements of a set in an unspecified order and states nothing about it.
- The re-read of the index at main.go:273 is the same as the one at main.go:246 once the step runs alone, so the model reads the index once.

## Findings

| source | as written | input that shows it | evidently intended | confidence | as-written member | corrected member |
|---|---|---|---|---|---|---|
| main.go:283-284 | For a path the index already has, the new sub-record is appended to the local copy `c2`, which is never stored back. A newly found version of a cached path is never cached. | Cache `[{github.com/x/a, [{v1.0.0, MIT, h1}]}]`; module `github.com/x/a@v1.1.0` (hash h2); the finder returns MIT. The cache stays as it was, and the next resolve of the module calls the finder again. | The sub-record is appended to that path's entry in the persisted list, so the version is a cache hit from then on, whatever other modules are resolved in between. | high, not executed | `Findings.KnownPathVersionNotCached` | `Findings.InsertIntended`, `Findings.IntendedRepeatHits`, `Findings.RunStaysCached` |
| main.go:286-290 | For a path the index lacks, the new entry is appended to the list but not to the index. Two versions of one new path in a run produce two list entries for that path. After a reload, the index sees only the later one. | Empty cache; modules `github.com/x/a@v1.0.0` and `github.com/x/a@v2.0.0`, both found. The saved list holds two entries for `github.com/x/a`. In the next run, `v1.0.0` goes to the finder again, and by the first finding it is never cached again. The same happens to `a@v1 h1` and `a@v1 h2` from two binaries: each appends its own entry for `a`, so one path@version is cached twice, once in each entry. | The new path enters the index too, so the index keeps covering the whole list and, starting from a list with one entry per path, each path keeps one entry. | medium, not executed | `Findings.NewPathNotIndexed`, `Findings.ReloadHidesEarlierVersion` | `Findings.StepIntended`, `Findings.IntendedKeepsIndex`, `Findings.IntendedKeepsUniquePaths`, `Findings.RunIntendedKeepsIndex` |

The class `LicenseCache` and `Resolution.Step` model the write as written,
since that is what the program does. The corrected write is used by
`Findings.StepIntended`, which differs from `Step` only in the write, and
the intended properties are proved about it.
