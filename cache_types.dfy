/**
 * The records of golicense's license cache and of one license lookup
 * (main.go:31-46), as values.
 */
module CacheTypes {
  import opened Wrappers

  /** A point in time (`time.Time`); the model only copies and stores it. */
  type Time = int

  /** A dependency read from a binary: module path, version and content hash. */
  datatype Module = Module(path: string, version: string, hash: string)

  /** A resolved license: its name and its SPDX identifier. */
  datatype License = License(name: string, spdx: string)

  /** One cached resolution of a module path at one version (`moduleVersionLicense`). */
  datatype VersionLicense = VersionLicense(
    version: string,
    license: string,
    spdx: string,
    hash: string,
    created: Time,
    lastUsed: Time)

  /** Every cached version of one module path (`cachedModule`). */
  datatype CachedModule = CachedModule(path: string, verLic: seq<VersionLicense>)

  /**
   * What one call of the finder chain (`license.Find`) gives back: a license
   * or nil, and an error or nil. Both may be present at once.
   */
  datatype FindResult = FindResult(lic: Option<License>, err: Option<string>)
  {
    /** The lookup counts as a success: a license and no error. */
    predicate Succeeded() {
      lic.Some? && err.None?
    }
  }

  /**
   * The outcome of resolving one module: the run stops (`os.Exit(1)` on a
   * hash mismatch), or the module finishes with a license and an error,
   * either of which may be nil.
   */
  datatype Outcome = Abort | Done(result: FindResult)
}
