/**
 * The index `cacheDataLookup` that `readFile` builds over the loaded list
 * `cacheData.Modules` (main.go:81-85).
 */
module CacheIndex {
  import opened CacheTypes

  /** The paths that occur in `mods`. */
  ghost function Paths(mods: seq<CachedModule>): (ps: set<string>) {
    set k | 0 <= k < |mods| :: mods[k].path
  }

  /** Position `k` holds the last module of `mods` whose path is `p`. */
  ghost predicate IsLastIndexOf(mods: seq<CachedModule>, p: string, k: nat) {
    k < |mods| && mods[k].path == p &&
    forall j :: k < j < |mods| ==> mods[j].path != p
  }

  /**
   * `lookup` has exactly the paths of `mods` as keys and sends each one to
   * the position of the last module with that path.
   */
  ghost predicate IsLastIndexMap(mods: seq<CachedModule>, lookup: map<string, nat>) {
    lookup.Keys == Paths(mods) &&
    forall p :: p in lookup ==> IsLastIndexOf(mods, p, lookup[p])
  }

  /**
   * The loop of `readFile`: one pass over the list in which an entry
   * overwrites what an earlier entry with the same path stored.
   */
  method BuildIndex(mods: seq<CachedModule>) returns (lookup: map<string, nat>)
    ensures IsLastIndexMap(mods, lookup)
  {
    lookup := map[];
    for i := 0 to |mods|
      invariant IsLastIndexMap(mods[..i], lookup)
    {
      assert Paths(mods[..i + 1]) == Paths(mods[..i]) + {mods[i].path} by {
        assert forall k :: 0 <= k < i ==> mods[..i + 1][k] == mods[..i][k];
        assert mods[..i + 1][i] == mods[i];
      }
      lookup := lookup[mods[i].path := i];
    }
    assert mods[..|mods|] == mods;
  }

  /** The index is determined by the list: two maps that both index it are equal. */
  lemma LastIndexMapUnique(mods: seq<CachedModule>, l1: map<string, nat>, l2: map<string, nat>)
    requires IsLastIndexMap(mods, l1) && IsLastIndexMap(mods, l2)
    ensures l1 == l2
  {
    forall p | p in l1
      ensures l1[p] == l2[p]
    {
    }
  }
}
