/**
 * Collecting the modules of every binary into one list without repeats
 * (main.go:140-177).
 */
module ModuleSet {
  import opened Wrappers
  import opened CacheTypes

  /** No element occurs twice. */
  predicate NoDuplicates<T(==)>(s: seq<T>) {
    forall i, j :: 0 <= i < j < |s| ==> s[i] != s[j]
  }

  /** `x` was parsed from one of the binaries. */
  ghost predicate InSomeBinary(x: Module, binaries: seq<Option<seq<Module>>>) {
    exists b :: 0 <= b < |binaries| && binaries[b].Some? && x in binaries[b].value
  }

  /**
   * `binaries[b]` is what reading the b-th binary gives: its parsed modules,
   * or None when the binary could not be read, carries no module
   * information, or its module information could not be parsed; any of
   * these stops the run. Modules are compared as whole values.
   */
  method CollectModules(binaries: seq<Option<seq<Module>>>) returns (r: Option<seq<Module>>)
    ensures r.None? <==> exists b :: 0 <= b < |binaries| && binaries[b].None?
    ensures r.Some? ==> NoDuplicates(r.value)
    ensures r.Some? ==> forall x :: x in r.value <==> InSomeBinary(x, binaries)
  {
    var allMods: set<Module> := {};
    for b := 0 to |binaries|
      invariant forall k :: 0 <= k < b ==> binaries[k].Some?
      invariant forall x :: x in allMods <==> InSomeBinary(x, binaries[..b])
    {
      if binaries[b].None? {
        return None;
      }
      var mods := binaries[b].value;
      for i := 0 to |mods|
        invariant forall x :: x in allMods <==> InSomeBinary(x, binaries[..b]) || x in mods[..i]
      {
        allMods := allMods + {mods[i]};
      }
      assert mods[..|mods|] == mods;
      forall x
        ensures InSomeBinary(x, binaries[..b + 1]) <==> InSomeBinary(x, binaries[..b]) || x in mods
      {
        assert binaries[..b + 1][b] == binaries[b];
        assert forall k :: 0 <= k < b ==> binaries[..b + 1][k] == binaries[..b][k];
      }
    }
    assert binaries[..|binaries|] == binaries;

    var list: seq<Module> := [];
    var rest := allMods;
    while rest != {}
      invariant rest <= allMods
      invariant NoDuplicates(list)
      invariant forall x :: x in list <==> x in allMods && x !in rest
      decreases |rest|
    {
      var mod :| mod in rest;
      list := list + [mod];
      rest := rest - {mod};
    }
    r := Some(list);
  }
}
