/**
 * The scan of one cached path's version records for the version being
 * resolved (main.go:244-257).
 */
module VersionScan {
  import opened CacheTypes

  /** How the scan ends: no record of the version, the last record of it, or a hash mismatch. */
  datatype ScanResult = NoMatch | Match(index: nat) | Mismatch

  /** Some record holds the module's version. */
  ghost predicate HasVersion(vl: seq<VersionLicense>, m: Module) {
    exists i :: 0 <= i < |vl| && vl[i].version == m.version
  }

  /** Some record holds the module's version under another content hash. */
  ghost predicate HashMismatch(vl: seq<VersionLicense>, m: Module) {
    exists i :: 0 <= i < |vl| && vl[i].version == m.version && vl[i].hash != m.hash
  }

  /** Record `i` is the last one that holds the module's version. */
  ghost predicate IsLastMatch(vl: seq<VersionLicense>, m: Module, i: nat) {
    i < |vl| && vl[i].version == m.version &&
    forall j :: i < j < |vl| ==> vl[j].version != m.version
  }

  /**
   * What the scan of `vl` decides for `m`: any mismatching hash stops the
   * run; otherwise the last record of the version wins.
   */
  function Scan(vl: seq<VersionLicense>, m: Module): (r: ScanResult)
    ensures r.Mismatch? <==> HashMismatch(vl, m)
    ensures r.NoMatch? <==> !HasVersion(vl, m)
    ensures r.Match? ==> IsLastMatch(vl, m, r.index) && vl[r.index].hash == m.hash
    decreases |vl|
  {
    if vl == [] then NoMatch
    else
      var n := |vl| - 1;
      var before := Scan(vl[..n], m);
      assert forall k :: 0 <= k < n ==> vl[..n][k] == vl[k];
      if before.Mismatch? then Mismatch
      else if vl[n].version != m.version then before
      else if vl[n].hash != m.hash then Mismatch
      else Match(n)
  }

  /**
   * The loop of the resolve step over `cca.VerLic`: it remembers the last
   * matching position in `found`/`index` and stops at the first record
   * whose hash differs.
   */
  method ScanVerLic(verLic: seq<VersionLicense>, m: Module) returns (r: ScanResult)
    ensures r == Scan(verLic, m)
  {
    var found := false;
    var index := 0;
    for i := 0 to |verLic|
      invariant Scan(verLic[..i], m) == if found then Match(index) else NoMatch
    {
      var vv := verLic[i];
      assert verLic[..i + 1][..i] == verLic[..i];
      if vv.version == m.version {
        if vv.hash != m.hash {
          assert HashMismatch(verLic, m);
          return Mismatch;
        }
        found, index := true, i;
      }
    }
    assert verLic[..|verLic|] == verLic;
    r := if found then Match(index) else NoMatch;
  }

  /** The scan looks only at versions and hashes: touching a record's timestamp does not change it. */
  lemma {:induction false} ScanIgnoresLastUsed(vl: seq<VersionLicense>, m: Module, i: nat, now: Time)
    requires i < |vl|
    ensures Scan(vl[i := vl[i].(lastUsed := now)], m) == Scan(vl, m)
  {
    var vl' := vl[i := vl[i].(lastUsed := now)];
    assert HashMismatch(vl', m) <==> HashMismatch(vl, m) by {
      assert forall k :: 0 <= k < |vl| ==> vl'[k].version == vl[k].version && vl'[k].hash == vl[k].hash;
    }
    assert HasVersion(vl', m) <==> HasVersion(vl, m) by {
      assert forall k :: 0 <= k < |vl| ==> vl'[k].version == vl[k].version;
    }
    var r, r' := Scan(vl, m), Scan(vl', m);
    if r.Match? {
      assert IsLastMatch(vl, m, r'.index) by {
        assert forall k :: 0 <= k < |vl| ==> vl'[k].version == vl[k].version;
      }
      LastMatchUnique(vl, m, r.index, r'.index);
    }
  }

  /** At most one record is the last one of a version. */
  lemma LastMatchUnique(vl: seq<VersionLicense>, m: Module, i: nat, j: nat)
    requires IsLastMatch(vl, m, i) && IsLastMatch(vl, m, j)
    ensures i == j
  {
  }
}
