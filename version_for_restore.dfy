/**
 * A version opened for restoring: the versions it depends on, the objects
 * whose restore waits for their data, and the base objects read once from
 * its archive.  The archive reader is a value given to the constructor.
 */
module VersionRestore {
  import opened Types
  import opened Backup

  class VersionForRestore {
    const versionNumber: int
    /** The manifest's `version_dependencies`. */
    const manifestDependencies: seq<int>
    var dependencies: map<int, VersionForRestore?>
    var dependenciesFull: bool
    var baseObjects: Option<seq<Fso>>

    constructor (version: int, manifestDeps: seq<int>)
      ensures versionNumber == version && manifestDependencies == manifestDeps
      ensures dependencies == map[] && !dependenciesFull && baseObjects == None
    {
      versionNumber := version;
      manifestDependencies := manifestDeps;
      dependencies := map[];
      dependenciesFull := false;
      baseObjects := None;
    }

    /**
     * `fill_dependencies(map)`: once per version, each manifest dependency
     * is looked up in the caller's map, which `operator[]` fills with a null
     * entry when the dependency is missing.  The caller's map is passed in
     * and the updated map returned.
     */
    method FillDependencies(versions: map<int, VersionForRestore?>) returns (versions': map<int, VersionForRestore?>)
      modifies this`dependencies, this`dependenciesFull
      ensures dependenciesFull
      ensures old(dependenciesFull) ==> versions' == versions && dependencies == old(dependencies)
      ensures !old(dependenciesFull) ==>
        (forall k :: k in versions' <==> k in versions || k in manifestDependencies) &&
        (forall k | k in versions :: versions'[k] == versions[k]) &&
        (forall d | d in manifestDependencies && d !in versions :: versions'[d] == null) &&
        (forall k :: k in dependencies <==> k in old(dependencies) || k in manifestDependencies) &&
        (forall d | d in manifestDependencies :: dependencies[d] == versions'[d]) &&
        (forall k | k in old(dependencies) && k !in manifestDependencies :: dependencies[k] == old(dependencies)[k])
    {
      if dependenciesFull {
        return versions;
      }
      versions' := versions;
      var filled := dependencies;
      var i := 0;
      while i < |manifestDependencies|
        invariant 0 <= i <= |manifestDependencies|
        invariant forall k :: k in versions' <==> k in versions || k in manifestDependencies[..i]
        invariant forall k | k in versions :: versions'[k] == versions[k]
        invariant forall d | d in manifestDependencies[..i] && d !in versions :: versions'[d] == null
        invariant forall k :: k in filled <==> k in dependencies || k in manifestDependencies[..i]
        invariant forall d | d in manifestDependencies[..i] :: filled[d] == versions'[d]
        invariant forall k | k in dependencies && k !in manifestDependencies[..i] :: filled[k] == dependencies[k]
      {
        var dep := manifestDependencies[i];
        assert manifestDependencies[..i + 1] == manifestDependencies[..i] + [dep];
        if dep !in versions' {
          versions' := versions'[dep := null];
        }
        filled := filled[dep := versions'[dep]];
        i := i + 1;
      }
      assert manifestDependencies[..i] == manifestDependencies;
      dependencies := filled;
      dependenciesFull := true;
    }

    /**
     * `restore(fso, restore_later)`: `restored` is what `fso->restore()`
     * returned; an object whose data still has to be written, and that has
     * a version, is queued.
     */
    method Restore(fso: Fso, restored: bool, restoreLater: seq<Fso>) returns (later: seq<Fso>)
      ensures !restored && fso.latestVersion >= 0 ==> later == restoreLater + [fso]
      ensures restored || fso.latestVersion < 0 ==> later == restoreLater
    {
      later := restoreLater;
      if !restored && fso.latestVersion >= 0 {
        later := later + [fso];
      }
    }

    /**
     * `get_base_objects`: the first call stores what the archive reader
     * returns (`fromArchive`); every later call returns the stored vector.
     */
    method GetBaseObjects(fromArchive: seq<Fso>) returns (objects: seq<Fso>)
      modifies this`baseObjects
      ensures old(baseObjects).Some? ==> objects == old(baseObjects).value && baseObjects == old(baseObjects)
      ensures old(baseObjects).None? ==> objects == fromArchive && baseObjects == Some(fromArchive)
    {
      if baseObjects.None? {
        baseObjects := Some(fromArchive);
      }
      objects := baseObjects.value;
    }
  }

  /** Filling twice is filling once: the second call changes neither map. */
  method FillTwice(v: VersionForRestore, versions: map<int, VersionForRestore?>)
    returns (first: map<int, VersionForRestore?>, second: map<int, VersionForRestore?>)
    modifies v`dependencies, v`dependenciesFull
    ensures second == first
  {
    first := v.FillDependencies(versions);
    ghost var deps := v.dependencies;
    second := v.FillDependencies(first);
    assert v.dependencies == deps;
  }

  /** Whatever the reader returns later, a version's base objects are read once. */
  method ReadBaseObjectsTwice(v: VersionForRestore, a: seq<Fso>, b: seq<Fso>) returns (first: seq<Fso>, second: seq<Fso>)
    modifies v`baseObjects
    ensures second == first
  {
    first := v.GetBaseObjects(a);
    second := v.GetBaseObjects(b);
  }
}
