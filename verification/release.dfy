/**
 * The bookkeeping of the release script: the update of the website's
 * `versions.json` list, the change `bump` makes to a package manifest, and
 * the loop in `main` that bumps the packages one by one and stops at the
 * first version that does not go up.
 *
 * Prompts, changelogs and the docs directories are left out; the
 * `semver.diff` class and the `semver.gt` ordering are inputs.
 */
module Release {
  import opened Basics

  /** What `semver.diff(old, new)` answers; `NoChange` is its `null`. */
  datatype SemverDiff = Major | Premajor | Minor | Preminor | Patch | Prepatch | Prerelease | NoChange

  /** A package as the script lists it: its directory name and a version. */
  datatype Package = Package(name: string, version: string)

  type Dependencies = map<string, string>

  /**
   * A `package.json`: its version, the two dependency maps the script may
   * touch (`None` when missing or falsy) and every other field.
   */
  datatype Manifest = Manifest(
    version: string,
    devDependencies: Option<Dependencies>,
    peerDependencies: Option<Dependencies>,
    otherFields: map<string, string>)

  /**
   * The files the script reads and writes: each package's manifest by
   * package name (absent when it cannot be read or parsed) and the
   * website's `versions.json` (`None` when it cannot be read or parsed).
   */
  datatype Disk = Disk(manifests: map<string, Manifest>, versionsFile: Option<seq<string>>)

  const BaseDependency := "@rneui/base"

  /** `list.indexOf(x)`: the first index holding `x`, or -1. */
  function IndexOf(list: seq<string>, x: string): (i: int)
    ensures -1 <= i < |list|
    ensures i == -1 <==> x !in list
    ensures i >= 0 ==> list[i] == x && x !in list[..i]
  {
    if x in list then
      var i := FirstIndex(list, x);
      assert forall j :: 0 <= j < i ==> list[..i][j] == list[j];
      i
    else
      -1
  }

  /**
   * The list written to `versions.json` by `updateWebsiteDocs`, or `None`
   * when the file is not written. An unreadable file counts as `[]`.
   */
  function UpdateVersions(stored: Option<seq<string>>, diff: SemverDiff, oldVersion: string, newVersion: string)
    : (r: Option<seq<string>>)
    ensures !(diff.Patch? || diff.Minor? || diff.Major?) <==> r.None?
    ensures var list := stored.GetOr([]);
            (diff.Patch? || diff.Minor?) && oldVersion in list ==>
              && |r.value| == |list|
              && r.value[IndexOf(list, oldVersion)] == newVersion
              && forall j :: 0 <= j < |list| && j != IndexOf(list, oldVersion) ==> r.value[j] == list[j]
    ensures var list := stored.GetOr([]);
            (diff.Patch? || diff.Minor?) && oldVersion !in list ==> r.value == [newVersion] + list
    ensures var list := stored.GetOr([]);
            diff.Major? ==> r.value == if newVersion in list then list else [newVersion] + list
  {
    var versions := stored.GetOr([]);
    if diff.Patch? || diff.Minor? then
      var idx := IndexOf(versions, oldVersion);
      if idx != -1 then Some(versions[idx := newVersion]) else Some([newVersion] + versions)
    else if diff.Major? then
      if newVersion !in versions then Some([newVersion] + versions) else Some(versions)
    else
      None
  }

  /** Whenever the list is written, the new version is in it and at most one entry was added. */
  lemma UpdateListsNewVersion(stored: Option<seq<string>>, diff: SemverDiff, oldVersion: string, newVersion: string)
    requires diff.Patch? || diff.Minor? || diff.Major?
    ensures var r := UpdateVersions(stored, diff, oldVersion, newVersion);
            && newVersion in r.value
            && |stored.GetOr([])| <= |r.value| <= |stored.GetOr([])| + 1
  {
    var list := stored.GetOr([]);
    var r := UpdateVersions(stored, diff, oldVersion, newVersion);
    if (diff.Patch? || diff.Minor?) && oldVersion in list {
      assert r.value[IndexOf(list, oldVersion)] == newVersion;
    } else {
      assert newVersion == r.value[0] || r.value == list;
    }
  }

  /** A major update applied twice writes the same list as applied once. */
  lemma MajorUpdateIdempotent(stored: Option<seq<string>>, oldVersion: string, newVersion: string)
    ensures var once := UpdateVersions(stored, Major, oldVersion, newVersion);
            UpdateVersions(once, Major, oldVersion, newVersion) == once
  {
    var once := UpdateVersions(stored, Major, oldVersion, newVersion);
    assert newVersion in once.value by {
      UpdateListsNewVersion(stored, Major, oldVersion, newVersion);
    }
  }

  /**
   * A patch or minor update whose old version is absent prepends the new
   * one each time it runs, so running it twice lists the new version twice.
   */
  lemma PatchRerunRepeatsVersion(stored: Option<seq<string>>, oldVersion: string, newVersion: string)
    requires oldVersion !in stored.GetOr([]) && oldVersion != newVersion
    ensures var once := UpdateVersions(stored, Patch, oldVersion, newVersion);
            var twice := UpdateVersions(once, Patch, oldVersion, newVersion);
            twice.value[..2] == [newVersion, newVersion]
  {
  }

  /** The manifest change in `bump`: the new version, and for `themed` the base dependency. */
  function BumpManifest(m: Manifest, name: string, version: string): (r: Manifest)
    ensures r.version == version
    ensures r.otherFields == m.otherFields
    ensures name != "themed" ==>
              r.devDependencies == m.devDependencies && r.peerDependencies == m.peerDependencies
    ensures name == "themed" ==>
              && r.devDependencies.Some? && r.peerDependencies.Some?
              && r.devDependencies.value.Keys == m.devDependencies.GetOr(map[]).Keys + {BaseDependency}
              && r.peerDependencies.value.Keys == m.peerDependencies.GetOr(map[]).Keys + {BaseDependency}
              && r.devDependencies.value[BaseDependency] == version
              && r.peerDependencies.value[BaseDependency] == version
              && (forall d :: d in m.devDependencies.GetOr(map[]) && d != BaseDependency ==>
                                r.devDependencies.value[d] == m.devDependencies.value[d])
              && (forall d :: d in m.peerDependencies.GetOr(map[]) && d != BaseDependency ==>
                                r.peerDependencies.value[d] == m.peerDependencies.value[d])
  {
    var bumped := m.(version := version);
    if name == "themed" then
      var dev := bumped.devDependencies.GetOr(map[]);
      var peer := bumped.peerDependencies.GetOr(map[]);
      bumped.(devDependencies := Some(dev[BaseDependency := version]),
              peerDependencies := Some(peer[BaseDependency := version]))
    else
      bumped
  }

  /**
   * `Release.bump(pkg)`: nothing is written when the manifest cannot be
   * read; otherwise the manifest is rewritten and, for `base`, the versions
   * list is updated with the diff class of the old and new versions.
   */
  function Bump(disk: Disk, pkg: Package, diff: (string, string) -> SemverDiff): (r: Disk)
    ensures pkg.name !in disk.manifests ==> r == disk
    ensures pkg.name in disk.manifests ==>
              && r.manifests.Keys == disk.manifests.Keys
              && r.manifests[pkg.name] == BumpManifest(disk.manifests[pkg.name], pkg.name, pkg.version)
              && (forall n :: n in disk.manifests && n != pkg.name ==> r.manifests[n] == disk.manifests[n])
    ensures pkg.name != "base" ==> r.versionsFile == disk.versionsFile
    ensures pkg.name == "base" && pkg.name in disk.manifests ==>
              var oldVersion := disk.manifests[pkg.name].version;
              var written := UpdateVersions(disk.versionsFile, diff(oldVersion, pkg.version), oldVersion, pkg.version);
              r.versionsFile == if written.Some? then written else disk.versionsFile
  {
    if pkg.name !in disk.manifests then disk
    else
      var manifest := disk.manifests[pkg.name];
      var oldVersion := manifest.version;
      var versionsFile :=
        if pkg.name == "base" then
          var written := UpdateVersions(disk.versionsFile, diff(oldVersion, pkg.version), oldVersion, pkg.version);
          if written.Some? then written else disk.versionsFile
        else disk.versionsFile;
      Disk(disk.manifests[pkg.name := BumpManifest(manifest, pkg.name, pkg.version)], versionsFile)
  }

  /** The disk after bumping the given packages in order. */
  function BumpAll(disk: Disk, pkgs: seq<Package>, diff: (string, string) -> SemverDiff): Disk {
    if |pkgs| == 0 then disk
    else Bump(BumpAll(disk, pkgs[..|pkgs| - 1], diff), pkgs[|pkgs| - 1], diff)
  }

  /** The version chosen for `pkg` is strictly greater than its current one. */
  predicate Accepted(pkg: Package, chosen: map<string, string>, greater: (string, string) -> bool) {
    pkg.name in chosen && greater(chosen[pkg.name], pkg.version)
  }

  /**
   * The loop in `main`: each package, in order, must get a strictly
   * greater version; the first that does not stops the run, and the
   * packages before it stay bumped.
   */
  method BumpPackages(
    disk: Disk,
    pkgs: seq<Package>,
    chosen: map<string, string>,
    greater: (string, string) -> bool,
    diff: (string, string) -> SemverDiff)
    returns (bumped: seq<Package>, failedAt: Option<nat>, result: Disk)
    ensures failedAt.None? ==> |bumped| == |pkgs|
    ensures failedAt.Some? ==>
              && failedAt.value == |bumped| < |pkgs|
              && !Accepted(pkgs[failedAt.value], chosen, greater)
    ensures |bumped| <= |pkgs|
    ensures forall i :: 0 <= i < |bumped| ==>
              && Accepted(pkgs[i], chosen, greater)
              && bumped[i] == pkgs[i].(version := chosen[pkgs[i].name])
    ensures result == BumpAll(disk, bumped, diff)
  {
    bumped, failedAt, result := [], None, disk;
    var i := 0;
    while i < |pkgs|
      invariant i <= |pkgs| && |bumped| == i
      invariant forall j :: 0 <= j < i ==>
                  && Accepted(pkgs[j], chosen, greater)
                  && bumped[j] == pkgs[j].(version := chosen[pkgs[j].name])
      invariant result == BumpAll(disk, bumped, diff)
    {
      var pkg := pkgs[i];
      if !Accepted(pkg, chosen, greater) {
        failedAt := Some(i);
        return;
      }
      var next := pkg.(version := chosen[pkg.name]);
      result := Bump(result, next, diff);
      assert (bumped + [next])[..|bumped|] == bumped;
      bumped := bumped + [next];
      i := i + 1;
    }
  }
}
