/**
 * The example app's Metro resolver: module names under a mapped package
 * prefix (`@rneui/base`, `@rneui/themed`) are sent to the package's `src`
 * directory, trying a fixed list of extensions; everything else, and every
 * miss, goes to Metro's default resolver.
 *
 * The filesystem is two abstract sets of paths, and paths are joined with
 * `/` without normalisation.
 */
module MetroResolver {
  import opened Basics
  import opened Strings

  /** What `fs.existsSync` and `fs.statSync` can see. */
  datatype FileSystem = FileSystem(files: set<string>, dirs: set<string>) {
    /** `fs.existsSync(p)`. */
    predicate Exists(p: string) {
      p in files || p in dirs
    }
  }

  /** One entry of the package map: a module-name prefix and the package's directory. */
  datatype PackageEntry = PackageEntry(prefix: string, path: string)

  /** A resolution this resolver produced: `{ type: 'sourceFile', filePath }`. */
  datatype Resolution = SourceFile(filePath: string)

  /** What `resolveRequest` answers: one of its own resolutions, or the default resolver's. */
  datatype Outcome = Resolved(resolution: Resolution) | DefaultResolver

  /** The extensions tried, in order. */
  const Extensions: seq<string> := [".tsx", ".ts", ".native.tsx", ".native.ts", ".js", ".jsx"]

  /**
   * The package map, in key order, for a given workspace root: each
   * `@rneui/<name>` prefix maps to `<root>/packages/<name>`.
   */
  function RneuiPackages(workspaceRoot: string): (r: seq<PackageEntry>)
    ensures |r| == 2 && r[0].prefix == "@rneui/base" && r[1].prefix == "@rneui/themed"
    ensures forall i :: 0 <= i < |r| ==>
              && StartsWith(r[i].prefix, "@rneui/")
              && r[i].path == workspaceRoot + "/packages/" + r[i].prefix[7..]
  {
    var r := [ PackageEntry("@rneui/base", workspaceRoot + "/packages/base"),
               PackageEntry("@rneui/themed", workspaceRoot + "/packages/themed") ];
    assert "@rneui/base"[7..] == "base";
    assert "@rneui/themed"[7..] == "themed";
    r
  }

  /**
   * `basePath`: `<packagePath>/src/<subpath>`, or `<packagePath>/src/index`
   * when the subpath is empty.
   */
  function BasePath(packagePath: string, subpath: string): (r: string)
    ensures StartsWith(r, packagePath + "/src/")
    ensures subpath != "" ==> r[|packagePath| + 5..] == subpath
    ensures subpath == "" ==> r[|packagePath| + 5..] == "index"
  {
    var dir := packagePath + "/src/";
    var r := if subpath != "" then dir + subpath else dir + "index";
    assert |dir| == |packagePath| + 5;
    assert r[..|dir|] == dir;
    r
  }

  /** `base + ext` for every extension, in order. */
  function FileCandidates(base: string): (r: seq<string>)
    ensures |r| == |Extensions|
    ensures forall k :: 0 <= k < |r| ==> r[k] == base + Extensions[k]
  {
    seq(|Extensions|, k requires 0 <= k < |Extensions| => base + Extensions[k])
  }

  /** `path.join(base, 'index' + ext)` for every extension, in order. */
  function IndexCandidates(base: string): (r: seq<string>)
    ensures |r| == |Extensions|
    ensures forall k :: 0 <= k < |r| ==> r[k] == base + "/index" + Extensions[k]
  {
    seq(|Extensions|, k requires 0 <= k < |Extensions| => base + "/index" + Extensions[k])
  }

  /** `p` is the earliest candidate that satisfies `present`. */
  ghost predicate IsFirstIn(candidates: seq<string>, present: string -> bool, p: string) {
    exists k :: 0 <= k < |candidates| && candidates[k] == p && present(p)
                && forall j :: 0 <= j < k ==> !present(candidates[j])
  }

  /** The earliest candidate from index `i` on that satisfies `present`. */
  function FirstPresent(candidates: seq<string>, present: string -> bool, i: nat): (r: Option<string>)
    requires i <= |candidates|
    requires forall j :: 0 <= j < i ==> !present(candidates[j])
    ensures r.None? <==> forall j :: i <= j < |candidates| ==> !present(candidates[j])
    ensures r.Some? ==> IsFirstIn(candidates, present, r.value)
    decreases |candidates| - i
  {
    if i == |candidates| then None
    else if present(candidates[i]) then Some(candidates[i])
    else FirstPresent(candidates, present, i + 1)
  }

  /**
   * `resolvePackageSource(packagePath, subpath)`: the first of `base + ext`
   * that is a file; failing that, when `base` is a directory, the first
   * `base/index + ext` that exists (file or not); otherwise nothing.
   */
  function ResolvePackageSource(fs: FileSystem, packagePath: string, subpath: string): (r: Option<Resolution>)
    ensures var base := BasePath(packagePath, subpath);
            var direct := FileCandidates(base);
            var index := IndexCandidates(base);
            && (r.Some? ==> r.value.filePath in direct || r.value.filePath in index)
            && ((exists k :: 0 <= k < |direct| && direct[k] in fs.files) ==>
                  r.Some? && IsFirstIn(direct, p => p in fs.files, r.value.filePath))
            && ((forall k :: 0 <= k < |direct| ==> direct[k] !in fs.files) && base !in fs.dirs ==> r.None?)
            && ((forall k :: 0 <= k < |direct| ==> direct[k] !in fs.files) && base in fs.dirs ==>
                  && (r.Some? <==> exists k :: 0 <= k < |index| && fs.Exists(index[k]))
                  && (r.Some? ==> IsFirstIn(index, fs.Exists, r.value.filePath)))
  {
    var base := BasePath(packagePath, subpath);
    var direct := FirstPresent(FileCandidates(base), p => p in fs.files, 0);
    if direct.Some? then
      Some(SourceFile(direct.value))
    else if fs.Exists(base) && base in fs.dirs then
      var nested := FirstPresent(IndexCandidates(base), fs.Exists, 0);
      if nested.Some? then Some(SourceFile(nested.value)) else None
    else
      None
  }

  /**
   * The `index` branch only asks whether a path exists: a directory called
   * `index.tsx` is returned as the source file.
   */
  lemma IndexBranchAcceptsDirectory(fs: FileSystem, packagePath: string, subpath: string)
    requires var base := BasePath(packagePath, subpath);
             && (forall k :: 0 <= k < |Extensions| ==> base + Extensions[k] !in fs.files)
             && base in fs.dirs
             && base + "/index.tsx" in fs.dirs
    ensures ResolvePackageSource(fs, packagePath, subpath)
         == Some(SourceFile(BasePath(packagePath, subpath) + "/index.tsx"))
  {
    var base := BasePath(packagePath, subpath);
    var r := ResolvePackageSource(fs, packagePath, subpath);
    assert IndexCandidates(base)[0] == base + "/index.tsx" by {
      assert Extensions[0] == ".tsx";
      assert "/index" + ".tsx" == "/index.tsx";
    }
    var k :| 0 <= k < |Extensions| && IndexCandidates(base)[k] == r.value.filePath
             && fs.Exists(r.value.filePath)
             && forall j :: 0 <= j < k ==> !fs.Exists(IndexCandidates(base)[j]);
    assert k == 0;
  }

  /** What may sit between a package prefix and the subpath: an optional `/`, then an optional `dist/`. */
  function Separator(slash: bool, dist: bool): string {
    (if slash then "/" else "") + (if dist then "dist/" else "")
  }

  /** The part of a module name after its prefix, with one leading `/` and then one leading `dist/` removed. */
  function StripSeparator(after: string): (r: string)
    ensures |r| <= |after| && r == after[|after| - |r|..]
    ensures after[..|after| - |r|] in {"", "/", "dist/", "/dist/"}
  {
    var afterSlash := if StartsWith(after, "/") then after[1..] else after;
    var r := if StartsWith(afterSlash, "dist/") then afterSlash[5..] else afterSlash;
    assert after[..|after| - |r|] in {"", "/", "dist/", "/dist/"} by {
      var slash := StartsWith(after, "/");
      var dist := StartsWith(afterSlash, "dist/");
      if slash && dist {
        assert after[..|after| - |r|] == after[..6];
        assert after[..6] == after[..1] + afterSlash[..5];
        assert after[..1] == "/" && afterSlash[..5] == "dist/";
        assert after[..6] == "/dist/";
      } else if slash {
        assert after[..|after| - |r|] == after[..1] == "/";
      } else if dist {
        assert after[..|after| - |r|] == afterSlash[..5] == "dist/";
      } else {
        assert after[..|after| - |r|] == "";
      }
    }
    r
  }

  /** Stripping a separator put in front of a rest that cannot be mistaken for one gives the rest back. */
  lemma StripSeparatorInverts(slash: bool, dist: bool, rest: string)
    requires !slash && !dist ==> !StartsWith(rest, "/")
    requires !dist ==> !StartsWith(rest, "dist/")
    ensures StripSeparator(Separator(slash, dist) + rest) == rest
  {
    var after := Separator(slash, dist) + rest;
    var tail := (if dist then "dist/" else "") + rest;
    assert after == (if slash then "/" else "") + tail;
    var afterSlash := if StartsWith(after, "/") then after[1..] else after;
    if slash {
      assert after[1..] == tail;
    } else if dist {
      assert after[0] == 'd';
    }
    assert afterSlash == tail;
    if dist {
      assert tail[..5] == "dist/";
      assert tail[5..] == rest;
    }
  }

  /**
   * The subpath of `name` below `prefix`: the prefix removed, then one
   * leading `/`, then one leading `dist/`.
   */
  function Subpath(name: string, prefix: string): (r: string)
    requires StartsWith(name, prefix)
    ensures |r| <= |name| - |prefix| && r == name[|name| - |r|..]
    ensures name[|prefix|..|name| - |r|] in {"", "/", "dist/", "/dist/"}
  {
    var after := name[|prefix|..];
    var r := StripSeparator(after);
    assert name[|prefix|..|name| - |r|] == after[..|after| - |r|];
    r
  }

  /** Putting a prefix, an optional `/` and an optional `dist/` before a subpath and stripping them again gives it back. */
  lemma SubpathInverts(prefix: string, slash: bool, dist: bool, rest: string)
    requires !slash && !dist ==> !StartsWith(rest, "/")
    requires !dist ==> !StartsWith(rest, "dist/")
    ensures var name := prefix + Separator(slash, dist) + rest;
            StartsWith(name, prefix) && Subpath(name, prefix) == rest
  {
    var name := prefix + Separator(slash, dist) + rest;
    assert name[..|prefix|] == prefix;
    assert name[|prefix|..] == Separator(slash, dist) + rest;
    StripSeparatorInverts(slash, dist, rest);
  }

  /** The index of the first entry whose prefix `name` starts with. */
  function FirstPrefix(packages: seq<PackageEntry>, name: string): (r: Option<nat>)
    ensures r.None? <==> forall i :: 0 <= i < |packages| ==> !StartsWith(name, packages[i].prefix)
    ensures r.Some? ==> r.value < |packages| && StartsWith(name, packages[r.value].prefix)
    ensures r.Some? ==> forall i :: 0 <= i < r.value ==> !StartsWith(name, packages[i].prefix)
  {
    if |packages| == 0 then None
    else if StartsWith(name, packages[0].prefix) then Some(0)
    else
      var rest := FirstPrefix(packages[1..], name);
      if rest.Some? then Some(rest.value + 1) else None
  }

  /**
   * `resolveRequest(context, moduleName)`: only the first matching prefix is
   * tried; when its package has no source for the subpath, the default
   * resolver answers, whatever later prefixes might have matched.
   */
  function ResolveRequest(fs: FileSystem, packages: seq<PackageEntry>, moduleName: string): (r: Outcome)
    ensures FirstPrefix(packages, moduleName).None? ==> r == DefaultResolver
    ensures FirstPrefix(packages, moduleName).Some? ==>
              var entry := packages[FirstPrefix(packages, moduleName).value];
              var found := ResolvePackageSource(fs, entry.path, Subpath(moduleName, entry.prefix));
              && (found.None? ==> r == DefaultResolver)
              && (found.Some? ==> r == Resolved(found.value))
  {
    match FirstPrefix(packages, moduleName)
    case None => DefaultResolver
    case Some(i) =>
      var entry := packages[i];
      var found := ResolvePackageSource(fs, entry.path, Subpath(moduleName, entry.prefix));
      if found.Some? then Resolved(found.value) else DefaultResolver
  }

  /** Names under `@rneui/base` match the first entry of the package map. */
  lemma BaseNamesUseBasePackage(workspaceRoot: string, rest: string)
    ensures var packages := RneuiPackages(workspaceRoot);
            && FirstPrefix(packages, "@rneui/base" + rest) == Some(0)
            && packages[0].path == workspaceRoot + "/packages/base"
  {
    var name := "@rneui/base" + rest;
    assert name[..11] == "@rneui/base";
    assert "@rneui/base"[7..] == "base";
  }

  /** With an empty subpath the source is looked up as `src/index`. */
  lemma EmptySubpathIsIndex(packagePath: string)
    ensures BasePath(packagePath, "") == packagePath + "/src/index"
  {
  }

  /**
   * The package root, followed by nothing, `/`, `dist/` or `/dist/`, is
   * looked up as `src/index` inside the base package.
   */
  lemma PackageRootLooksUnderIndex(workspaceRoot: string, slash: bool, dist: bool)
    ensures var packages := RneuiPackages(workspaceRoot);
            var name := "@rneui/base" + Separator(slash, dist);
            && FirstPrefix(packages, name) == Some(0)
            && Subpath(name, "@rneui/base") == ""
            && BasePath(packages[0].path, Subpath(name, "@rneui/base"))
               == workspaceRoot + "/packages/base/src/index"
  {
    var name := "@rneui/base" + Separator(slash, dist);
    BaseNamesUseBasePackage(workspaceRoot, Separator(slash, dist));
    SubpathInverts("@rneui/base", slash, dist, "");
    assert name + "" == name;
    EmptySubpathIsIndex(workspaceRoot + "/packages/base");
  }

  /** Names under `@rneui/themed` never match the `@rneui/base` prefix and go to the themed package. */
  lemma ThemedNamesUseThemedPackage(workspaceRoot: string, rest: string)
    ensures var packages := RneuiPackages(workspaceRoot);
            && FirstPrefix(packages, "@rneui/themed" + rest) == Some(1)
            && packages[1].path == workspaceRoot + "/packages/themed"
  {
    var name := "@rneui/themed" + rest;
    assert name[7] == 't' && "@rneui/base"[7] == 'b';
    assert !("@rneui/base" <= name);
    assert "@rneui/themed" <= name;
    assert "@rneui/themed"[7..] == "themed";
  }

  /**
   * The prefix test is a plain string prefix: `@rneui/baseX` is looked up
   * as `src/X` inside the base package.
   */
  lemma PlainPrefixMatch(workspaceRoot: string)
    ensures var packages := RneuiPackages(workspaceRoot);
            && FirstPrefix(packages, "@rneui/baseX") == Some(0)
            && Subpath("@rneui/baseX", "@rneui/base") == "X"
  {
    assert "@rneui/base" <= "@rneui/baseX";
    assert "X"[0] == 'X';
    SubpathInverts("@rneui/base", false, false, "X");
    assert "@rneui/base" + Separator(false, false) + "X" == "@rneui/baseX";
  }
}
