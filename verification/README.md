# React Native Elements: verified model of the sequential helpers

This project is a Dafny model of the small pieces of sequential logic in the
React Native Elements repository, with proofs of their properties:

- **Icon-set resolver** (`IconType`, `icon_type.dfy`). Custom icon sets are
  registered by id and shadow a fixed table of built-in families. The table
  includes aliases such as `fa` for `font-awesome`. Each family is backed by
  an optional `@react-native-vector-icons/*` package, and unknown ids fall
  back to the Material package. The process-wide registry is an explicit
  `IconState` that the calls thread through. `require` is a lookup in a map
  of installed packages. `console.warn` appends to the state's warning log.
- **Content renderer** (`RenderNode`, `render_node.dfy`). `renderNode`
  dispatches over a closed tagged union of content values. Its result is
  `Option<Node>`.
- **Clamp** (`MathUtils`, `math_utils.dfy`). `clamp` is a total function into
  [0, 1] over `real`.
- **`@jest/globals` import inserter** (`JestImports`, `jest_imports.dfy`). The
  model covers `detectJestGlobals` and the text transformation of
  `addJestImport`, with the file given as its content string.
- **Metro source resolver** (`MetroResolver`, `metro_resolver.dfy`). This is
  the prefix and subpath logic of `resolveRequest` and the candidate order of
  `resolvePackageSource`. The filesystem is two abstract sets, one of files
  and one of directories.
- **Release bookkeeping** (`Release`, `release.dfy`). This covers the update
  of `versions.json`, the manifest change in `bump`, and the bump loop of
  `main`. The loop stops at the first package whose version does not go up.

Two shared modules hold the vocabulary. `Basics` has `Option`, `Min`, a
no-duplicates predicate and the first index of a value in a sequence.
`Strings` has JavaScript's `includes`, `startsWith`, `trim`, `split` on one
character and `join` on `seq<char>`, with the lemmas that connect them. Among those lemmas
are the round trips `Join(Split(s)) == s` for every string, and
`Split(Join(pieces)) == pieces` for at least one piece when no piece contains
the separator.

Where the repository's documentation and its code disagree, the model follows
the code:

- The code does not warn about `material-community`, although a test expects
  a deprecation warning for it. It loads
  `@react-native-vector-icons/material-community` like any other entry
  (`IconType.MaterialCommunityLoadsItsOwnPackage`).
- A known id whose package is missing resolves to `null`, with no fallback to
  Material. Only ids missing from the table fall back
  (`IconType.KnownMissingHasNoFallback`).
- When a file has no import line, `addJestImport` inserts the new import
  after the first line, not at the start as its comment says.

`registerCustomIconType` takes any string as its id, the empty one included
(packages/base/src/helpers/getIconType.tsx:9-11), and the model puts no
condition on it either.

## Model

| member | source | states |
|---|---|---|
| `IconType.RegisterCustomIconType` | packages/base/src/helpers/getIconType.tsx:9-11 | after registration `id` maps to the given value and the registry's keys gain only `id`; every other id keeps its value and the warning log is unchanged |
| `IconType.RegisterLastWins` | packages/base/src/helpers/getIconType.tsx:9-11 | registering the same id twice leaves the state the second registration alone would give |
| `IconType.RegisterDistinctCommute` | packages/base/src/helpers/getIconType.tsx:9-11 | registrations under two different ids give the same state in either order |
| `IconType.LoadIconSet` | packages/base/src/helpers/getIconType.tsx:16-25 | the result is non-null exactly when the package is installed, and then it is that package's module and no warning is written; otherwise the result is null and exactly one warning is appended, which contains both the label and the package name |
| `IconType.GetIcon` | packages/base/src/helpers/getIconType.tsx:92-106 | the registry is never changed; a truthy custom entry is returned as is, with no load and no warning; otherwise the result comes from the table family's package, or from Material for an unknown id: the installed module, or null plus that family's warning |
| `IconType.GetIconWarnsOnlyOnFailure` | packages/base/src/helpers/getIconType.tsx:92-106 | a resolution only appends to the log; it appends nothing when it returns a module and exactly one line when it returns null |
| `IconType.FreshStartUsesTable` | packages/base/src/helpers/getIconType.tsx:94-105 | with nothing registered, an id in the table loads its own package and any other id loads Material; the module is returned with no warning when that package is installed, and otherwise null with exactly the one missing-package warning |
| `IconType.CustomShadowsBuiltin` | packages/base/src/helpers/getIconType.tsx:94-96 | a truthy module registered under a built-in id is what that id resolves to, whatever is installed |
| `IconType.FalsyIsUnregistered` | packages/base/src/helpers/getIconType.tsx:94 | an id registered with a falsy value resolves to the same module and warnings as an unregistered id |
| `IconType.KnownMissingHasNoFallback` | packages/base/src/helpers/getIconType.tsx:99-102 | an unregistered table id whose package is missing resolves to null, even when Material is installed |
| `IconType.MissingWarning` | packages/base/src/helpers/getIconType.tsx:21 | the warning starts with `<label> icon set is not available.` and names the package in double quotes |
| `IconType.UnknownResolvesAsMaterial` | packages/base/src/helpers/getIconType.tsx:104-105 | when `material` has no truthy custom entry, an id in neither the registry nor the table resolves exactly as `material` does, with the same module, the same warnings and the same state |
| `IconType.UnknownIgnoresCustomMaterial` | packages/base/src/helpers/getIconType.tsx:104-105 | with a module registered under `material`, `material` resolves to it, while an unknown, unregistered id still loads the Material package itself |
| `IconType.SameEntrySameResolution` | packages/base/src/helpers/getIconType.tsx:99-102 | two unregistered ids with equal table entries resolve to the same module, warnings and state |
| `IconType.AliasEntries` | packages/base/src/helpers/getIconType.tsx:51-84 | `fa`, `fa-5`, `fa-6` and `antdesign` have the same package and label as `font-awesome`, `font-awesome-5`, `font-awesome-6` and `ant-design` |
| `IconType.AliasesAgree` | packages/base/src/helpers/getIconType.tsx:51-84 | when none of the eight ids has a truthy custom entry, `fa`, `fa-5`, `fa-6` and `antdesign` resolve exactly as `font-awesome`, `font-awesome-5`, `font-awesome-6` and `ant-design` |
| `IconType.MaterialCommunityLoadsItsOwnPackage` | packages/base/src/helpers/getIconType.tsx:37-40 | with no truthy custom entry for `material-community` and its package installed, `material-community` returns that package's module and writes no warning, so there is no deprecation notice |
| `RenderNode.Remaining` | packages/base/src/helpers/renderNode.tsx:4 | the spread defaults are the defaults with only `key` removed, and their values are unchanged |
| `RenderNode.Render` | packages/base/src/helpers/renderNode.tsx:3-36 | nothing is rendered exactly for null/undefined, `false`, the empty string and a function returning nothing; elements and function results pass through unchanged; every other case builds `Component` with the defaults' `key`; `true` has no children, a string or a number (0 included) is the only child, and an object's props override the key-less defaults field by field |
| `RenderNode.KeyNeverSpread` | packages/base/src/helpers/renderNode.tsx:4-35 | no node built from the defaults carries `key` among its props unless the content object has its own `key` |
| `RenderNode.PassThroughIgnoresDefaults` | packages/base/src/helpers/renderNode.tsx:8-13 | for an element or a function the output is independent of the component and of the defaults |
| `RenderNode.ObjectOverridesDefaults` | packages/base/src/helpers/renderNode.tsx:35 | `{foo: 2}` over the defaults `{foo: 1, bar: 3}` renders with props `{foo: 2, bar: 3}` and no key |
| `RenderNode.ZeroIsNotEmpty` | packages/base/src/helpers/renderNode.tsx:18-34 | the number 0 is rendered while the empty string renders nothing |
| `MathUtils.Clamp` | packages/base/src/utils/math.ts:4-5 | the result lies in [0, 1]; values in [0, 1] come back unchanged, values below 0 give 0, values above 1 give 1, and a missing argument gives 0 |
| `MathUtils.ClampIdempotent` | packages/base/src/utils/math.ts:4-5 | clamping a clamped value changes nothing |
| `MathUtils.ClampMonotone` | packages/base/src/utils/math.ts:5 | `a <= b` implies `clamp(a) <= clamp(b)` |
| `JestImports.Collect` | add-jest-imports.js:72-100 | over a duplicate-free list, the collected names are entries from position `i` on, in strictly increasing list position, and such an entry is collected exactly when it passes the usage test |
| `JestImports.Dedup` | add-jest-imports.js:102 | the set-based dedup keeps exactly the same elements and leaves no duplicates |
| `JestImports.DedupOfDistinct` | add-jest-imports.js:102 | on a list without duplicates the dedup is the identity |
| `JestImports.DetectJestGlobals` | add-jest-imports.js:71-103 | a name is returned exactly when it is one of the nine globals and its token (`name(`, or `jest.`) occurs in the content; the names come in the fixed list's order with no duplicates |
| `JestImports.LastImportIndex` | add-jest-imports.js:126-132 | the result is -1 or an index holding an import line (trimmed, it starts with `import ` and has no `@jest/globals`), and no later line is an import line |
| `JestImports.InsertionPoint` | add-jest-imports.js:126-137 | with import lines present, the new line goes directly after the last of them; with none, it goes at index 1 (clamped to the length) |
| `JestImports.ImportStatement` | add-jest-imports.js:140 | the statement is `import { `, the globals joined by `, `, then ` } from '@jest/globals';`; it contains every given global and `@jest/globals`, and has no line break when the globals have none |
| `JestImports.InsertLine` | add-jest-imports.js:143 | the result is one line longer, holds the statement at the insertion index, and keeps every other line in its order |
| `JestImports.AddJestImport` | add-jest-imports.js:110-146 | content that already mentions `@jest/globals`, or that uses no global, is returned unchanged; any content that is changed afterwards mentions `@jest/globals` |
| `JestImports.AddJestImportInsertsOneLine` | add-jest-imports.js:124-146 | when the file is rewritten, splitting the new content into lines gives the old lines with the import statement inserted at the insertion point |
| `JestImports.AddJestImportIdempotent` | add-jest-imports.js:110-146 | a second run on the result changes nothing |
| `MetroResolver.RneuiPackages` | example/metro.config.js:64-68 | the map has the two prefixes `@rneui/base` and `@rneui/themed`, in that order, and each `@rneui/<name>` maps to `<root>/packages/<name>` |
| `MetroResolver.BasePath` | example/metro.config.js:27-30 | the base path lies under `<package>/src/`: it is followed by the subpath, or by `index` when the subpath is empty |
| `MetroResolver.EmptySubpathIsIndex` | example/metro.config.js:27-30 | an empty subpath is looked up as `<package>/src/index` |
| `MetroResolver.FileCandidates` | example/metro.config.js:33-35 | the direct candidates are `base + ext` for `.tsx, .ts, .native.tsx, .native.ts, .js, .jsx`, in that order |
| `MetroResolver.IndexCandidates` | example/metro.config.js:46-47 | the directory candidates are `base/index + ext` in the same extension order |
| `MetroResolver.FirstPresent` | example/metro.config.js:34-42 | the result is the earliest candidate that passes the test, and it is absent only when no candidate passes |
| `MetroResolver.ResolvePackageSource` | example/metro.config.js:26-59 | a result is always one of the candidates; the first direct candidate that is a file wins; the index candidates are tried only when no direct candidate is a file and the base is a directory, and then the first one that exists wins, file or not; otherwise the result is null |
| `MetroResolver.IndexBranchAcceptsDirectory` | example/metro.config.js:45-55 | when no direct candidate is a file, a directory named `index.tsx` under a base directory is returned as the source file |
| `MetroResolver.Subpath` | example/metro.config.js:75-78 | the subpath is a suffix of the module name, and what lies between the prefix and it is `""`, `/`, `dist/` or `/dist/` |
| `MetroResolver.StripSeparatorInverts` | example/metro.config.js:76-78 | stripping an optional `/` and an optional `dist/` placed before a rest that starts with neither gives the rest back |
| `MetroResolver.SubpathInverts` | example/metro.config.js:75-78 | a prefix, an optional `/`, an optional `dist/` and a rest that cannot be mistaken for either are stripped back to that rest |
| `MetroResolver.FirstPrefix` | example/metro.config.js:70-71 | the result is the first entry in map order whose prefix the name starts with, and it is absent exactly when no prefix matches |
| `MetroResolver.ResolveRequest` | example/metro.config.js:62-93 | a name with no matching prefix goes to the default resolver; otherwise only the first matching prefix is tried, and a miss there goes to the default resolver instead of the next prefix |
| `MetroResolver.BaseNamesUseBasePackage` | example/metro.config.js:64-72 | every name starting with `@rneui/base` matches the first map entry, whose path is `<root>/packages/base` |
| `MetroResolver.ThemedNamesUseThemedPackage` | example/metro.config.js:64-72 | every name starting with `@rneui/themed` skips the base entry and matches the themed one, whose path is `<root>/packages/themed` |
| `MetroResolver.PackageRootLooksUnderIndex` | example/metro.config.js:75-78 | `@rneui/base` followed by nothing, `/`, `dist/` or `/dist/` has an empty subpath and is looked up as `<root>/packages/base/src/index` |
| `MetroResolver.PlainPrefixMatch` | example/metro.config.js:70-78 | `@rneui/baseX` matches the `@rneui/base` prefix and is looked up with subpath `X` |
| `Release.IndexOf` | scripts/release/index.ts:111 | the result is -1 exactly when the value is absent; otherwise it is the first index holding the value |
| `Release.UpdateVersions` | scripts/release/index.ts:94-129 | the list is written only for patch, minor and major; for patch/minor, the first occurrence of the old version becomes the new one with length and all other entries unchanged, or the new version is prepended when the old one is absent; for major, the new version is prepended exactly when it is absent; an unreadable file counts as an empty list |
| `Release.UpdateListsNewVersion` | scripts/release/index.ts:110-128 | every written list contains the new version and has at most one entry more than before |
| `Release.MajorUpdateIdempotent` | scripts/release/index.ts:126-127 | a second major update with the same versions writes the same list |
| `Release.PatchRerunRepeatsVersion` | scripts/release/index.ts:110-113 | when the new version differs from the old and the old version is absent, a patch update run twice lists the new version twice |
| `Release.BumpManifest` | scripts/release/index.ts:55-63 | the version becomes the package's; only for `themed`, both dependency maps are created when missing and gain `@rneui/base` at the new version while their other entries are kept; every other field is unchanged |
| `Release.Bump` | scripts/release/index.ts:51-68 | an unreadable manifest means nothing is written; otherwise only that package's manifest changes, and only for `base` is the versions file updated, from the old and new versions' diff class |
| `Release.BumpPackages` | scripts/release/index.ts:218-224 | packages are bumped in order to their chosen versions while each chosen version is strictly greater; the first that is not stops the run at its index, and the disk is the result of bumping exactly the packages before it |

## Left out

- Loading is `require` with the module system's cache. Here an installed package always yields the same module, and caching is not modelled.
- The resolver's registry and table are plain JavaScript objects, so ids such as `constructor` or `toString` read inherited values. The model treats every id as an own key, so those ids behave like unknown ones here.
- RenderNode.Render: a function's return value is limited to a node or nothing. React's element construction and key handling are not modelled. Calling with `null` defaults, which throws in the original, is not modelled either.
- MathUtils.Clamp: works over `real`, so the `NaN` and `-0` cases that `|| 0` absorbs in floating point are not modelled.
- The file list, file reading and writing, console output and error catching of `add-jest-imports.js` are I/O and are not modelled. The model is the transformation of one file's content.
- `path.join` and `path.resolve` normalisation is not modelled: paths are concatenated with `/`. The Metro configuration's `watchFolders` and `nodeModulesPaths`, and what the default resolver answers, are outside the model.
- The release script's prompts are not modelled. This includes the docs confirmation, whose refusal exits the process. Also left out: changelog generation, `copyDir`, the renames of versioned docs and sidebars, `getVersion`, `questions`, and the `semver` calls. The diff class and the ordering are inputs.
- An exception thrown by `bump` itself is not modelled, for example one from `updateChangelog`. The loop only stops on a version that does not go up, or on a package with no chosen version.
- The React Native component files and their tests are rendering code and are not modelled. `AirbnbRating` and `Rating` only forward props.
