# Conan installer adapter of rosdep, modelled in Dafny

rosdep resolves the system dependencies of ROS packages and hands each one to
an installer for its package manager. The conan installer has two jobs:

- **detection** (`conan_detect`): given the requested package specifiers
  (`name/version`), say which of them an earlier `conan install` already
  provided. It answers from two files that earlier install left under
  `install/`: the lockfile `rosdep_conan.lock`, whose `requires` entries read
  `name/version#revision`, and the profile cache `conan_profiles.json`. If
  conan cannot be started, either file is missing, or the profile conan
  reports now differs from the cached one, nothing counts as installed;
- **command assembly** (`get_install_command`): fail when conan is missing,
  return no command when nothing is left to install, and otherwise append the
  current profile to the cache, run `conan config install` for the Ament
  generator, and return exactly one `conan install` command line.

The project has two modules:

- `Text` (text.dfy) models Python's `str.split` and `str.join` for a
  one-character separator. It proves both round trips: joining the pieces of a
  split restores the string, and splitting the join of a non-empty list of
  parts gives the parts back when no part contains the separator.
- `Conan` (conan.dfy) models the adapter itself. Every observation of the
  outside world is a field of `Env`:
  - whether conan can be spawned;
  - whether `conan_profile` exists in the working directory;
  - the output of `conan profile show`, or its failure;
  - the cached profile, or its absence;
  - the lockfile's `requires` list, or its absence;
  - whether `conan config install` succeeds.

  Profiles are values of a type parameter and are only compared with `==`.
  The changes `get_install_command` makes to the outside world are returned as
  a list of `Effect`s, in order. This is how "no write happens before the
  failure" and "no write happens when nothing is to be installed" become
  postconditions. Detection is a method with a loop, proved against the filter
  function `Kept`.

The `--require` tokens are modelled as the source computes them: each
`--require <pkg>` string is joined with spaces, and the result is split on
single spaces. For a non-empty list of packages, the model proves that this gives
`--require`, `pkg` for every package exactly when no package contains a space:
`RequireTokensInterleave` proves one direction and `SpaceBreaksInterleave` the
other. For any packages at all, it proves that re-joining the tokens gives the
joined `--require <pkg>` strings back.

Two facts about the source shape the model:
- the profile cache is opened in append mode
  (`src/rosdep2/platforms/conan.py:142`), so each install adds the current
  profile after what the file already holds;
- each package without a space gives two argument tokens, `--require` and the
  package (`src/rosdep2/platforms/conan.py:152-154`).

## Model

| member | source | states |
|---|---|---|
| `Text.Split` | src/rosdep2/platforms/conan.py:101 | `str.split`: there is at least one piece, and the first piece is the longest prefix of the string that does not contain the separator |
| `Text.Join` | src/rosdep2/platforms/conan.py:153 | `str.join`: the first part is a prefix of the result, and with two or more parts the separator follows it |
| `Text.SplitPiecesFree` | src/rosdep2/platforms/conan.py:153-154 | no piece of a split contains the separator |
| `Text.JoinSplit` | src/rosdep2/platforms/conan.py:153-154 | joining the pieces of a split with the separator gives back the original string, for every string |
| `Text.SplitJoin` | src/rosdep2/platforms/conan.py:153-154 | splitting the join of a non-empty list of separator-free parts gives back exactly those parts |
| `Conan.ProfileShowArgs` | src/rosdep2/platforms/conan.py:67-69 | `conan profile show --format json`, followed by `--profile conan_profile` iff the profile file exists |
| `Conan.CacheFilePaths` | src/rosdep2/platforms/conan.py:58-63 | the lockfile and the profile cache are the files `rosdep_conan.lock` and `conan_profiles.json` directly inside `install`; they are different paths |
| `Conan.StripRevision` | src/rosdep2/platforms/conan.py:101 | the name of a lockfile entry is its longest prefix without `#`; either it is the whole entry or a `#` follows it |
| `Conan.RevisionIgnored` | src/rosdep2/platforms/conan.py:101 | an entry `name#revision` stands for `name`, whatever the revision |
| `Conan.InstalledNames` | src/rosdep2/platforms/conan.py:101 | one name per lockfile entry; each name has no `#` and is a prefix of its entry; a name is installed iff some entry cut at its first `#` gives it |
| `Conan.Kept` | src/rosdep2/platforms/conan.py:103-107 | the list of installed requests is never longer than the request |
| `Conan.Detection` | src/rosdep2/platforms/conan.py:74-107 | detection fails iff conan is present, both files exist and the profile query fails; with an untrusted cache it reports nothing; it never reports more than, or anything outside, the request |
| `Conan.ConanDetect` | src/rosdep2/platforms/conan.py:74-107 | returns `[]` when conan is missing, when the profile cache is missing, or when the lockfile is missing; only after these three checks can the profile query fail, and its failure propagates; returns `[]` when the current profile differs from the cached one; otherwise keeps the requests that the lockfile names. The loop invariant says the list built so far is `Kept` of the requests seen so far |
| `Conan.KeptCount` | src/rosdep2/platforms/conan.py:103-107 | every occurrence of a locked name is kept, so duplicates survive, and no other package is kept |
| `Conan.KeptMembership` | src/rosdep2/platforms/conan.py:104-106 | a package is in the result iff it was requested and is among the installed names |
| `Conan.KeptSubsequence` | src/rosdep2/platforms/conan.py:103-107 | the result is the subsequence of the request at exactly the positions whose element is installed, in increasing order |
| `Conan.KeptIdempotent` | src/rosdep2/platforms/conan.py:103-107 | filtering the result again changes nothing |
| `Conan.DetectionMembership` | src/rosdep2/platforms/conan.py:95-106 | detection reports `x` iff the cache is trusted (conan present, both files present, profiles equal), `x` was requested, and some lockfile entry cut at its first `#` equals `x` |
| `Conan.DetectionSubsequence` | src/rosdep2/platforms/conan.py:103-107 | detection's result is a subsequence of the request (order kept) and is no longer than it |
| `Conan.DetectionIdempotent` | src/rosdep2/platforms/conan.py:103-107 | detecting again on the result, in the same environment, returns the result unchanged |
| `Conan.DetectionExampleInstalled` | test/test_rosdep_conan.py:20-23 | in a trusted environment (conan present, both files present, current profile equal to the cached one), with a lockfile `[first#rev1, second#rev2]`, requesting `[first, second]` reports both, in that order |
| `Conan.DetectionExampleMissing` | test/test_rosdep_conan.py:33-36 | with the same lockfile, two requests that match neither entry give `[]` |
| `Conan.Missing` | src/rosdep2/platforms/conan.py:136 | the packages still to install are exactly the resolved ones that were not detected, and they are no more than were resolved |
| `Conan.MissingCount` | src/rosdep2/platforms/conan.py:136 | every occurrence of an undetected package stays pending, and every detected package is dropped |
| `Conan.DetectedAndPendingPartition` | src/rosdep2/platforms/conan.py:136 | detected plus pending is the request as a multiset: each requested occurrence lands in exactly one of the two |
| `Conan.PackagesToInstall` | src/rosdep2/platforms/conan.py:136 | with reinstall, everything resolved; it fails iff reinstall is off, the request is non-empty and detection fails, with detection's error; the pending packages are never more than, nor outside, the resolved ones |
| `Conan.PendingIsUnlocked` | src/rosdep2/platforms/conan.py:136 | without reinstall, a package is pending iff it was requested and the trusted lockfile does not name it; with an untrusted cache, everything requested is pending |
| `Conan.ConfigInstallArgs` | src/rosdep2/platforms/conan.py:125-129 | `conan config install`, then `-vquiet` iff quiet, then the extensions URL, `--source-folder`, `extensions/generators`; 6 or 7 tokens |
| `Conan.AmentGeneratorCommand` | src/rosdep2/platforms/conan.py:124-129 | the list built step by step is the config-install argument list |
| `Conan.RequireArgs` | src/rosdep2/platforms/conan.py:152 | one string per package: `--require ` followed by that package |
| `Conan.RequireTokens` | src/rosdep2/platforms/conan.py:152-154 | re-joining the tokens with spaces gives the space-joined `--require <pkg>` strings, for any packages |
| `Conan.InstallTail` | src/rosdep2/platforms/conan.py:155 | nine fixed tokens; the output folder is `install`, and `--lockfile-out` names the same path that detection reads (`src/rosdep2/platforms/conan.py:58-59`) |
| `Conan.Interleaved` | src/rosdep2/platforms/conan.py:152-154 | the reference layout of the `--require` section has two tokens per package |
| `Conan.InterleavedAt` | src/rosdep2/platforms/conan.py:152-154 | in the reference layout, position `2i` holds `--require` and position `2i+1` holds package `i` |
| `Conan.JoinRequireArgs` | src/rosdep2/platforms/conan.py:152-153 | the joined `--require <pkg>` strings equal the join of the interleaved tokens |
| `Conan.RequireTokensInterleave` | src/rosdep2/platforms/conan.py:152-154 | join-then-split yields exactly `--require`, `pkg` per package, in order, when no package contains a space |
| `Conan.SpaceBreaksInterleave` | src/rosdep2/platforms/conan.py:152-154 | once any package contains a space, join-then-split does not yield the `--require`, `pkg` pairs |
| `Conan.SpacedPackageSplits` | src/rosdep2/platforms/conan.py:152-154 | a package `a b` with one space falls apart into three tokens: `--require`, `a`, `b` |
| `Conan.RequireTokensHead` | src/rosdep2/platforms/conan.py:152-154 | the `--require` section starts with `--require` whenever there is a package |
| `Conan.InstallArgs` | src/rosdep2/platforms/conan.py:147-155 | the install command starts with `conan install`, has `-vquiet` third iff quiet, and ends with the fixed nine-token tail |
| `Conan.InstallArgsFrame` | src/rosdep2/platforms/conan.py:147-155 | for any packages: `conan install` first, `-vquiet` iff quiet, `--profile` iff the profile file exists, the fixed tail last, and the middle re-joins to the `--require <pkg>` strings |
| `Conan.InstallArgsLayout` | src/rosdep2/platforms/conan.py:147-155 | with no space in any package, the exact layout: prefix, optional flags, `--require p` per package in order, then the tail; the length is the sum of the parts |
| `Conan.GetInstallCommand` | src/rosdep2/platforms/conan.py:132-156 | fails with `InstallFailed("conan", "conan is not installed")` before any effect when conan is missing. A detection failure propagates with no effect. When nothing is pending it returns `[]` with no effect. Otherwise it prepares and appends to the profile cache, then runs the config install, and returns exactly one command: the install arguments for the pending packages, which are all of `resolved` under reinstall. A failing profile query or config install stops it after the effects made so far |

## Left out

- Running processes. `is_conan_installed`, `get_profiles_data` and the config install are not run. Their outcomes are `Env` fields: `conanInstalled`, `profileQuery` and `configInstallOk`. `ProfileShowArgs` models only the command line of the profile query.
- `get_version_strings` (`src/rosdep2/platforms/conan.py:118-122`): it only runs `conan version` and formats its JSON output, so it is process I/O with no logic to model.
- Files and JSON. Existence checks and JSON loads are `Env` fields. Cache or lockfile content that is not valid JSON, or that has no `requires` key, would raise in the source; the model has no such state.
- The profile cache's content over time. The cache is opened in append mode, so a second install appends a second JSON document after the first. Reading such a file with `json.load` (`src/rosdep2/platforms/conan.py:91-92`) raises an "Extra data" error, so detection after a second install would fail. `profilesCache` is an `Option` of one profile and cannot express that file; the model returns the append as an effect and does not track the file's text.
- `Env` is one snapshot. One `get_install_command` call runs two external commands twice each: it probes conan directly and again inside detection, and it queries the profile inside detection (`src/rosdep2/platforms/conan.py:89`) and again before caching it (`src/rosdep2/platforms/conan.py:143`). The model assumes both runs of each give the same answer, so `profileQuery` is one field.
- `DetectionExampleInstalled`: the source test patches only the conan probe and the lockfile path. It therefore also depends on `install/conan_profiles.json` in the working directory and on a live profile query. The lemma states the case where that state is trusted.
- `get_packages_to_install` and `PackageManagerInstaller` belong to `rosdep2/installers.py`, which is not part of this model. `PackagesToInstall` states the assumed behaviour: with `reinstall`, everything resolved; with an empty request, nothing; otherwise the resolved packages that detection does not report.
- `register_installers` and the internals of `InstallFailed`. These belong to the rosdep framework; `InstallFailed` is a constructor carrying the installer key and the reason.
- The `interactive` parameter of `get_install_command`: the source accepts it and never uses it.
- `PathJoin` is `os.path.join` with the POSIX separator `/`.
