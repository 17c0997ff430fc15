/**
 * The conan installer adapter of rosdep: deciding which requested packages
 * a previous `conan install` already provided, and assembling the
 * `conan install` command line for the rest.
 *
 * Everything the adapter learns from the outside world (whether the `conan`
 * executable can be spawned, which files exist, what `conan profile show`
 * prints, what the lockfile lists, whether `conan config install` succeeds)
 * is an input, gathered in `Env`. What it does to the outside world (creating
 * and appending to the profiles cache, running `conan config install`) is an
 * output, a list of `Effect`s in the order they happen.
 */
module Conan {
  import opened Text

  datatype Option<T> = None | Some(value: T)

  datatype Result<T, E> = Success(value: T) | Failure(error: E)

  /** The installer's key in rosdep. */
  const Installer: string := "conan"
  /** File name of the cached profile, under the output folder. */
  const ProfilesCacheName: string := "conan_profiles.json"
  /** File name of the lockfile that `conan install` writes, under the output folder. */
  const LockfileName: string := "rosdep_conan.lock"
  /** A profile file in the working directory that, when present, is passed as `--profile`. */
  const ProfileName: string := "conan_profile"
  /** The folder `conan install` writes into; both cache files live there. */
  const OutputFolder: string := "install"
  /** Where `conan config install` fetches the Ament generator from. */
  const ExtensionsUrl: string := "https://github.com/conan-io/conan-extensions.git"

  /** `os.path.join` on a POSIX system, for a relative second component. */
  function PathJoin(dir: string, name: string): string
  {
    dir + "/" + name
  }

  /** `install/rosdep_conan.lock`, where the install writes its lockfile. */
  function LockfilePath(): string
  {
    PathJoin(OutputFolder, LockfileName)
  }

  /** `install/conan_profiles.json`, where the install caches its profile. */
  function ProfilesPath(): string
  {
    PathJoin(OutputFolder, ProfilesCacheName)
  }

  /**
   * Both cache files lie directly inside the output folder, under their own
   * names, so they are two different files.
   */
  lemma CacheFilePaths()
    ensures Split(LockfilePath(), '/') == [OutputFolder, LockfileName]
    ensures Split(ProfilesPath(), '/') == [OutputFolder, ProfilesCacheName]
    ensures LockfilePath() != ProfilesPath()
  {
    SplitJoin([OutputFolder, LockfileName], '/');
    SplitJoin([OutputFolder, ProfilesCacheName], '/');
  }

  /**
   * What the adapter observes. `J` is the type of parsed JSON profile
   * descriptions; they are only ever compared with `==`.
   */
  datatype Env<J> = Env(
    conanInstalled: bool,              // the `conan` executable can be spawned
    hasProfileFile: bool,              // `conan_profile` exists in the working directory
    profileQuery: Option<J>,           // output of `conan profile show`; None when it fails
    profilesCache: Option<J>,          // install/conan_profiles.json; None when absent
    lockfile: Option<seq<string>>,     // the `requires` list of install/rosdep_conan.lock; None when absent
    configInstallOk: bool              // `conan config install ...` exits successfully
  )

  datatype Failure =
    | InstallFailed(installer: string, reason: string)   // the installer cannot be used at all
    | ToolFailed(argv: seq<string>)                      // a conan subprocess failed; the error propagates

  /** Changes to the outside world, in the order the adapter makes them. */
  datatype Effect<J> =
    | PrepareProfilesCache(path: string)        // create its directory and open the file for appending
    | AppendProfile(path: string, profile: J)   // append the JSON dump of a profile
    | Run(argv: seq<string>)                    // run a conan subcommand

  // ---------------------------------------------------------------------------
  // Detection
  // ---------------------------------------------------------------------------

  /** The `conan profile show` command line; `--profile` only when the profile file exists. */
  function ProfileShowArgs(hasProfileFile: bool): (argv: seq<string>)
    ensures |argv| == if hasProfileFile then 7 else 5
    ensures argv[..5] == ["conan", "profile", "show", "--format", "json"]
    ensures hasProfileFile ==> argv[5..] == ["--profile", ProfileName]
  {
    ["conan", "profile", "show", "--format", "json"]
    + (if hasProfileFile then ["--profile", ProfileName] else [])
  }

  /**
   * `entry.split("#")[0]`: the package specifier of a lockfile entry, with the
   * revision suffix cut off at the first `#`.
   */
  function StripRevision(entry: string): (name: string)
    ensures '#' !in name
    ensures name <= entry
    ensures |name| < |entry| ==> entry[|name|] == '#'
  {
    Split(entry, '#')[0]
  }

  /** The specifiers the lockfile says are installed, one per `requires` entry. */
  function InstalledNames(entries: seq<string>): (names: seq<string>)
    ensures |names| == |entries|
    ensures forall k :: 0 <= k < |names| ==> '#' !in names[k] && names[k] <= entries[k]
    ensures forall x :: x in names <==> exists i :: 0 <= i < |entries| && StripRevision(entries[i]) == x
  {
    seq(|entries|, i requires 0 <= i < |entries| => StripRevision(entries[i]))
  }

  /** The elements of `pkgs` that occur in `names`, in order and with repetitions. */
  function Kept(pkgs: seq<string>, names: seq<string>): (r: seq<string>)
    ensures |r| <= |pkgs|
  {
    if pkgs == [] then []
    else
      var prefix := Kept(pkgs[..|pkgs| - 1], names);
      if pkgs[|pkgs| - 1] in names then prefix + [pkgs[|pkgs| - 1]] else prefix
  }

  /**
   * The cached install state may be trusted: conan is there, both cache files
   * exist, and the current profile is exactly the cached one.
   */
  predicate CacheTrusted<J(==)>(env: Env<J>)
  {
    && env.conanInstalled
    && env.profilesCache.Some?
    && env.lockfile.Some?
    && env.profileQuery == Some(env.profilesCache.value)
  }

  /** What `conan_detect(pkgs)` returns, or the error it raises. */
  function Detection<J(==)>(env: Env<J>, pkgs: seq<string>): (r: Result<seq<string>, Failure>)
    ensures r.Failure? <==>
      env.conanInstalled && env.profilesCache.Some? && env.lockfile.Some? && env.profileQuery.None?
    ensures r.Success? && !CacheTrusted(env) ==> r.value == []
    ensures r.Success? ==> |r.value| <= |pkgs| && forall x :: x in r.value ==> x in pkgs
  {
    if !env.conanInstalled || env.profilesCache.None? || env.lockfile.None? then Success([])
    else if env.profileQuery.None? then Failure(ToolFailed(ProfileShowArgs(env.hasProfileFile)))
    else if env.profileQuery.value != env.profilesCache.value then Success([])
    else
      var names := InstalledNames(env.lockfile.value);
      assert forall x :: x in Kept(pkgs, names) ==> x in pkgs by {
        forall x | x in Kept(pkgs, names) ensures x in pkgs {
          KeptMembership(pkgs, names, x);
        }
      }
      Success(Kept(pkgs, names))
  }

  /**
   * `conan_detect`: the requested packages that the lockfile of a previous
   * install lists. The three existence checks come first and answer "nothing
   * installed"; only then is conan asked for its profile, whose failure
   * propagates; a profile different from the cached one also answers
   * "nothing installed".
   */
  method ConanDetect<J(==)>(env: Env<J>, pkgs: seq<string>) returns (r: Result<seq<string>, Failure>)
    ensures r == Detection(env, pkgs)
    ensures !env.conanInstalled ==> r == Success([])
    ensures env.profilesCache.None? ==> r == Success([])
    ensures env.lockfile.None? ==> r == Success([])
    ensures r.Failure? <==>
      env.conanInstalled && env.profilesCache.Some? && env.lockfile.Some? && env.profileQuery.None?
    ensures r.Failure? ==> r.error == ToolFailed(ProfileShowArgs(env.hasProfileFile))
    ensures env.profileQuery.Some? && env.profilesCache.Some? && env.profileQuery.value != env.profilesCache.value
      ==> r == Success([])
    ensures CacheTrusted(env) ==> r == Success(Kept(pkgs, InstalledNames(env.lockfile.value)))
  {
    if !env.conanInstalled {
      return Success([]);
    }
    if env.profilesCache.None? {
      return Success([]);
    }
    if env.lockfile.None? {
      return Success([]);
    }
    if env.profileQuery.None? {
      return Failure(ToolFailed(ProfileShowArgs(env.hasProfileFile)));
    }
    var currentProfile := env.profileQuery.value;
    var previousProfile := env.profilesCache.value;
    if currentProfile != previousProfile {
      return Success([]);
    }
    var installedPkgs := InstalledNames(env.lockfile.value);
    var retList: seq<string> := [];
    for i := 0 to |pkgs|
      invariant retList == Kept(pkgs[..i], installedPkgs)
    {
      assert pkgs[..i + 1][..i] == pkgs[..i];
      if pkgs[i] in installedPkgs {
        retList := retList + [pkgs[i]];
      }
    }
    assert pkgs[..|pkgs|] == pkgs;
    return Success(retList);
  }

  // ---------------------------------------------------------------------------
  // Properties of detection
  // ---------------------------------------------------------------------------

  /** A lockfile entry `name#revision` stands for `name`, whatever the revision. */
  lemma RevisionIgnored(name: string, revision: string)
    requires '#' !in name
    ensures StripRevision(name + "#" + revision) == name
  {
    SplitAfterFree(name, "#" + revision, '#');
    assert name + "#" + revision == name + ("#" + revision);
  }

  /** `Kept` keeps every occurrence of an element of `names` and none of the others. */
  lemma {:induction false} KeptCount(pkgs: seq<string>, names: seq<string>, x: string)
    ensures multiset(Kept(pkgs, names))[x] == if x in names then multiset(pkgs)[x] else 0
  {
    if pkgs != [] {
      var init := pkgs[..|pkgs| - 1];
      KeptCount(init, names, x);
      assert pkgs == init + [pkgs[|pkgs| - 1]];
    }
  }

  lemma {:induction false} KeptMembership(pkgs: seq<string>, names: seq<string>, x: string)
    ensures x in Kept(pkgs, names) <==> x in pkgs && x in names
  {
    KeptCount(pkgs, names, x);
    assert x in Kept(pkgs, names) <==> multiset(Kept(pkgs, names))[x] > 0;
    assert x in pkgs <==> multiset(pkgs)[x] > 0;
  }

  /**
   * `Kept(pkgs, names)` is the subsequence of `pkgs` at the positions whose
   * element is in `names`: `idx` lists those positions in increasing order.
   */
  lemma {:induction false} KeptSubsequence(pkgs: seq<string>, names: seq<string>) returns (idx: seq<nat>)
    ensures |idx| == |Kept(pkgs, names)|
    ensures forall k :: 0 <= k < |idx| ==> idx[k] < |pkgs| && pkgs[idx[k]] == Kept(pkgs, names)[k]
    ensures forall k, l :: 0 <= k < l < |idx| ==> idx[k] < idx[l]
    ensures forall j :: 0 <= j < |pkgs| ==> (j in idx <==> pkgs[j] in names)
  {
    if pkgs == [] {
      idx := [];
    } else {
      var n := |pkgs| - 1;
      var init := pkgs[..n];
      var prev := KeptSubsequence(init, names);
      if pkgs[n] in names {
        idx := prev + [n];
      } else {
        idx := prev;
      }
      forall j | 0 <= j < |pkgs|
        ensures j in idx <==> pkgs[j] in names
      {
        if j < n {
          assert init[j] == pkgs[j];
          assert n !in prev;
        }
      }
    }
  }

  /** Filtering what a filter kept changes nothing. */
  lemma {:induction false} KeptIdempotent(pkgs: seq<string>, names: seq<string>)
    ensures Kept(Kept(pkgs, names), names) == Kept(pkgs, names)
  {
    if pkgs != [] {
      var init := pkgs[..|pkgs| - 1];
      var last := pkgs[|pkgs| - 1];
      KeptIdempotent(init, names);
      var prefix := Kept(init, names);
      if last in names {
        assert (prefix + [last])[..|prefix|] == prefix;
      }
    }
  }

  /**
   * Detection reports `x` iff `x` was requested, the cached state is trusted,
   * and some lockfile entry, cut at its first `#`, is exactly `x`.
   */
  lemma DetectionMembership<J>(env: Env<J>, pkgs: seq<string>, x: string)
    requires Detection(env, pkgs).Success?
    ensures x in Detection(env, pkgs).value <==>
      CacheTrusted(env) && x in pkgs &&
      exists i :: 0 <= i < |env.lockfile.value| && StripRevision(env.lockfile.value[i]) == x
  {
    if CacheTrusted(env) {
      var entries := env.lockfile.value;
      var names := InstalledNames(entries);
      KeptMembership(pkgs, names, x);
      if x in names {
        var i :| 0 <= i < |names| && names[i] == x;
        assert StripRevision(entries[i]) == x;
      }
      if exists i :: 0 <= i < |entries| && StripRevision(entries[i]) == x {
        var i :| 0 <= i < |entries| && StripRevision(entries[i]) == x;
        assert names[i] == x;
      }
    }
  }

  /** Detection returns a subsequence of the request: order and repetitions are kept. */
  lemma DetectionSubsequence<J>(env: Env<J>, pkgs: seq<string>) returns (idx: seq<nat>)
    requires Detection(env, pkgs).Success?
    ensures |idx| == |Detection(env, pkgs).value| <= |pkgs|
    ensures forall k :: 0 <= k < |idx| ==> idx[k] < |pkgs| && pkgs[idx[k]] == Detection(env, pkgs).value[k]
    ensures forall k, l :: 0 <= k < l < |idx| ==> idx[k] < idx[l]
  {
    if CacheTrusted(env) {
      idx := KeptSubsequence(pkgs, InstalledNames(env.lockfile.value));
    } else {
      idx := [];
    }
  }

  /** Asking again about what detection reported, in the same state, reports the same. */
  lemma DetectionIdempotent<J>(env: Env<J>, pkgs: seq<string>)
    requires Detection(env, pkgs).Success?
    ensures Detection(env, Detection(env, pkgs).value) == Detection(env, pkgs)
  {
    if CacheTrusted(env) {
      KeptIdempotent(pkgs, InstalledNames(env.lockfile.value));
    }
  }

  /**
   * A trusted environment whose lockfile lists `first#rev1` and `second#rev2`,
   * the shape of the lockfile in the repository's detection tests.
   */
  function TwoEntryEnv(first: string, rev1: string, second: string, rev2: string): (env: Env<int>)
    ensures CacheTrusted(env)
  {
    Env(true, false, Some(0), Some(0), Some([first + "#" + rev1, second + "#" + rev2]), true)
  }

  lemma TwoEntryNames(first: string, rev1: string, second: string, rev2: string)
    requires '#' !in first && '#' !in second
    ensures InstalledNames(TwoEntryEnv(first, rev1, second, rev2).lockfile.value) == [first, second]
  {
    RevisionIgnored(first, rev1);
    RevisionIgnored(second, rev2);
  }

  /** Requesting exactly the two locked packages reports both, in request order. */
  lemma DetectionExampleInstalled(first: string, rev1: string, second: string, rev2: string)
    requires '#' !in first && '#' !in second
    ensures Detection(TwoEntryEnv(first, rev1, second, rev2), [first, second]) == Success([first, second])
  {
    TwoEntryNames(first, rev1, second, rev2);
    var names := [first, second];
    var pkgs := [first, second];
    assert pkgs[..1] == [first] && pkgs[..1][..0] == [];
    assert Kept([first], names) == [first];
    assert Kept(pkgs, names) == [first, second];
  }

  /** Requesting packages the lockfile does not list reports none of them. */
  lemma DetectionExampleMissing(first: string, rev1: string, second: string, rev2: string, a: string, b: string)
    requires '#' !in first && '#' !in second
    requires a != first && a != second && b != first && b != second
    ensures Detection(TwoEntryEnv(first, rev1, second, rev2), [a, b]) == Success([])
  {
    TwoEntryNames(first, rev1, second, rev2);
    var names := [first, second];
    var pkgs := [a, b];
    assert pkgs[..1] == [a] && pkgs[..1][..0] == [];
    assert Kept([a], names) == [];
    assert Kept(pkgs, names) == [];
  }

  // ---------------------------------------------------------------------------
  // Packages still to install
  // ---------------------------------------------------------------------------

  /** `[x for x in resolved if x not in detected]`. */
  function Missing(resolved: seq<string>, detected: seq<string>): (r: seq<string>)
    ensures |r| <= |resolved|
    ensures forall x :: x in r <==> x in resolved && x !in detected
  {
    if resolved == [] then []
    else
      var prefix := Missing(resolved[..|resolved| - 1], detected);
      var last := resolved[|resolved| - 1];
      assert forall x :: x in resolved <==> x in resolved[..|resolved| - 1] || x == last;
      if last in detected then prefix else prefix + [last]
  }

  lemma {:induction false} MissingCount(resolved: seq<string>, detected: seq<string>, x: string)
    ensures multiset(Missing(resolved, detected))[x] == if x in detected then 0 else multiset(resolved)[x]
  {
    if resolved != [] {
      var init := resolved[..|resolved| - 1];
      MissingCount(init, detected, x);
      assert resolved == init + [resolved[|resolved| - 1]];
    }
  }

  /**
   * What detection reports and what is left to install split the request:
   * every requested occurrence is in exactly one of the two.
   */
  lemma DetectedAndPendingPartition(pkgs: seq<string>, names: seq<string>)
    ensures multiset(Kept(pkgs, names)) + multiset(Missing(pkgs, Kept(pkgs, names))) == multiset(pkgs)
  {
    var kept := Kept(pkgs, names);
    forall x
      ensures (multiset(kept) + multiset(Missing(pkgs, kept)))[x] == multiset(pkgs)[x]
    {
      KeptCount(pkgs, names, x);
      MissingCount(pkgs, kept, x);
      KeptMembership(pkgs, names, x);
      assert x in pkgs <==> multiset(pkgs)[x] > 0;
    }
  }

  /**
   * `get_packages_to_install` of rosdep's package-manager base class, which is
   * not part of this model: with `reinstall` everything resolved, otherwise the
   * resolved packages that detection does not report (detection is skipped for
   * an empty request).
   */
  function PackagesToInstall<J(==)>(env: Env<J>, resolved: seq<string>, reinstall: bool): (r: Result<seq<string>, Failure>)
    ensures reinstall ==> r == Success(resolved)
    ensures r.Failure? <==> !reinstall && resolved != [] && Detection(env, resolved).Failure?
    ensures r.Failure? ==> r.error == Detection(env, resolved).error
    ensures r.Success? ==> |r.value| <= |resolved| && forall x :: x in r.value ==> x in resolved
  {
    if reinstall then Success(resolved)
    else if resolved == [] then Success([])
    else
      match Detection(env, resolved)
      case Failure(e) => Failure(e)
      case Success(detected) => Success(Missing(resolved, detected))
  }

  /**
   * Without `reinstall`, and with a trusted cache, the packages left to install
   * are exactly the requested ones that no lockfile entry names; when the cache
   * is not trusted, that is everything requested.
   */
  lemma PendingIsUnlocked<J>(env: Env<J>, resolved: seq<string>, x: string)
    requires PackagesToInstall(env, resolved, false).Success?
    ensures x in PackagesToInstall(env, resolved, false).value <==>
      x in resolved && !(CacheTrusted(env) && x in InstalledNames(env.lockfile.value))
  {
    if resolved != [] && CacheTrusted(env) {
      KeptMembership(resolved, InstalledNames(env.lockfile.value), x);
    }
  }

  // ---------------------------------------------------------------------------
  // Command assembly
  // ---------------------------------------------------------------------------

  function QuietArgs(quiet: bool): seq<string>
  {
    if quiet then ["-vquiet"] else []
  }

  /** `conan config install` of the Ament generator extension. */
  function ConfigInstallArgs(quiet: bool): (argv: seq<string>)
    ensures |argv| == if quiet then 7 else 6
    ensures argv[..3] == ["conan", "config", "install"]
    ensures ("-vquiet" in argv) == quiet
    ensures argv[|argv| - 3..] == [ExtensionsUrl, "--source-folder", "extensions/generators"]
  {
    ["conan", "config", "install"] + QuietArgs(quiet)
    + [ExtensionsUrl, "--source-folder", "extensions/generators"]
  }

  /** The argument list `_install_ament_generator` builds before running it. */
  method AmentGeneratorCommand(quiet: bool) returns (argv: seq<string>)
    ensures argv == ConfigInstallArgs(quiet)
  {
    argv := ["conan", "config", "install"];
    if quiet {
      argv := argv + ["-vquiet"];
    }
    argv := argv + [ExtensionsUrl, "--source-folder", "extensions/generators"];
  }

  /** `f"--require {package}"` for each package. */
  function RequireArgs(packages: seq<string>): (args: seq<string>)
    ensures |args| == |packages|
    ensures forall i :: 0 <= i < |args| ==>
      |args[i]| >= 10 && args[i][..10] == "--require " && args[i][10..] == packages[i]
  {
    seq(|packages|, i requires 0 <= i < |packages| => "--require " + packages[i])
  }

  /** `" ".join(RequireArgs(packages)).split(" ")`, as the source tokenises them. */
  function RequireTokens(packages: seq<string>): (tokens: seq<string>)
    ensures |tokens| >= 1
    ensures Join(tokens, ' ') == Join(RequireArgs(packages), ' ')
  {
    JoinSplit(Join(RequireArgs(packages), ' '), ' ');
    Split(Join(RequireArgs(packages), ' '), ' ')
  }

  /** The options after the `--require` pairs. */
  function InstallTail(): (tail: seq<string>)
    ensures |tail| == 9
    ensures tail[6] == OutputFolder
    ensures tail[8] == LockfilePath()
  {
    ["--update", "--generator", "Ament", "--build", "missing",
     "--output-folder", "install", "--lockfile-out", "install/" + LockfileName]
  }

  function ProfileArgs(hasProfileFile: bool): seq<string>
  {
    if hasProfileFile then ["--profile", ProfileName] else []
  }

  /** The `conan install` argument list for `packages`. */
  function InstallArgs(quiet: bool, hasProfileFile: bool, packages: seq<string>): (cmd: seq<string>)
    ensures |cmd| >= 10
    ensures cmd[..2] == ["conan", "install"]
    ensures cmd[2] == "-vquiet" <==> quiet
    ensures cmd[|cmd| - 9..] == InstallTail()
  {
    RequireTokensHead(packages);
    ["conan", "install"] + QuietArgs(quiet) + ProfileArgs(hasProfileFile)
    + RequireTokens(packages) + InstallTail()
  }

  /** `--require p` as two tokens for every package, in order. */
  function Interleaved(packages: seq<string>): (tokens: seq<string>)
    ensures |tokens| == 2 * |packages|
  {
    if packages == [] then []
    else ["--require", packages[0]] + Interleaved(packages[1..])
  }

  lemma {:induction false} InterleavedAt(packages: seq<string>, i: nat)
    requires i < |packages|
    ensures Interleaved(packages)[2 * i] == "--require"
    ensures Interleaved(packages)[2 * i + 1] == packages[i]
  {
    if i > 0 {
      InterleavedAt(packages[1..], i - 1);
      var rest := Interleaved(packages[1..]);
      assert Interleaved(packages) == ["--require", packages[0]] + rest;
      assert Interleaved(packages)[2 * i] == rest[2 * (i - 1)];
      assert Interleaved(packages)[2 * i + 1] == rest[2 * (i - 1) + 1];
    }
  }

  lemma {:induction false} InterleavedSpaceFree(packages: seq<string>)
    requires forall i :: 0 <= i < |packages| ==> ' ' !in packages[i]
    ensures forall k :: 0 <= k < |Interleaved(packages)| ==> ' ' !in Interleaved(packages)[k]
  {
    if packages != [] {
      InterleavedSpaceFree(packages[1..]);
      var rest := Interleaved(packages[1..]);
      assert Interleaved(packages) == ["--require", packages[0]] + rest;
    }
  }

  lemma {:induction false} JoinRequireArgs(packages: seq<string>)
    ensures Join(RequireArgs(packages), ' ') == Join(Interleaved(packages), ' ')
    decreases |packages|
  {
    if packages == [] {
      assert RequireArgs(packages) == [] && Interleaved(packages) == [];
      return;
    }
    var p := packages[0];
    assert "--require " + p == "--require" + [' '] + p;
    if |packages| == 1 {
      assert RequireArgs(packages) == ["--require " + p];
      assert Interleaved(packages) == ["--require", p];
    } else {
      var rest := packages[1..];
      JoinRequireArgs(rest);
      assert RequireArgs(packages) == ["--require " + p] + RequireArgs(rest);
      assert RequireArgs(packages)[1..] == RequireArgs(rest);
      var il := Interleaved(rest);
      assert Interleaved(packages) == ["--require", p] + il;
      assert (["--require", p] + il)[1..] == [p] + il;
      assert ([p] + il)[1..] == il;
      assert Join([p] + il, ' ') == p + [' '] + Join(il, ' ');
    }
  }

  /**
   * The join-then-split of the source yields `--require`, `p` for each package
   * when no package contains a space; `SpaceBreaksInterleave` is the converse.
   */
  lemma RequireTokensInterleave(packages: seq<string>)
    requires packages != []
    requires forall i :: 0 <= i < |packages| ==> ' ' !in packages[i]
    ensures RequireTokens(packages) == Interleaved(packages)
  {
    JoinRequireArgs(packages);
    InterleavedSpaceFree(packages);
    SplitJoin(Interleaved(packages), ' ');
  }

  /**
   * Conversely, once any package contains a space the tokens are not the
   * `--require`, `pkg` pairs: no token of a split contains the separator.
   */
  lemma SpaceBreaksInterleave(packages: seq<string>, i: nat)
    requires i < |packages| && ' ' in packages[i]
    ensures RequireTokens(packages) != Interleaved(packages)
  {
    SplitPiecesFree(Join(RequireArgs(packages), ' '), ' ');
    InterleavedAt(packages, i);
  }

  /** A package `a b` with a space in it falls apart into the tokens `a` and `b`. */
  lemma SpacedPackageSplits(a: string, b: string)
    requires ' ' !in a && ' ' !in b
    ensures RequireTokens([a + " " + b]) == ["--require", a, b]
  {
    var tokens := ["--require", a, b];
    SplitJoin(tokens, ' ');
    assert tokens[1..] == [a, b] && tokens[1..][1..] == [b];
    assert Join([b], ' ') == b;
    assert Join([a, b], ' ') == a + [' '] + b;
    assert Join(tokens, ' ') == "--require" + [' '] + Join([a, b], ' ');
    var args := RequireArgs([a + " " + b]);
    assert |args| == 1 && args[0] == "--require " + (a + " " + b);
    assert args[0] == Join(tokens, ' ');
  }

  /**
   * The exact layout of the install command when no package contains a space:
   * the base subcommand, `-vquiet` iff quiet, `--profile conan_profile` iff the
   * profile file exists, `--require p` per package in order, then the fixed tail.
   */
  lemma InstallArgsLayout(quiet: bool, hasProfileFile: bool, packages: seq<string>)
    requires packages != []
    requires forall i :: 0 <= i < |packages| ==> ' ' !in packages[i]
    ensures var cmd := InstallArgs(quiet, hasProfileFile, packages);
      var off := 2 + (if quiet then 1 else 0) + (if hasProfileFile then 2 else 0);
      && |cmd| == off + 2 * |packages| + 9
      && cmd[..2] == ["conan", "install"]
      && (cmd[2] == "-vquiet" <==> quiet)
      && (cmd[off - 2] == "--profile" && cmd[off - 1] == ProfileName <==> hasProfileFile)
      && (forall i :: 0 <= i < |packages| ==>
            cmd[off + 2 * i] == "--require" && cmd[off + 2 * i + 1] == packages[i])
      && cmd[off + 2 * |packages|..] == InstallTail()
  {
    RequireTokensInterleave(packages);
    var cmd := InstallArgs(quiet, hasProfileFile, packages);
    var off := 2 + (if quiet then 1 else 0) + (if hasProfileFile then 2 else 0);
    var head := ["conan", "install"] + QuietArgs(quiet) + ProfileArgs(hasProfileFile);
    var il := Interleaved(packages);
    assert cmd == head + il + InstallTail();
    assert |head| == off;
    InterleavedAt(packages, 0);
    forall i | 0 <= i < |packages|
      ensures cmd[off + 2 * i] == "--require" && cmd[off + 2 * i + 1] == packages[i]
    {
      InterleavedAt(packages, i);
      assert cmd[off + 2 * i] == il[2 * i];
      assert cmd[off + 2 * i + 1] == il[2 * i + 1];
    }
    assert cmd[off + 2 * |packages|..] == InstallTail();
  }

  /** The first token of the `--require` section: `--require`, or the empty token of an empty join. */
  lemma RequireTokensHead(packages: seq<string>)
    ensures RequireTokens(packages)[0] == if packages == [] then "" else "--require"
  {
    var args := RequireArgs(packages);
    if packages != [] {
      var rest := if |args| == 1 then "" else [' '] + Join(args[1..], ' ');
      assert args[0] == "--require" + ([' '] + packages[0]);
      assert Join(args, ' ') == "--require" + (([' '] + packages[0]) + rest);
      SplitAfterFree("--require", ([' '] + packages[0]) + rest, ' ');
    }
  }

  /**
   * The frame of the install command for any packages, spaces or not: the base
   * subcommand, `-vquiet` iff quiet, `--profile` iff the profile file exists,
   * the fixed tail at the end, and in between tokens that, joined with spaces,
   * give back the `--require <pkg>` strings.
   */
  lemma InstallArgsFrame(quiet: bool, hasProfileFile: bool, packages: seq<string>)
    ensures var cmd := InstallArgs(quiet, hasProfileFile, packages);
      var off := 2 + (if quiet then 1 else 0) + (if hasProfileFile then 2 else 0);
      && |cmd| >= off + 10
      && cmd[..2] == ["conan", "install"]
      && (cmd[2] == "-vquiet" <==> quiet)
      && (cmd[off - 2] == "--profile" <==> hasProfileFile)
      && Join(cmd[off..|cmd| - 9], ' ') == Join(RequireArgs(packages), ' ')
      && cmd[|cmd| - 9..] == InstallTail()
  {
  }

  /**
   * `get_install_command`: fails at once when conan is missing; otherwise works
   * out the packages still to install and, when there are any, caches the
   * current profile, installs the Ament generator and returns the one
   * `conan install` command for them.
   */
  method GetInstallCommand<J(==)>(env: Env<J>, resolved: seq<string>, reinstall: bool, quiet: bool)
    returns (r: Result<seq<seq<string>>, Failure>, effects: seq<Effect<J>>)
    ensures !env.conanInstalled ==>
      r == Failure(InstallFailed(Installer, "conan is not installed")) && effects == []
    ensures env.conanInstalled && PackagesToInstall(env, resolved, reinstall).Failure? ==>
      r == Failure(PackagesToInstall(env, resolved, reinstall).error) && effects == []
    ensures env.conanInstalled && PackagesToInstall(env, resolved, reinstall) == Success([]) ==>
      r == Success([]) && effects == []
    ensures effects != [] <==>
      env.conanInstalled && PackagesToInstall(env, resolved, reinstall).Success?
      && PackagesToInstall(env, resolved, reinstall).value != []
    ensures effects != [] ==> effects[0] == PrepareProfilesCache(ProfilesPath())
    ensures effects != [] && env.profileQuery.None? ==>
      effects == [PrepareProfilesCache(ProfilesPath())]
      && r == Failure(ToolFailed(ProfileShowArgs(env.hasProfileFile)))
    ensures effects != [] && env.profileQuery.Some? ==>
      effects == [PrepareProfilesCache(ProfilesPath()), AppendProfile(ProfilesPath(), env.profileQuery.value),
                  Run(ConfigInstallArgs(quiet))]
      && r == if env.configInstallOk
              then Success([InstallArgs(quiet, env.hasProfileFile, PackagesToInstall(env, resolved, reinstall).value)])
              else Failure(ToolFailed(ConfigInstallArgs(quiet)))
    ensures r.Success? ==> |r.value| <= 1
    ensures reinstall && r.Success? && r.value != [] ==> r.value == [InstallArgs(quiet, env.hasProfileFile, resolved)]
  {
    effects := [];
    if !env.conanInstalled {
      return Failure(InstallFailed(Installer, "conan is not installed")), effects;
    }

    // get_packages_to_install
    var packages: seq<string>;
    if reinstall {
      packages := resolved;
    } else if resolved == [] {
      packages := [];
    } else {
      var detected := ConanDetect(env, resolved);
      if detected.Failure? {
        return Failure(detected.error), effects;
      }
      packages := Missing(resolved, detected.value);
    }
    if packages == [] {
      return Success([]), effects;
    }

    var profilesPath := ProfilesPath();
    effects := effects + [PrepareProfilesCache(profilesPath)];
    if env.profileQuery.None? {
      return Failure(ToolFailed(ProfileShowArgs(env.hasProfileFile))), effects;
    }
    effects := effects + [AppendProfile(profilesPath, env.profileQuery.value)];

    var configInstall := AmentGeneratorCommand(quiet);
    effects := effects + [Run(configInstall)];
    if !env.configInstallOk {
      return Failure(ToolFailed(configInstall)), effects;
    }

    var conanInstall := ["conan", "install"];
    if quiet {
      conanInstall := conanInstall + ["-vquiet"];
    }
    if env.hasProfileFile {
      conanInstall := conanInstall + ["--profile", ProfileName];
    }
    assert conanInstall == ["conan", "install"] + QuietArgs(quiet) + ProfileArgs(env.hasProfileFile);
    var requireTokens := RequireTokens(packages);
    var cmd := conanInstall + requireTokens + InstallTail();
    assert packages == PackagesToInstall(env, resolved, reinstall).value;
    return Success([cmd]), effects;
  }
}
