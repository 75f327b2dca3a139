/**
 * The dependency-policy commands of the dependencies aspect: parsing of
 * `name[@version]` package specs, version resolution, `set`, `remove`,
 * `reset`, `eject`, `blame` and `usage`.
 *
 * The workspace, the dependency resolver and the scope are collaborators:
 * the matched component ids, each component's dependency list (its
 * `findByPkgNameOrCompId`), its current aspect config, the remote version
 * resolver and the snapshot log are parameters, and the two writes the
 * commands perform (`addSpecificComponentConfig` and the manifest write)
 * are recorded by the Workspace class.
 */
module Dependencies {
  import opened Wrappers
  import opened Strings
  import opened ComponentIds

  datatype DepError =
    | InvalidPackageSyntax(pkg: string)
    | UnresolvedVersion(pkgName: string)

  // ---------------------------------------------------------------------
  // Package specs
  // ---------------------------------------------------------------------

  /** A spec that starts with `@` splits into an empty part followed by the rest. */
  lemma ScopedSplit(pkg: string)
    requires StartsWith(pkg, "@")
    ensures Split(pkg, '@') == [""] + Split(pkg[1..], '@')
  {
    assert pkg[0] == '@';
  }

  /** splitPkgToNameAndVer: `name[@version]`, where a scoped name starts with `@`. */
  function SplitPkgToNameAndVer(pkg: string): (r: Result<(string, Option<string>), DepError>)
    ensures r.Failure? ==> r.error == InvalidPackageSyntax(pkg)
    ensures r.Success? && StartsWith(pkg, "@") ==> StartsWith(r.value.0, "@")
  {
    var packageSplit := Split(pkg, '@');
    if StartsWith(pkg, "@") then
      ScopedSplit(pkg);
      if |packageSplit| > 3 then Failure(InvalidPackageSyntax(pkg))
      else Success(("@" + packageSplit[1], if |packageSplit| > 2 then Some(packageSplit[2]) else None))
    else if |packageSplit| > 2 then Failure(InvalidPackageSyntax(pkg))
    else Success((packageSplit[0], if |packageSplit| > 1 then Some(packageSplit[1]) else None))
  }

  /**
   * A spec is rejected exactly when it carries more than one version suffix:
   * more than two `@` for a scoped name, more than one otherwise.
   */
  lemma SplitPkgRejectsExtraVersions(pkg: string)
    ensures SplitPkgToNameAndVer(pkg).Failure? <==>
      if StartsWith(pkg, "@") then Count(pkg, '@') > 2 else Count(pkg, '@') > 1
  {
    SplitLength(pkg, '@');
  }

  /** Two version suffixes on a plain name are rejected. */
  lemma MalformedSpecRejected()
    ensures SplitPkgToNameAndVer("name@1@2").Failure?
  {
    var pkg := "name@1@2";
    assert pkg == "name" + ['@'] + "1@2";
    assert "1@2" == "1" + ['@'] + "2";
    SplitAround("1", "2", '@');
    SplitAround("name", "1@2", '@');
    assert |Split(pkg, '@')| == |Split("name", '@')| + |Split("1", '@')| + |Split("2", '@')|;
    assert pkg[0] != '@';
  }

  /** Two version suffixes on a scoped name are rejected. */
  lemma MalformedScopedSpecRejected()
    ensures SplitPkgToNameAndVer("@scope/name@1.0@2.0").Failure?
  {
    var pkg := "@scope/name@1.0@2.0";
    assert pkg == "" + ['@'] + "scope/name@1.0@2.0";
    assert "scope/name@1.0@2.0" == "scope/name" + ['@'] + "1.0@2.0";
    assert "1.0@2.0" == "1.0" + ['@'] + "2.0";
    SplitAround("1.0", "2.0", '@');
    SplitAround("scope/name", "1.0@2.0", '@');
    SplitAround("", "scope/name@1.0@2.0", '@');
    assert |Split(pkg, '@')| == |Split("", '@')| + |Split("scope/name", '@')| + |Split("1.0", '@')| + |Split("2.0", '@')|;
    assert pkg[..1] == "@";
  }

  /** Unscoped round trip: `name@v` gives (name, v) and `name` gives (name, none). */
  lemma SplitPkgRoundTrip(name: string, v: string)
    requires name != "" && '@' !in name && '@' !in v
    ensures SplitPkgToNameAndVer(name + "@" + v) == Success((name, Some(v)))
    ensures SplitPkgToNameAndVer(name) == Success((name, None))
  {
    SplitAround(name, v, '@');
    SplitWithoutSeparator(name, '@');
    SplitWithoutSeparator(v, '@');
    assert name + "@" + v == name + ['@'] + v;
    assert name[0] in name;
    assert (name + "@" + v)[0] == name[0];
  }

  /** Scoped round trip: `@s/n@v` gives (`@s/n`, v) and `@s/n` gives (`@s/n`, none). */
  lemma SplitPkgScopedRoundTrip(scopedName: string, v: string)
    requires '@' !in scopedName && '@' !in v
    ensures SplitPkgToNameAndVer("@" + scopedName + "@" + v) == Success(("@" + scopedName, Some(v)))
    ensures SplitPkgToNameAndVer("@" + scopedName) == Success(("@" + scopedName, None))
  {
    var withVersion := "@" + scopedName + "@" + v;
    assert withVersion[1..] == scopedName + ['@'] + v;
    ScopedSplit(withVersion);
    SplitAround(scopedName, v, '@');
    SplitWithoutSeparator(scopedName, '@');
    SplitWithoutSeparator(v, '@');
    var bare := "@" + scopedName;
    assert bare[1..] == scopedName;
    ScopedSplit(bare);
  }

  /** A version that must be asked of the remote resolver: missing, empty or `latest`. */
  predicate NeedsResolution(version: Option<string>)
  {
    version.None? || version.value == "" || version.value == "latest"
  }

  /**
   * getPackageNameAndVerResolved. `resolveRemoteVersion` answers a package
   * name with the version the registry reports, or none.
   */
  function GetPackageNameAndVerResolved(pkg: string, resolveRemoteVersion: string -> Option<string>)
    : (r: Result<(string, string), DepError>)
    ensures SplitPkgToNameAndVer(pkg).Failure? ==> r == Failure(SplitPkgToNameAndVer(pkg).error)
    ensures r.Success? ==> r.value.0 == SplitPkgToNameAndVer(pkg).value.0 && r.value.1 != ""
    ensures SplitPkgToNameAndVer(pkg).Success? && !NeedsResolution(SplitPkgToNameAndVer(pkg).value.1) ==>
      r == Success((SplitPkgToNameAndVer(pkg).value.0, SplitPkgToNameAndVer(pkg).value.1.value))
    ensures SplitPkgToNameAndVer(pkg).Success? && NeedsResolution(SplitPkgToNameAndVer(pkg).value.1) ==>
      var name := SplitPkgToNameAndVer(pkg).value.0;
      r == if resolveRemoteVersion(name).GetOr("") == "" then Failure(UnresolvedVersion(name))
           else Success((name, resolveRemoteVersion(name).value))
  {
    var split :- SplitPkgToNameAndVer(pkg);
    var (name, version) := split;
    if NeedsResolution(version) then
      var resolved := resolveRemoteVersion(name);
      if resolved.None? || resolved.value == "" then Failure(UnresolvedVersion(name))
      else Success((name, resolved.value))
    else Success((name, version.value))
  }

  /** isComponentId: contains `/` and does not start with `@`. */
  predicate IsComponentId(depName: string)
  {
    '/' in depName && !(|depName| > 0 && depName[0] == '@')
  }

  /** A scoped package name is never taken for a component id, whatever follows the scope. */
  lemma ScopedNamesAreNotComponentIds(rest: string)
    ensures !IsComponentId("@" + rest)
    ensures '/' in rest && '@' !in rest ==> IsComponentId(rest)
  {
    if '/' in rest && '@' !in rest {
      assert rest[0] in rest;
    }
  }

  // ---------------------------------------------------------------------
  // Policies and the workspace writes
  // ---------------------------------------------------------------------

  datatype Lifecycle = Runtime | Dev | Peer

  /** KEY_NAME_BY_LIFECYCLE_TYPE. */
  function KeyNameByLifecycle(lifecycle: Lifecycle): string
  {
    match lifecycle
    case Runtime => "dependencies"
    case Dev => "devDependencies"
    case Peer => "peerDependencies"
  }

  /** The tombstone `remove` writes for a dependency that comes from elsewhere. */
  const RemovedMarker: string := "-"

  const DependencyResolverAspectId: string := "teambit.dependencies/dependency-resolver"

  /** Dependency field -> package name -> version, or the tombstone. */
  type Policy = map<string, map<string, string>>

  /** The component's dependency-resolver aspect config; `policy` may be absent. */
  datatype DepResolverConfig = DepResolverConfig(policy: Option<Policy>)

  function PolicyEntry(config: DepResolverConfig, field: string, pkg: string): Option<string>
  {
    if config.policy.Some? && field in config.policy.value && pkg in config.policy.value[field]
    then Some(config.policy.value[field][pkg])
    else None
  }

  /** `delete config.policy[field][pkg]`. */
  function DeleteEntry(config: DepResolverConfig, field: string, pkg: string): (r: DepResolverConfig)
    requires config.policy.Some? && field in config.policy.value
    ensures PolicyEntry(r, field, pkg) == None
    ensures forall f, p :: (f, p) != (field, pkg) ==> PolicyEntry(r, f, p) == PolicyEntry(config, f, p)
  {
    var policy := config.policy.value;
    DepResolverConfig(Some(policy[field := policy[field] - {pkg}]))
  }

  /** lodash `set(config, ['policy', field, pkg], value)`, creating what is missing. */
  function SetEntry(config: DepResolverConfig, field: string, pkg: string, value: string): (r: DepResolverConfig)
    ensures PolicyEntry(r, field, pkg) == Some(value)
    ensures forall f, p :: (f, p) != (field, pkg) ==> PolicyEntry(r, f, p) == PolicyEntry(config, f, p)
  {
    var policy := config.policy.GetOr(map[]);
    var entries := if field in policy then policy[field] else map[];
    DepResolverConfig(Some(policy[field := entries[pkg := value]]))
  }

  datatype MergeOptions = MergeOptions(shouldMergeWithExisting: bool, shouldMergeWithPrevious: bool)

  /** One `addSpecificComponentConfig` call for the dependency-resolver aspect. */
  datatype ConfigWrite = ConfigWrite(
    id: ComponentId,
    aspectId: string,
    config: DepResolverConfig,
    options: Option<MergeOptions>)

  /** The part of the workspace the commands write: component configs and the manifest. */
  class Workspace {
    var configWrites: seq<ConfigWrite>
    var manifestWrites: seq<string>

    constructor ()
      ensures configWrites == [] && manifestWrites == []
    {
      configWrites := [];
      manifestWrites := [];
    }

    method AddSpecificComponentConfig(id: ComponentId, config: DepResolverConfig, options: Option<MergeOptions>)
      modifies this
      ensures configWrites == old(configWrites) + [ConfigWrite(id, DependencyResolverAspectId, config, options)]
      ensures manifestWrites == old(manifestWrites)
    {
      configWrites := configWrites + [ConfigWrite(id, DependencyResolverAspectId, config, options)];
    }

    /** `bitMap.write(reason)`: one persisted manifest write. */
    method WriteBitMap(reason: string)
      modifies this
      ensures manifestWrites == old(manifestWrites) + [reason]
      ensures configWrites == old(configWrites)
    {
      manifestWrites := manifestWrites + [reason];
    }
  }

  // ---------------------------------------------------------------------
  // remove
  // ---------------------------------------------------------------------

  /** An entry of a component's resolved dependency list. */
  datatype Dependency = Dependency(id: string, packageName: Option<string>, version: string, lifecycle: Lifecycle)

  /** `dependency.getPackageName?.() || dependency.id`. */
  function DepName(dep: Dependency): string
  {
    if dep.packageName.Some? && dep.packageName.value != "" then dep.packageName.value else dep.id
  }

  /** `findByPkgNameOrCompId(name, version)` of one component's dependency list. */
  type Finder = (string, Option<string>) -> Option<Dependency>

  datatype RemoveFlags = RemoveFlags(dev: bool, peer: bool)

  function RemoveLifecycle(flags: RemoveFlags, dep: Dependency): Lifecycle
  {
    if flags.dev then Dev else if flags.peer then Peer else dep.lifecycle
  }

  /** The config after one package, and what was reported for it. */
  datatype RemoveStep = RemoveStep(config: DepResolverConfig, removed: Option<string>)

  /** The body of the per-package callback of removeDependency. */
  function RemoveOne(config: DepResolverConfig, pkg: string, find: Finder, flags: RemoveFlags, removeOnlyIfExists: bool)
    : Result<RemoveStep, DepError>
  {
    var split :- SplitPkgToNameAndVer(pkg);
    var (name, version) := split;
    var dependency := find(name, version);
    if dependency.None? then Success(RemoveStep(config, None))
    else
      var dep := dependency.value;
      var depName := DepName(dep);
      var depField := KeyNameByLifecycle(RemoveLifecycle(flags, dep));
      var existsInSpecificConfig := PolicyEntry(config, depField, depName);
      if existsInSpecificConfig.Some? && existsInSpecificConfig.value != "" then
        if existsInSpecificConfig.value == RemovedMarker then Success(RemoveStep(config, None))
        else Success(RemoveStep(DeleteEntry(config, depField, depName), Some(depName + "@" + dep.version)))
      else if removeOnlyIfExists then Success(RemoveStep(config, None))
      else Success(RemoveStep(SetEntry(config, depField, depName, RemovedMarker), Some(depName + "@" + dep.version)))
  }

  /**
   * What removing one package does to the component's own policy: the one
   * entry it targets is deleted (a real entry), tombstoned (no entry and
   * `removeOnlyIfExists` unset) or left alone; every other entry is kept;
   * and it is reported as `name@version` exactly when the entry changed.
   */
  lemma RemoveOneEffect(config: DepResolverConfig, pkg: string, find: Finder, flags: RemoveFlags, removeOnlyIfExists: bool)
    requires SplitPkgToNameAndVer(pkg).Success?
    ensures var r := RemoveOne(config, pkg, find, flags, removeOnlyIfExists);
      var (name, version) := SplitPkgToNameAndVer(pkg).value;
      r.Success? &&
      if find(name, version).None? then r.value == RemoveStep(config, None)
      else
        var dep := find(name, version).value;
        var field := KeyNameByLifecycle(RemoveLifecycle(flags, dep));
        var before := PolicyEntry(config, field, DepName(dep));
        var after := PolicyEntry(r.value.config, field, DepName(dep));
        && (forall f, p :: (f, p) != (field, DepName(dep)) ==>
              PolicyEntry(r.value.config, f, p) == PolicyEntry(config, f, p))
        && (before == Some(RemovedMarker) ==> r.value == RemoveStep(config, None))
        && (before.Some? && before.value != "" && before.value != RemovedMarker ==> after == None)
        && (before.GetOr("") == "" && removeOnlyIfExists ==> r.value == RemoveStep(config, None))
        && (before.GetOr("") == "" && !removeOnlyIfExists ==> after == Some(RemovedMarker))
        && (r.value.removed.Some? <==> after != before)
        && (r.value.removed.Some? ==> r.value.removed.value == DepName(dep) + "@" + dep.version)
  {
  }

  /** The packages folded left to right over one cloned config, collecting reports. */
  function RemovePackagesFrom(config: DepResolverConfig, removed: seq<string>, packages: seq<string>,
                              find: Finder, flags: RemoveFlags, removeOnlyIfExists: bool)
    : Result<(DepResolverConfig, seq<string>), DepError>
    decreases |packages|
  {
    if packages == [] then Success((config, removed))
    else
      var step :- RemoveOne(config, packages[0], find, flags, removeOnlyIfExists);
      var reported := if step.removed.Some? then [step.removed.value] else [];
      RemovePackagesFrom(step.config, removed + reported, packages[1..], find, flags, removeOnlyIfExists)
  }

  /** One package of the fold: its step either fails the whole fold or feeds the rest. */
  lemma RemovePackagesFromUnfold(config: DepResolverConfig, removed: seq<string>, packages: seq<string>,
                                 find: Finder, flags: RemoveFlags, removeOnlyIfExists: bool)
    requires packages != []
    ensures var step := RemoveOne(config, packages[0], find, flags, removeOnlyIfExists);
      && (step.Failure? ==> RemovePackagesFrom(config, removed, packages, find, flags, removeOnlyIfExists)
                            == Failure(step.error))
      && (step.Success? ==>
            var reported := if step.value.removed.Some? then [step.value.removed.value] else [];
            RemovePackagesFrom(config, removed, packages, find, flags, removeOnlyIfExists)
            == RemovePackagesFrom(step.value.config, removed + reported, packages[1..], find, flags, removeOnlyIfExists))
  {
  }

  predicate SomeSpecMalformed(packages: seq<string>)
  {
    exists j :: 0 <= j < |packages| && SplitPkgToNameAndVer(packages[j]).Failure?
  }

  /**
   * Removing a list of packages fails exactly when one of the specs is
   * malformed, whatever the component's config and dependency list are.
   */
  lemma {:induction false} RemovePackagesFailsIffMalformed(config: DepResolverConfig, removed: seq<string>,
      packages: seq<string>, find: Finder, flags: RemoveFlags, removeOnlyIfExists: bool)
    ensures RemovePackagesFrom(config, removed, packages, find, flags, removeOnlyIfExists).Failure?
      <==> SomeSpecMalformed(packages)
    decreases |packages|
  {
    if packages != [] {
      var r := RemoveOne(config, packages[0], find, flags, removeOnlyIfExists);
      if r.Success? {
        var reported := if r.value.removed.Some? then [r.value.removed.value] else [];
        RemovePackagesFailsIffMalformed(r.value.config, removed + reported, packages[1..], find, flags, removeOnlyIfExists);
        assert SomeSpecMalformed(packages) <==> SomeSpecMalformed(packages[1..]) by {
          if SomeSpecMalformed(packages) {
            var j :| 0 <= j < |packages| && SplitPkgToNameAndVer(packages[j]).Failure?;
            assert j != 0;
            assert packages[1..][j - 1] == packages[j];
          }
          if SomeSpecMalformed(packages[1..]) {
            var j :| 0 <= j < |packages[1..]| && SplitPkgToNameAndVer(packages[1..][j]).Failure?;
            assert packages[j + 1] == packages[1..][j];
          }
        }
      }
    }
  }

  /** Reports are only ever appended: at most one per package. */
  lemma {:induction false} RemovePackagesReportBound(config: DepResolverConfig, removed: seq<string>,
      packages: seq<string>, find: Finder, flags: RemoveFlags, removeOnlyIfExists: bool)
    ensures var r := RemovePackagesFrom(config, removed, packages, find, flags, removeOnlyIfExists);
      r.Success? ==> removed <= r.value.1 && |r.value.1| <= |removed| + |packages|
    decreases |packages|
  {
    if packages != [] {
      var r := RemoveOne(config, packages[0], find, flags, removeOnlyIfExists);
      if r.Success? {
        var reported := if r.value.removed.Some? then [r.value.removed.value] else [];
        RemovePackagesReportBound(r.value.config, removed + reported, packages[1..], find, flags, removeOnlyIfExists);
      }
    }
  }

  /** The per-package loop of removeDependency over a cloned config. */
  method RemovePackages(current: DepResolverConfig, packages: seq<string>, find: Finder,
                        flags: RemoveFlags, removeOnlyIfExists: bool)
    returns (r: Result<(DepResolverConfig, seq<string>), DepError>)
    ensures r == RemovePackagesFrom(current, [], packages, find, flags, removeOnlyIfExists)
  {
    var config := current;
    var removed: seq<string> := [];
    var i := 0;
    while i < |packages|
      invariant 0 <= i <= |packages|
      invariant RemovePackagesFrom(config, removed, packages[i..], find, flags, removeOnlyIfExists)
             == RemovePackagesFrom(current, [], packages, find, flags, removeOnlyIfExists)
    {
      var step := RemoveOne(config, packages[i], find, flags, removeOnlyIfExists);
      RemovePackagesFromUnfold(config, removed, packages[i..], find, flags, removeOnlyIfExists);
      assert packages[i..][0] == packages[i];
      assert packages[i..][1..] == packages[i + 1..];
      if step.Failure? {
        return Failure(step.error);
      }
      var reported := if step.value.removed.Some? then [step.value.removed.value] else [];
      config := step.value.config;
      removed := removed + reported;
      i := i + 1;
    }
    r := Success((config, removed));
  }

  datatype RemoveDependencyResult = RemoveDependencyResult(id: ComponentId, removedPackages: seq<string>)

  /** The config written for one component, with its report. */
  datatype ComponentRemoval = ComponentRemoval(id: ComponentId, config: DepResolverConfig, removedPackages: seq<string>)

  /**
   * What removeDependency writes for one component: nothing when its
   * packages removed nothing, else its new config with the report.
   */
  function ComponentPlan(id: ComponentId, current: DepResolverConfig, packages: seq<string>, find: Finder,
                         flags: RemoveFlags, removeOnlyIfExists: bool)
    : Result<seq<ComponentRemoval>, DepError>
  {
    var outcome :- RemovePackagesFrom(current, [], packages, find, flags, removeOnlyIfExists);
    Success(if |outcome.1| == 0 then [] else [ComponentRemoval(id, outcome.0, outcome.1)])
  }

  /** What removeDependency writes, component by component, in pattern order. */
  function RemovalPlan(compIds: seq<ComponentId>, packages: seq<string>, depLists: ComponentId -> Finder,
                       currentConfig: ComponentId -> Option<DepResolverConfig>,
                       flags: RemoveFlags, removeOnlyIfExists: bool)
    : Result<seq<ComponentRemoval>, DepError>
    decreases |compIds|
  {
    if compIds == [] then Success([])
    else
      var id := compIds[0];
      var here :- ComponentPlan(id, currentConfig(id).GetOr(DepResolverConfig(None)), packages, depLists(id),
                                flags, removeOnlyIfExists);
      var rest :- RemovalPlan(compIds[1..], packages, depLists, currentConfig, flags, removeOnlyIfExists);
      Success(here + rest)
  }

  /** One component's plan fails exactly on a malformed spec, and reports only real removals. */
  lemma ComponentPlanShape(id: ComponentId, current: DepResolverConfig, packages: seq<string>, find: Finder,
                           flags: RemoveFlags, removeOnlyIfExists: bool)
    ensures var here := ComponentPlan(id, current, packages, find, flags, removeOnlyIfExists);
      && (here.Failure? <==> SomeSpecMalformed(packages))
      && (here.Success? ==> |here.value| <= 1)
      && (here.Success? && |here.value| == 1 ==> here.value[0].id == id && |here.value[0].removedPackages| > 0)
  {
    RemovePackagesFailsIffMalformed(current, [], packages, find, flags, removeOnlyIfExists);
  }

  ghost predicate IsSubsequence<T>(a: seq<T>, b: seq<T>)
    decreases |b|
  {
    a == [] || (b != [] && ((a[0] == b[0] && IsSubsequence(a[1..], b[1..])) || IsSubsequence(a, b[1..])))
  }

  function RemovalIds(plan: seq<ComponentRemoval>): seq<ComponentId>
  {
    if plan == [] then [] else [plan[0].id] + RemovalIds(plan[1..])
  }

  /**
   * The plan fails exactly when there is a component and some spec is
   * malformed; otherwise it names components in pattern order, each with at
   * least one removed package.
   */
  lemma {:induction false} RemovalPlanShape(compIds: seq<ComponentId>, packages: seq<string>,
      depLists: ComponentId -> Finder, currentConfig: ComponentId -> Option<DepResolverConfig>,
      flags: RemoveFlags, removeOnlyIfExists: bool)
    ensures var plan := RemovalPlan(compIds, packages, depLists, currentConfig, flags, removeOnlyIfExists);
      && (plan.Failure? <==> |compIds| > 0 && SomeSpecMalformed(packages))
      && (plan.Success? ==> forall k :: 0 <= k < |plan.value| ==> |plan.value[k].removedPackages| > 0)
      && (plan.Success? ==> IsSubsequence(RemovalIds(plan.value), compIds))
    decreases |compIds|
  {
    if compIds != [] {
      var id := compIds[0];
      ComponentPlanShape(id, currentConfig(id).GetOr(DepResolverConfig(None)), packages, depLists(id),
                         flags, removeOnlyIfExists);
      RemovalPlanShape(compIds[1..], packages, depLists, currentConfig, flags, removeOnlyIfExists);
      var plan := RemovalPlan(compIds, packages, depLists, currentConfig, flags, removeOnlyIfExists);
      if plan.Success? {
        var here := ComponentPlan(id, currentConfig(id).GetOr(DepResolverConfig(None)), packages, depLists(id),
                                  flags, removeOnlyIfExists).value;
        var rest := RemovalPlan(compIds[1..], packages, depLists, currentConfig, flags, removeOnlyIfExists).value;
        if |here| == 0 {
          assert plan.value == rest;
        } else {
          assert plan.value == [here[0]] + rest;
          assert plan.value[1..] == rest;
        }
      }
    }
  }

  function RemovalResults(plan: seq<ComponentRemoval>): seq<RemoveDependencyResult>
  {
    if plan == [] then [] else [RemoveDependencyResult(plan[0].id, plan[0].removedPackages)] + RemovalResults(plan[1..])
  }

  function RemovalWrites(plan: seq<ComponentRemoval>): seq<ConfigWrite>
  {
    if plan == [] then [] else [ConfigWrite(plan[0].id, DependencyResolverAspectId, plan[0].config, None)] + RemovalWrites(plan[1..])
  }

  lemma {:induction false} RemovalResultsAppend(a: seq<ComponentRemoval>, b: seq<ComponentRemoval>)
    ensures RemovalResults(a + b) == RemovalResults(a) + RemovalResults(b)
  {
    if a == [] {
      assert a + b == b;
    } else {
      assert (a + b)[0] == a[0];
      assert (a + b)[1..] == a[1..] + b;
      RemovalResultsAppend(a[1..], b);
      var head := [RemoveDependencyResult(a[0].id, a[0].removedPackages)];
      assert RemovalResults(a + b) == head + RemovalResults(a[1..] + b);
      assert RemovalResults(a) == head + RemovalResults(a[1..]);
    }
  }

  lemma {:induction false} RemovalWritesAppend(a: seq<ComponentRemoval>, b: seq<ComponentRemoval>)
    ensures RemovalWrites(a + b) == RemovalWrites(a) + RemovalWrites(b)
  {
    if a == [] {
      assert a + b == b;
    } else {
      assert (a + b)[0] == a[0];
      assert (a + b)[1..] == a[1..] + b;
      RemovalWritesAppend(a[1..], b);
      var head := [ConfigWrite(a[0].id, DependencyResolverAspectId, a[0].config, None)];
      assert RemovalWrites(a + b) == head + RemovalWrites(a[1..] + b);
      assert RemovalWrites(a) == head + RemovalWrites(a[1..]);
    }
  }

  /** One component of removeDependency: its package loop, then its config write when something was removed. */
  method RemoveFromComponent(ws: Workspace, id: ComponentId, current: DepResolverConfig, packages: seq<string>,
                             find: Finder, flags: RemoveFlags, removeOnlyIfExists: bool)
    returns (here: seq<ComponentRemoval>)
    requires !SomeSpecMalformed(packages)
    modifies ws
    ensures ComponentPlan(id, current, packages, find, flags, removeOnlyIfExists) == Success(here)
    ensures ws.configWrites == old(ws.configWrites) + RemovalWrites(here)
    ensures ws.manifestWrites == old(ws.manifestWrites)
  {
    RemovePackagesFailsIffMalformed(current, [], packages, find, flags, removeOnlyIfExists);
    var outcome := RemovePackages(current, packages, find, flags, removeOnlyIfExists);
    var (config, removed) := outcome.value;
    if |removed| == 0 {
      return [];
    }
    ws.AddSpecificComponentConfig(id, config, None);
    here := [ComponentRemoval(id, config, removed)];
  }

  /** Processing one more component appends its entry to the plan. */
  lemma {:induction false} RemovalPlanSnoc(prefix: seq<ComponentId>, id: ComponentId, done: seq<ComponentRemoval>,
      here: seq<ComponentRemoval>, packages: seq<string>, depLists: ComponentId -> Finder,
      currentConfig: ComponentId -> Option<DepResolverConfig>, flags: RemoveFlags, removeOnlyIfExists: bool)
    requires RemovalPlan(prefix, packages, depLists, currentConfig, flags, removeOnlyIfExists) == Success(done)
    requires ComponentPlan(id, currentConfig(id).GetOr(DepResolverConfig(None)), packages, depLists(id),
                           flags, removeOnlyIfExists) == Success(here)
    ensures RemovalPlan(prefix + [id], packages, depLists, currentConfig, flags, removeOnlyIfExists) == Success(done + here)
    decreases |prefix|
  {
    if prefix == [] {
      assert prefix + [id] == [id];
      assert [id][1..] == [];
      assert here + [] == [] + here;
    } else {
      var p0 := prefix[0];
      assert (prefix + [id])[0] == p0;
      assert (prefix + [id])[1..] == prefix[1..] + [id];
      var h0 := ComponentPlan(p0, currentConfig(p0).GetOr(DepResolverConfig(None)), packages, depLists(p0),
                              flags, removeOnlyIfExists).value;
      var rest0 := RemovalPlan(prefix[1..], packages, depLists, currentConfig, flags, removeOnlyIfExists).value;
      assert done == h0 + rest0;
      RemovalPlanSnoc(prefix[1..], id, rest0, here, packages, depLists, currentConfig, flags, removeOnlyIfExists);
      assert h0 + (rest0 + here) == done + here;
    }
  }

  /** The per-component loop of removeDependency once every spec is known to parse. */
  method ApplyRemovals(ws: Workspace, compIds: seq<ComponentId>, packages: seq<string>,
                       depLists: ComponentId -> Finder, currentConfig: ComponentId -> Option<DepResolverConfig>,
                       flags: RemoveFlags, removeOnlyIfExists: bool)
    returns (done: seq<ComponentRemoval>)
    requires !SomeSpecMalformed(packages)
    modifies ws
    ensures RemovalPlan(compIds, packages, depLists, currentConfig, flags, removeOnlyIfExists) == Success(done)
    ensures ws.configWrites == old(ws.configWrites) + RemovalWrites(done)
    ensures ws.manifestWrites == old(ws.manifestWrites)
  {
    done := [];
    var i := 0;
    assert compIds[..0] == [];
    while i < |compIds|
      invariant 0 <= i <= |compIds|
      invariant RemovalPlan(compIds[..i], packages, depLists, currentConfig, flags, removeOnlyIfExists) == Success(done)
      invariant ws.configWrites == old(ws.configWrites) + RemovalWrites(done)
      invariant ws.manifestWrites == old(ws.manifestWrites)
    {
      var id := compIds[i];
      var here := RemoveFromComponent(ws, id, currentConfig(id).GetOr(DepResolverConfig(None)), packages, depLists(id),
                                      flags, removeOnlyIfExists);
      RemovalWritesAppend(done, here);
      RemovalPlanSnoc(compIds[..i], id, done, here, packages, depLists, currentConfig, flags, removeOnlyIfExists);
      assert compIds[..i + 1] == compIds[..i] + [id];
      done := done + here;
      i := i + 1;
    }
    assert compIds[..i] == compIds;
  }

  /**
   * removeDependency: a malformed spec fails before anything is written;
   * otherwise each component with removals gets its new config written,
   * and the manifest is written exactly once.
   */
  method RemoveDependency(ws: Workspace, componentPattern: string, compIds: seq<ComponentId>,
                          packages: seq<string>, depLists: ComponentId -> Finder,
                          currentConfig: ComponentId -> Option<DepResolverConfig>,
                          flags: RemoveFlags, removeOnlyIfExists: bool)
    returns (r: Result<seq<RemoveDependencyResult>, DepError>)
    modifies ws
    ensures r.Failure? <==> |compIds| > 0 && SomeSpecMalformed(packages)
    ensures r.Failure? ==> ws.configWrites == old(ws.configWrites) && ws.manifestWrites == old(ws.manifestWrites)
    ensures r.Success? ==>
      RemovalPlan(compIds, packages, depLists, currentConfig, flags, removeOnlyIfExists).Success? &&
      var plan := RemovalPlan(compIds, packages, depLists, currentConfig, flags, removeOnlyIfExists).value;
      && r.value == RemovalResults(plan)
      && ws.configWrites == old(ws.configWrites) + RemovalWrites(plan)
      && ws.manifestWrites == old(ws.manifestWrites) + ["deps-remove (" + componentPattern + ")"]
  {
    if |compIds| > 0 && SomeSpecMalformed(packages) {
      // The first component's package loop meets the malformed spec before any write.
      var id := compIds[0];
      var current := currentConfig(id).GetOr(DepResolverConfig(None));
      RemovePackagesFailsIffMalformed(current, [], packages, depLists(id), flags, removeOnlyIfExists);
      var outcome := RemovePackages(current, packages, depLists(id), flags, removeOnlyIfExists);
      return Failure(outcome.error);
    }
    var done: seq<ComponentRemoval>;
    if compIds == [] {
      done := [];
    } else {
      done := ApplyRemovals(ws, compIds, packages, depLists, currentConfig, flags, removeOnlyIfExists);
    }
    ws.WriteBitMap("deps-remove (" + componentPattern + ")");
    r := Success(RemovalResults(done));
  }

  // ---------------------------------------------------------------------
  // set, reset, eject
  // ---------------------------------------------------------------------

  datatype SetFlags = SetFlags(dev: bool, peer: bool)

  /** setDependency's field: dev over peer over runtime, named as remove names it. */
  function GetDepField(flags: SetFlags): (field: string)
    ensures field == KeyNameByLifecycle(if flags.dev then Dev else if flags.peer then Peer else Runtime)
  {
    if flags.dev then "devDependencies" else if flags.peer then "peerDependencies" else "dependencies"
  }

  /**
   * The `packagesObj` of setDependency: every spec resolved, later specs
   * of the same name overwriting earlier ones; the first failure aborts.
   */
  function ResolvePackages(packages: seq<string>, resolveRemoteVersion: string -> Option<string>,
                           packagesObj: map<string, string>)
    : Result<map<string, string>, DepError>
    decreases |packages|
  {
    if packages == [] then Success(packagesObj)
    else
      var resolved :- GetPackageNameAndVerResolved(packages[0], resolveRemoteVersion);
      ResolvePackages(packages[1..], resolveRemoteVersion, packagesObj[resolved.0 := resolved.1])
  }

  /** Every resolved package is one of the requested names and carries a non-empty version. */
  lemma {:induction false} ResolvePackagesNames(packages: seq<string>, resolveRemoteVersion: string -> Option<string>,
                                                 packagesObj: map<string, string>)
    requires forall n :: n in packagesObj ==> packagesObj[n] != ""
    ensures var r := ResolvePackages(packages, resolveRemoteVersion, packagesObj);
      r.Success? ==>
        && packagesObj.Keys <= r.value.Keys
        && (forall n :: n in r.value ==> r.value[n] != "")
        && (forall n :: n in r.value && n !in packagesObj ==>
              exists j :: 0 <= j < |packages| && SplitPkgToNameAndVer(packages[j]).Success?
                                              && SplitPkgToNameAndVer(packages[j]).value.0 == n)
  {
    if packages != [] {
      var first := GetPackageNameAndVerResolved(packages[0], resolveRemoteVersion);
      if first.Success? {
        var next := packagesObj[first.value.0 := first.value.1];
        ResolvePackagesNames(packages[1..], resolveRemoteVersion, next);
        var r := ResolvePackages(packages, resolveRemoteVersion, packagesObj);
        if r.Success? {
          forall n | n in r.value && n !in packagesObj
            ensures exists j :: 0 <= j < |packages| && SplitPkgToNameAndVer(packages[j]).Success?
                                                   && SplitPkgToNameAndVer(packages[j]).value.0 == n
          {
            if n in next {
              assert n == first.value.0;
            } else {
              var j :| 0 <= j < |packages[1..]| && SplitPkgToNameAndVer(packages[1..][j]).Success?
                                                 && SplitPkgToNameAndVer(packages[1..][j]).value.0 == n;
              assert packages[j + 1] == packages[1..][j];
            }
          }
        }
      }
    }
  }

  /** Resolving more specs never drops a name already in `packagesObj`. */
  lemma {:induction false} ResolvePackagesKeepsKeys(packages: seq<string>, resolveRemoteVersion: string -> Option<string>,
                                                     packagesObj: map<string, string>)
    ensures var r := ResolvePackages(packages, resolveRemoteVersion, packagesObj);
      r.Success? ==> packagesObj.Keys <= r.value.Keys
  {
    if packages != [] {
      var first := GetPackageNameAndVerResolved(packages[0], resolveRemoteVersion);
      if first.Success? {
        ResolvePackagesKeepsKeys(packages[1..], resolveRemoteVersion, packagesObj[first.value.0 := first.value.1]);
      }
    }
  }

  /** On success every spec resolved and every spec's name is a key of the resolved map. */
  lemma {:induction false} ResolvePackagesWritesEverySpec(packages: seq<string>, resolveRemoteVersion: string -> Option<string>,
                                                          packagesObj: map<string, string>)
    requires ResolvePackages(packages, resolveRemoteVersion, packagesObj).Success?
    ensures forall j :: 0 <= j < |packages| ==> GetPackageNameAndVerResolved(packages[j], resolveRemoteVersion).Success?
    ensures forall j :: 0 <= j < |packages| ==>
      && SplitPkgToNameAndVer(packages[j]).Success?
      && SplitPkgToNameAndVer(packages[j]).value.0 in ResolvePackages(packages, resolveRemoteVersion, packagesObj).value
  {
    if packages != [] {
      var first := GetPackageNameAndVerResolved(packages[0], resolveRemoteVersion);
      var tail := packages[1..];
      var next := packagesObj[first.value.0 := first.value.1];
      ResolvePackagesWritesEverySpec(tail, resolveRemoteVersion, next);
      ResolvePackagesKeepsKeys(tail, resolveRemoteVersion, next);
      forall j | 0 < j < |packages| ensures packages[j] == tail[j - 1] {
      }
    }
  }

  /** A name that no spec gives keeps the version it had before resolution. */
  lemma {:induction false} ResolvePackagesKeepsUnnamed(packages: seq<string>, resolveRemoteVersion: string -> Option<string>,
                                                       packagesObj: map<string, string>, n: string)
    requires ResolvePackages(packages, resolveRemoteVersion, packagesObj).Success?
    requires n in packagesObj
    requires forall j :: 0 <= j < |packages| ==> SplitPkgToNameAndVer(packages[j]).Success? ==>
               SplitPkgToNameAndVer(packages[j]).value.0 != n
    ensures n in ResolvePackages(packages, resolveRemoteVersion, packagesObj).value
    ensures ResolvePackages(packages, resolveRemoteVersion, packagesObj).value[n] == packagesObj[n]
  {
    if packages != [] {
      var first := GetPackageNameAndVerResolved(packages[0], resolveRemoteVersion);
      var tail := packages[1..];
      forall k | 0 <= k < |tail| ensures tail[k] == packages[k + 1] {
      }
      ResolvePackagesKeepsUnnamed(tail, resolveRemoteVersion, packagesObj[first.value.0 := first.value.1], n);
    }
  }

  /**
   * The last spec giving a name decides its version; in particular a name
   * given by a single spec gets that spec's resolved version.
   */
  lemma {:induction false} ResolvePackagesLastSpecWins(packages: seq<string>, resolveRemoteVersion: string -> Option<string>,
                                                       packagesObj: map<string, string>, j: nat)
    requires ResolvePackages(packages, resolveRemoteVersion, packagesObj).Success?
    requires j < |packages|
    requires GetPackageNameAndVerResolved(packages[j], resolveRemoteVersion).Success?
    requires forall k :: j < k < |packages| ==> SplitPkgToNameAndVer(packages[k]).Success? ==>
               SplitPkgToNameAndVer(packages[k]).value.0 != SplitPkgToNameAndVer(packages[j]).value.0
    ensures var resolved := GetPackageNameAndVerResolved(packages[j], resolveRemoteVersion).value;
      && resolved.0 in ResolvePackages(packages, resolveRemoteVersion, packagesObj).value
      && ResolvePackages(packages, resolveRemoteVersion, packagesObj).value[resolved.0] == resolved.1
  {
    var first := GetPackageNameAndVerResolved(packages[0], resolveRemoteVersion);
    var tail := packages[1..];
    var next := packagesObj[first.value.0 := first.value.1];
    if j == 0 {
      forall k | 0 <= k < |tail| && SplitPkgToNameAndVer(tail[k]).Success?
        ensures SplitPkgToNameAndVer(tail[k]).value.0 != first.value.0
      {
        assert tail[k] == packages[k + 1];
      }
      ResolvePackagesKeepsUnnamed(tail, resolveRemoteVersion, next, first.value.0);
    } else {
      assert packages[j] == tail[j - 1];
      forall k | j - 1 < k < |tail| ensures tail[k] == packages[k + 1] {
      }
      ResolvePackagesLastSpecWins(tail, resolveRemoteVersion, next, j - 1);
    }
  }

  datatype SetResult = SetResult(changedComps: seq<string>, addedPackages: map<string, string>)

  function SameConfigWrites(compIds: seq<ComponentId>, config: DepResolverConfig, options: Option<MergeOptions>)
    : (writes: seq<ConfigWrite>)
    ensures |writes| == |compIds|
    ensures forall k :: 0 <= k < |compIds| ==>
      writes[k] == ConfigWrite(compIds[k], DependencyResolverAspectId, config, options)
  {
    seq(|compIds|, k requires 0 <= k < |compIds| => ConfigWrite(compIds[k], DependencyResolverAspectId, config, options))
  }

  /** Writes `config` to every matched component, in pattern order. */
  method WriteToAll(ws: Workspace, compIds: seq<ComponentId>, config: DepResolverConfig, options: Option<MergeOptions>)
    modifies ws
    ensures ws.configWrites == old(ws.configWrites) + SameConfigWrites(compIds, config, options)
    ensures ws.manifestWrites == old(ws.manifestWrites)
  {
    var i := 0;
    while i < |compIds|
      invariant 0 <= i <= |compIds|
      invariant ws.configWrites == old(ws.configWrites) + SameConfigWrites(compIds[..i], config, options)
      invariant ws.manifestWrites == old(ws.manifestWrites)
    {
      ws.AddSpecificComponentConfig(compIds[i], config, options);
      assert compIds[..i + 1] == compIds[..i] + [compIds[i]];
      i := i + 1;
    }
    assert compIds[..i] == compIds;
  }

  /**
   * setDependency: all specs are resolved before anything is written; then
   * `{policy: {field: packagesObj}}` is merged into every matched component
   * and the manifest is written once.
   */
  method SetDependency(ws: Workspace, componentPattern: string, compIds: seq<ComponentId>, packages: seq<string>,
                       flags: SetFlags, resolveRemoteVersion: string -> Option<string>)
    returns (r: Result<SetResult, DepError>)
    modifies ws
    ensures r.Failure? <==> ResolvePackages(packages, resolveRemoteVersion, map[]).Failure?
    ensures r.Failure? ==> ws.configWrites == old(ws.configWrites) && ws.manifestWrites == old(ws.manifestWrites)
    ensures r.Success? ==>
      var added := ResolvePackages(packages, resolveRemoteVersion, map[]).value;
      var config := DepResolverConfig(Some(map[GetDepField(flags) := added]));
      && r.value.addedPackages == added
      && |r.value.changedComps| == |compIds|
      && (forall k :: 0 <= k < |compIds| ==> r.value.changedComps[k] == compIds[k].ToStringWithoutVersion())
      && ws.configWrites == old(ws.configWrites) + SameConfigWrites(compIds, config, Some(MergeOptions(true, true)))
      && ws.manifestWrites == old(ws.manifestWrites) + ["deps-set (" + componentPattern + ")"]
  {
    var resolved := ResolvePackages(packages, resolveRemoteVersion, map[]);
    if resolved.Failure? {
      return Failure(resolved.error);
    }
    var packagesObj := resolved.value;
    var config := DepResolverConfig(Some(map[GetDepField(flags) := packagesObj]));
    WriteToAll(ws, compIds, config, Some(MergeOptions(true, true)));
    ws.WriteBitMap("deps-set (" + componentPattern + ")");
    var changed := seq(|compIds|, k requires 0 <= k < |compIds| => compIds[k].ToStringWithoutVersion());
    r := Success(SetResult(changed, packagesObj));
  }

  /** reset: an empty policy written to every matched component, then one manifest write. */
  method Reset(ws: Workspace, componentPattern: string, compIds: seq<ComponentId>)
    returns (r: seq<ComponentId>)
    modifies ws
    ensures r == compIds
    ensures ws.configWrites == old(ws.configWrites) + SameConfigWrites(compIds, DepResolverConfig(Some(map[])), None)
    ensures ws.manifestWrites == old(ws.manifestWrites) + ["deps-reset (" + componentPattern + ")"]
  {
    WriteToAll(ws, compIds, DepResolverConfig(Some(map[])), None);
    ws.WriteBitMap("deps-reset (" + componentPattern + ")");
    r := compIds;
  }

  /**
   * eject: an empty config merged with the existing and the previous ones,
   * which materialises the effective policy, then one manifest write.
   */
  method Eject(ws: Workspace, componentPattern: string, compIds: seq<ComponentId>)
    returns (r: seq<ComponentId>)
    modifies ws
    ensures r == compIds
    ensures ws.configWrites == old(ws.configWrites)
                               + SameConfigWrites(compIds, DepResolverConfig(None), Some(MergeOptions(true, true)))
    ensures ws.manifestWrites == old(ws.manifestWrites) + ["deps-eject (" + componentPattern + ")"]
  {
    WriteToAll(ws, compIds, DepResolverConfig(None), Some(MergeOptions(true, true)));
    ws.WriteBitMap("deps-eject (" + componentPattern + ")");
    r := compIds;
  }

  // ---------------------------------------------------------------------
  // blame
  // ---------------------------------------------------------------------

  datatype LogItem = LogItem(hash: string, tag: Option<string>, username: Option<string>,
                             date: Option<string>, message: string)

  datatype BlameResult = BlameResult(snap: string, tag: Option<string>, author: string,
                                     date: string, message: string, version: string)

  const NotAvailable: string := "<N/A>"
  const RemovedVersion: string := "<REMOVED>"

  /** The version the log item is loaded at: its tag, or its hash when the tag is empty. */
  function LogItemRef(item: LogItem): string
  {
    if item.tag.Some? && item.tag.value != "" then item.tag.value else item.hash
  }

  /** The entry pushed for a log item; `formatDate` stands for the date formatting. */
  function BlameEntry(item: LogItem, version: string, formatDate: string -> string): BlameResult
  {
    BlameResult(
      item.hash, item.tag,
      if item.username.Some? && item.username.value != "" then item.username.value else NotAvailable,
      if item.date.Some? && item.date.value != "" then formatDate(item.date.value) else NotAvailable,
      item.message, version)
  }

  /**
   * One iteration of blame's series loop, as written: the new `lastVersion`
   * and the entry pushed, if any. `depVersionAt` gives the dependency's
   * version in the component loaded at a ref, or none when it is absent.
   */
  function BlameStep(item: LogItem, lastVersion: string, depVersionAt: string -> Option<string>,
                     formatDate: string -> string)
    : (string, Option<BlameResult>)
  {
    var dependency := depVersionAt(LogItemRef(item));
    if dependency.Some? && dependency.value == lastVersion then (lastVersion, None)
    else if dependency.None? && lastVersion == "" then (lastVersion, None)
    else
      var version := if dependency.None? then RemovedVersion else dependency.value;
      if dependency.None? || dependency.value == lastVersion then (lastVersion, None)
      else (dependency.value, Some(BlameEntry(item, version, formatDate)))
  }

  /** The entries blame returns for the rest of the log, starting from `lastVersion`. */
  function BlameFrom(log: seq<LogItem>, lastVersion: string, depVersionAt: string -> Option<string>,
                     formatDate: string -> string)
    : seq<BlameResult>
    decreases |log|
  {
    if log == [] then []
    else
      var (next, entry) := BlameStep(log[0], lastVersion, depVersionAt, formatDate);
      (if entry.Some? then [entry.value] else []) + BlameFrom(log[1..], next, depVersionAt, formatDate)
  }

  /** The `lastVersion` left after the rest of the log. */
  function BlameLastVersion(log: seq<LogItem>, lastVersion: string, depVersionAt: string -> Option<string>,
                            formatDate: string -> string)
    : string
    decreases |log|
  {
    if log == [] then lastVersion
    else BlameLastVersion(log[1..], BlameStep(log[0], lastVersion, depVersionAt, formatDate).0, depVersionAt, formatDate)
  }

  /** blame: the series loop over the log with the `lastVersion` accumulator. */
  method Blame(log: seq<LogItem>, depVersionAt: string -> Option<string>, formatDate: string -> string)
    returns (blameResults: seq<BlameResult>)
    ensures blameResults == BlameFrom(log, "", depVersionAt, formatDate)
  {
    blameResults := [];
    var lastVersion := "";
    var i := 0;
    assert log[i..] == log;
    while i < |log|
      invariant 0 <= i <= |log|
      invariant blameResults + BlameFrom(log[i..], lastVersion, depVersionAt, formatDate)
             == BlameFrom(log, "", depVersionAt, formatDate)
    {
      assert log[i..][1..] == log[i + 1..];
      var logItem := log[i];
      var dependency := depVersionAt(LogItemRef(logItem));
      ghost var step := BlameStep(logItem, lastVersion, depVersionAt, formatDate);
      ghost var rest := BlameFrom(log[i + 1..], step.0, depVersionAt, formatDate);
      assert BlameFrom(log[i..], lastVersion, depVersionAt, formatDate)
             == (if step.1.Some? then [step.1.value] else []) + rest;
      i := i + 1;
      if dependency.Some? && dependency.value == lastVersion {
        SkippedStep(log, i, lastVersion, depVersionAt, formatDate);
        continue;
      }
      var version: string;
      if dependency.None? {
        if lastVersion == "" {
          SkippedStep(log, i, lastVersion, depVersionAt, formatDate);
          continue;
        }
        version := RemovedVersion;
      } else {
        version := dependency.value;
      }
      if dependency.None? || dependency.value == lastVersion {
        SkippedStep(log, i, lastVersion, depVersionAt, formatDate);
        continue;
      }
      var entry := BlameEntry(logItem, version, formatDate);
      assert step == (dependency.value, Some(entry));
      assert (blameResults + [entry]) + rest == blameResults + ([entry] + rest);
      lastVersion := dependency.value;
      blameResults := blameResults + [entry];
    }
  }

  /** A log item blame skips leaves the entries still to come unchanged. */
  lemma SkippedStep(log: seq<LogItem>, i: nat, lastVersion: string,
                    depVersionAt: string -> Option<string>, formatDate: string -> string)
    requires 0 < i <= |log|
    requires BlameStep(log[i - 1], lastVersion, depVersionAt, formatDate) == (lastVersion, None)
    ensures BlameFrom(log[i - 1..], lastVersion, depVersionAt, formatDate)
            == BlameFrom(log[i..], lastVersion, depVersionAt, formatDate)
  {
    assert log[i - 1..][1..] == log[i..];
  }

  /** The entries of every log item whose component has the dependency, in log order. */
  function Sightings(log: seq<LogItem>, depVersionAt: string -> Option<string>, formatDate: string -> string)
    : seq<BlameResult>
  {
    if log == [] then []
    else
      var dependency := depVersionAt(LogItemRef(log[0]));
      (if dependency.Some? then [BlameEntry(log[0], dependency.value, formatDate)] else [])
        + Sightings(log[1..], depVersionAt, formatDate)
  }

  lemma SubsequenceCons<T>(x: T, a: seq<T>, b: seq<T>)
    requires IsSubsequence(a, b)
    ensures IsSubsequence([x] + a, [x] + b)
    ensures IsSubsequence(a, [x] + b)
  {
    assert ([x] + a)[1..] == a;
    assert ([x] + b)[1..] == b;
  }

  /**
   * One blame iteration, as written, pushes an entry exactly when the
   * dependency is present at a version other than `lastVersion`; the entry
   * carries that version and `lastVersion` follows it. The `<REMOVED>`
   * version computed for an absent dependency is never pushed, because the
   * guard right after it skips every absent dependency.
   */
  lemma BlameStepPushesChanges(item: LogItem, lastVersion: string, depVersionAt: string -> Option<string>,
                               formatDate: string -> string)
    ensures var dependency := depVersionAt(LogItemRef(item));
      var (next, entry) := BlameStep(item, lastVersion, depVersionAt, formatDate);
      && (entry.Some? <==> dependency.Some? && dependency.value != lastVersion)
      && (entry.Some? ==> entry.value == BlameEntry(item, dependency.value, formatDate) && next == dependency.value)
      && (entry.None? ==> next == lastVersion)
  {
  }

  /**
   * Blame keeps log order and reports only actual sightings of the
   * dependency: its entries are a subsequence of the sightings, so an
   * absent dependency never produces an entry.
   */
  lemma {:induction false} BlameReportsSightingsInOrder(log: seq<LogItem>, lastVersion: string,
      depVersionAt: string -> Option<string>, formatDate: string -> string)
    ensures IsSubsequence(BlameFrom(log, lastVersion, depVersionAt, formatDate), Sightings(log, depVersionAt, formatDate))
    decreases |log|
  {
    if log != [] {
      var step := BlameStep(log[0], lastVersion, depVersionAt, formatDate);
      BlameStepPushesChanges(log[0], lastVersion, depVersionAt, formatDate);
      BlameReportsSightingsInOrder(log[1..], step.0, depVersionAt, formatDate);
      var rest := BlameFrom(log[1..], step.0, depVersionAt, formatDate);
      var restSightings := Sightings(log[1..], depVersionAt, formatDate);
      var dependency := depVersionAt(LogItemRef(log[0]));
      assert BlameFrom(log, lastVersion, depVersionAt, formatDate)
          == (if step.1.Some? then [step.1.value] else []) + rest;
      if dependency.Some? {
        var x := BlameEntry(log[0], dependency.value, formatDate);
        assert Sightings(log, depVersionAt, formatDate) == [x] + restSightings;
        SubsequenceCons(x, rest, restSightings);
        if step.1.None? {
          assert [] + rest == rest;
        }
      } else {
        assert Sightings(log, depVersionAt, formatDate) == [] + restSightings == restSightings;
        assert [] + rest == rest;
      }
    }
  }

  /**
   * Consecutive entries report different versions, the first differs from
   * the starting `lastVersion`, and `lastVersion` moves only when an entry
   * is pushed: it ends as the last entry's version.
   */
  lemma {:induction false} BlameVersionsChange(log: seq<LogItem>, lastVersion: string,
      depVersionAt: string -> Option<string>, formatDate: string -> string)
    ensures var r := BlameFrom(log, lastVersion, depVersionAt, formatDate);
      && (r != [] ==> r[0].version != lastVersion)
      && (forall k :: 0 < k < |r| ==> r[k].version != r[k - 1].version)
      && BlameLastVersion(log, lastVersion, depVersionAt, formatDate)
         == (if r == [] then lastVersion else r[|r| - 1].version)
    decreases |log|
  {
    if log != [] {
      var step := BlameStep(log[0], lastVersion, depVersionAt, formatDate);
      BlameStepPushesChanges(log[0], lastVersion, depVersionAt, formatDate);
      BlameVersionsChange(log[1..], step.0, depVersionAt, formatDate);
      var rest := BlameFrom(log[1..], step.0, depVersionAt, formatDate);
      var r := BlameFrom(log, lastVersion, depVersionAt, formatDate);
      assert BlameLastVersion(log, lastVersion, depVersionAt, formatDate)
          == BlameLastVersion(log[1..], step.0, depVersionAt, formatDate);
      if step.1.Some? {
        assert r == [step.1.value] + rest;
        assert step.1.value.version == step.0;
        forall k | 0 < k < |r| ensures r[k].version != r[k - 1].version {
          if k > 1 { assert r[k] == rest[k - 1] && r[k - 1] == rest[k - 2]; }
        }
        if rest != [] { assert r[|r| - 1] == rest[|rest| - 1]; }
      } else {
        assert r == [] + rest == rest;
      }
    }
  }

  /** The `<REMOVED>` branch never produces an entry: every entry carries a real version. */
  lemma {:induction false} BlameNeverReportsRemoval(log: seq<LogItem>, lastVersion: string,
      depVersionAt: string -> Option<string>, formatDate: string -> string)
    requires forall k :: 0 <= k < |log| ==> depVersionAt(LogItemRef(log[k])) != Some(RemovedVersion)
    ensures forall e :: e in BlameFrom(log, lastVersion, depVersionAt, formatDate) ==> e.version != RemovedVersion
    decreases |log|
  {
    if log != [] {
      var step := BlameStep(log[0], lastVersion, depVersionAt, formatDate);
      BlameStepPushesChanges(log[0], lastVersion, depVersionAt, formatDate);
      assert forall k :: 0 <= k < |log[1..]| ==> log[1..][k] == log[k + 1];
      BlameNeverReportsRemoval(log[1..], step.0, depVersionAt, formatDate);
    }
  }

  /**
   * A dependency at 1.0.0, 1.0.0, 2.0.0, 2.0.0 and then dropped: entries at
   * the first and the third snapshot, none for the removal.
   */
  lemma BlameExample(formatDate: string -> string)
    ensures
      var log := [LogItem("h1", None, None, None, "m1"), LogItem("h2", None, None, None, "m2"),
                  LogItem("h3", None, None, None, "m3"), LogItem("h4", None, None, None, "m4"),
                  LogItem("h5", None, None, None, "m5")];
      var versions := (ref: string) =>
        if ref == "h1" || ref == "h2" then Some("1.0.0") else if ref == "h3" || ref == "h4" then Some("2.0.0") else None;
      var r := BlameFrom(log, "", versions, formatDate);
      |r| == 2 && r[0].snap == "h1" && r[0].version == "1.0.0" && r[1].snap == "h3" && r[1].version == "2.0.0"
  {
    var log := [LogItem("h1", None, None, None, "m1"), LogItem("h2", None, None, None, "m2"),
                LogItem("h3", None, None, None, "m3"), LogItem("h4", None, None, None, "m4"),
                LogItem("h5", None, None, None, "m5")];
    var versions := (ref: string) =>
      if ref == "h1" || ref == "h2" then Some("1.0.0") else if ref == "h3" || ref == "h4" then Some("2.0.0") else None;
    assert log[1..][1..][1..][1..][1..] == [];
    assert BlameFrom(log[1..][1..][1..][1..], "2.0.0", versions, formatDate) == [];
  }

  // ---------------------------------------------------------------------
  // usage
  // ---------------------------------------------------------------------

  /** The results dictionary after visiting `comps`: id string -> version found. */
  function UsageFrom(results: map<string, string>, comps: seq<ComponentId>, depLists: ComponentId -> Finder,
                     name: string, version: Option<string>)
    : map<string, string>
    decreases |comps|
  {
    if comps == [] then results
    else
      var dependency := depLists(comps[0])(name, version);
      var next := if dependency.Some? then results[comps[0].ToString() := dependency.value.version] else results;
      UsageFrom(next, comps[1..], depLists, name, version)
  }

  /** The usage report names exactly the components whose dependency list has the package. */
  lemma {:induction false} UsageReportsExactlyTheUsers(results: map<string, string>, comps: seq<ComponentId>,
      depLists: ComponentId -> Finder, name: string, version: Option<string>)
    ensures var r := UsageFrom(results, comps, depLists, name, version);
      forall k :: k in r <==>
        (k in results ||
         exists j :: 0 <= j < |comps| && comps[j].ToString() == k && depLists(comps[j])(name, version).Some?)
    decreases |comps|
  {
    if comps != [] {
      var dependency := depLists(comps[0])(name, version);
      var next := if dependency.Some? then results[comps[0].ToString() := dependency.value.version] else results;
      UsageReportsExactlyTheUsers(next, comps[1..], depLists, name, version);
      var r := UsageFrom(results, comps, depLists, name, version);
      assert r == UsageFrom(next, comps[1..], depLists, name, version);
      forall k
        ensures k in r <==>
          (k in results ||
           exists j :: 0 <= j < |comps| && comps[j].ToString() == k && depLists(comps[j])(name, version).Some?)
      {
        assert k in next <==> k in results || (k == comps[0].ToString() && dependency.Some?);
        if k == comps[0].ToString() && dependency.Some? {
          assert comps[0].ToString() == k && depLists(comps[0])(name, version).Some?;
        }
        if exists j :: 0 <= j < |comps[1..]| && comps[1..][j].ToString() == k && depLists(comps[1..][j])(name, version).Some? {
          var j :| 0 <= j < |comps[1..]| && comps[1..][j].ToString() == k && depLists(comps[1..][j])(name, version).Some?;
          assert comps[j + 1] == comps[1..][j];
        }
        if exists j :: 0 <= j < |comps| && comps[j].ToString() == k && depLists(comps[j])(name, version).Some? {
          var j :| 0 <= j < |comps| && comps[j].ToString() == k && depLists(comps[j])(name, version).Some?;
          if j > 0 { assert comps[1..][j - 1] == comps[j]; }
        }
      }
    }
  }

  /** A component whose id string is unique among the visited ones is reported with the version found in it. */
  lemma {:induction false} UsageReportsTheirVersions(results: map<string, string>, comps: seq<ComponentId>,
      depLists: ComponentId -> Finder, name: string, version: Option<string>, j: nat)
    requires j < |comps| && depLists(comps[j])(name, version).Some?
    requires forall i :: 0 <= i < |comps| && i != j ==> comps[i].ToString() != comps[j].ToString()
    ensures var r := UsageFrom(results, comps, depLists, name, version);
      comps[j].ToString() in r && r[comps[j].ToString()] == depLists(comps[j])(name, version).value.version
    decreases |comps|
  {
    var dependency := depLists(comps[0])(name, version);
    var next := if dependency.Some? then results[comps[0].ToString() := dependency.value.version] else results;
    assert UsageFrom(results, comps, depLists, name, version) == UsageFrom(next, comps[1..], depLists, name, version);
    if j > 0 {
      assert comps[1..][j - 1] == comps[j];
      forall i | 0 <= i < |comps[1..]| && i != j - 1 ensures comps[1..][i].ToString() != comps[1..][j - 1].ToString() {
        assert comps[1..][i] == comps[i + 1];
      }
      UsageReportsTheirVersions(next, comps[1..], depLists, name, version, j - 1);
    } else {
      forall i | 0 <= i < |comps[1..]| ensures comps[1..][i].ToString() != comps[0].ToString() {
        assert comps[1..][i] == comps[i + 1];
      }
      UsageKeepsAbsent(next, comps[1..], depLists, name, version, comps[0].ToString());
    }
  }

  /** A key no remaining component prints as keeps its value. */
  lemma {:induction false} UsageKeepsAbsent(results: map<string, string>, comps: seq<ComponentId>,
      depLists: ComponentId -> Finder, name: string, version: Option<string>, key: string)
    requires key in results
    requires forall i :: 0 <= i < |comps| ==> comps[i].ToString() != key
    ensures var r := UsageFrom(results, comps, depLists, name, version);
      key in r && r[key] == results[key]
    decreases |comps|
  {
    if comps != [] {
      var dependency := depLists(comps[0])(name, version);
      var next := if dependency.Some? then results[comps[0].ToString() := dependency.value.version] else results;
      assert forall i :: 0 <= i < |comps[1..]| ==> comps[1..][i] == comps[i + 1];
      UsageKeepsAbsent(next, comps[1..], depLists, name, version, key);
    }
  }

  /** usage: the spec is split first; every component is then asked for the dependency. */
  method Usage(depName: string, comps: seq<ComponentId>, depLists: ComponentId -> Finder)
    returns (r: Result<map<string, string>, DepError>)
    ensures SplitPkgToNameAndVer(depName).Failure? ==> r == Failure(InvalidPackageSyntax(depName))
    ensures SplitPkgToNameAndVer(depName).Success? ==>
      var (name, version) := SplitPkgToNameAndVer(depName).value;
      r == Success(UsageFrom(map[], comps, depLists, name, version))
  {
    var split := SplitPkgToNameAndVer(depName);
    if split.Failure? {
      return Failure(split.error);
    }
    var (name, version) := split.value;
    var results: map<string, string> := map[];
    var i := 0;
    while i < |comps|
      invariant 0 <= i <= |comps|
      invariant UsageFrom(results, comps[i..], depLists, name, version) == UsageFrom(map[], comps, depLists, name, version)
    {
      assert comps[i..][1..] == comps[i + 1..];
      var dependency := depLists(comps[i])(name, version);
      if dependency.Some? {
        results := results[comps[i].ToString() := dependency.value.version];
      }
      i := i + 1;
    }
    r := Success(results);
  }
}
