/**
 * The workspace component loader: the component cache and its keys, loading
 * one component (from the workspace, from the scope, or both), the on-load
 * slot that attaches extension data, the multiple-envs issue, and loading
 * many components with per-id error handling.
 *
 * Components are values here; the loader, whose cache the methods update in
 * place, is a class.  Everything the loader asks of the workspace, the scope,
 * the envs aspect and the dependency resolver is a function in `LoaderEnv`.
 */
module Loader {
  import opened Wrappers
  import opened Strings
  import opened Sorting
  import opened ComponentIds
  import opened Overrides
  import Dependencies

  const EnvsAspectId := "teambit.envs/envs"
  const MultipleEnvs := "MultipleEnvs"
  const MergeConfigHasConflict := "MergeConfigHasConflict"
  const OriginatedFromHarmony := "originatedFromHarmony"

  /** The data one aspect keeps on a component: a JSON object. */
  type ExtData = map<string, Json>

  datatype ExtensionEntry = ExtensionEntry(name: string, data: ExtData)

  datatype IssueData = EnvList(envIds: seq<string>) | Flag(value: bool)

  datatype Component = Component(
    id: ComponentId,
    removed: bool,
    extensions: seq<ExtensionEntry>,
    issues: map<string, IssueData>)

  /** What the legacy consumer loads from the file system. */
  datatype ConsumerComponent = ConsumerComponent(
    id: ComponentId,
    removed: bool,
    issues: map<string, IssueData>)

  datatype LoadError =
    | ComponentNotFound(id: string)
    | MissingBitMapComponent(id: string)
    | ComponentNotFoundInPath(path: string)
    | OtherError(message: string)

  datatype ExtensionsResult = ExtensionsResult(extensions: seq<ExtensionEntry>, hasMergeConflict: bool)

  /** Load options in property order; each option is a boolean flag. */
  type LoadOptions = seq<(string, bool)>

  /** One slot registration: the aspect id and its on-load callback. */
  type OnLoad = (Component, Option<LoadOptions>) -> Option<ExtData>

  /** The loader's collaborators. */
  datatype LoaderEnv = LoaderEnv(
    latestVersion: ComponentId -> Option<string>,
    loadComponents: ComponentId -> Result<Option<ConsumerComponent>, LoadError>,
    scopeGet: ComponentId -> Option<Component>,
    componentExtensions: (ComponentId, Option<Component>) -> ExtensionsResult,
    envsData: Component -> Option<ExtData>,
    depResolverData: Component -> ExtData,
    onLoadSlots: seq<(string, OnLoad)>,
    envIds: Component -> seq<string>,
    isInvalidByErrorType: LoadError -> bool)

  predicate IsNotExistsError(e: LoadError) {
    e.ComponentNotFound? || e.MissingBitMapComponent?
  }

  // ---------------------------------------------------------------------
  // Cache keys

  function OptionName(option: (string, bool)): string {
    option.0
  }

  function StringifyOption(option: (string, bool)): string {
    "\"" + option.0 + "\":" + (if option.1 then "true" else "false")
  }

  function StringifyMembers(options: LoadOptions): string {
    if options == [] then ""
    else if |options| == 1 then StringifyOption(options[0])
    else StringifyOption(options[0]) + "," + StringifyMembers(options[1..])
  }

  /** `JSON.stringify` of a flat object of boolean options. */
  function Stringify(options: LoadOptions): string {
    "{" + StringifyMembers(options) + "}"
  }

  /** The id, a colon, and the options with their keys sorted; no options means `{}`. */
  function CacheKey(id: ComponentId, opts: Option<LoadOptions>): (key: string)
    ensures StartsWith(key, id.ToString() + ":")
  {
    var prefix := id.ToString() + ":";
    var key := prefix + Stringify(SortBy(opts.GetOr([]), OptionName));
    assert key[..|prefix|] == prefix;
    key
  }

  /** Passing the same options in another order selects the same cache entry. */
  lemma CacheKeyIgnoresOptionOrder(id: ComponentId, a: LoadOptions, b: LoadOptions)
    requires multiset(a) == multiset(b)
    requires DistinctKeys(a, OptionName)
    ensures CacheKey(id, Some(a)) == CacheKey(id, Some(b))
  {
    SortByCanonical(a, b, OptionName);
  }

  /** No options and an empty options object select the same cache entry. */
  lemma CacheKeyNoOptions(id: ComponentId)
    ensures CacheKey(id, None) == CacheKey(id, Some([]))
    ensures CacheKey(id, None) == id.ToString() + ":{}"
  {
  }

  /** The key is a function of the id's string only. */
  lemma CacheKeyByIdString(a: ComponentId, b: ComponentId, opts: Option<LoadOptions>)
    requires a.ToString() == b.ToString()
    ensures CacheKey(a, opts) == CacheKey(b, opts)
  {
  }

  // ---------------------------------------------------------------------
  // The cache as a map from keys to components

  /** A hit needs the key and an equal id, not only an equal id string. */
  function Lookup(cache: map<string, Component>, id: ComponentId, opts: Option<LoadOptions>): (r: Option<Component>)
    ensures r.Some? ==> CacheKey(id, opts) in cache && r.value == cache[CacheKey(id, opts)] && r.value.id.IsEqual(id)
    ensures r.None? ==> CacheKey(id, opts) !in cache || !cache[CacheKey(id, opts)].id.IsEqual(id)
  {
    var key := CacheKey(id, opts);
    if key in cache && cache[key].id.IsEqual(id) then Some(cache[key]) else None
  }

  /** A component saved under its own id is found again with the same options. */
  lemma SavedComponentIsFound(cache: map<string, Component>, c: Component, opts: Option<LoadOptions>)
    ensures Lookup(cache[CacheKey(c.id, opts) := c], c.id, opts) == Some(c)
  {
  }

  /** An id that prints like the cached one but differs from it misses. */
  lemma LookupRejectsStringEqualIds(cache: map<string, Component>, a: ComponentId, b: ComponentId, opts: Option<LoadOptions>)
    requires CacheKey(a, opts) in cache && cache[CacheKey(a, opts)].id == a
    requires a.ToString() == b.ToString() && !a.IsEqual(b)
    ensures Lookup(cache, b, opts) == None
  {
    CacheKeyByIdString(a, b, opts);
  }

  predicate IsComponentKey(key: string, idStr: string) {
    key == idStr || StartsWith(key, idStr + ":")
  }

  /** The cache after every key of one id string is deleted. */
  function WithoutComponent(cache: map<string, Component>, idStr: string): map<string, Component> {
    map k | k in cache && !IsComponentKey(k, idStr) :: cache[k]
  }

  /** After clearing an id, no options find it; every other key keeps its component. */
  lemma ClearedComponentMisses(cache: map<string, Component>, id: ComponentId, other: ComponentId, opts: Option<LoadOptions>)
    requires other.ToString() == id.ToString()
    ensures Lookup(WithoutComponent(cache, id.ToString()), other, opts) == None
    ensures forall k :: k in cache && !IsComponentKey(k, id.ToString()) ==>
              k in WithoutComponent(cache, id.ToString()) && WithoutComponent(cache, id.ToString())[k] == cache[k]
    ensures WithoutComponent(cache, id.ToString()).Keys <= cache.Keys
  {
    CacheKeyByIdString(other, id, opts);
  }

  /** Clearing by an id without a version leaves the entries cached under a versioned id. */
  lemma ClearByUnversionedIdKeepsVersioned(c: Component)
    requires c.id == ComponentId("button", Some("ui"), "ui", Some("1.0.0"))
    ensures var cache := map[CacheKey(c.id, None) := c];
            var unversioned := ComponentId("button", Some("ui"), "ui", None);
            WithoutComponent(cache, unversioned.ToString()) == cache
  {
    var key := CacheKey(c.id, None);
    assert key == "ui/button@1.0.0:{}";
    var idStr := "ui/button";
    assert key[9] == '@' && (idStr + ":")[9] == ':';
    assert !IsComponentKey(key, idStr);
  }

  // ---------------------------------------------------------------------
  // Extension data

  /** The first entry with this name. */
  function FindExtension(extensions: seq<ExtensionEntry>, name: string): (r: Option<nat>)
    ensures r.Some? ==> r.value < |extensions| && extensions[r.value].name == name
                        && forall j :: 0 <= j < r.value ==> extensions[j].name != name
    ensures r.None? ==> forall j :: 0 <= j < |extensions| ==> extensions[j].name != name
  {
    if extensions == [] then None
    else if extensions[0].name == name then Some(0)
    else
      match FindExtension(extensions[1..], name)
      case Some(i) => Some(i + 1)
      case None => None
  }

  /** Falsy data is ignored; existing data is merged one level deep; otherwise a new entry is appended. */
  function UpsertExtensionData(extensions: seq<ExtensionEntry>, name: string, data: Option<ExtData>): seq<ExtensionEntry> {
    if data.None? then extensions
    else
      match FindExtension(extensions, name)
      case Some(i) => extensions[i := ExtensionEntry(name, extensions[i].data + data.value)]
      case None => extensions + [ExtensionEntry(name, data.value)]
  }

  predicate HasExtension(extensions: seq<ExtensionEntry>, name: string) {
    exists i :: 0 <= i < |extensions| && extensions[i].name == name
  }

  /** Every entry keeps its place and name; only a new name grows the list. */
  predicate KeepsNames(before: seq<ExtensionEntry>, after: seq<ExtensionEntry>) {
    |before| <= |after| && forall i :: 0 <= i < |before| ==> after[i].name == before[i].name
  }

  /** The three outcomes of an upsert. */
  lemma UpsertExtensionDataEffect(extensions: seq<ExtensionEntry>, name: string, data: Option<ExtData>)
    ensures data.None? ==> UpsertExtensionData(extensions, name, data) == extensions
    ensures data.Some? && HasExtension(extensions, name) ==>
              var r := UpsertExtensionData(extensions, name, data);
              var i := FindExtension(extensions, name).value;
              && |r| == |extensions|
              && (forall j :: 0 <= j < |r| && j != i ==> r[j] == extensions[j])
              && r[i].name == name
              && r[i].data.Keys == extensions[i].data.Keys + data.value.Keys
              && (forall k :: k in data.value ==> r[i].data[k] == data.value[k])
              && (forall k :: k in extensions[i].data && k !in data.value ==> r[i].data[k] == extensions[i].data[k])
    ensures data.Some? && !HasExtension(extensions, name) ==>
              UpsertExtensionData(extensions, name, data) == extensions + [ExtensionEntry(name, data.value)]
  {
  }

  /** An upsert keeps every entry's place and name, and leaves an entry for non-falsy data. */
  lemma UpsertKeepsNames(extensions: seq<ExtensionEntry>, name: string, data: Option<ExtData>)
    ensures KeepsNames(extensions, UpsertExtensionData(extensions, name, data))
    ensures data.Some? ==> HasExtension(UpsertExtensionData(extensions, name, data), name)
  {
    var r := UpsertExtensionData(extensions, name, data);
    if data.Some? {
      match FindExtension(extensions, name)
      case Some(i) =>
        assert r[i].name == name;
      case None =>
        assert r[|extensions|].name == name;
    }
  }

  lemma KeepsNamesTransitive(a: seq<ExtensionEntry>, b: seq<ExtensionEntry>, c: seq<ExtensionEntry>)
    requires KeepsNames(a, b) && KeepsNames(b, c)
    ensures KeepsNames(a, c)
  {
  }

  lemma KeepsNamesHas(a: seq<ExtensionEntry>, b: seq<ExtensionEntry>, name: string)
    requires KeepsNames(a, b) && HasExtension(a, name)
    ensures HasExtension(b, name)
  {
    var i :| 0 <= i < |a| && a[i].name == name;
    assert b[i].name == name;
  }

  // ---------------------------------------------------------------------
  // The load slot

  /** The on-load slots in registration order, each seeing the component the previous ones left. */
  function RunSlots(c: Component, slots: seq<(string, OnLoad)>, opts: Option<LoadOptions>): Component
    decreases |slots|
  {
    if slots == [] then c
    else
      var next := c.(extensions := UpsertExtensionData(c.extensions, slots[0].0, slots[0].1(c, opts)));
      RunSlots(next, slots[1..], opts)
  }

  /** Envs and dependency-resolver data first, then the slots; a removed component is left alone. */
  function LoadSlot(c: Component, opts: Option<LoadOptions>, env: LoaderEnv): Component {
    if c.removed then c
    else
      var withEnvs := UpsertExtensionData(c.extensions, EnvsAspectId, env.envsData(c));
      var withDeps := UpsertExtensionData(withEnvs, Dependencies.DependencyResolverAspectId, Some(env.depResolverData(c)));
      RunSlots(c.(extensions := withDeps), env.onLoadSlots, opts)
  }

  lemma {:induction false} RunSlotsKeepsNames(c: Component, slots: seq<(string, OnLoad)>, opts: Option<LoadOptions>)
    ensures var r := RunSlots(c, slots, opts);
            && KeepsNames(c.extensions, r.extensions)
            && r.id == c.id && r.removed == c.removed && r.issues == c.issues
    decreases |slots|
  {
    if slots != [] {
      var next := c.(extensions := UpsertExtensionData(c.extensions, slots[0].0, slots[0].1(c, opts)));
      UpsertKeepsNames(c.extensions, slots[0].0, slots[0].1(c, opts));
      RunSlotsKeepsNames(next, slots[1..], opts);
      KeepsNamesTransitive(c.extensions, next.extensions, RunSlots(next, slots[1..], opts).extensions);
    }
  }

  /** A later slot runs on what the earlier slots left. */
  lemma {:induction false} RunSlotsAppend(c: Component, first: seq<(string, OnLoad)>, second: seq<(string, OnLoad)>, opts: Option<LoadOptions>)
    ensures RunSlots(c, first + second, opts) == RunSlots(RunSlots(c, first, opts), second, opts)
    decreases |first|
  {
    if first == [] {
      assert first + second == second;
    } else {
      var next := c.(extensions := UpsertExtensionData(c.extensions, first[0].0, first[0].1(c, opts)));
      assert (first + second)[0] == first[0];
      assert (first + second)[1..] == first[1..] + second;
      RunSlotsAppend(next, first[1..], second, opts);
    }
  }

  /** The slots start from a component that already holds the envs and dependency-resolver data. */
  lemma SlotsRunAfterEnvsAndDeps(c: Component, opts: Option<LoadOptions>, env: LoaderEnv)
    requires !c.removed
    ensures exists start: Component ::
              && LoadSlot(c, opts, env) == RunSlots(start, env.onLoadSlots, opts)
              && start.id == c.id && start.issues == c.issues
              && KeepsNames(c.extensions, start.extensions)
              && HasExtension(start.extensions, Dependencies.DependencyResolverAspectId)
              && (env.envsData(c).Some? ==> HasExtension(start.extensions, EnvsAspectId))
  {
    var withEnvs := UpsertExtensionData(c.extensions, EnvsAspectId, env.envsData(c));
    var withDeps := UpsertExtensionData(withEnvs, Dependencies.DependencyResolverAspectId, Some(env.depResolverData(c)));
    UpsertKeepsNames(c.extensions, EnvsAspectId, env.envsData(c));
    UpsertKeepsNames(withEnvs, Dependencies.DependencyResolverAspectId, Some(env.depResolverData(c)));
    KeepsNamesTransitive(c.extensions, withEnvs, withDeps);
    if env.envsData(c).Some? {
      KeepsNamesHas(withEnvs, withDeps, EnvsAspectId);
    }
    var start := c.(extensions := withDeps);
    assert LoadSlot(c, opts, env) == RunSlots(start, env.onLoadSlots, opts);
  }

  /**
   * A removed component comes back unchanged.  Otherwise the id, removal flag
   * and issues are kept, every extension keeps its place, the dependency
   * resolver always has an entry, and the envs aspect has one when it returned data.
   */
  lemma LoadSlotEffect(c: Component, opts: Option<LoadOptions>, env: LoaderEnv)
    ensures c.removed ==> LoadSlot(c, opts, env) == c
    ensures var r := LoadSlot(c, opts, env);
            && r.id == c.id && r.removed == c.removed && r.issues == c.issues
            && KeepsNames(c.extensions, r.extensions)
    ensures !c.removed ==> HasExtension(LoadSlot(c, opts, env).extensions, Dependencies.DependencyResolverAspectId)
    ensures !c.removed && env.envsData(c).Some? ==> HasExtension(LoadSlot(c, opts, env).extensions, EnvsAspectId)
  {
    if !c.removed {
      var withEnvs := UpsertExtensionData(c.extensions, EnvsAspectId, env.envsData(c));
      var withDeps := UpsertExtensionData(withEnvs, Dependencies.DependencyResolverAspectId, Some(env.depResolverData(c)));
      UpsertKeepsNames(c.extensions, EnvsAspectId, env.envsData(c));
      UpsertKeepsNames(withEnvs, Dependencies.DependencyResolverAspectId, Some(env.depResolverData(c)));
      KeepsNamesTransitive(c.extensions, withEnvs, withDeps);
      var r := RunSlots(c.(extensions := withDeps), env.onLoadSlots, opts);
      RunSlotsKeepsNames(c.(extensions := withDeps), env.onLoadSlots, opts);
      KeepsNamesTransitive(c.extensions, withDeps, r.extensions);
      KeepsNamesHas(withDeps, r.extensions, Dependencies.DependencyResolverAspectId);
      if env.envsData(c).Some? {
        KeepsNamesHas(withEnvs, withDeps, EnvsAspectId);
        KeepsNamesHas(withDeps, r.extensions, EnvsAspectId);
      }
    }
  }

  // ---------------------------------------------------------------------
  // The multiple-envs issue

  /** `uniq`: the first occurrence of each value, in order. */
  function Dedup(s: seq<string>): (r: seq<string>)
    ensures forall x :: x in r <==> x in s
    ensures forall i, j :: 0 <= i < j < |r| ==> r[i] != r[j]
    decreases |s|
  {
    if s == [] then []
    else
      var rest := Dedup(s[..|s| - 1]);
      assert forall x :: x in s <==> x in s[..|s| - 1] || x == s[|s| - 1];
      if s[|s| - 1] in rest then rest else rest + [s[|s| - 1]]
  }

  /** The index of the first occurrence of `x` in `s`. */
  function FirstIndex(s: seq<string>, x: string): (i: nat)
    requires x in s
    ensures i < |s| && s[i] == x
    ensures forall k :: 0 <= k < i ==> s[k] != x
  {
    if s[0] == x then 0 else 1 + FirstIndex(s[1..], x)
  }

  /** Within a prefix that holds `x`, the first occurrence is the same. */
  lemma FirstIndexInPrefix(s: seq<string>, m: nat, x: string)
    requires m <= |s| && x in s[..m]
    ensures FirstIndex(s, x) == FirstIndex(s[..m], x)
  {
    var b := FirstIndex(s[..m], x);
    assert s[b] == x;
  }

  /**
   * `uniq` keeps the first occurrences in input order: the values of the
   * result appear in the order of their first occurrence in the input.
   * With the membership and distinctness clauses of `Dedup` this fixes
   * the result uniquely.
   */
  lemma {:induction false} DedupKeepsFirstOccurrenceOrder(s: seq<string>)
    ensures forall i, j :: 0 <= i < j < |Dedup(s)| ==> FirstIndex(s, Dedup(s)[i]) < FirstIndex(s, Dedup(s)[j])
    decreases |s|
  {
    if s != [] {
      var n := |s|;
      var p := s[..n - 1];
      var rest := Dedup(p);
      DedupKeepsFirstOccurrenceOrder(p);
      forall x | x in p ensures FirstIndex(s, x) == FirstIndex(p, x) {
        FirstIndexInPrefix(s, n - 1, x);
      }
      var r := Dedup(s);
      forall i, j | 0 <= i < j < |r| ensures FirstIndex(s, r[i]) < FirstIndex(s, r[j]) {
        assert r[i] == rest[i];
        assert r[i] in p;
        if j < |rest| {
          assert r[j] == rest[j];
        } else {
          assert r[j] == s[n - 1] && s[n - 1] !in p;
          assert FirstIndex(s, r[j]) == n - 1;
        }
      }
    }
  }

  predicate HasTwoDistinct(s: seq<string>) {
    exists i, j :: 0 <= i < |s| && 0 <= j < |s| && s[i] != s[j]
  }

  lemma DedupHasTwo(s: seq<string>)
    ensures |Dedup(s)| >= 2 <==> HasTwoDistinct(s)
  {
    var r := Dedup(s);
    if |r| >= 2 {
      assert r[0] in s && r[1] in s;
      var i :| 0 <= i < |s| && s[i] == r[0];
      var j :| 0 <= j < |s| && s[j] == r[1];
    }
    if HasTwoDistinct(s) {
      var i, j :| 0 <= i < |s| && 0 <= j < |s| && s[i] != s[j];
      assert s[i] in r && s[j] in r;
      var p :| 0 <= p < |r| && r[p] == s[i];
      var q :| 0 <= q < |r| && r[q] == s[j];
      assert p != q;
    }
  }

  function AddMultipleEnvsIssueIfNeeded(c: Component, envIds: seq<string>): Component {
    var unique := Dedup(envIds);
    if |unique| < 2 then c else c.(issues := c.issues[MultipleEnvs := EnvList(unique)])
  }

  /**
   * The issue is raised exactly when two different envs are configured; it
   * lists each once, in the order of first occurrence.
   */
  lemma MultipleEnvsIssue(c: Component, envIds: seq<string>)
    ensures var r := AddMultipleEnvsIssueIfNeeded(c, envIds);
            && (HasTwoDistinct(envIds) ==>
                  && r == c.(issues := r.issues)
                  && MultipleEnvs in r.issues
                  && r.issues == c.issues[MultipleEnvs := r.issues[MultipleEnvs]]
                  && r.issues[MultipleEnvs].EnvList?
                  && (forall x :: x in r.issues[MultipleEnvs].envIds <==> x in envIds)
                  && (forall i, j :: 0 <= i < j < |r.issues[MultipleEnvs].envIds| ==>
                        r.issues[MultipleEnvs].envIds[i] != r.issues[MultipleEnvs].envIds[j])
                  && (forall i, j :: 0 <= i < j < |r.issues[MultipleEnvs].envIds| ==>
                        FirstIndex(envIds, r.issues[MultipleEnvs].envIds[i])
                          < FirstIndex(envIds, r.issues[MultipleEnvs].envIds[j]))
                  && r.issues[MultipleEnvs].envIds == Dedup(envIds))
            && (!HasTwoDistinct(envIds) ==> r == c)
  {
    DedupHasTwo(envIds);
    DedupKeepsFirstOccurrenceOrder(envIds);
  }

  // ---------------------------------------------------------------------
  // Loading one component

  /** `getConsumerComponent`: a missing component is no component; any other error is thrown. */
  function ConsumerLoad(id: ComponentId, env: LoaderEnv): Result<Option<ConsumerComponent>, LoadError> {
    match env.loadComponents(id)
    case Success(c) => Success(c)
    case Failure(e) => if IsNotExistsError(e) then Success(None) else Failure(e)
  }

  /** `getConsumerComponent` marks the caller's options object before loading. */
  function SetOption(options: LoadOptions, name: string, value: bool): LoadOptions
    decreases |options|
  {
    if options == [] then [(name, value)]
    else if options[0].0 == name then [(name, value)] + options[1..]
    else [options[0]] + SetOption(options[1..], name, value)
  }

  function MarkOriginatedFromHarmony(opts: Option<LoadOptions>): Option<LoadOptions> {
    match opts
    case None => None
    case Some(o) => Some(SetOption(o, OriginatedFromHarmony, true))
  }

  lemma {:induction false} SetOptionIdempotent(options: LoadOptions, name: string, value: bool)
    ensures SetOption(SetOption(options, name, value), name, value) == SetOption(options, name, value)
    ensures (name, value) in SetOption(options, name, value)
    decreases |options|
  {
    if options != [] && options[0].0 != name {
      SetOptionIdempotent(options[1..], name, value);
      assert SetOption(options, name, value)[1..] == SetOption(options[1..], name, value);
    }
  }

  /** Once marked, the options do not change on later loads. */
  lemma MarkingIsIdempotent(opts: Option<LoadOptions>)
    ensures MarkOriginatedFromHarmony(MarkOriginatedFromHarmony(opts)) == MarkOriginatedFromHarmony(opts)
  {
    if opts.Some? {
      SetOptionIdempotent(opts.value, OriginatedFromHarmony, true);
    }
  }

  /** The component `loadOne` builds before the load slot runs. */
  function Assemble(id: ComponentId, consumer: ConsumerComponent, fromScope: Option<Component>, env: LoaderEnv): Component {
    var ext := env.componentExtensions(id, fromScope);
    var issues := if ext.hasMergeConflict then consumer.issues[MergeConfigHasConflict := Flag(true)] else consumer.issues;
    var compId := if fromScope.Some? then fromScope.value.id else id;
    Component(compId, consumer.removed, ext.extensions, issues)
  }

  function LoadOneSpec(id: ComponentId, consumer: Option<ConsumerComponent>, opts: Option<LoadOptions>, env: LoaderEnv): Result<Component, LoadError> {
    var fromScope := env.scopeGet(id);
    if consumer.None? then
      if fromScope.None? then Failure(MissingBitMapComponent(id.ToString())) else Success(fromScope.value)
    else
      Success(LoadSlot(Assemble(id, consumer.value, fromScope, env), opts, env))
  }

  /**
   * Without a workspace component the scope's component is returned as is, and
   * its absence is a missing-bitmap error; with one, the scope's id wins, the
   * workspace's removal flag is kept and a merge conflict is reported as an issue.
   */
  lemma LoadOneOutcome(id: ComponentId, consumer: Option<ConsumerComponent>, opts: Option<LoadOptions>, env: LoaderEnv)
    ensures var r := LoadOneSpec(id, consumer, opts, env);
            && (r.Failure? <==> consumer.None? && env.scopeGet(id).None?)
            && (r.Failure? ==> r.error == MissingBitMapComponent(id.ToString()))
            && (consumer.None? && r.Success? ==> r.value == env.scopeGet(id).value)
            && (consumer.Some? ==>
                  && r.value.id == (if env.scopeGet(id).Some? then env.scopeGet(id).value.id else id)
                  && r.value.removed == consumer.value.removed
                  && (MergeConfigHasConflict in r.value.issues <==>
                        env.componentExtensions(id, env.scopeGet(id)).hasMergeConflict
                        || MergeConfigHasConflict in consumer.value.issues))
  {
    if consumer.Some? {
      LoadSlotEffect(Assemble(id, consumer.value, env.scopeGet(id), env), opts, env);
    }
  }

  // ---------------------------------------------------------------------
  // get

  datatype GetOutcome = GetOutcome(result: Result<Component, LoadError>, cache: map<string, Component>, opts: Option<LoadOptions>)

  /** The id with the version the bitmap records, when it records one. */
  function ResolveVersion(componentId: ComponentId, env: LoaderEnv): ComponentId {
    var latest := env.latestVersion(componentId);
    if latest.Some? && latest.value != "" then componentId.ChangeVersion(latest) else componentId
  }

  function GetSpec(cache: map<string, Component>, componentId: ComponentId, legacy: Option<ConsumerComponent>,
                   useCache: bool, storeInCache: bool, opts: Option<LoadOptions>, env: LoaderEnv): GetOutcome
  {
    var id := ResolveVersion(componentId, env);
    var fromCache := Lookup(cache, id, opts);
    if fromCache.Some? && useCache then GetOutcome(Success(fromCache.value), cache, opts)
    else
      var consumer := if legacy.Some? then Success(legacy) else ConsumerLoad(id, env);
      var optsAfter := if legacy.Some? then opts else MarkOriginatedFromHarmony(opts);
      if consumer.Failure? then GetOutcome(Failure(consumer.error), cache, optsAfter)
      else
        var updatedId := if consumer.value.Some? then consumer.value.value.id else id;
        var loaded := LoadOneSpec(updatedId, consumer.value, optsAfter, env);
        if loaded.Failure? then GetOutcome(Failure(loaded.error), cache, optsAfter)
        else if !storeInCache then GetOutcome(loaded, cache, optsAfter)
        else
          var c := AddMultipleEnvsIssueIfNeeded(loaded.value, env.envIds(loaded.value));
          GetOutcome(Success(c), cache[CacheKey(c.id, optsAfter) := c], optsAfter)
  }

  /** A cache hit is returned when the caller allows it, and nothing changes. */
  lemma GetReturnsCachedHit(cache: map<string, Component>, componentId: ComponentId, legacy: Option<ConsumerComponent>,
                            storeInCache: bool, opts: Option<LoadOptions>, env: LoaderEnv)
    requires Lookup(cache, ResolveVersion(componentId, env), opts).Some?
    ensures GetSpec(cache, componentId, legacy, true, storeInCache, opts, env)
            == GetOutcome(Success(Lookup(cache, ResolveVersion(componentId, env), opts).value), cache, opts)
  {
  }

  /**
   * A cached value is returned only when the caller allows it: without
   * `useCache` the result and the caller's options after the call do not
   * depend on the cache, and with `useCache` a miss loads exactly as if the
   * cache had been bypassed.
   */
  lemma GetUsesCacheOnlyWhenAllowed(cache1: map<string, Component>, cache2: map<string, Component>,
                                    componentId: ComponentId, legacy: Option<ConsumerComponent>,
                                    storeInCache: bool, opts: Option<LoadOptions>, env: LoaderEnv)
    ensures GetSpec(cache1, componentId, legacy, false, storeInCache, opts, env).result
            == GetSpec(cache2, componentId, legacy, false, storeInCache, opts, env).result
    ensures GetSpec(cache1, componentId, legacy, false, storeInCache, opts, env).opts
            == GetSpec(cache2, componentId, legacy, false, storeInCache, opts, env).opts
    ensures Lookup(cache1, ResolveVersion(componentId, env), opts).None? ==>
            GetSpec(cache1, componentId, legacy, true, storeInCache, opts, env)
            == GetSpec(cache1, componentId, legacy, false, storeInCache, opts, env)
  {
  }

  /**
   * The cache changes only when storing is asked for and the load succeeded, by
   * one entry under the loaded component's own id, which a later lookup with the
   * same options finds; failures never touch the cache.
   */
  lemma GetCacheEffect(cache: map<string, Component>, componentId: ComponentId, legacy: Option<ConsumerComponent>,
                       useCache: bool, storeInCache: bool, opts: Option<LoadOptions>, env: LoaderEnv)
    ensures var o := GetSpec(cache, componentId, legacy, useCache, storeInCache, opts, env);
            && (!storeInCache || o.result.Failure? ==> o.cache == cache)
            && (o.cache == cache || (o.result.Success? && o.cache == cache[CacheKey(o.result.value.id, o.opts) := o.result.value]))
            && (o.result.Success? && storeInCache ==> Lookup(o.cache, o.result.value.id, o.opts) == Some(o.result.value))
  {
    var o := GetSpec(cache, componentId, legacy, useCache, storeInCache, opts, env);
    var id := ResolveVersion(componentId, env);
    if Lookup(cache, id, opts).Some? && useCache {
      assert o.cache == cache;
    } else {
      var consumer := if legacy.Some? then Success(legacy) else ConsumerLoad(id, env);
      var optsAfter := if legacy.Some? then opts else MarkOriginatedFromHarmony(opts);
      assert o.opts == optsAfter;
      if consumer.Success? {
        var updatedId := if consumer.value.Some? then consumer.value.value.id else id;
        var loaded := LoadOneSpec(updatedId, consumer.value, optsAfter, env);
        if loaded.Success? && storeInCache {
          var c := AddMultipleEnvsIssueIfNeeded(loaded.value, env.envIds(loaded.value));
          assert o == GetOutcome(Success(c), cache[CacheKey(c.id, optsAfter) := c], optsAfter);
          SavedComponentIsFound(cache, c, optsAfter);
        } else {
          assert o.cache == cache;
        }
      } else {
        assert o.cache == cache;
      }
    }
  }

  /**
   * A failed get reports either a component found neither in the workspace nor
   * in the scope, or a loading error other than "not found".
   */
  lemma GetErrors(cache: map<string, Component>, componentId: ComponentId, legacy: Option<ConsumerComponent>,
                  useCache: bool, storeInCache: bool, opts: Option<LoadOptions>, env: LoaderEnv)
    ensures var o := GetSpec(cache, componentId, legacy, useCache, storeInCache, opts, env);
            o.result.Failure? ==>
              || o.result.error.MissingBitMapComponent?
              || (legacy.None? && env.loadComponents(ResolveVersion(componentId, env)) == Failure(o.result.error)
                  && !IsNotExistsError(o.result.error))
  {
    var o := GetSpec(cache, componentId, legacy, useCache, storeInCache, opts, env);
    var id := ResolveVersion(componentId, env);
    if o.result.Failure? && !(Lookup(cache, id, opts).Some? && useCache) {
      var consumer := if legacy.Some? then Success(legacy) else ConsumerLoad(id, env);
      if consumer.Success? {
        var updatedId := if consumer.value.Some? then consumer.value.value.id else id;
        var optsAfter := if legacy.Some? then opts else MarkOriginatedFromHarmony(opts);
        LoadOneOutcome(updatedId, consumer.value, optsAfter, env);
      }
    }
  }

  /**
   * The first load with a caller-supplied empty options object looks the
   * component up under `<id>:{}` and stores it under another key, because
   * loading marks the options with `originatedFromHarmony` in between.
   */
  lemma FirstGetStoresUnderMarkedKey(id: ComponentId)
    ensures CacheKey(id, Some([])) == id.ToString() + ":{}"
    ensures MarkOriginatedFromHarmony(Some([])) == Some([(OriginatedFromHarmony, true)])
    ensures CacheKey(id, MarkOriginatedFromHarmony(Some([])))
            == id.ToString() + ":{" + StringifyOption((OriginatedFromHarmony, true)) + "}"
    ensures CacheKey(id, MarkOriginatedFromHarmony(Some([]))) != CacheKey(id, Some([]))
  {
    var option := (OriginatedFromHarmony, true);
    SingleOptionPrint(option);
    var marked := MarkOriginatedFromHarmony(Some([]));
    assert marked == Some([option]);
    var prefix := id.ToString() + ":";
    assert CacheKey(id, marked) == prefix + ("{" + StringifyOption(option) + "}");
    assert |CacheKey(id, marked)| > |prefix + "{}"|;
  }

  /** A single option prints as one member between braces. */
  lemma SingleOptionPrint(option: (string, bool))
    ensures Stringify(SortBy([option], OptionName)) == "{" + StringifyOption(option) + "}"
  {
    var single := [option];
    assert single[1..] == [];
    assert SortBy(single, OptionName) == Insert(option, SortBy([], OptionName), OptionName) == single;
    assert StringifyMembers(single) == StringifyOption(option);
  }

  // ---------------------------------------------------------------------
  // getMany

  datatype InvalidComponent = InvalidComponent(id: ComponentId, err: LoadError)

  datatype GetManyResult = GetManyResult(components: seq<Component>, invalidComponents: seq<InvalidComponent>)

  datatype GetManyOutcome = GetManyOutcome(result: Result<GetManyResult, LoadError>, cache: map<string, Component>, opts: Option<LoadOptions>)

  /** `compact`: the ids that are there, in order. */
  function Compact(ids: seq<Option<ComponentId>>): (r: seq<ComponentId>)
    ensures forall x :: x in r <==> Some(x) in ids
    ensures |r| <= |ids|
  {
    if ids == [] then []
    else
      assert forall x :: x in ids <==> x == ids[0] || x in ids[1..];
      (if ids[0].Some? then [ids[0].value] else []) + Compact(ids[1..])
  }

  predicate CollectsInvalid(e: LoadError, throwOnFailure: bool, env: LoaderEnv) {
    env.isInvalidByErrorType(e) && !throwOnFailure
  }

  /** An error that is neither collected as invalid nor dropped as not found is rethrown. */
  predicate IsFatal(e: LoadError, throwOnFailure: bool, env: LoaderEnv) {
    !CollectsInvalid(e, throwOnFailure, env) && !IsNotExistsError(e) && !e.ComponentNotFoundInPath?
  }

  function GetManyFrom(cache: map<string, Component>, ids: seq<ComponentId>, opts: Option<LoadOptions>,
                       throwOnFailure: bool, env: LoaderEnv,
                       components: seq<Component>, invalid: seq<InvalidComponent>): GetManyOutcome
    decreases |ids|
  {
    if ids == [] then GetManyOutcome(Success(GetManyResult(components, invalid)), cache, opts)
    else
      var o := GetSpec(cache, ids[0], None, true, true, opts, env);
      if o.result.Success? then
        GetManyFrom(o.cache, ids[1..], o.opts, throwOnFailure, env, components + [o.result.value], invalid)
      else if CollectsInvalid(o.result.error, throwOnFailure, env) then
        GetManyFrom(o.cache, ids[1..], o.opts, throwOnFailure, env, components, invalid + [InvalidComponent(ids[0], o.result.error)])
      else if IsNotExistsError(o.result.error) || o.result.error.ComponentNotFoundInPath? then
        GetManyFrom(o.cache, ids[1..], o.opts, throwOnFailure, env, components, invalid)
      else GetManyOutcome(Failure(o.result.error), o.cache, o.opts)
  }

  /** What a get of each id in turn returns, each seeing the cache and options the previous left. */
  function Outcomes(cache: map<string, Component>, ids: seq<ComponentId>, opts: Option<LoadOptions>, env: LoaderEnv): (r: seq<Result<Component, LoadError>>)
    ensures |r| == |ids|
    decreases |ids|
  {
    if ids == [] then []
    else
      var o := GetSpec(cache, ids[0], None, true, true, opts, env);
      [o.result] + Outcomes(o.cache, ids[1..], o.opts, env)
  }

  function Loaded(outcomes: seq<Result<Component, LoadError>>): seq<Component> {
    if outcomes == [] then []
    else (if outcomes[0].Success? then [outcomes[0].value] else []) + Loaded(outcomes[1..])
  }

  function Invalids(ids: seq<ComponentId>, outcomes: seq<Result<Component, LoadError>>, env: LoaderEnv): seq<InvalidComponent>
    requires |ids| == |outcomes|
  {
    if ids == [] then []
    else
      (if outcomes[0].Failure? && env.isInvalidByErrorType(outcomes[0].error) then [InvalidComponent(ids[0], outcomes[0].error)] else [])
      + Invalids(ids[1..], outcomes[1..], env)
  }

  predicate FatalAt(outcomes: seq<Result<Component, LoadError>>, k: int, throwOnFailure: bool, env: LoaderEnv)
    requires 0 <= k < |outcomes|
  {
    outcomes[k].Failure? && IsFatal(outcomes[k].error, throwOnFailure, env)
  }

  /** The same decisions as getMany, taken over outcomes already computed. */
  function Collect(ids: seq<ComponentId>, outs: seq<Result<Component, LoadError>>, throwOnFailure: bool, env: LoaderEnv,
                   components: seq<Component>, invalid: seq<InvalidComponent>): Result<GetManyResult, LoadError>
    requires |ids| == |outs|
    decreases |ids|
  {
    if ids == [] then Success(GetManyResult(components, invalid))
    else if outs[0].Success? then
      Collect(ids[1..], outs[1..], throwOnFailure, env, components + [outs[0].value], invalid)
    else if CollectsInvalid(outs[0].error, throwOnFailure, env) then
      Collect(ids[1..], outs[1..], throwOnFailure, env, components, invalid + [InvalidComponent(ids[0], outs[0].error)])
    else if IsNotExistsError(outs[0].error) || outs[0].error.ComponentNotFoundInPath? then
      Collect(ids[1..], outs[1..], throwOnFailure, env, components, invalid)
    else Failure(outs[0].error)
  }

  lemma {:induction false} GetManyFromIsCollect(cache: map<string, Component>, ids: seq<ComponentId>, opts: Option<LoadOptions>,
                                                throwOnFailure: bool, env: LoaderEnv,
                                                components: seq<Component>, invalid: seq<InvalidComponent>)
    ensures GetManyFrom(cache, ids, opts, throwOnFailure, env, components, invalid).result
            == Collect(ids, Outcomes(cache, ids, opts, env), throwOnFailure, env, components, invalid)
    decreases |ids|
  {
    if ids != [] {
      var o := GetSpec(cache, ids[0], None, true, true, opts, env);
      var outs := Outcomes(cache, ids, opts, env);
      assert outs == [o.result] + Outcomes(o.cache, ids[1..], o.opts, env);
      assert outs[1..] == Outcomes(o.cache, ids[1..], o.opts, env);
      var invalid' := if o.result.Failure? && CollectsInvalid(o.result.error, throwOnFailure, env)
                      then invalid + [InvalidComponent(ids[0], o.result.error)] else invalid;
      var components' := if o.result.Success? then components + [o.result.value] else components;
      GetManyFromIsCollect(o.cache, ids[1..], o.opts, throwOnFailure, env, components', invalid');
    }
  }

  lemma {:induction false} CollectSucceeds(ids: seq<ComponentId>, outs: seq<Result<Component, LoadError>>, throwOnFailure: bool,
                                           env: LoaderEnv, components: seq<Component>, invalid: seq<InvalidComponent>)
    requires |ids| == |outs|
    ensures Collect(ids, outs, throwOnFailure, env, components, invalid).Success?
            <==> forall k :: 0 <= k < |outs| ==> !FatalAt(outs, k, throwOnFailure, env)
    decreases |ids|
  {
    if ids != [] && !FatalAt(outs, 0, throwOnFailure, env) {
      var invalid' := if outs[0].Failure? && CollectsInvalid(outs[0].error, throwOnFailure, env)
                      then invalid + [InvalidComponent(ids[0], outs[0].error)] else invalid;
      var components' := if outs[0].Success? then components + [outs[0].value] else components;
      assert Collect(ids, outs, throwOnFailure, env, components, invalid)
             == Collect(ids[1..], outs[1..], throwOnFailure, env, components', invalid');
      CollectSucceeds(ids[1..], outs[1..], throwOnFailure, env, components', invalid');
      if forall k :: 0 <= k < |outs[1..]| ==> !FatalAt(outs[1..], k, throwOnFailure, env) {
        forall k | 0 <= k < |outs| ensures !FatalAt(outs, k, throwOnFailure, env) {
          if k > 0 { assert !FatalAt(outs[1..], k - 1, throwOnFailure, env); }
        }
      } else {
        var k :| 0 <= k < |outs[1..]| && FatalAt(outs[1..], k, throwOnFailure, env);
        assert FatalAt(outs, k + 1, throwOnFailure, env);
      }
    }
  }

  lemma {:induction false} CollectContents(ids: seq<ComponentId>, outs: seq<Result<Component, LoadError>>, throwOnFailure: bool,
                                           env: LoaderEnv, components: seq<Component>, invalid: seq<InvalidComponent>)
    requires |ids| == |outs|
    requires Collect(ids, outs, throwOnFailure, env, components, invalid).Success?
    ensures Collect(ids, outs, throwOnFailure, env, components, invalid).value
            == GetManyResult(components + Loaded(outs), invalid + (if throwOnFailure then [] else Invalids(ids, outs, env)))
    decreases |ids|
  {
    if ids != [] {
      var r := Collect(ids, outs, throwOnFailure, env, components, invalid);
      var rest := Invalids(ids[1..], outs[1..], env);
      if outs[0].Success? {
        assert r == Collect(ids[1..], outs[1..], throwOnFailure, env, components + [outs[0].value], invalid);
        CollectContents(ids[1..], outs[1..], throwOnFailure, env, components + [outs[0].value], invalid);
        assert Loaded(outs) == [outs[0].value] + Loaded(outs[1..]);
        assert components + [outs[0].value] + Loaded(outs[1..]) == components + Loaded(outs);
        assert Invalids(ids, outs, env) == rest;
      } else if CollectsInvalid(outs[0].error, throwOnFailure, env) {
        var entry := InvalidComponent(ids[0], outs[0].error);
        assert r == Collect(ids[1..], outs[1..], throwOnFailure, env, components, invalid + [entry]);
        CollectContents(ids[1..], outs[1..], throwOnFailure, env, components, invalid + [entry]);
        assert Loaded(outs) == Loaded(outs[1..]);
        assert Invalids(ids, outs, env) == [entry] + rest;
        assert invalid + [entry] + rest == invalid + Invalids(ids, outs, env);
      } else {
        assert r == Collect(ids[1..], outs[1..], throwOnFailure, env, components, invalid);
        CollectContents(ids[1..], outs[1..], throwOnFailure, env, components, invalid);
        assert Loaded(outs) == Loaded(outs[1..]);
        if !throwOnFailure {
          assert Invalids(ids, outs, env) == rest;
        }
      }
    }
  }

  lemma {:induction false} CollectFails(ids: seq<ComponentId>, outs: seq<Result<Component, LoadError>>, throwOnFailure: bool,
                                        env: LoaderEnv, components: seq<Component>, invalid: seq<InvalidComponent>)
    requires |ids| == |outs|
    ensures var r := Collect(ids, outs, throwOnFailure, env, components, invalid);
            r.Failure? ==> exists k :: 0 <= k < |outs| && FatalAt(outs, k, throwOnFailure, env) && r.error == outs[k].error
                                       && forall j :: 0 <= j < k ==> !FatalAt(outs, j, throwOnFailure, env)
    decreases |ids|
  {
    var r := Collect(ids, outs, throwOnFailure, env, components, invalid);
    if ids != [] && r.Failure? && !FatalAt(outs, 0, throwOnFailure, env) {
      var invalid' := if outs[0].Failure? && CollectsInvalid(outs[0].error, throwOnFailure, env)
                      then invalid + [InvalidComponent(ids[0], outs[0].error)] else invalid;
      var components' := if outs[0].Success? then components + [outs[0].value] else components;
      CollectFails(ids[1..], outs[1..], throwOnFailure, env, components', invalid');
      var k :| 0 <= k < |outs[1..]| && FatalAt(outs[1..], k, throwOnFailure, env) && r.error == outs[1..][k].error
               && forall j :: 0 <= j < k ==> !FatalAt(outs[1..], j, throwOnFailure, env);
      assert FatalAt(outs, k + 1, throwOnFailure, env);
      forall j | 0 <= j < k + 1 ensures !FatalAt(outs, j, throwOnFailure, env) {
        if j > 0 { assert !FatalAt(outs[1..], j - 1, throwOnFailure, env); }
      }
    }
  }

  /**
   * getMany succeeds exactly when no id fails with an error it must rethrow,
   * and then returns, in input order, every component that loaded and, only
   * when failures are tolerated, every invalid one; not-found errors are
   * dropped either way.  A failure is the first rethrown error.
   */
  lemma GetManyCharacterised(cache: map<string, Component>, ids: seq<ComponentId>, opts: Option<LoadOptions>,
                             throwOnFailure: bool, env: LoaderEnv)
    ensures var r := GetManyFrom(cache, ids, opts, throwOnFailure, env, [], []).result;
            var outs := Outcomes(cache, ids, opts, env);
            && (r.Success? <==> forall k :: 0 <= k < |outs| ==> !FatalAt(outs, k, throwOnFailure, env))
            && (r.Success? ==> r.value.components == Loaded(outs))
            && (r.Success? ==> r.value.invalidComponents == (if throwOnFailure then [] else Invalids(ids, outs, env)))
            && (r.Failure? ==> exists k :: 0 <= k < |outs| && FatalAt(outs, k, throwOnFailure, env) && r.error == outs[k].error
                                 && forall j :: 0 <= j < k ==> !FatalAt(outs, j, throwOnFailure, env))
  {
    GetManyFromIsCollect(cache, ids, opts, throwOnFailure, env, [], []);
    CollectSucceeds(ids, Outcomes(cache, ids, opts, env), throwOnFailure, env, [], []);
    if Collect(ids, Outcomes(cache, ids, opts, env), throwOnFailure, env, [], []).Success? {
      CollectContents(ids, Outcomes(cache, ids, opts, env), throwOnFailure, env, [], []);
    }
    CollectFails(ids, Outcomes(cache, ids, opts, env), throwOnFailure, env, [], []);
  }

  /** At most one component per requested id. */
  lemma {:induction false} LoadedBound(outcomes: seq<Result<Component, LoadError>>)
    ensures |Loaded(outcomes)| <= |outcomes|
  {
    if outcomes != [] {
      LoadedBound(outcomes[1..]);
    }
  }

  // ---------------------------------------------------------------------
  // The loader

  class WorkspaceComponentLoader {
    var cache: map<string, Component>

    constructor()
      ensures cache == map[]
    {
      cache := map[];
    }

    method GetFromCache(id: ComponentId, opts: Option<LoadOptions>) returns (r: Option<Component>)
      ensures r == Lookup(cache, id, opts)
    {
      var key := CacheKey(id, opts);
      if key in cache && cache[key].id.IsEqual(id) {
        r := Some(cache[key]);
      } else {
        r := None;
      }
    }

    method SaveInCache(c: Component, opts: Option<LoadOptions>)
      modifies this
      ensures cache == old(cache)[CacheKey(c.id, opts) := c]
    {
      cache := cache[CacheKey(c.id, opts) := c];
    }

    method ClearCache()
      modifies this
      ensures cache == map[]
    {
      cache := map[];
    }

    /** Deletes, key by key, the entries of one id string under any options. */
    method ClearComponentCache(id: ComponentId)
      modifies this
      ensures cache == WithoutComponent(old(cache), id.ToString())
    {
      var idStr := id.ToString();
      var keys := cache.Keys;
      while keys != {}
        invariant keys <= old(cache).Keys
        invariant cache.Keys <= old(cache).Keys
        invariant forall k :: k in keys ==> k in cache && cache[k] == old(cache)[k]
        invariant forall k :: k in old(cache) && k !in keys ==>
                    (k in cache <==> !IsComponentKey(k, idStr)) && (k in cache ==> cache[k] == old(cache)[k])
        decreases keys
      {
        var key :| key in keys;
        if key == idStr || StartsWith(key, idStr + ":") {
          cache := cache - {key};
        }
        keys := keys - {key};
      }
    }

    method ExecuteLoadSlot(c: Component, opts: Option<LoadOptions>, env: LoaderEnv) returns (r: Component)
      ensures r == LoadSlot(c, opts, env)
    {
      if c.removed {
        return c;
      }
      var envsData := env.envsData(c);
      var depResolverData := env.depResolverData(c);
      r := c.(extensions := UpsertExtensionData(c.extensions, EnvsAspectId, envsData));
      r := r.(extensions := UpsertExtensionData(r.extensions, Dependencies.DependencyResolverAspectId, Some(depResolverData)));
      var slots := env.onLoadSlots;
      var i := 0;
      while i < |slots|
        invariant 0 <= i <= |slots|
        invariant RunSlots(r, slots[i..], opts) == LoadSlot(c, opts, env)
      {
        assert slots[i..][1..] == slots[i + 1..];
        var data := slots[i].1(r, opts);
        r := r.(extensions := UpsertExtensionData(r.extensions, slots[i].0, data));
        i := i + 1;
      }
    }

    method LoadOne(id: ComponentId, consumer: Option<ConsumerComponent>, opts: Option<LoadOptions>, env: LoaderEnv)
      returns (r: Result<Component, LoadError>)
      ensures r == LoadOneSpec(id, consumer, opts, env)
    {
      var fromScope := env.scopeGet(id);
      if consumer.None? {
        if fromScope.None? {
          return Failure(MissingBitMapComponent(id.ToString()));
        }
        return Success(fromScope.value);
      }
      var c := Assemble(id, consumer.value, fromScope, env);
      c := ExecuteLoadSlot(c, opts, env);
      r := Success(c);
    }

    method Get(componentId: ComponentId, legacy: Option<ConsumerComponent>, useCache: bool, storeInCache: bool,
               opts: Option<LoadOptions>, env: LoaderEnv)
      returns (r: Result<Component, LoadError>, optsOut: Option<LoadOptions>)
      modifies this
      ensures GetOutcome(r, cache, optsOut) == GetSpec(old(cache), componentId, legacy, useCache, storeInCache, opts, env)
    {
      var id := ResolveVersion(componentId, env);
      var fromCache := GetFromCache(id, opts);
      if fromCache.Some? && useCache {
        return Success(fromCache.value), opts;
      }
      var consumer: Result<Option<ConsumerComponent>, LoadError>;
      if legacy.Some? {
        consumer := Success(legacy);
        optsOut := opts;
      } else {
        optsOut := MarkOriginatedFromHarmony(opts);
        consumer := ConsumerLoad(id, env);
      }
      if consumer.Failure? {
        return Failure(consumer.error), optsOut;
      }
      var updatedId := if consumer.value.Some? then consumer.value.value.id else id;
      r := LoadOne(updatedId, consumer.value, optsOut, env);
      if r.Success? && storeInCache {
        var c := AddMultipleEnvsIssueIfNeeded(r.value, env.envIds(r.value));
        SaveInCache(c, optsOut);
        r := Success(c);
      }
    }

    method GetMany(ids: seq<Option<ComponentId>>, opts: Option<LoadOptions>, throwOnFailure: bool, env: LoaderEnv)
      returns (r: Result<GetManyResult, LoadError>, optsOut: Option<LoadOptions>)
      modifies this
      ensures GetManyOutcome(r, cache, optsOut) == GetManyFrom(old(cache), Compact(ids), opts, throwOnFailure, env, [], [])
    {
      var present := Compact(ids);
      var components: seq<Component> := [];
      var invalid: seq<InvalidComponent> := [];
      optsOut := opts;
      var i := 0;
      while i < |present|
        invariant 0 <= i <= |present|
        invariant GetManyFrom(cache, present[i..], optsOut, throwOnFailure, env, components, invalid)
                  == GetManyFrom(old(cache), present, opts, throwOnFailure, env, [], [])
      {
        assert present[i..][1..] == present[i + 1..];
        ghost var o := GetSpec(cache, present[i], None, true, true, optsOut, env);
        var loaded;
        loaded, optsOut := Get(present[i], None, true, true, optsOut, env);
        assert loaded == o.result && cache == o.cache && optsOut == o.opts;
        if loaded.Success? {
          components := components + [loaded.value];
        } else if CollectsInvalid(loaded.error, throwOnFailure, env) {
          invalid := invalid + [InvalidComponent(present[i], loaded.error)];
        } else if !(IsNotExistsError(loaded.error) || loaded.error.ComponentNotFoundInPath?) {
          return Failure(loaded.error), optsOut;
        }
        i := i + 1;
      }
      r := Success(GetManyResult(components, invalid));
    }
  }
}
