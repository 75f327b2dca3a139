/**
 * Component overrides: the field-wise merge of override sets
 * (`mergeOverrides`), the left-biased deep merge of extension contributions
 * (`mergeExtensionsOverrides`, `runOnLoadOverridesEvent`), the registry of
 * override-loading callbacks, the precedence of `loadFromConsumer` and the
 * accessors of a loaded `ComponentOverrides`.
 *
 * Override values are JSON values. Numbers are integers; the JavaScript
 * notions the code relies on (truthiness, `typeof val === 'object'`, Ramda's
 * plain-object test and `R.isEmpty`) are written out as predicates.
 */
module Overrides {
  import opened Wrappers
  import opened Strings
  import opened ComponentIds

  datatype Json =
    | Null
    | Bool(b: bool)
    | Num(n: int)
    | Str(s: string)
    | Arr(items: seq<Json>)
    | Obj(fields: map<string, Json>)

  /** A field name -> value override set. */
  type OverrideSet = map<string, Json>

  /** JavaScript truthiness. */
  predicate Truthy(v: Json)
  {
    match v
    case Null => false
    case Bool(b) => b
    case Num(n) => n != 0
    case Str(s) => s != ""
    case Arr(_) => true
    case Obj(_) => true
  }

  /** `typeof val === 'object' && !Array.isArray(val)`: true for `null` as well. */
  predicate IsObjectAndNotArray(v: Json)
  {
    v.Null? || v.Obj?
  }

  /** The keys `Object.assign` copies from a source: none from `null`. */
  function AssignSource(v: Json): map<string, Json>
  {
    if v.Obj? then v.fields else map[]
  }

  /** `R.isEmpty`: the empty string, the empty array and the empty object. */
  predicate IsEmpty(v: Json)
  {
    v == Str("") || v == Arr([]) || v == Obj(map[])
  }

  /** `overridesBitInternalFields`: fields only the system itself sets. */
  const InternalFields: set<string> := {"propagate", "exclude", "env", "defaultScope", "extensions"}

  /** MANUALLY_ADD_DEPENDENCY and MANUALLY_REMOVE_DEPENDENCY. */
  const ManuallyAddDependency: string := "+"
  const ManuallyRemoveDependency: string := "-"

  /** OVERRIDE_COMPONENT_PREFIX: dependency keys naming components rather than packages. */
  const OverrideComponentPrefix: string := "@bit/"

  // ---------------------------------------------------------------------
  // mergeOverrides
  // ---------------------------------------------------------------------

  /** The value mergeOverrides gives a non-internal field of its second argument. */
  function MergedField(o1: OverrideSet, o2: OverrideSet, field: string): Json
    requires field in o2
  {
    if field in o1 && IsObjectAndNotArray(o1[field]) && IsObjectAndNotArray(o2[field]) then
      Obj(AssignSource(o2[field]) + AssignSource(o1[field]))
    else if !(field in o1 && Truthy(o1[field])) then o2[field]
    else o1[field]
  }

  /** The clone of `o1` after the fields in `visited` (all of `o2`'s) were merged in. */
  function MergeOverridesOver(o1: OverrideSet, o2: OverrideSet, visited: set<string>): OverrideSet
    requires visited <= o2.Keys
  {
    map field | field in o1.Keys + (visited - InternalFields) ::
      if field in visited && field !in InternalFields then MergedField(o1, o2, field) else o1[field]
  }

  /** mergeOverrides(overrides1, overrides2): the first argument wins. */
  function MergeOverrides(o1: OverrideSet, o2: OverrideSet): OverrideSet
  {
    MergeOverridesOver(o1, o2, o2.Keys)
  }

  /** Visiting one more field of the second argument. */
  lemma MergeOverridesVisit(o1: OverrideSet, o2: OverrideSet, visited: set<string>, field: string)
    requires visited <= o2.Keys && field in o2 && field !in visited
    ensures field in InternalFields ==>
      MergeOverridesOver(o1, o2, visited + {field}) == MergeOverridesOver(o1, o2, visited)
    ensures field !in InternalFields ==>
      MergeOverridesOver(o1, o2, visited + {field}) == MergeOverridesOver(o1, o2, visited)[field := MergedField(o1, o2, field)]
  {
  }

  /** The forEach over the second argument's fields, assigning into a clone of the first. */
  method MergeOverridesInto(overrides1: OverrideSet, overrides2: OverrideSet) returns (result: OverrideSet)
    ensures result == MergeOverrides(overrides1, overrides2)
  {
    result := overrides1;
    var remaining := overrides2.Keys;
    while remaining != {}
      invariant remaining <= overrides2.Keys
      invariant result == MergeOverridesOver(overrides1, overrides2, overrides2.Keys - remaining)
      decreases |remaining|
    {
      var field :| field in remaining;
      ghost var visited := overrides2.Keys - remaining;
      MergeOverridesVisit(overrides1, overrides2, visited, field);
      remaining := remaining - {field};
      assert overrides2.Keys - remaining == visited + {field};
      if field in InternalFields {
        continue;
      }
      // A field not visited yet still holds the first argument's value.
      assert (field in result) == (field in overrides1);
      assert field in result ==> result[field] == overrides1[field];
      var value: Json;
      if field in overrides1 && IsObjectAndNotArray(overrides1[field]) && IsObjectAndNotArray(overrides2[field]) {
        value := Obj(AssignSource(overrides2[field]) + AssignSource(overrides1[field]));
      } else if !(field in result && Truthy(result[field])) {
        value := overrides2[field];
      } else {
        value := result[field];
      }
      result := result[field := value];
    }
  }

  /**
   * Internal fields are never taken from the second argument: each is in
   * the result exactly when the first argument has it, with its value.
   */
  lemma MergeNeverCopiesInternal(o1: OverrideSet, o2: OverrideSet, field: string)
    requires field in InternalFields
    ensures field in MergeOverrides(o1, o2) <==> field in o1
    ensures field in o1 ==> MergeOverrides(o1, o2)[field] == o1[field]
  {
  }

  /**
   * The result has the fields of the first argument plus the non-internal
   * fields of the second; a field the second argument lacks keeps the first
   * argument's value, and a field only the second has takes its value.
   */
  lemma MergeOverridesFields(o1: OverrideSet, o2: OverrideSet)
    ensures MergeOverrides(o1, o2).Keys == o1.Keys + (o2.Keys - InternalFields)
    ensures forall f :: f in o1 && f !in o2 ==> MergeOverrides(o1, o2)[f] == o1[f]
    ensures forall f :: f in o2 && f !in o1 && f !in InternalFields ==> MergeOverrides(o1, o2)[f] == o2[f]
  {
  }

  /**
   * When both values of a field are objects, the result is their key union
   * with the first argument's entries winning.
   */
  lemma MergeObjectFields(o1: OverrideSet, o2: OverrideSet, field: string)
    requires field in o1 && field in o2 && field !in InternalFields
    requires o1[field].Obj? && o2[field].Obj?
    ensures var r := MergeOverrides(o1, o2)[field];
      && r.Obj?
      && r.fields.Keys == o1[field].fields.Keys + o2[field].fields.Keys
      && (forall k :: k in o1[field].fields ==> r.fields[k] == o1[field].fields[k])
      && (forall k :: k in o2[field].fields && k !in o1[field].fields ==> r.fields[k] == o2[field].fields[k])
  {
  }

  /**
   * The second argument's value is used only when the first argument's
   * field is missing or falsy and not both values are objects; a truthy
   * non-object in the first argument is never replaced.
   */
  lemma MergeKeepsTruthyValue(o1: OverrideSet, o2: OverrideSet, field: string)
    requires field in o1
    ensures Truthy(o1[field]) && !o1[field].Obj? ==> MergeOverrides(o1, o2)[field] == o1[field]
    ensures field in o2 && field !in InternalFields && !IsObjectAndNotArray(o1[field]) && !Truthy(o1[field]) ==>
      MergeOverrides(o1, o2)[field] == o2[field]
  {
  }

  /** Merging nothing in is the identity; merging into nothing drops only the internal fields. */
  lemma MergeOverridesIdentity(o: OverrideSet)
    ensures MergeOverrides(o, map[]) == o
    ensures MergeOverrides(map[], o) == map f | f in o && f !in InternalFields :: o[f]
  {
  }

  // ---------------------------------------------------------------------
  // mergeExtensionsOverrides and the on-load event
  // ---------------------------------------------------------------------

  /** `R.mergeDeepLeft(left, right)`: plain objects merge recursively, otherwise the left value wins. */
  function MergeDeepLeft(left: map<string, Json>, right: map<string, Json>): (r: map<string, Json>)
    ensures r.Keys == left.Keys + right.Keys
    decreases Obj(left)
  {
    map k | k in left.Keys + right.Keys ::
      if k in left && k in right && left[k].Obj? && right[k].Obj? then
        assert left[k] in left.Values;
        Obj(MergeDeepLeft(left[k].fields, right[k].fields))
      else if k in left then left[k]
      else right[k]
  }

  /** mergeDeepLeft with nothing on either side returns the other side. */
  lemma MergeDeepLeftUnit(m: map<string, Json>)
    ensures MergeDeepLeft(m, map[]) == m
    ensures MergeDeepLeft(map[], m) == m
  {
  }

  /** mergeExtensionsOverrides: `configs.reduce(R.mergeDeepLeft, {})`, from an accumulator. */
  function MergeContributions(acc: map<string, Json>, configs: seq<OverrideSet>): map<string, Json>
    decreases |configs|
  {
    if configs == [] then acc
    else MergeContributions(MergeDeepLeft(acc, configs[0]), configs[1..])
  }

  function MergeExtensionsOverrides(configs: seq<OverrideSet>): map<string, Json>
  {
    MergeContributions(map[], configs)
  }

  /** The merged contributions carry every field any contribution sets. */
  lemma {:induction false} MergeContributionsKeys(acc: map<string, Json>, configs: seq<OverrideSet>, k: string)
    ensures k in MergeContributions(acc, configs) <==>
      k in acc || exists i :: 0 <= i < |configs| && k in configs[i]
    decreases |configs|
  {
    if configs != [] {
      MergeContributionsKeys(MergeDeepLeft(acc, configs[0]), configs[1..], k);
      if exists i :: 0 <= i < |configs[1..]| && k in configs[1..][i] {
        var i :| 0 <= i < |configs[1..]| && k in configs[1..][i];
        assert configs[i + 1] == configs[1..][i];
      }
      if exists i :: 0 <= i < |configs| && k in configs[i] {
        var i :| 0 <= i < |configs| && k in configs[i];
        if i > 0 { assert configs[1..][i - 1] == configs[i]; }
      }
    }
  }

  /** A non-object value already in the accumulator survives every later contribution. */
  lemma {:induction false} MergeContributionsKeepsEarlier(acc: map<string, Json>, configs: seq<OverrideSet>, k: string)
    requires k in acc && !acc[k].Obj?
    ensures k in MergeContributions(acc, configs) && MergeContributions(acc, configs)[k] == acc[k]
    decreases |configs|
  {
    if configs != [] {
      MergeContributionsKeepsEarlier(MergeDeepLeft(acc, configs[0]), configs[1..], k);
    }
  }

  /**
   * The earlier-registered extension wins: when the first contribution
   * setting a field gives it a non-object value, that is the merged value.
   */
  lemma {:induction false} EarliestContributionWins(acc: map<string, Json>, configs: seq<OverrideSet>, i: nat, k: string)
    requires k !in acc
    requires i < |configs| && k in configs[i] && !configs[i][k].Obj?
    requires forall j :: 0 <= j < i ==> k !in configs[j]
    ensures k in MergeContributions(acc, configs) && MergeContributions(acc, configs)[k] == configs[i][k]
    decreases |configs|
  {
    var next := MergeDeepLeft(acc, configs[0]);
    if i == 0 {
      MergeContributionsKeepsEarlier(next, configs[1..], k);
    } else {
      assert k !in configs[0];
      forall j | 0 <= j < i - 1 ensures k !in configs[1..][j] {
        assert configs[1..][j] == configs[j + 1];
      }
      EarliestContributionWins(next, configs[1..], i - 1, k);
    }
  }

  /** pickBy(obj, val => !R.isEmpty(val)). */
  function PickNonEmpty(m: map<string, Json>): (r: map<string, Json>)
    ensures forall k :: k in r <==> k in m && !IsEmpty(m[k])
    ensures forall k :: k in r ==> r[k] == m[k]
  {
    map k | k in m && !IsEmpty(m[k]) :: m[k]
  }

  /** What an override-loading callback receives: the parsed extensions, the id and the files. */
  datatype LoadContext = LoadContext(extensions: map<string, Json>, id: ComponentId, files: seq<string>)

  type OverridesCallback = LoadContext -> OverrideSet

  /** The registry of override-loading callbacks, keyed by extension id in registration order. */
  class OverridesLoadingRegistry {
    var order: seq<string>
    var callbacks: map<string, OverridesCallback>

    ghost predicate Valid()
      reads this
    {
      && (forall i, j :: 0 <= i < j < |order| ==> order[i] != order[j])
      && (forall i :: 0 <= i < |order| ==> order[i] in callbacks)
      && (forall extId :: extId in callbacks ==> extId in order)
    }

    constructor ()
      ensures Valid() && order == [] && callbacks == map[]
    {
      order := [];
      callbacks := map[];
    }

    /**
     * registerOnComponentOverridesLoading: a new extension id goes last;
     * registering an id again replaces its callback and keeps its place.
     */
    method Register(extId: string, func: OverridesCallback)
      requires Valid()
      modifies this
      ensures Valid()
      ensures callbacks == old(callbacks)[extId := func]
      ensures order == if extId in old(callbacks) then old(order) else old(order) + [extId]
    {
      if extId !in callbacks {
        order := order + [extId];
      }
      callbacks := callbacks[extId := func];
    }

    /** The callbacks in registration order. */
    function InOrder(): (r: seq<OverridesCallback>)
      requires Valid()
      reads this
      ensures |r| == |order|
      ensures forall i :: 0 <= i < |order| ==> r[i] == callbacks[order[i]]
    {
      var ids := order;
      var table := callbacks;
      seq(|ids|, i requires 0 <= i < |ids| && ids[i] in table => table[ids[i]])
    }
  }

  function ApplyAll(callbacks: seq<OverridesCallback>, context: LoadContext): (r: seq<OverrideSet>)
    ensures |r| == |callbacks|
    ensures forall i :: 0 <= i < |callbacks| ==> r[i] == callbacks[i](context)
  {
    seq(|callbacks|, i requires 0 <= i < |callbacks| => callbacks[i](context))
  }

  /**
   * runOnLoadOverridesEvent: every callback is run, the contributions are
   * deep-merged with the earlier one winning, and empty fields are dropped.
   */
  function RunOnLoadOverridesEvent(callbacks: seq<OverridesCallback>, context: LoadContext): OverrideSet
  {
    PickNonEmpty(MergeExtensionsOverrides(ApplyAll(callbacks, context)))
  }

  /**
   * A field set only by later callbacks than the first that sets it to a
   * non-empty non-object value comes out with that value.
   */
  lemma RunOnLoadEarliestWins(callbacks: seq<OverridesCallback>, context: LoadContext, i: nat, k: string)
    requires i < |callbacks| && k in callbacks[i](context)
    requires !callbacks[i](context)[k].Obj? && !IsEmpty(callbacks[i](context)[k])
    requires forall j :: 0 <= j < i ==> k !in callbacks[j](context)
    ensures k in RunOnLoadOverridesEvent(callbacks, context)
    ensures RunOnLoadOverridesEvent(callbacks, context)[k] == callbacks[i](context)[k]
  {
    var contributions := ApplyAll(callbacks, context);
    EarliestContributionWins(map[], contributions, i, k);
  }

  // ---------------------------------------------------------------------
  // loadFromConsumer and the loaded overrides
  // ---------------------------------------------------------------------

  /** The component's own config as loadFromConsumer reads it. */
  datatype ComponentConfig = ComponentConfig(
    componentHasWrittenConfig: bool,
    overrides: Option<OverrideSet>,
    extensions: map<string, Json>)

  /** A loaded `ComponentOverrides`; a missing override set becomes `{}`. */
  datatype ComponentOverrides = ComponentOverrides(overrides: OverrideSet)
  {
    /** componentOverridesData: every field except the internal ones. */
    function ComponentOverridesData(): (r: OverrideSet)
      ensures forall f :: f in r <==> f in overrides && f !in InternalFields
      ensures forall f :: f in r ==> r[f] == overrides[f]
    {
      map f | f in overrides && f !in InternalFields :: overrides[f]
    }

    /** The entries of a dependency field; a missing or `null` field has none. */
    function DependencyField(field: string): map<string, Json>
    {
      if field in overrides then AssignSource(overrides[field]) else map[]
    }

    /** `Object.assign({}, dependencies, devDependencies, peerDependencies)`. */
    function AllDependencies(): map<string, Json>
    {
      DependencyField("dependencies") + DependencyField("devDependencies") + DependencyField("peerDependencies")
    }

    /** getComponentDependenciesWithVersion: component keys, prefix stripped, with a real version. */
    function GetComponentDependenciesWithVersion(): map<string, Json>
    {
      var allDeps := AllDependencies();
      var names := set k | k in allDeps && IsValidVersion(allDeps[k]) && StartsWith(k, OverrideComponentPrefix)
                     :: k[|OverrideComponentPrefix|..];
      PrefixedNames(allDeps);
      map name | name in names :: allDeps[OverrideComponentPrefix + name]
    }

    /** getIgnored(field): the keys of the field whose value is the remove marker. */
    function GetIgnored(field: string): (r: set<string>)
      ensures forall k :: k in r <==> k in DependencyField(field) && DependencyField(field)[k] == Str(ManuallyRemoveDependency)
    {
      set k | k in DependencyField(field) && DependencyField(field)[k] == Str(ManuallyRemoveDependency)
    }
  }

  /** Every stripped name comes from its prefixed key. */
  lemma PrefixedNames(allDeps: map<string, Json>)
    ensures forall k :: k in allDeps && StartsWith(k, OverrideComponentPrefix) ==>
      OverrideComponentPrefix + k[|OverrideComponentPrefix|..] == k
  {
    forall k | k in allDeps && StartsWith(k, OverrideComponentPrefix)
      ensures OverrideComponentPrefix + k[|OverrideComponentPrefix|..] == k
    {
      assert k == k[..|OverrideComponentPrefix|] + k[|OverrideComponentPrefix|..];
    }
  }

  /** _isValidVersion: neither the add marker nor the remove marker. */
  predicate IsValidVersion(version: Json)
  {
    version != Str(ManuallyAddDependency) && version != Str(ManuallyRemoveDependency)
  }

  /**
   * On collisions between the dependency fields, peerDependencies beats
   * devDependencies, which beats dependencies.
   */
  lemma DependencyFieldPrecedence(o: ComponentOverrides, k: string)
    ensures k in o.DependencyField("peerDependencies") ==>
      o.AllDependencies()[k] == o.DependencyField("peerDependencies")[k]
    ensures k !in o.DependencyField("peerDependencies") && k in o.DependencyField("devDependencies") ==>
      o.AllDependencies()[k] == o.DependencyField("devDependencies")[k]
    ensures k !in o.DependencyField("peerDependencies") && k !in o.DependencyField("devDependencies")
            && k in o.DependencyField("dependencies") ==>
      o.AllDependencies()[k] == o.DependencyField("dependencies")[k]
    ensures k in o.AllDependencies() <==>
      k in o.DependencyField("dependencies") || k in o.DependencyField("devDependencies")
      || k in o.DependencyField("peerDependencies")
  {
  }

  /**
   * A component name is kept exactly when the prefixed key is present with
   * a real version, and it keeps that version.
   */
  lemma ComponentDependenciesExactly(o: ComponentOverrides, name: string)
    ensures name in o.GetComponentDependenciesWithVersion() <==>
      OverrideComponentPrefix + name in o.AllDependencies()
      && IsValidVersion(o.AllDependencies()[OverrideComponentPrefix + name])
    ensures name in o.GetComponentDependenciesWithVersion() ==>
      o.GetComponentDependenciesWithVersion()[name] == o.AllDependencies()[OverrideComponentPrefix + name]
  {
    var allDeps := o.AllDependencies();
    var key := OverrideComponentPrefix + name;
    assert key[|OverrideComponentPrefix|..] == name;
    assert StartsWith(key, OverrideComponentPrefix);
    PrefixedNames(allDeps);
  }

  /**
   * loadFromConsumer: extension contributions are merged under the
   * workspace config; a written component config is then merged over that.
   * The model's overrides are accepted and not used.
   */
  function LoadFromConsumer(componentId: ComponentId, workspaceConfig: Option<OverrideSet>,
                            overridesFromModel: Option<OverrideSet>, componentConfig: ComponentConfig,
                            files: seq<string>, registry: seq<OverridesCallback>)
    : ComponentOverrides
  {
    var extensionsAddedOverrides :=
      RunOnLoadOverridesEvent(registry, LoadContext(componentConfig.extensions, componentId, files));
    var mergedLegacyConsumerOverridesWithExtensions :=
      MergeOverrides(workspaceConfig.GetOr(map[]), extensionsAddedOverrides);
    var fromComponent := if componentConfig.componentHasWrittenConfig then componentConfig.overrides else None;
    if fromComponent.None? then ComponentOverrides(mergedLegacyConsumerOverridesWithExtensions)
    else ComponentOverrides(MergeOverrides(fromComponent.value, mergedLegacyConsumerOverridesWithExtensions))
  }

  /**
   * Precedence of loadFromConsumer for a non-internal field with a truthy
   * non-object value: the written component config beats the workspace
   * config, which beats the extensions; without a written config the
   * workspace beats the extensions; and the model's overrides never matter.
   */
  lemma LoadFromConsumerPrecedence(componentId: ComponentId, workspaceConfig: Option<OverrideSet>,
                                   overridesFromModel: Option<OverrideSet>, componentConfig: ComponentConfig,
                                   files: seq<string>, registry: seq<OverridesCallback>, field: string)
    requires field !in InternalFields
    ensures var r := LoadFromConsumer(componentId, workspaceConfig, overridesFromModel, componentConfig, files, registry);
      var ws := workspaceConfig.GetOr(map[]);
      var ext := RunOnLoadOverridesEvent(registry, LoadContext(componentConfig.extensions, componentId, files));
      var written := componentConfig.componentHasWrittenConfig && componentConfig.overrides.Some?;
      && (written && field in componentConfig.overrides.value && Truthy(componentConfig.overrides.value[field])
          && !componentConfig.overrides.value[field].Obj? ==>
            r.overrides[field] == componentConfig.overrides.value[field])
      && ((!written || field !in componentConfig.overrides.value) && field in ws && Truthy(ws[field])
          && !ws[field].Obj? ==>
            r.overrides[field] == ws[field])
      && ((!written || field !in componentConfig.overrides.value) && field !in ws && field in ext ==>
            r.overrides[field] == ext[field])
      && r == LoadFromConsumer(componentId, workspaceConfig, None, componentConfig, files, registry)
  {
  }

  /**
   * The three-source example: workspace `{dependencies: {a: "1.0.0"}}`, an
   * extension contributing `{dependencies: {a: "2.0.0"}}` and a written
   * component config `{dependencies: {a: "3.0.0"}}` give "3.0.0"; without
   * the written config the workspace value "1.0.0" wins over the extension.
   */
  lemma LoadFromConsumerExample(componentId: ComponentId, files: seq<string>)
    ensures
      var ws := map["dependencies" := Obj(map["a" := Str("1.0.0")])];
      var ext := (c: LoadContext) => map["dependencies" := Obj(map["a" := Str("2.0.0")])];
      var local := map["dependencies" := Obj(map["a" := Str("3.0.0")])];
      var withLocal := LoadFromConsumer(componentId, Some(ws), None, ComponentConfig(true, Some(local), map[]), files, [ext]);
      var withoutLocal := LoadFromConsumer(componentId, Some(ws), None, ComponentConfig(false, None, map[]), files, [ext]);
      && withLocal.overrides["dependencies"] == Obj(map["a" := Str("3.0.0")])
      && withoutLocal.overrides["dependencies"] == Obj(map["a" := Str("1.0.0")])
  {
    var ws := map["dependencies" := Obj(map["a" := Str("1.0.0")])];
    var ext := (c: LoadContext) => map["dependencies" := Obj(map["a" := Str("2.0.0")])];
    var local := map["dependencies" := Obj(map["a" := Str("3.0.0")])];
    var context := LoadContext(map[], componentId, files);
    var contributed: OverrideSet := map["dependencies" := Obj(map["a" := Str("2.0.0")])];
    assert ApplyAll([ext], context) == [contributed];
    MergeDeepLeftUnit(contributed);
    assert [contributed][1..] == [];
    assert MergeContributions(contributed, []) == contributed;
    assert MergeExtensionsOverrides([contributed]) == MergeContributions(MergeDeepLeft(map[], contributed), []);
    assert "a" in contributed["dependencies"].fields;
    assert !IsEmpty(contributed["dependencies"]);
    assert PickNonEmpty(contributed) == contributed;
    assert RunOnLoadOverridesEvent([ext], context) == contributed;
    assert map["a" := Str("2.0.0")] + map["a" := Str("1.0.0")] == map["a" := Str("1.0.0")];
    assert map["a" := Str("1.0.0")] + map["a" := Str("3.0.0")] == map["a" := Str("3.0.0")];
  }
}
