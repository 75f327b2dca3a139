# Dependencies, overrides, the workspace component loader and the consumer

A Dafny model of four pieces of the bit workspace:

- **The dependencies aspect** (`Dependencies`, `dependencies.dfy`).
  - How a package spec such as `@scope/pkg@1.2.3` is split into a name and a version, and how a missing version is resolved.
  - `setDependency`, `removeDependency`, `reset` and `eject`. Each writes a dependency-resolver policy into the config of every matching component, then records one `.bitmap` write.
  - `blame`, which walks a component's log and reports each change of a dependency's version.
  - `usage`, which reports which components use a dependency.
- **Component overrides** (`Overrides`, `overrides.dfy`).
  - The field-wise `mergeOverrides`, and the left-biased deep merge of extension contributions.
  - The registry of override-loading callbacks and the `onLoad` event that runs them.
  - The precedence `loadFromConsumer` gives the written component config, the workspace config and the extensions.
  - The accessors of a loaded `ComponentOverrides`.
- **The workspace component loader** (`Loader`, `loader.dfy`). It is a class whose state is the component cache.
  - The cache key (the id followed by the options, sorted by key and printed as JSON) and the lookup that re-checks the id.
  - `get`: cache, workspace, then scope, including its side effect on the caller's load options.
  - `getMany`: how errors are tolerated or rethrown.
  - `loadOne`, `executeLoadSlot` with its extension upserts, and the multiple-envs issue.
- **The consumer** (`Consumer`, `consumer.dfy`).
  - Modification detection. `isComponentModified` back-fills missing dependency versions, normalises both sides, compares hashes and memoises the answer on the component. `isComponentSourceCodeModified` compares files.
  - Parsing of the bitmap-history metadata file, and the `.bitmap-<date>` file names that `backupBitMap` writes into it.
  - `getParsedId`; exported and not-exported ids; the current lane.
  - `updateNextVersionOnBitmap`.

Shared foundations:
- `Wrappers`: `Option` and `Result`.
- `Strings`: split, join and ordering.
- `Sorting`: a sort by a string key, proved to return a sorted permutation and to be canonical.
- `ComponentIds`: component ids with scope, version, printing and the two equalities.

The rules are:
- Code that changes state in place is a class with `modifies` clauses. This covers the workspace config writer, the loader's cache, the override registry, the file-system component with its `_isModified` memo, and the bitmap.
- Every loop in the source is a method proved against a specification function.
- Everything else is pure functions, and lemmas state the properties.
- I/O, the clock, hashing, the scope and other aspects enter as function parameters.

## Model

| member | source | states |
|---|---|---|
| Dependencies.ScopedSplit | scopes/dependencies/dependencies/dependencies.main.runtime.ts:318-328 | splitting a scoped spec at `@` gives an empty first part, followed by the parts of the rest |
| Dependencies.SplitPkgToNameAndVer | scopes/dependencies/dependencies/dependencies.main.runtime.ts:318-328 | the only error is invalid package syntax for the given spec; a scoped spec keeps its leading `@` in the name |
| Dependencies.SplitPkgRejectsExtraVersions | scopes/dependencies/dependencies/dependencies.main.runtime.ts:318-328 | a spec is rejected exactly when it has more than one version separator after the optional scope `@` |
| Dependencies.MalformedSpecRejected | scopes/dependencies/dependencies/dependencies.main.runtime.ts:322-325 | `name@1@2` is rejected |
| Dependencies.MalformedScopedSpecRejected | scopes/dependencies/dependencies/dependencies.main.runtime.ts:319-325 | `@scope/name@1.0@2.0` is rejected |
| Dependencies.SplitPkgRoundTrip | scopes/dependencies/dependencies/dependencies.main.runtime.ts:318-328 | joining an unscoped name and version with `@` and splitting again gives them back; a bare name has no version |
| Dependencies.SplitPkgScopedRoundTrip | scopes/dependencies/dependencies/dependencies.main.runtime.ts:318-328 | the same round trip for scoped names: the name keeps its `@` |
| Dependencies.GetPackageNameAndVerResolved | scopes/dependencies/dependencies/dependencies.main.runtime.ts:306-317 | a malformed spec fails; otherwise the name is the split name; an exact version is kept; a missing or non-exact version is resolved remotely, and failing that is an error; a success never has an empty version |
| Dependencies.ScopedNamesAreNotComponentIds | scopes/dependencies/dependencies/dependencies.main.runtime.ts:363-365 | names starting with `@` are never component ids; a name with a `/` and no `@` is one |
| Dependencies.DeleteEntry | scopes/dependencies/dependencies/dependencies.main.runtime.ts:137-141 | deleting a policy entry removes exactly that entry of that field |
| Dependencies.SetEntry | scopes/dependencies/dependencies/dependencies.main.runtime.ts:142-143 | setting a policy entry sets exactly that entry of that field |
| Dependencies.Workspace.constructor | scopes/dependencies/dependencies/dependencies.main.runtime.ts:88-97 | a fresh workspace has recorded no config writes and no bitmap writes |
| Dependencies.Workspace.AddSpecificComponentConfig | scopes/dependencies/dependencies/dependencies.main.runtime.ts:88-95 | appends exactly one config write for the component's dependency-resolver aspect |
| Dependencies.Workspace.WriteBitMap | scopes/dependencies/dependencies/dependencies.main.runtime.ts:97 | appends exactly one bitmap write with its reason |
| Dependencies.RemoveOneEffect | scopes/dependencies/dependencies/dependencies.main.runtime.ts:126-145 | removing one package: an absent dependency changes nothing; otherwise only the entry for its lifecycle field is touched. The entry is deleted when it holds a version, marked `-` when it is empty and removal is not limited to existing entries, and left alone when already marked. A report `name@version` is made exactly when the entry changed |
| Dependencies.RemovePackagesFailsIffMalformed | scopes/dependencies/dependencies/dependencies.main.runtime.ts:126-127 | the per-component loop fails exactly when some spec is malformed |
| Dependencies.RemovePackagesReportBound | scopes/dependencies/dependencies/dependencies.main.runtime.ts:125-146 | the reports only grow and number at most one per package |
| Dependencies.RemovePackages | scopes/dependencies/dependencies/dependencies.main.runtime.ts:125-146 | the loop over the packages computes the specification fold |
| Dependencies.ComponentPlanShape | scopes/dependencies/dependencies/dependencies.main.runtime.ts:112-151 | a component's plan fails exactly on a malformed spec; it is skipped when nothing was removed and otherwise names that component with a non-empty removal list |
| Dependencies.RemovalPlanShape | scopes/dependencies/dependencies/dependencies.main.runtime.ts:112-154 | over all components, the plan fails exactly when there is a component and a malformed spec; every reported component removed something, and the reported components appear in input order |
| Dependencies.RemovalResultsAppend | scopes/dependencies/dependencies/dependencies.main.runtime.ts:146-154 | the results of consecutive plans concatenate |
| Dependencies.RemovalWritesAppend | scopes/dependencies/dependencies/dependencies.main.runtime.ts:146-151 | the config writes of consecutive plans concatenate |
| Dependencies.RemoveFromComponent | scopes/dependencies/dependencies/dependencies.main.runtime.ts:113-151 | one component's removal writes exactly its plan's config writes and no bitmap write |
| Dependencies.RemovalPlanSnoc | scopes/dependencies/dependencies/dependencies.main.runtime.ts:112-151 | the plan for one more component extends the plan so far by that component's plan |
| Dependencies.ApplyRemovals | scopes/dependencies/dependencies/dependencies.main.runtime.ts:112-151 | the component loop writes exactly the writes of the whole plan, in order |
| Dependencies.RemoveDependency | scopes/dependencies/dependencies/dependencies.main.runtime.ts:105-155 | it fails exactly on a malformed spec with some component, and then writes nothing; otherwise it returns the plan's results and writes the plan's configs plus one `deps-remove` bitmap write |
| Dependencies.GetDepField | scopes/dependencies/dependencies/dependencies.main.runtime.ts:71-75 | dev wins over peer, and peer over runtime, for the policy field |
| Dependencies.ResolvePackagesNames | scopes/dependencies/dependencies/dependencies.main.runtime.ts:76-82 | the resolved map keeps earlier entries, has no empty version, and has no name that no spec gave |
| Dependencies.ResolvePackagesKeepsKeys | scopes/dependencies/dependencies/dependencies.main.runtime.ts:76-82 | resolving more specs never drops a name already in the map |
| Dependencies.ResolvePackagesWritesEverySpec | scopes/dependencies/dependencies/dependencies.main.runtime.ts:76-82 | on success every spec resolved and every spec's name is a key of the map |
| Dependencies.ResolvePackagesKeepsUnnamed | scopes/dependencies/dependencies/dependencies.main.runtime.ts:76-82 | a name no spec gives keeps its earlier version |
| Dependencies.ResolvePackagesLastSpecWins | scopes/dependencies/dependencies/dependencies.main.runtime.ts:76-82 | the last spec giving a name decides its version, so a name given by a single spec gets that spec's resolved version |
| Dependencies.SameConfigWrites | scopes/dependencies/dependencies/dependencies.main.runtime.ts:88-95 | one write per component, in order, all with the same config and options |
| Dependencies.WriteToAll | scopes/dependencies/dependencies/dependencies.main.runtime.ts:88-95 | the loop appends exactly those writes |
| Dependencies.SetDependency | scopes/dependencies/dependencies/dependencies.main.runtime.ts:65-103 | it fails exactly when some package cannot be resolved, and then writes nothing; otherwise every component gets the config holding the resolved packages under the lifecycle field, merged and overriding; one `deps-set` bitmap write follows; the changed components are printed without version |
| Dependencies.Reset | scopes/dependencies/dependencies/dependencies.main.runtime.ts:157-165 | every component gets an empty policy, and one `deps-reset` bitmap write follows |
| Dependencies.Eject | scopes/dependencies/dependencies/dependencies.main.runtime.ts:167-182 | every component gets an empty config merged with its existing and previous ones, then one `deps-eject` bitmap write |
| Dependencies.Blame | scopes/dependencies/dependencies/dependencies.main.runtime.ts:243-274 | the loop over the log computes the specification fold |
| Dependencies.SubsequenceCons | scopes/dependencies/dependencies/dependencies.main.runtime.ts:248-272 | a subsequence stays one after an element is put in front |
| Dependencies.BlameStepPushesChanges | scopes/dependencies/dependencies/dependencies.main.runtime.ts:251-272 | one log entry is reported exactly when the dependency is present with a version different from the last reported one |
| Dependencies.BlameReportsSightingsInOrder | scopes/dependencies/dependencies/dependencies.main.runtime.ts:248-272 | blame entries are a subsequence, in log order, of the snaps that have the dependency |
| Dependencies.BlameVersionsChange | scopes/dependencies/dependencies/dependencies.main.runtime.ts:248-272 | consecutive blame entries always carry different versions, and the last version tracked is the last one reported |
| Dependencies.BlameNeverReportsRemoval | scopes/dependencies/dependencies/dependencies.main.runtime.ts:251-263 | when no snap holds the removal marker, no entry reports it |
| Dependencies.BlameExample | scopes/dependencies/dependencies/dependencies.main.runtime.ts:243-274 | a five-snap log with versions 1,1,2,2,absent gives two entries: the first 1.0.0 snap and the first 2.0.0 snap |
| Dependencies.UsageReportsExactlyTheUsers | scopes/dependencies/dependencies/dependencies.main.runtime.ts:290-304 | a component id is reported exactly when that component's dependency list has the package |
| Dependencies.UsageReportsTheirVersions | scopes/dependencies/dependencies/dependencies.main.runtime.ts:296-303 | a component whose id string is unique is reported with the version found in it |
| Dependencies.UsageKeepsAbsent | scopes/dependencies/dependencies/dependencies.main.runtime.ts:296-303 | entries for components not visited are left as they were |
| Dependencies.Usage | scopes/dependencies/dependencies/dependencies.main.runtime.ts:290-304 | a malformed spec fails with invalid syntax; otherwise the loop computes the specification fold |
| Overrides.MergeOverridesVisit | src/consumer/config/component-overrides.ts:169-181 | visiting one field: internal fields are skipped; other fields follow the object-merge / falsy-fill rule |
| Overrides.MergeOverridesInto | src/consumer/config/component-overrides.ts:163-183 | the loop over the second override set computes the specification merge |
| Overrides.MergeNeverCopiesInternal | src/consumer/config/component-overrides.ts:171-174 | an internal field is in the result exactly when the first set has it, with its value |
| Overrides.MergeOverridesFields | src/consumer/config/component-overrides.ts:163-183 | the result's fields are the first set's plus the second's non-internal ones; a field only in one set keeps that set's value |
| Overrides.MergeObjectFields | src/consumer/config/component-overrides.ts:175-176 | two object values are merged key-wise, with the first set's keys winning |
| Overrides.MergeKeepsTruthyValue | src/consumer/config/component-overrides.ts:175-179 | a truthy non-object value of the first set is never replaced; a falsy one is replaced by the second set's value |
| Overrides.MergeOverridesIdentity | src/consumer/config/component-overrides.ts:163-183 | merging with an empty set keeps the set, except that an empty first set drops internal fields |
| Overrides.MergeDeepLeft | src/consumer/config/component-overrides.ts:191-195 | the deep merge has the keys of both sides |
| Overrides.MergeDeepLeftUnit | src/consumer/config/component-overrides.ts:191-195 | the empty map is a left and right unit of the deep merge |
| Overrides.MergeContributionsKeys | src/consumer/config/component-overrides.ts:191-195 | a key is in the merged contributions exactly when it is in the start or in some contribution |
| Overrides.MergeContributionsKeepsEarlier | src/consumer/config/component-overrides.ts:191-195 | a non-object value already present is never overwritten by a later contribution |
| Overrides.EarliestContributionWins | src/consumer/config/component-overrides.ts:191-195 | for a non-object value, the earliest contribution holding the key decides |
| Overrides.PickNonEmpty | src/consumer/config/component-overrides.ts:216-217 | exactly the keys with non-empty values survive, unchanged |
| Overrides.OverridesLoadingRegistry.constructor | src/consumer/config/component-overrides.ts:36 | the registry starts empty |
| Overrides.OverridesLoadingRegistry.Register | src/consumer/config/component-overrides.ts:37-39 | registering sets the callback for the extension; a new extension goes last, and a known one keeps its place |
| Overrides.OverridesLoadingRegistry.InOrder | src/consumer/config/component-overrides.ts:208-213 | the callbacks, in registration order |
| Overrides.ApplyAll | src/consumer/config/component-overrides.ts:208-213 | each callback is applied to the same context, in order |
| Overrides.RunOnLoadEarliestWins | src/consumer/config/component-overrides.ts:203-219 | in the onLoad event, the earliest registered extension that contributes a non-empty, non-object value for a key decides it |
| Overrides.ComponentOverrides.ComponentOverridesData | src/consumer/config/component-overrides.ts:112-115 | exactly the non-internal fields, unchanged |
| Overrides.ComponentOverrides.GetIgnored | src/consumer/config/component-overrides.ts:151-153 | exactly the names whose override value is the manual-removal marker `-` |
| Overrides.PrefixedNames | src/consumer/config/component-overrides.ts:126-134 | stripping the component prefix and putting it back gives the original name |
| Overrides.DependencyFieldPrecedence | src/consumer/config/component-overrides.ts:126-134 | when the fields are combined, peer dependencies win over dev, and dev over runtime; a name is present exactly when some field has it |
| Overrides.ComponentDependenciesExactly | src/consumer/config/component-overrides.ts:126-150 | exactly the prefixed names with a valid version, keyed without the prefix |
| Overrides.LoadFromConsumerPrecedence | src/consumer/config/component-overrides.ts:63-105 | for a non-internal field: a truthy written component value beats the workspace, which beats the extensions; the model's overrides never matter |
| Overrides.LoadFromConsumerExample | src/consumer/config/component-overrides.ts:63-105 | workspace 1.0.0, extension 2.0.0 and written 3.0.0 give 3.0.0; without a written config, 1.0.0 |
| Loader.CacheKey | scopes/workspace/workspace/workspace-component/workspace-component-loader.ts:315-317 | a key starts with the component id string and a colon |
| Loader.CacheKeyIgnoresOptionOrder | scopes/workspace/workspace/workspace-component/workspace-component-loader.ts:315-321 | options that differ only in order give the same key |
| Loader.CacheKeyNoOptions | scopes/workspace/workspace/workspace-component/workspace-component-loader.ts:315-317 | no options and an empty options object give the same key, `<id>:{}` |
| Loader.CacheKeyByIdString | scopes/workspace/workspace/workspace-component/workspace-component-loader.ts:315-317 | ids that print the same share keys |
| Loader.Lookup | scopes/workspace/workspace/workspace-component/workspace-component-loader.ts:208-215 | a hit is the entry under the key whose id equals the requested one; otherwise a miss |
| Loader.SavedComponentIsFound | scopes/workspace/workspace/workspace-component/workspace-component-loader.ts:196-215 | a saved component is found again under its own id and options |
| Loader.LookupRejectsStringEqualIds | scopes/workspace/workspace/workspace-component/workspace-component-loader.ts:204-215 | an entry whose id prints like the request but is not equal to it is not returned |
| Loader.ClearedComponentMisses | scopes/workspace/workspace/workspace-component/workspace-component-loader.ts:148-155 | after clearing, no id printing like the cleared one is found; other keys are kept |
| Loader.ClearByUnversionedIdKeepsVersioned | scopes/workspace/workspace/workspace-component/workspace-component-loader.ts:148-155 | clearing by `ui/button` keeps the entry of `ui/button@1.0.0` |
| Loader.FindExtension | scopes/workspace/workspace/workspace-component/workspace-component-loader.ts:298-307 | the index of the first extension with the name, or none when no extension has it |
| Loader.UpsertExtensionDataEffect | scopes/workspace/workspace/workspace-component/workspace-component-loader.ts:298-307 | no data changes nothing; an existing entry gets the data merged over its own with all else equal; otherwise one entry is appended |
| Loader.UpsertKeepsNames | scopes/workspace/workspace/workspace-component/workspace-component-loader.ts:298-307 | an upsert keeps every extension's name in place, and then has the extension |
| Loader.RunSlotsKeepsNames | scopes/workspace/workspace/workspace-component/workspace-component-loader.ts:283-289 | running the onLoad slots keeps id, removal flag, issues and every extension name |
| Loader.RunSlotsAppend | scopes/workspace/workspace/workspace-component/workspace-component-loader.ts:283-289 | running two slot lists in sequence is running their concatenation |
| Loader.SlotsRunAfterEnvsAndDeps | scopes/workspace/workspace/workspace-component/workspace-component-loader.ts:253-289 | the slots start from a component that already has the dependency-resolver entry, and the envs entry when envs returned data |
| Loader.LoadSlotEffect | scopes/workspace/workspace/workspace-component/workspace-component-loader.ts:247-292 | a removed component comes back unchanged; otherwise id, flag and issues are kept, no extension is lost, and the resolver entry, plus the envs entry when envs returned data, is present |
| Loader.Dedup | scopes/workspace/workspace/workspace-component/workspace-component-loader.ts:136-143 | the same elements, each once |
| Loader.DedupKeepsFirstOccurrenceOrder | scopes/workspace/workspace/workspace-component/workspace-component-loader.ts:138 | the result lists each value in the order of its first occurrence in the input, as `uniq` does; with `Dedup`'s own clauses this fixes the list |
| Loader.DedupHasTwo | scopes/workspace/workspace/workspace-component/workspace-component-loader.ts:136-143 | at least two unique envs exactly when two entries differ |
| Loader.MultipleEnvsIssue | scopes/workspace/workspace/workspace-component/workspace-component-loader.ts:136-143 | the issue is added exactly when two different envs are configured; it lists each env once, in the order of first occurrence, which is `uniq`'s list; nothing else changes |
| Loader.SetOptionIdempotent | scopes/workspace/workspace/workspace-component/workspace-component-loader.ts:221 | setting an option twice is setting it once, and the option then holds |
| Loader.MarkingIsIdempotent | scopes/workspace/workspace/workspace-component/workspace-component-loader.ts:221 | marking options as originated from harmony twice is marking once |
| Loader.LoadOneOutcome | scopes/workspace/workspace/workspace-component/workspace-component-loader.ts:157-194 | it fails, with missing bitmap, exactly when neither the workspace nor the scope has the component; otherwise the scope's id wins, the workspace's removal flag is kept, and a merge conflict from either source is an issue |
| Loader.GetReturnsCachedHit | scopes/workspace/workspace/workspace-component/workspace-component-loader.ts:105-113 | with the cache allowed, a hit for the resolved id is returned and nothing changes |
| Loader.GetUsesCacheOnlyWhenAllowed | scopes/workspace/workspace/workspace-component/workspace-component-loader.ts:105-113 | a cached value is returned only when the cache is allowed: without it, the result and the caller's options do not depend on the cache; with it, a miss loads as if the cache were bypassed |
| Loader.GetCacheEffect | scopes/workspace/workspace/workspace-component/workspace-component-loader.ts:98-123 | the cache changes only on a stored success, by one entry that a later lookup with the returned options finds |
| Loader.GetErrors | scopes/workspace/workspace/workspace-component/workspace-component-loader.ts:114-117 | a failure is either missing bitmap or a workspace loading error other than not-found |
| Loader.FirstGetStoresUnderMarkedKey | scopes/workspace/workspace/workspace-component/workspace-component-loader.ts:110-121 | with a caller-supplied empty options object, the lookup key is `<id>:{}`, but loading marks the options, so the store key is `<id>:{` followed by the printed `originatedFromHarmony: true` option and `}`, a different key |
| Loader.SingleOptionPrint | scopes/workspace/workspace/workspace-component/workspace-component-loader.ts:315-321 | a single option prints as `{"<name>":<value>}` |
| Loader.Compact | scopes/workspace/workspace/workspace-component/workspace-component-loader.ts:41 | exactly the present ids, no more of them than were given |
| Loader.Outcomes | scopes/workspace/workspace/workspace-component/workspace-component-loader.ts:45-64 | one outcome per id |
| Loader.GetManyFromIsCollect | scopes/workspace/workspace/workspace-component/workspace-component-loader.ts:45-71 | the sequential loads are the fold of their individual outcomes |
| Loader.CollectSucceeds | scopes/workspace/workspace/workspace-component/workspace-component-loader.ts:45-64 | the fold succeeds exactly when no outcome is a rethrown error |
| Loader.CollectContents | scopes/workspace/workspace/workspace-component/workspace-component-loader.ts:45-71 | a successful fold returns the loaded components and the invalid ones in input order |
| Loader.CollectFails | scopes/workspace/workspace/workspace-component/workspace-component-loader.ts:45-64 | a failed fold reports the first rethrown error |
| Loader.GetManyCharacterised | scopes/workspace/workspace/workspace-component/workspace-component-loader.ts:33-74 | getMany succeeds exactly when no id fails with an error it must rethrow; it returns every loaded component, and only when failures are tolerated every invalid one; not-found errors are dropped; a failure is the first rethrown error |
| Loader.LoadedBound | scopes/workspace/workspace/workspace-component/workspace-component-loader.ts:45-71 | at most one component per id |
| Loader.WorkspaceComponentLoader.constructor | scopes/workspace/workspace/workspace-component/workspace-component-loader.ts:145-147 | the cache starts empty |
| Loader.WorkspaceComponentLoader.GetFromCache | scopes/workspace/workspace/workspace-component/workspace-component-loader.ts:208-215 | the cache lookup |
| Loader.WorkspaceComponentLoader.SaveInCache | scopes/workspace/workspace/workspace-component/workspace-component-loader.ts:196-199 | exactly one entry is set, under the component's key |
| Loader.WorkspaceComponentLoader.ClearCache | scopes/workspace/workspace/workspace-component/workspace-component-loader.ts:145-147 | the cache becomes empty |
| Loader.WorkspaceComponentLoader.ClearComponentCache | scopes/workspace/workspace/workspace-component/workspace-component-loader.ts:148-155 | the loop removes exactly the keys of that id string |
| Loader.WorkspaceComponentLoader.ExecuteLoadSlot | scopes/workspace/workspace/workspace-component/workspace-component-loader.ts:247-292 | the slot loop computes the load-slot specification |
| Loader.WorkspaceComponentLoader.LoadOne | scopes/workspace/workspace/workspace-component/workspace-component-loader.ts:157-194 | computes the loadOne specification |
| Loader.WorkspaceComponentLoader.Get | scopes/workspace/workspace/workspace-component/workspace-component-loader.ts:98-123 | result, new cache and the caller's options after the call are those of the get specification |
| Loader.WorkspaceComponentLoader.GetMany | scopes/workspace/workspace/workspace-component/workspace-component-loader.ts:33-74 | result, new cache and options are those of the getMany specification over the compacted ids |
| Sorting.SortBy | src/consumer/consumer.ts:398-417 | sorting by a key returns a sorted permutation |
| Sorting.SortByCanonical | src/consumer/consumer.ts:398-417 | with distinct keys, any two orders of the same elements sort to the same sequence |
| Consumer.SortOverridesCanonical | src/consumer/consumer.ts:418-423 | overrides that differ only in entry order sort to the same overrides |
| Consumer.NormalizeCanonical | src/consumer/consumer.ts:398-423 | version data that differ only in the order of files, dependencies, package maps and override entries normalise to the same data |
| Consumer.NormalizeKeepsContents | src/consumer/consumer.ts:398-417 | normalising keeps every file and entry and the log, and sorts files by path |
| Consumer.FindWithoutVersion | src/consumer/consumer.ts:372-375 | the first model dependency equal without version, or none when there is none |
| Consumer.BackFill | src/consumer/consumer.ts:371-380 | one dependency out per dependency in |
| Consumer.BackFillEffect | src/consumer/consumer.ts:371-380 | a versioned dependency is kept; an unversioned one (no version, an empty one or `latest`) takes the first model id equal without version, and stays when there is none |
| Consumer.BackFillKeepsVersioned | src/consumer/consumer.ts:371-380 | all-versioned dependencies are not changed |
| Consumer.BackFillDependencies | src/consumer/consumer.ts:371-382 | the loop computes the back-fill |
| Consumer.FsComponent.constructor | src/consumer/consumer.ts:366 | a fresh file-system component has no memoised answer |
| Consumer.ReorderingIsNotAModification | src/consumer/consumer.ts:366-396 | when the back-filled file-system data differs from the model only in order, the component is not modified |
| Consumer.VersionedReorderingIsNotAModification | src/consumer/consumer.ts:366-396 | with fully versioned dependencies, a difference in order alone is not a modification |
| Consumer.IsComponentModified | src/consumer/consumer.ts:355-424 | the two type errors come first; a memoised answer is returned unchanged; otherwise the log is copied, the hash comparison is made and memoised |
| Consumer.SourceModifiedIffFilesDiffer | src/consumer/consumer.ts:427-441 | with distinct paths, the source is modified exactly when the files differ as a collection |
| Consumer.IsComponentSourceCodeModified | src/consumer/consumer.ts:427-441 | a memoised `false` answers false at once; otherwise the log is copied and the sorted files are compared |
| Consumer.GetParsedBitmapHistoryMetadata | src/consumer/consumer.ts:675-690 | the loop over the lines computes the metadata parse; an unreadable file gives no metadata |
| Consumer.ParseBackupLine | src/consumer/consumer.ts:684-686 | a line written as `<fileId> <reason>` parses back to that pair |
| Consumer.ApplyHistory | src/consumer/consumer.ts:682-689 | parsing a history file's lines records each written entry in order |
| Consumer.HistoryRoundTrip | src/consumer/consumer.ts:675-707 | parsing a file of backup lines gives the recorded entries |
| Consumer.LaterLineWins | src/consumer/consumer.ts:682-689 | the last line for a file id decides its reason |
| Consumer.RecordedAbsent | src/consumer/consumer.ts:682-689 | a file id with no line keeps its earlier entry or stays absent |
| Consumer.FileNameRoundTrip | src/consumer/consumer.ts:709-718 | the date file name splits back into its six numeric fields and is a valid history file id |
| Consumer.GetParsedIdEffect | src/consumer/consumer.ts:254-264 | an `@` name is an unexpected package name; a bitmap error propagates; otherwise the bitmap id, with a non-empty version: the written one, or `latest` (which counts as no version) when none is written, unless the bitmap's version is asked for |
| Consumer.GetParsedIdWrittenVersion | src/consumer/consumer.ts:254-264 | `name@version` parses to the bitmap id with that version |
| Consumer.NotExportedIdsExactly | src/consumer/consumer.ts:601-603 | the not-exported ids are exactly the bitmap ids without scope |
| Consumer.IsExportedMeans | src/consumer/consumer.ts:608-610 | exported means scoped and not equal, without version, to a scope-less bitmap id |
| Consumer.IsOnLaneMeans | src/consumer/consumer.ts:146-171 | on a lane exactly when the bitmap names a lane other than `main`; without one the lane is `main` of the scope |
| Consumer.UpdateFailsIffIncomplete | src/consumer/consumer.ts:451-468 | the update fails exactly when some component lacks its log or its bitmap entry |
| Consumer.UpdateKeepsUnnamed | src/consumer/consumer.ts:451-468 | an entry no component names is never touched |
| Consumer.UpdateLastWins | src/consumer/consumer.ts:451-468 | after success each entry holds the next version of the last component naming it, with log fields and pre-release |
| Consumer.BitMap.constructor | src/consumer/consumer.ts:451-468 | a bitmap starts unchanged |
| Consumer.BitMap.UpdateNextVersionOnBitmap | src/consumer/consumer.ts:451-468 | the loop computes the update specification; the bitmap is marked changed exactly when the update succeeded with some component |

## Left out

- The dependency-resolver aspect, the workspace's config writer and `.bitmap` persistence: they are recorded as lists of writes, not performed.
- The package-version resolver, component lookup by pattern, log reading and the version of a dependency at a snap: these are function parameters. Dates are formatted by a parameter too.
- Dependencies.UsageDeep: `usageDeep` calls into the package manager's `why` and prints its output; that is external I/O.
- Dependencies.Blame: the `<REMOVED>` version is computed but never reported. A snap without the dependency returns before the push, so a removal produces no entry, and the version tracked is not reset. The model follows the code, so the first snap that has the dependency is reported too. `BlameReportsSightingsInOrder` and `BlameExample` state this behaviour.
- Overrides.MergeDeepLeft: associativity is not stated; only the keys and the unit laws are.
- `ComponentOverrides.clone`, `getEnvByType` and `getIgnoredPackages`: thin wrappers (a deep copy, a field read, and `getIgnored` over the package fields) with nothing to state beyond what is stated for the members they use.
- `componentOverridesPackageJsonData`, and every read of `package.json`: not modelled.
- Loader.GetManyCharacterised: not-found errors are dropped whether or not failures are tolerated. They are neither rethrown nor listed as invalid. The code first lists an error as invalid when it is invalid by type and failures are tolerated. Only after that does it drop not-found errors, in both modes. A not-found error that is also invalid by type is therefore listed as invalid when failures are tolerated, and `Collect` follows that order.
- Overrides.LoadFromConsumer: the `legacyOverridesFromConsumer \|\| {}` that `plainLegacy.env` triggers (component-overrides.ts lines 74-76) is not modelled. It is redundant, because the merge at line 93 applies the same `\|\| {}`.
- Overrides.LoadFromConsumerPrecedence: it states the precedence only for truthy non-object values. Object values deep-merge, and that is stated separately by MergeObjectFields and the MergeContributions lemmas. For object fields, the workspace value wins over the extension value.
- ComponentIds: the component-id library is not part of this model. `ComponentIds` is an assumed model of it. An id prints as its scope (the default scope when none is written), `/`, its name, and `@` with its version when it has one. `latest` and the empty version count as no version, so `hasVersion` is false for them and they are not printed. Two ids are equal when their name, written scope, effective scope and version are equal.
- Constants whose defining files are not part of this model take these assumed values:
  - the internal override fields (`Overrides.InternalFields`);
  - the manual-add and manual-remove markers `+` and `-`;
  - the override component prefix `@bit/`;
  - `latest` (`ComponentIds.Latest`);
  - the default lane `main` (`Consumer.DefaultLane`);
  - the dependency fields `dependencies`, `devDependencies` and `peerDependencies` (`Consumer.DependenciesFields`);
  - the dependency-resolver aspect id (`Dependencies.DependencyResolverAspectId`).
- Overrides.ComponentOverrides.GetIgnored: returns a set of names. The source returns an array in the field's key order. Override objects are maps here, so their key order is not modelled.
- JSON numbers are integers. NaN, floats and JavaScript coercions other than truthiness are left out, and so is `Object.assign` with string or array sources.
- `localeCompare`: modelled as code-unit order.
- JSON key order: printing follows insertion order, and the integer-like key reordering of JavaScript objects is left out. No escaping is applied when printing strings.
- Sorting: `Dependencies.sort()` is modelled as a sort by the id string. `sortObject` is modelled as a sort by key.
- `Promise.all` and `mapSeries` are modelled sequentially, in input order. This covers the loader, the resolution and the config writes of `setDependency` (dependencies.main.runtime.ts lines 77-82 and 88-95), `usage` (lines 294-302) and `runOnLoadOverridesEvent` (component-overrides.ts lines 209-214). Interleaving between concurrent callbacks is not captured.
- Loader.WorkspaceComponentLoader: the in-memory cache has no size limit or eviction.
- The loader's logging and long-process logger are not modelled.
- `loadFromScope`, `getInvalid` and `getIfExist` are outside the modelled core.
- Components are values. The model therefore does not capture aliasing or in-place mutation:
  - `upsertExtensionData`'s `Object.assign` and `push` on the shared component;
  - `createAspectList` and the aspect-entry upserts;
  - the `issues` object that is shared with the consumer component.
- Loader: `isComponentInvalidByErrorType` and the scope, envs and dependency-resolver aspects are parameters.
- Consumer.IsComponentModified:
  - `calculateHash` and `consumerComponentToVersion` are parameters.
  - `sortProperties` also re-sorts the model component in place. The model normalises a copy instead; the two agree on the hash compared.
  - The `BIT_LOG` console output is not modelled.
- `getVersionFromString`: modelled as the text between the first and the second `@` (the second part of splitting at `@`). The id library that defines it is not part of this model.
- `backupBitMap`: the directory creation, the copy of `.bitmap` and the append are I/O. Their content is captured by `BackupLine`, `HistoryFile` and `HistoryRoundTrip`.
- The clock: the current time is a `DateTime` parameter.
- File reads: a file read is a `Result` parameter.
- `getParsedBitmapHistoryMetadata`: read errors other than "not found" also yield no metadata, because the code goes on with no content.
- The rest of the consumer class, covering loading, writing, the status loader and lane objects, is outside the modelled core.
