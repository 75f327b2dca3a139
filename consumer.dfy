/**
 * The workspace consumer: deciding whether a component on the file system is
 * modified against its stored version, the bitmap-history metadata file, and
 * the small id and lane queries the rest of the workspace relies on.
 *
 * Hashing, the conversion of a file-system component into a version, and the
 * bitmap's id lookup are parameters.
 */
module Consumer {
  import opened Wrappers
  import opened Strings
  import opened Sorting
  import opened ComponentIds

  const DefaultLane := "main"
  const DependenciesFields := ["dependencies", "devDependencies", "peerDependencies"]

  // ---------------------------------------------------------------------
  // Versions and their normal form

  datatype File = File(relativePath: string, contents: string)

  datatype Log = Log(message: string, username: string, email: string)

  /** An object's properties in order. */
  type Entries = seq<(string, string)>

  datatype VersionData = VersionData(
    files: seq<File>,
    log: Option<Log>,
    dependencies: seq<ComponentId>,
    devDependencies: seq<ComponentId>,
    packageDependencies: Entries,
    devPackageDependencies: Entries,
    peerPackageDependencies: Entries,
    overrides: Option<map<string, Entries>>)

  function RelativePath(f: File): string {
    f.relativePath
  }

  function IdString(id: ComponentId): string {
    id.ToString()
  }

  function EntryKey(e: (string, string)): string {
    e.0
  }

  /** `sortOverrides`: only the dependency fields are re-sorted. */
  function SortOverrides(overrides: Option<map<string, Entries>>): Option<map<string, Entries>> {
    match overrides
    case None => None
    case Some(o) => Some(map k | k in o :: if k in DependenciesFields then SortBy(o[k], EntryKey) else o[k])
  }

  /** `sortProperties`: the fields whose order carries no meaning, sorted. */
  function Normalize(v: VersionData): VersionData {
    v.(files := SortBy(v.files, RelativePath),
       dependencies := SortBy(v.dependencies, IdString),
       devDependencies := SortBy(v.devDependencies, IdString),
       packageDependencies := SortBy(v.packageDependencies, EntryKey),
       devPackageDependencies := SortBy(v.devPackageDependencies, EntryKey),
       peerPackageDependencies := SortBy(v.peerPackageDependencies, EntryKey),
       overrides := SortOverrides(v.overrides))
  }

  /** The same list in another order, with no two elements under the same key. */
  ghost predicate Reordered<T>(a: seq<T>, b: seq<T>, key: T -> string) {
    multiset(a) == multiset(b) && DistinctKeys(a, key)
  }

  ghost predicate SameOverridesUpToOrder(a: Option<map<string, Entries>>, b: Option<map<string, Entries>>) {
    && a.Some? == b.Some?
    && (a.Some? ==>
          && a.value.Keys == b.value.Keys
          && forall k :: k in a.value ==>
               if k in DependenciesFields then Reordered(a.value[k], b.value[k], EntryKey) else a.value[k] == b.value[k])
  }

  /** Two versions that differ only in the order of the fields `sortProperties` sorts. */
  ghost predicate SameUpToOrder(a: VersionData, b: VersionData) {
    && a.log == b.log
    && Reordered(a.files, b.files, RelativePath)
    && Reordered(a.dependencies, b.dependencies, IdString)
    && Reordered(a.devDependencies, b.devDependencies, IdString)
    && Reordered(a.packageDependencies, b.packageDependencies, EntryKey)
    && Reordered(a.devPackageDependencies, b.devPackageDependencies, EntryKey)
    && Reordered(a.peerPackageDependencies, b.peerPackageDependencies, EntryKey)
    && SameOverridesUpToOrder(a.overrides, b.overrides)
  }

  lemma SortOverridesCanonical(a: Option<map<string, Entries>>, b: Option<map<string, Entries>>)
    requires SameOverridesUpToOrder(a, b)
    ensures SortOverrides(a) == SortOverrides(b)
  {
    if a.Some? {
      var sa := SortOverrides(a).value;
      var sb := SortOverrides(b).value;
      assert sa.Keys == sb.Keys;
      forall k | k in sa
        ensures sa[k] == sb[k]
      {
        if k in DependenciesFields {
          SortByCanonical(a.value[k], b.value[k], EntryKey);
        }
      }
      assert sa == sb;
    }
  }

  /** Normalising erases every difference of order and nothing else. */
  lemma NormalizeCanonical(a: VersionData, b: VersionData)
    requires SameUpToOrder(a, b)
    ensures Normalize(a) == Normalize(b)
  {
    SortByCanonical(a.files, b.files, RelativePath);
    SortByCanonical(a.dependencies, b.dependencies, IdString);
    SortByCanonical(a.devDependencies, b.devDependencies, IdString);
    SortByCanonical(a.packageDependencies, b.packageDependencies, EntryKey);
    SortByCanonical(a.devPackageDependencies, b.devPackageDependencies, EntryKey);
    SortByCanonical(a.peerPackageDependencies, b.peerPackageDependencies, EntryKey);
    SortOverridesCanonical(a.overrides, b.overrides);
  }

  /** Normalising keeps every file, dependency and package entry. */
  lemma NormalizeKeepsContents(v: VersionData)
    ensures var n := Normalize(v);
            && n.log == v.log
            && multiset(n.files) == multiset(v.files)
            && multiset(n.dependencies) == multiset(v.dependencies)
            && multiset(n.devDependencies) == multiset(v.devDependencies)
            && multiset(n.packageDependencies) == multiset(v.packageDependencies)
            && multiset(n.devPackageDependencies) == multiset(v.devPackageDependencies)
            && multiset(n.peerPackageDependencies) == multiset(v.peerPackageDependencies)
            && SortedBy(n.files, RelativePath)
  {
  }

  // ---------------------------------------------------------------------
  // Back-filling dependency versions

  /** The first model dependency equal to `dep` when versions are ignored. */
  function FindWithoutVersion(model: seq<ComponentId>, dep: ComponentId): (r: Option<ComponentId>)
    ensures r.Some? ==> exists i :: 0 <= i < |model| && model[i] == r.value && model[i].IsEqualWithoutVersion(dep)
                                    && forall j :: 0 <= j < i ==> !model[j].IsEqualWithoutVersion(dep)
    ensures r.None? ==> forall i :: 0 <= i < |model| ==> !model[i].IsEqualWithoutVersion(dep)
  {
    if model == [] then None
    else if model[0].IsEqualWithoutVersion(dep) then Some(model[0])
    else
      var r := FindWithoutVersion(model[1..], dep);
      if r.Some? then
        var i :| 0 <= i < |model[1..]| && model[1..][i] == r.value && model[1..][i].IsEqualWithoutVersion(dep)
                 && forall j :: 0 <= j < i ==> !model[1..][j].IsEqualWithoutVersion(dep);
        assert model[i + 1] == r.value;
        r
      else r
  }

  function BackFillOne(dep: ComponentId, model: seq<ComponentId>): ComponentId {
    var found := FindWithoutVersion(model, dep);
    if found.Some? && !dep.HasVersion() then found.value else dep
  }

  function BackFill(deps: seq<ComponentId>, model: seq<ComponentId>): (r: seq<ComponentId>)
    ensures |r| == |deps|
  {
    seq(|deps|, i requires 0 <= i < |deps| => BackFillOne(deps[i], model))
  }

  /** Only the two dependency lists are back-filled, each from its model counterpart. */
  function BackFillVersion(version: VersionData, model: VersionData): VersionData {
    version.(dependencies := BackFill(version.dependencies, model.dependencies),
             devDependencies := BackFill(version.devDependencies, model.devDependencies))
  }

  /**
   * A versioned dependency is kept; an unversioned one takes the id of the
   * first model dependency with its name and scope, when there is one.
   */
  lemma BackFillEffect(deps: seq<ComponentId>, model: seq<ComponentId>, i: nat)
    requires i < |deps|
    ensures deps[i].HasVersion() ==> BackFill(deps, model)[i] == deps[i]
    ensures !deps[i].HasVersion() && (forall j :: 0 <= j < |model| ==> !model[j].IsEqualWithoutVersion(deps[i]))
            ==> BackFill(deps, model)[i] == deps[i]
    ensures !deps[i].HasVersion() && (exists j :: 0 <= j < |model| && model[j].IsEqualWithoutVersion(deps[i])) ==>
              exists j :: 0 <= j < |model| && BackFill(deps, model)[i] == model[j]
                          && model[j].IsEqualWithoutVersion(deps[i])
                          && forall k :: 0 <= k < j ==> !model[k].IsEqualWithoutVersion(deps[i])
  {
  }

  /** When every dependency carries a version, back-filling changes nothing. */
  lemma BackFillKeepsVersioned(deps: seq<ComponentId>, model: seq<ComponentId>)
    requires forall i :: 0 <= i < |deps| ==> deps[i].HasVersion()
    ensures BackFill(deps, model) == deps
  {
  }

  method BackFillDependencies(deps: seq<ComponentId>, model: seq<ComponentId>) returns (r: seq<ComponentId>)
    ensures r == BackFill(deps, model)
  {
    r := deps;
    var i := 0;
    while i < |r|
      invariant 0 <= i <= |r| == |deps|
      invariant forall j :: 0 <= j < i ==> r[j] == BackFillOne(deps[j], model)
      invariant forall j :: i <= j < |r| ==> r[j] == deps[j]
    {
      var fromModel := FindWithoutVersion(model, r[i]);
      if fromModel.Some? && !r[i].HasVersion() {
        r := r[i := fromModel.value];
      }
      i := i + 1;
    }
  }

  // ---------------------------------------------------------------------
  // isComponentModified and isComponentSourceCodeModified

  /** A value whose class the callee checks at run time. */
  datatype Arg<T> = Instance(value: T) | Foreign(typeName: string)

  datatype TypeError = TypeError(message: string)

  datatype FsSnapshot = FsSnapshot(files: seq<File>, dependencies: seq<ComponentId>, devDependencies: seq<ComponentId>, log: Option<Log>)

  datatype ModificationEnv = ModificationEnv(toVersion: FsSnapshot -> VersionData, hash: VersionData -> string)

  /** A component as loaded from the file system, with its memoised answer. */
  class FsComponent {
    const files: seq<File>
    const dependencies: seq<ComponentId>
    const devDependencies: seq<ComponentId>
    var log: Option<Log>
    var isModified: Option<bool>

    constructor(files: seq<File>, dependencies: seq<ComponentId>, devDependencies: seq<ComponentId>, log: Option<Log>)
      ensures this.files == files && this.dependencies == dependencies && this.devDependencies == devDependencies
      ensures this.log == log && isModified == None
    {
      this.files := files;
      this.dependencies := dependencies;
      this.devDependencies := devDependencies;
      this.log := log;
      isModified := None;
    }

    function Snapshot(): FsSnapshot
      reads this
    {
      FsSnapshot(files, dependencies, devDependencies, log)
    }
  }

  /** The hashes of the two normalised versions differ, after back-filling the file-system side. */
  function Modified(model: VersionData, version: VersionData, hash: VersionData -> string): bool {
    hash(Normalize(model)) != hash(Normalize(BackFillVersion(version, model)))
  }

  /** Reordering alone never makes a component modified, whatever the hash. */
  lemma ReorderingIsNotAModification(model: VersionData, version: VersionData, hash: VersionData -> string)
    requires SameUpToOrder(BackFillVersion(version, model), model)
    ensures !Modified(model, version, hash)
  {
    NormalizeCanonical(BackFillVersion(version, model), model);
  }

  /** With fully versioned dependencies, only the order-free contents can make a component modified. */
  lemma VersionedReorderingIsNotAModification(model: VersionData, version: VersionData, hash: VersionData -> string)
    requires forall i :: 0 <= i < |version.dependencies| ==> version.dependencies[i].HasVersion()
    requires forall i :: 0 <= i < |version.devDependencies| ==> version.devDependencies[i].HasVersion()
    requires SameUpToOrder(version, model)
    ensures !Modified(model, version, hash)
  {
    BackFillKeepsVersioned(version.dependencies, model.dependencies);
    BackFillKeepsVersioned(version.devDependencies, model.devDependencies);
    assert BackFillVersion(version, model) == version;
    ReorderingIsNotAModification(model, version, hash);
  }

  const ModelTypeMessage := "isComponentModified expects componentFromModel to be Version, got "
  const FsTypeMessage := "isComponentModified expects componentFromFileSystem to be ConsumerComponent, got "

  method IsComponentModified(componentFromModel: Arg<VersionData>, componentFromFileSystem: Arg<FsComponent>, env: ModificationEnv)
    returns (r: Result<bool, TypeError>)
    modifies if componentFromFileSystem.Instance? then {componentFromFileSystem.value} else {}
    ensures componentFromModel.Foreign? ==> r == Failure(TypeError(ModelTypeMessage + componentFromModel.typeName))
    ensures componentFromModel.Instance? && componentFromFileSystem.Foreign? ==>
              r == Failure(TypeError(FsTypeMessage + componentFromFileSystem.typeName))
    ensures componentFromModel.Foreign? || componentFromFileSystem.Foreign? ==>
              componentFromFileSystem.Instance? ==> unchanged(componentFromFileSystem.value)
    ensures componentFromModel.Instance? && componentFromFileSystem.Instance? ==>
              var fs := componentFromFileSystem.value;
              var model := componentFromModel.value;
              if old(fs.isModified).Some? then
                r == Success(old(fs.isModified).value) && unchanged(fs)
              else
                && fs.log == model.log
                && r == Success(Modified(model, env.toVersion(fs.Snapshot()), env.hash))
                && fs.isModified == Some(r.value)
  {
    if componentFromModel.Foreign? {
      return Failure(TypeError(ModelTypeMessage + componentFromModel.typeName));
    }
    if componentFromFileSystem.Foreign? {
      return Failure(TypeError(FsTypeMessage + componentFromFileSystem.typeName));
    }
    var model := componentFromModel.value;
    var fs := componentFromFileSystem.value;
    if fs.isModified.None? {
      fs.log := model.log;
      var version := env.toVersion(fs.Snapshot());
      var deps := BackFillDependencies(version.dependencies, model.dependencies);
      var devDeps := BackFillDependencies(version.devDependencies, model.devDependencies);
      version := version.(dependencies := deps, devDependencies := devDeps);
      var modified := env.hash(Normalize(model)) != env.hash(Normalize(version));
      fs.isModified := Some(modified);
    }
    r := Success(fs.isModified.value);
  }

  /** The sorted file lists differ. */
  function SourceModified(modelFiles: seq<File>, fsFiles: seq<File>): bool {
    SortBy(fsFiles, RelativePath) != SortBy(modelFiles, RelativePath)
  }

  /** With distinct paths, the source is modified exactly when the files differ as a collection. */
  lemma SourceModifiedIffFilesDiffer(modelFiles: seq<File>, fsFiles: seq<File>)
    requires DistinctKeys(fsFiles, RelativePath)
    ensures SourceModified(modelFiles, fsFiles) <==> multiset(modelFiles) != multiset(fsFiles)
  {
    if multiset(modelFiles) == multiset(fsFiles) {
      SortByCanonical(fsFiles, modelFiles, RelativePath);
    }
  }

  method IsComponentSourceCodeModified(model: VersionData, fs: FsComponent, env: ModificationEnv) returns (r: bool)
    modifies fs
    ensures old(fs.isModified) == Some(false) ==> !r && unchanged(fs)
    ensures old(fs.isModified) != Some(false) ==>
              && fs.log == model.log && fs.isModified == old(fs.isModified)
              && r == SourceModified(model.files, env.toVersion(fs.Snapshot()).files)
  {
    if fs.isModified == Some(false) {
      return false;
    }
    fs.log := model.log;
    var version := env.toVersion(fs.Snapshot());
    r := SortBy(version.files, RelativePath) != SortBy(model.files, RelativePath);
  }

  // ---------------------------------------------------------------------
  // Bitmap-history metadata

  /** The first space-separated token and the rest of the line; an empty token is no entry. */
  function ParseLine(line: string): Option<(string, string)> {
    var parts := Split(line, ' ');
    if parts[0] == "" then None else Some((parts[0], Join(parts[1..], ' ')))
  }

  function ApplyLines(metadata: map<string, string>, lines: seq<string>): map<string, string>
    decreases |lines|
  {
    if lines == [] then metadata
    else
      var next := match ParseLine(lines[0]) case None => metadata case Some(entry) => metadata[entry.0 := entry.1];
      ApplyLines(next, lines[1..])
  }

  /** A file that cannot be read has no metadata. */
  function ParseMetadata(read: Result<string, string>): map<string, string> {
    if read.Failure? then map[] else ApplyLines(map[], Split(read.value, '\n'))
  }

  method GetParsedBitmapHistoryMetadata(read: Result<string, string>) returns (metadata: map<string, string>)
    ensures metadata == ParseMetadata(read)
  {
    if read.Failure? {
      return map[];
    }
    var lines := Split(read.value, '\n');
    metadata := map[];
    var i := 0;
    while i < |lines|
      invariant 0 <= i <= |lines|
      invariant ApplyLines(metadata, lines[i..]) == ParseMetadata(read)
    {
      assert lines[i..][1..] == lines[i + 1..];
      var parts := Split(lines[i], ' ');
      var fileId := parts[0];
      if fileId != "" {
        metadata := metadata[fileId := Join(parts[1..], ' ')];
      }
      i := i + 1;
    }
  }

  /** The line `backupBitMap` appends; a missing reason is written as the empty string. */
  function BackupLine(fileId: string, reason: Option<string>): string {
    fileId + " " + reason.GetOr("") + "\n"
  }

  function HistoryFile(entries: seq<(string, Option<string>)>): string {
    if entries == [] then "" else BackupLine(entries[0].0, entries[0].1) + HistoryFile(entries[1..])
  }

  /** The metadata the appended lines mean: the last reason of each file id. */
  function Recorded(metadata: map<string, string>, entries: seq<(string, Option<string>)>): map<string, string>
    decreases |entries|
  {
    if entries == [] then metadata else Recorded(metadata[entries[0].0 := entries[0].1.GetOr("")], entries[1..])
  }

  predicate ValidEntry(entry: (string, Option<string>)) {
    && entry.0 != "" && ' ' !in entry.0 && '\n' !in entry.0
    && '\n' !in entry.1.GetOr("")
  }

  lemma ParseBackupLine(fileId: string, reason: string)
    requires fileId != "" && ' ' !in fileId
    ensures ParseLine(fileId + " " + reason) == Some((fileId, reason))
  {
    assert fileId + " " + reason == fileId + [' '] + reason;
    SplitAround(fileId, reason, ' ');
    SplitWithoutSeparator(fileId, ' ');
    JoinSplit(reason, ' ');
    assert Split(fileId + " " + reason, ' ')[1..] == Split(reason, ' ');
  }

  lemma {:induction false} ApplyHistory(metadata: map<string, string>, entries: seq<(string, Option<string>)>)
    requires forall i :: 0 <= i < |entries| ==> ValidEntry(entries[i])
    ensures ApplyLines(metadata, Split(HistoryFile(entries), '\n')) == Recorded(metadata, entries)
    decreases |entries|
  {
    if entries == [] {
      assert Split("", '\n') == [""];
      assert Split("", ' ') == [""];
    } else {
      var line := entries[0].0 + " " + entries[0].1.GetOr("");
      var rest := HistoryFile(entries[1..]);
      assert HistoryFile(entries) == line + ['\n'] + rest;
      SplitAround(line, rest, '\n');
      SplitWithoutSeparator(line, '\n');
      assert Split(HistoryFile(entries), '\n') == [line] + Split(rest, '\n');
      ParseBackupLine(entries[0].0, entries[0].1.GetOr(""));
      assert ([line] + Split(rest, '\n'))[1..] == Split(rest, '\n');
      ApplyHistory(metadata[entries[0].0 := entries[0].1.GetOr("")], entries[1..]);
    }
  }

  /** Reading back the appended lines gives every file id its last reason. */
  lemma HistoryRoundTrip(entries: seq<(string, Option<string>)>)
    requires forall i :: 0 <= i < |entries| ==> ValidEntry(entries[i])
    ensures ParseMetadata(Success(HistoryFile(entries))) == Recorded(map[], entries)
  {
    ApplyHistory(map[], entries);
  }

  /** A later line for the same file id wins. */
  lemma {:induction false} LaterLineWins(metadata: map<string, string>, entries: seq<(string, Option<string>)>, fileId: string, i: nat)
    requires i < |entries| && entries[i].0 == fileId
    requires forall j :: i < j < |entries| ==> entries[j].0 != fileId
    ensures fileId in Recorded(metadata, entries) && Recorded(metadata, entries)[fileId] == entries[i].1.GetOr("")
    decreases |entries|
  {
    var next := metadata[entries[0].0 := entries[0].1.GetOr("")];
    if i == 0 {
      RecordedAbsent(next, entries[1..], fileId);
    } else {
      LaterLineWins(next, entries[1..], fileId, i - 1);
    }
  }

  lemma {:induction false} RecordedAbsent(metadata: map<string, string>, entries: seq<(string, Option<string>)>, fileId: string)
    requires forall j :: 0 <= j < |entries| ==> entries[j].0 != fileId
    ensures fileId in Recorded(metadata, entries) <==> fileId in metadata
    ensures fileId in metadata ==> Recorded(metadata, entries)[fileId] == metadata[fileId]
    decreases |entries|
  {
    if entries != [] {
      RecordedAbsent(metadata[entries[0].0 := entries[0].1.GetOr("")], entries[1..], fileId);
    }
  }

  /** The local date and time, as the clock gives it; months count from zero. */
  datatype DateTime = DateTime(year: nat, monthIndex: nat, day: nat, hours: nat, minutes: nat, seconds: nat)

  function DateFields(d: DateTime): seq<string> {
    [NatToString(d.year), NatToString(d.monthIndex + 1), NatToString(d.day),
     NatToString(d.hours), NatToString(d.minutes), NatToString(d.seconds)]
  }

  /** `currentDateAndTimeToFileName`: six unpadded numbers joined by dashes. */
  function FileName(d: DateTime): string {
    Join(DateFields(d), '-')
  }

  lemma DigitsOnly(s: string, c: char)
    requires forall i :: 0 <= i < |s| ==> '0' <= s[i] <= '9'
    requires !('0' <= c <= '9')
    ensures c !in s
  {
  }

  lemma {:induction false} JoinFree(parts: seq<string>, sep: char, c: char)
    requires c != sep
    requires forall i :: 0 <= i < |parts| ==> c !in parts[i]
    ensures c !in Join(parts, sep)
    decreases |parts|
  {
    if |parts| > 1 {
      JoinFree(parts[1..], sep, c);
    }
  }

  /** A file name splits back into its six fields and is a usable metadata file id. */
  lemma FileNameRoundTrip(d: DateTime, reason: Option<string>)
    requires '\n' !in reason.GetOr("")
    ensures Split(FileName(d), '-') == DateFields(d)
    ensures ValidEntry((FileName(d), reason))
  {
    var fields := DateFields(d);
    forall i | 0 <= i < |fields|
      ensures '-' !in fields[i] && ' ' !in fields[i] && '\n' !in fields[i]
    {
      DigitsOnly(fields[i], '-');
      DigitsOnly(fields[i], ' ');
      DigitsOnly(fields[i], '\n');
    }
    SplitJoin(fields, '-');
    JoinFree(fields, '-', ' ');
    JoinFree(fields, '-', '\n');
    assert FileName(d)[0] == fields[0][0];
  }

  // ---------------------------------------------------------------------
  // Ids and lanes

  datatype ParseIdError = UnexpectedPackageName(id: string) | MissingBitMapComponent(id: string)

  /** The text after the first `@`, if any. */
  function VersionFromString(id: string): Option<string> {
    var parts := Split(id, '@');
    if |parts| > 1 then Some(parts[1]) else None
  }

  function GetParsedId(id: string, useVersionFromBitmap: bool,
                       getExistingBitId: string -> Result<ComponentId, ParseIdError>): Result<ComponentId, ParseIdError>
  {
    if StartsWith(id, "@") then Failure(UnexpectedPackageName(id))
    else
      match getExistingBitId(id)
      case Failure(e) => Failure(e)
      case Success(bitId) =>
        if useVersionFromBitmap then Success(bitId)
        else
          var version := VersionFromString(id);
          Success(bitId.ChangeVersion(Some(if version.Some? && version.value != "" then version.value else Latest)))
  }

  /**
   * A package name is rejected before the bitmap is asked.  Otherwise the
   * bitmap's id is used, with the version written in the string, or `latest`
   * when there is none, unless the bitmap's own version is requested.
   */
  lemma GetParsedIdEffect(id: string, useVersionFromBitmap: bool, getExistingBitId: string -> Result<ComponentId, ParseIdError>)
    ensures StartsWith(id, "@") ==> GetParsedId(id, useVersionFromBitmap, getExistingBitId) == Failure(UnexpectedPackageName(id))
    ensures !StartsWith(id, "@") && getExistingBitId(id).Failure? ==>
              GetParsedId(id, useVersionFromBitmap, getExistingBitId) == Failure(getExistingBitId(id).error)
    ensures !StartsWith(id, "@") && getExistingBitId(id).Success? ==>
              var r := GetParsedId(id, useVersionFromBitmap, getExistingBitId).value;
              && r.IsEqualWithoutVersion(getExistingBitId(id).value)
              && (useVersionFromBitmap ==> r == getExistingBitId(id).value)
              && (!useVersionFromBitmap ==> r.version.Some? && r.version.value != "")
              && (!useVersionFromBitmap && '@' !in id ==> r.version == Some(Latest) && !r.HasVersion())
  {
    if '@' !in id {
      SplitWithoutSeparator(id, '@');
    }
  }

  /** The version written after the `@` is the version of the parsed id. */
  lemma GetParsedIdWrittenVersion(name: string, version: string, getExistingBitId: string -> Result<ComponentId, ParseIdError>)
    requires name != "" && name[0] != '@' && '@' !in name
    requires version != "" && '@' !in version
    requires getExistingBitId(name + "@" + version).Success?
    ensures GetParsedId(name + "@" + version, false, getExistingBitId).Success?
    ensures GetParsedId(name + "@" + version, false, getExistingBitId).value.version == Some(version)
  {
    var id := name + "@" + version;
    assert id == name + ['@'] + version;
    assert id[0] == name[0];
    SplitAround(name, version, '@');
    SplitWithoutSeparator(name, '@');
    SplitWithoutSeparator(version, '@');
    assert VersionFromString(id) == Some(version);
  }

  function GetNotExportedIds(bitmapIds: seq<ComponentId>): seq<ComponentId> {
    if bitmapIds == [] then []
    else (if bitmapIds[0].HasScope() then [] else [bitmapIds[0]]) + GetNotExportedIds(bitmapIds[1..])
  }

  /** Exactly the scope-less ids of the bitmap, in bitmap order. */
  lemma {:induction false} NotExportedIdsExactly(bitmapIds: seq<ComponentId>)
    ensures forall id :: id in GetNotExportedIds(bitmapIds) <==> id in bitmapIds && !id.HasScope()
    ensures |GetNotExportedIds(bitmapIds)| <= |bitmapIds|
  {
    if bitmapIds != [] {
      NotExportedIdsExactly(bitmapIds[1..]);
      assert forall id :: id in bitmapIds <==> id == bitmapIds[0] || id in bitmapIds[1..];
    }
  }

  predicate HasWithoutVersion(ids: seq<ComponentId>, id: ComponentId) {
    exists i :: 0 <= i < |ids| && ids[i].IsEqualWithoutVersion(id)
  }

  function IsExported(id: ComponentId, bitmapIds: seq<ComponentId>): bool {
    id.HasScope() && !HasWithoutVersion(GetNotExportedIds(bitmapIds), id)
  }

  /** Exported means scoped and not matching, by name and scope, any scope-less bitmap id. */
  lemma IsExportedMeans(id: ComponentId, bitmapIds: seq<ComponentId>)
    ensures IsExported(id, bitmapIds) ==> id.HasScope()
    ensures IsExported(id, bitmapIds) <==>
              id.HasScope() && forall i :: 0 <= i < |bitmapIds| && !bitmapIds[i].HasScope() ==> !bitmapIds[i].IsEqualWithoutVersion(id)
  {
    NotExportedIdsExactly(bitmapIds);
    var notExported := GetNotExportedIds(bitmapIds);
    if HasWithoutVersion(notExported, id) {
      var k :| 0 <= k < |notExported| && notExported[k].IsEqualWithoutVersion(id);
      assert notExported[k] in bitmapIds;
    }
    if exists i :: 0 <= i < |bitmapIds| && !bitmapIds[i].HasScope() && bitmapIds[i].IsEqualWithoutVersion(id) {
      var i :| 0 <= i < |bitmapIds| && !bitmapIds[i].HasScope() && bitmapIds[i].IsEqualWithoutVersion(id);
      assert bitmapIds[i] in notExported;
    }
  }

  datatype LaneId = LaneId(name: string, scope: string)

  /** The bitmap's lane, or the default lane of this scope. */
  function GetCurrentLaneId(bitmapLane: Option<LaneId>, scopeName: string): LaneId {
    bitmapLane.GetOr(LaneId(DefaultLane, scopeName))
  }

  function IsOnLane(bitmapLane: Option<LaneId>, scopeName: string): bool {
    GetCurrentLaneId(bitmapLane, scopeName).name != DefaultLane
  }

  /** The workspace is on a lane exactly when the bitmap names a lane other than `main`. */
  lemma IsOnLaneMeans(bitmapLane: Option<LaneId>, scopeName: string)
    ensures IsOnLane(bitmapLane, scopeName) <==> bitmapLane.Some? && bitmapLane.value.name != DefaultLane
    ensures bitmapLane.None? ==> GetCurrentLaneId(bitmapLane, scopeName) == LaneId(DefaultLane, scopeName)
  {
  }

  // ---------------------------------------------------------------------
  // updateNextVersionOnBitmap

  datatype NextVersion = NextVersion(version: string, message: string, username: string, email: string, preRelease: Option<string>)

  /** A component about to be tagged: its version, its log, and the bitmap entry it came from. */
  datatype ToTag = ToTag(version: string, log: Option<Log>, componentMap: Option<string>)

  datatype UpdateError = MissingLog | MissingComponentMap

  datatype UpdateOutcome = UpdateOutcome(error: Option<UpdateError>, nextVersions: map<string, NextVersion>)

  function NextVersionOf(c: ToTag, preRelease: Option<string>): NextVersion
    requires c.log.Some?
  {
    NextVersion(c.version, c.log.value.message, c.log.value.username, c.log.value.email,
                if preRelease.Some? && preRelease.value != "" then preRelease else None)
  }

  /** Components are updated in order until the first one missing its log or bitmap entry. */
  function UpdateNextVersions(nextVersions: map<string, NextVersion>, components: seq<ToTag>, preRelease: Option<string>): UpdateOutcome
    decreases |components|
  {
    if components == [] then UpdateOutcome(None, nextVersions)
    else
      var c := components[0];
      if c.log.None? then UpdateOutcome(Some(MissingLog), nextVersions)
      else if c.componentMap.None? then UpdateOutcome(Some(MissingComponentMap), nextVersions)
      else UpdateNextVersions(nextVersions[c.componentMap.value := NextVersionOf(c, preRelease)], components[1..], preRelease)
  }

  predicate Complete(c: ToTag) {
    c.log.Some? && c.componentMap.Some?
  }

  /** The update fails exactly when some component lacks its log or bitmap entry. */
  lemma {:induction false} UpdateFailsIffIncomplete(nextVersions: map<string, NextVersion>, components: seq<ToTag>,
                                                    preRelease: Option<string>)
    ensures UpdateNextVersions(nextVersions, components, preRelease).error.None?
            <==> forall i :: 0 <= i < |components| ==> Complete(components[i])
    decreases |components|
  {
    if components != [] && Complete(components[0]) {
      var c := components[0];
      var next := nextVersions[c.componentMap.value := NextVersionOf(c, preRelease)];
      UpdateFailsIffIncomplete(next, components[1..], preRelease);
      if forall i :: 0 <= i < |components[1..]| ==> Complete(components[1..][i]) {
        forall i | 0 <= i < |components| ensures Complete(components[i]) {
          if i > 0 { assert Complete(components[1..][i - 1]); }
        }
      } else {
        var i :| 0 <= i < |components[1..]| && !Complete(components[1..][i]);
        assert !Complete(components[i + 1]);
      }
    }
  }

  /** An entry no component names is never touched, whether the update succeeds or not. */
  lemma {:induction false} UpdateKeepsUnnamed(nextVersions: map<string, NextVersion>, components: seq<ToTag>,
                                              preRelease: Option<string>, k: string)
    requires k in nextVersions
    requires forall i :: 0 <= i < |components| ==> components[i].componentMap != Some(k)
    ensures k in UpdateNextVersions(nextVersions, components, preRelease).nextVersions
    ensures UpdateNextVersions(nextVersions, components, preRelease).nextVersions[k] == nextVersions[k]
    decreases |components|
  {
    if components != [] && Complete(components[0]) {
      var c := components[0];
      var next := nextVersions[c.componentMap.value := NextVersionOf(c, preRelease)];
      assert c.componentMap != Some(k);
      UpdateKeepsUnnamed(next, components[1..], preRelease, k);
    }
  }

  /** After a successful update each entry holds the next version of the last component naming it. */
  lemma {:induction false} UpdateLastWins(nextVersions: map<string, NextVersion>, components: seq<ToTag>,
                                          preRelease: Option<string>, i: nat)
    requires i < |components|
    requires UpdateNextVersions(nextVersions, components, preRelease).error.None?
    requires forall j :: i < j < |components| ==> components[j].componentMap != components[i].componentMap
    ensures Complete(components[i])
    ensures var o := UpdateNextVersions(nextVersions, components, preRelease);
            && components[i].componentMap.value in o.nextVersions
            && o.nextVersions[components[i].componentMap.value] == NextVersionOf(components[i], preRelease)
    decreases |components|
  {
    UpdateFailsIffIncomplete(nextVersions, components, preRelease);
    assert Complete(components[i]);
    var c := components[0];
    var next := nextVersions[c.componentMap.value := NextVersionOf(c, preRelease)];
    if i == 0 {
      UpdateKeepsUnnamed(next, components[1..], preRelease, c.componentMap.value);
    } else {
      UpdateLastWins(next, components[1..], preRelease, i - 1);
    }
  }

  /** The bitmap: the component entries' next versions and whether it must be written. */
  class BitMap {
    var nextVersions: map<string, NextVersion>
    var hasChanged: bool

    constructor(nextVersions: map<string, NextVersion>)
      ensures this.nextVersions == nextVersions && !hasChanged
    {
      this.nextVersions := nextVersions;
      hasChanged := false;
    }

    /** Marked as changed only after every component was updated, and only for a non-empty list. */
    method UpdateNextVersionOnBitmap(components: seq<ToTag>, preRelease: Option<string>) returns (error: Option<UpdateError>)
      modifies this
      ensures UpdateOutcome(error, nextVersions) == UpdateNextVersions(old(nextVersions), components, preRelease)
      ensures hasChanged == (old(hasChanged) || (error.None? && |components| > 0))
    {
      var i := 0;
      while i < |components|
        invariant 0 <= i <= |components|
        invariant hasChanged == old(hasChanged)
        invariant UpdateNextVersions(nextVersions, components[i..], preRelease)
                  == UpdateNextVersions(old(nextVersions), components, preRelease)
      {
        assert components[i..][1..] == components[i + 1..];
        var c := components[i];
        if c.log.None? {
          return Some(MissingLog);
        }
        if c.componentMap.None? {
          return Some(MissingComponentMap);
        }
        nextVersions := nextVersions[c.componentMap.value := NextVersionOf(c, preRelease)];
        i := i + 1;
      }
      if |components| > 0 {
        hasChanged := true;
      }
      error := None;
    }
  }
}
