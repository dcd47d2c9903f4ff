/** The package loader: reading members as JSON, resolving component paths
    from the manifest, and assembling the package all-or-nothing. */
module Parser {
  import opened Results
  import opened JsonValues
  import opened Errors
  import opened Zip
  import opened Validators

  /** JSON decoding of a member's bytes, as an abstract partial function:
      None when the bytes are not a JSON document. */
  type Decoder = Bytes -> Option<Json>

  const ManifestPath: string := "manifest.json"

  /** The loaded package: six decoded documents and a snapshot of every
      archive member, held as an insertion-ordered name-to-bytes dict. */
  datatype Package = Package(
    manifest: Json,
    roles: Json,
    capabilities: Json,
    bindings: Json,
    mcpTools: Json,
    a2aSchemas: Json,
    rawFiles: seq<Entry>)

  /** The package's document of a given kind. */
  function Slot(p: Package, k: Kind): Json {
    match k
    case Manifest => p.manifest
    case Roles => p.roles
    case Capabilities => p.capabilities
    case Bindings => p.bindings
    case McpTools => p.mcpTools
    case A2aSchemas => p.a2aSchemas
  }

  /** `_read_json`: a name absent from the archive is reported missing; a
      present member yields its decoded document, and bytes that do not
      decode are reported as malformed, never as missing. */
  function ReadJson(a: seq<Entry>, path: string, decode: Decoder): (r: Result<Json, Error>)
    ensures r == Err(MemberNotFound(path)) <==> path !in Names(a)
    ensures r.Err? ==> r.error == MemberNotFound(path) || r.error == MalformedJson(path)
    ensures r.Ok? ==>
      exists i :: 0 <= i < |a| && a[i].name == path && decode(a[i].data) == Some(r.value)
  {
    match Read(a, path)
    case None => Err(MemberNotFound(path))
    case Some(bytes) =>
      match decode(bytes)
      case None => Err(MalformedJson(path))
      case Some(doc) => Ok(doc)
  }

  /** With distinct member names, reading a member's name decodes exactly that
      member's bytes. */
  lemma ReadJsonOfDistinct(a: seq<Entry>, i: nat, decode: Decoder)
    requires DistinctNames(a) && i < |a|
    ensures ReadJson(a, a[i].name, decode)
         == (if decode(a[i].data).Some? then Ok(decode(a[i].data).value) else Err(MalformedJson(a[i].name)))
  {
    ReadOfDistinct(a, i);
  }

  /** Python's `str.endswith`: a plain suffix test on the whole string. */
  predicate EndsWith(s: string, suffix: string) {
    |suffix| <= |s| && s[|s| - |suffix|..] == suffix
  }

  /** A string ends with a suffix exactly when it is some string followed by
      that suffix. */
  lemma EndsWithIsSuffix(s: string, suffix: string)
    ensures EndsWith(s, suffix) <==> exists p :: s == p + suffix
  {
    if EndsWith(s, suffix) {
      var p := s[..|s| - |suffix|];
      assert s == p + suffix;
    }
    if exists p :: s == p + suffix {
      var p :| s == p + suffix;
      assert s[|s| - |suffix|..] == suffix;
    }
  }

  /** `_find_component`: the first entry, in sequence order, that ends with
      the file name; later matches are ignored and duplicates are not
      detected. It fails exactly when no entry ends with the file name. */
  function FindComponent(components: seq<string>, filename: string): (r: Result<string, Error>)
    ensures r.Ok? <==> exists i :: 0 <= i < |components| && EndsWith(components[i], filename)
    ensures r.Ok? ==>
      exists i :: 0 <= i < |components| && components[i] == r.value && EndsWith(r.value, filename)
                  && forall j :: 0 <= j < i ==> !EndsWith(components[j], filename)
    ensures r.Err? ==> r.error == ComponentNotDeclared(filename)
  {
    if |components| == 0 then Err(ComponentNotDeclared(filename))
    else if EndsWith(components[0], filename) then Ok(components[0])
    else
      var r := FindComponent(components[1..], filename);
      assert forall j :: 1 <= j < |components| ==> components[j] == components[1..][j - 1];
      r
  }

  /** The leading run of string items, as strings. */
  function StringPrefix(items: seq<Json>): (r: seq<string>)
    ensures |r| <= |items|
    ensures forall i :: 0 <= i < |r| ==> items[i] == JString(r[i])
    ensures |r| < |items| ==> !items[|r|].JString?
  {
    if |items| == 0 || !items[0].JString? then []
    else [items[0].s] + StringPrefix(items[1..])
  }

  /** The scan of `_find_component` reaches position i of the items: every
      item before it is a string that does not end with the file name. */
  ghost predicate ScanReaches(items: seq<Json>, i: int, filename: string) {
    0 <= i <= |items|
    && forall j :: 0 <= j < i ==> items[j].JString? && !EndsWith(items[j].s, filename)
  }

  /** The scan of `_find_component` over the items a group yields: it stops
      at the first string ending with the file name, or raises on the first
      item that is not a string, or finds nothing (see ScanGroupSpec). */
  function ScanGroup(items: seq<Json>, groupName: string, filename: string): (r: Result<string, Error>)
    ensures r.Ok? || r == Err(NotAString(groupName)) || r == Err(ComponentNotDeclared(filename))
  {
    var strings := StringPrefix(items);
    match FindComponent(strings, filename)
    case Ok(p) => Ok(p)
    case Err(e) => if |strings| < |items| then Err(NotAString(groupName)) else Err(e)
  }

  /** What the scan returns, item by item: the first item that is a string
      ending with the file name is returned, an item that is not a string
      raises when the scan reaches it, and a scan that passes every item
      reports the component as not declared. */
  lemma ScanGroupSpec(items: seq<Json>, groupName: string, filename: string)
    ensures var r := ScanGroup(items, groupName, filename);
      && (r.Ok? <==>
            exists i :: ScanReaches(items, i, filename) && i < |items|
                        && items[i].JString? && EndsWith(items[i].s, filename))
      && (r.Ok? ==> exists i :: ScanReaches(items, i, filename) && i < |items| && items[i] == JString(r.value)
                              && EndsWith(r.value, filename))
      && (r == Err(NotAString(groupName)) <==>
            exists i :: ScanReaches(items, i, filename) && i < |items| && !items[i].JString?)
      && (r == Err(ComponentNotDeclared(filename)) <==> ScanReaches(items, |items|, filename))
  {
    var strings := StringPrefix(items);
    ScanReachesPrefix(items, filename);
    match FindComponent(strings, filename)
    case Ok(p) =>
      var i :| 0 <= i < |strings| && strings[i] == p && EndsWith(p, filename)
               && forall j :: 0 <= j < i ==> !EndsWith(strings[j], filename);
      ScanOkExcludes(items, filename, i);
    case Err(e) =>
      ScanErrReaches(items, filename);
  }

  /** The scan reaches position i exactly when i lies within the leading run
      of strings and none of the strings before it ends with the file name. */
  lemma ScanReachesPrefix(items: seq<Json>, filename: string)
    ensures var strings := StringPrefix(items);
      forall i :: ScanReaches(items, i, filename) <==>
        0 <= i <= |strings| && forall j :: 0 <= j < i ==> !EndsWith(strings[j], filename)
  {
    var strings := StringPrefix(items);
    forall i | ScanReaches(items, i, filename)
      ensures i <= |strings|
    {
      assert |strings| < |items| ==> !items[|strings|].JString?;
    }
  }

  /** Once a string at position i ends with the file name and none before it
      does, the scan reaches i and no position beyond it. */
  lemma ScanOkExcludes(items: seq<Json>, filename: string, i: int)
    requires 0 <= i < |StringPrefix(items)| && EndsWith(StringPrefix(items)[i], filename)
    requires forall j :: 0 <= j < i ==> !EndsWith(StringPrefix(items)[j], filename)
    ensures ScanReaches(items, i, filename) && items[i] == JString(StringPrefix(items)[i])
    ensures forall k :: ScanReaches(items, k, filename) ==> k <= i
  {
    var strings := StringPrefix(items);
    forall k | ScanReaches(items, k, filename)
      ensures k <= i
    {
      assert items[i] == JString(strings[i]);
    }
  }

  /** When no string of the leading run ends with the file name, the scan
      reaches the end of that run. */
  lemma ScanErrReaches(items: seq<Json>, filename: string)
    requires FindComponent(StringPrefix(items), filename).Err?
    ensures ScanReaches(items, |StringPrefix(items)|, filename)
  {
  }

  /** `_find_component` applied to a group value: a value that cannot be
      iterated raises before any item is looked at. */
  function FindInGroup(group: Json, groupName: string, filename: string): (r: Result<string, Error>)
    ensures r == Err(NotIterable(groupName)) <==> Iteration(group).None?
    ensures Iteration(group).Some? ==> r == ScanGroup(Iteration(group).value, groupName, filename)
    ensures r.Err? ==> r.error.NotIterable? || r.error.NotAString? || r.error.ComponentNotDeclared?
  {
    match Iteration(group)
    case None => Err(NotIterable(groupName))
    case Some(items) => ScanGroup(items, groupName, filename)
  }

  /** The two component groups the loader consults. */
  datatype Groups = Groups(agents: Json, integration: Json)

  /** The value stored under a key of an object is present and truthy. */
  predicate TruthyAt(members: seq<(string, Json)>, key: string) {
    Get(members, key).Some? && Truthy(Get(members, key).value)
  }

  /** Reading `components.agents` and `components.integration` from the
      manifest: a missing or falsy `components` stands for an empty object and
      a missing or falsy group for an empty list; only a present, truthy value
      that is not an object fails, since `.get` is then applied to it. */
  function ComponentGroups(manifest: Json): (r: Result<Groups, Error>)
    ensures !manifest.JObject? ==> r == Err(NotAnObject("manifest"))
    ensures r.Err? ==> r.error.NotAnObject?
    ensures manifest.JObject? && !TruthyAt(manifest.members, "components") ==>
      r == Ok(Groups(JArray([]), JArray([])))
    ensures manifest.JObject? && TruthyAt(manifest.members, "components") ==>
      var components := Get(manifest.members, "components").value;
      && (!components.JObject? ==> r == Err(NotAnObject("components")))
      && (components.JObject? ==>
            && r.Ok?
            && r.value.agents == (if TruthyAt(components.members, "agents")
                                  then Get(components.members, "agents").value else JArray([]))
            && r.value.integration == (if TruthyAt(components.members, "integration")
                                       then Get(components.members, "integration").value else JArray([])))
  {
    if !manifest.JObject? then Err(NotAnObject("manifest"))
    else
      var components := OrElse(Get(manifest.members, "components"), JObject([]));
      if !components.JObject? then Err(NotAnObject("components"))
      else
        var agents := OrElse(Get(components.members, "agents"), JArray([]));
        var integration := OrElse(Get(components.members, "integration"), JArray([]));
        Ok(Groups(agents, integration))
  }

  /** A kind whose document is a component declared in the manifest. */
  type Component = k: Kind | k != Manifest witness Roles

  /** The five components the loader needs, in the order it resolves, reads
      and validates them. */
  const ComponentKinds: seq<Component> := [Roles, Capabilities, Bindings, McpTools, A2aSchemas]

  /** The manifest group in which each component is declared. */
  function GroupName(k: Component): string {
    if k == Roles || k == Capabilities || k == Bindings then "agents" else "integration"
  }

  /** The file name each component's path must end with. */
  function Suffix(k: Component): string {
    match k
    case Roles => "roles.json"
    case Capabilities => "capabilities.json"
    case Bindings => "bindings.json"
    case McpTools => "mcp-tools.json"
    case A2aSchemas => "a2a-schemas.json"
  }

  function GroupOf(g: Groups, k: Component): Json {
    if GroupName(k) == "agents" then g.agents else g.integration
  }

  /** Resolving one component within its own group. */
  function Resolve(g: Groups, k: Component): Result<string, Error> {
    FindInGroup(GroupOf(g, k), GroupName(k), Suffix(k))
  }

  /** Resolving all five component paths, in component order, before any of
      them is read: either all five resolve, or the error is that of the
      first component that does not. */
  function ResolveAll(g: Groups): (r: Result<seq<string>, Error>)
    ensures r.Ok? <==> forall i :: 0 <= i < |ComponentKinds| ==> Resolve(g, ComponentKinds[i]).Ok?
    ensures r.Ok? ==>
      && |r.value| == |ComponentKinds|
      && forall i :: 0 <= i < |ComponentKinds| ==> Resolve(g, ComponentKinds[i]) == Ok(r.value[i])
    ensures r.Err? ==>
      exists i :: 0 <= i < |ComponentKinds| && Resolve(g, ComponentKinds[i]) == Err(r.error)
                  && forall j :: 0 <= j < i ==> Resolve(g, ComponentKinds[j]).Ok?
    ensures r.Err? ==> r.error.NotIterable? || r.error.NotAString? || r.error.ComponentNotDeclared?
  {
    AllOrFirstError(ResolutionSteps(g))
  }

  /** The resolution of each component path, in component order. */
  function ResolutionSteps(g: Groups): (r: seq<Result<string, Error>>)
    ensures |r| == |ComponentKinds|
    ensures forall i :: 0 <= i < |ComponentKinds| ==> r[i] == Resolve(g, ComponentKinds[i])
  {
    seq(|ComponentKinds|, i requires 0 <= i < |ComponentKinds| => Resolve(g, ComponentKinds[i]))
  }

  /** Reading the resolved paths in order: either every one decodes, or the
      error is that of the first path that does not. */
  function ReadAll(a: seq<Entry>, paths: seq<string>, decode: Decoder): (r: Result<seq<Json>, Error>)
    ensures r.Ok? <==> forall i :: 0 <= i < |paths| ==> ReadJson(a, paths[i], decode).Ok?
    ensures r.Ok? ==>
      && |r.value| == |paths|
      && forall i :: 0 <= i < |paths| ==> ReadJson(a, paths[i], decode) == Ok(r.value[i])
    ensures r.Err? ==>
      exists i :: 0 <= i < |paths| && ReadJson(a, paths[i], decode) == Err(r.error)
                  && forall j :: 0 <= j < i ==> ReadJson(a, paths[j], decode).Ok?
  {
    AllOrFirstError(ReadSteps(a, paths, decode))
  }

  /** The read of each resolved path, in order. */
  function ReadSteps(a: seq<Entry>, paths: seq<string>, decode: Decoder): (r: seq<Result<Json, Error>>)
    ensures |r| == |paths|
    ensures forall i :: 0 <= i < |paths| ==> r[i] == ReadJson(a, paths[i], decode)
  {
    seq(|paths|, i requires 0 <= i < |paths| => ReadJson(a, paths[i], decode))
  }

  /** Validating the five component documents in component order: either all
      conform, or the error is that of the first kind that does not. */
  function ValidateAll(docs: seq<Json>, dir: SchemaDir): (r: Result<seq<()>, Error>)
    requires |docs| == |ComponentKinds|
    ensures r.Ok? <==> forall i :: 0 <= i < |docs| ==> Conforms(ComponentKinds[i], docs[i], dir)
    ensures r.Err? ==>
      exists i :: 0 <= i < |docs| && ValidateKind(ComponentKinds[i], docs[i], dir) == Err(r.error)
                  && forall j :: 0 <= j < i ==> Conforms(ComponentKinds[j], docs[j], dir)
    ensures r.Err? ==> r.error.SchemaFileMissing? || r.error.SchemaViolation?
  {
    AllOrFirstError(ValidationSteps(docs, dir))
  }

  /** The validation of each component document, in resolution order. */
  function ValidationSteps(docs: seq<Json>, dir: SchemaDir): (r: seq<Result<(), Error>>)
    requires |docs| == |ComponentKinds|
    ensures |r| == |docs|
    ensures forall i :: 0 <= i < |docs| ==> r[i] == ValidateKind(ComponentKinds[i], docs[i], dir)
  {
    seq(|docs|, i requires 0 <= i < |docs| => ValidateKind(ComponentKinds[i], docs[i], dir))
  }

  /** Validation of the manifest and of the five components covers every
      document of the package. */
  lemma ValidatedSlotsConform(p: Package, dir: SchemaDir)
    requires Conforms(Manifest, p.manifest, dir)
    requires forall i :: 0 <= i < |ComponentKinds| ==>
      Conforms(ComponentKinds[i], Slot(p, ComponentKinds[i]), dir)
    ensures forall k: Kind :: Conforms(k, Slot(p, k), dir)
  {
    forall k: Kind
      ensures Conforms(k, Slot(p, k), dir)
    {
      match k
      case Manifest =>
      case Roles => assert ComponentKinds[0] == k;
      case Capabilities => assert ComponentKinds[1] == k;
      case Bindings => assert ComponentKinds[2] == k;
      case McpTools => assert ComponentKinds[3] == k;
      case A2aSchemas => assert ComponentKinds[4] == k;
    }
  }

  /** The first stage of a load: the manifest is read and, when asked,
      validated, before anything else in the archive is looked at. */
  function LoadManifest(a: seq<Entry>, validate: bool, decode: Decoder, dir: SchemaDir): (r: Result<Json, Error>)
    ensures ManifestPath !in Names(a) ==> r == Err(MemberNotFound(ManifestPath))
    ensures ReadJson(a, ManifestPath, decode).Err? ==> r == Err(ReadJson(a, ManifestPath, decode).error)
    ensures r.Ok? ==> ReadJson(a, ManifestPath, decode) == Ok(r.value)
    ensures r.Ok? && validate ==> Conforms(Manifest, r.value, dir)
    ensures ReadJson(a, ManifestPath, decode).Ok? && (!validate || Conforms(Manifest, ReadJson(a, ManifestPath, decode).value, dir))
      ==> r.Ok?
    ensures r.Err? ==>
      || r.error == MemberNotFound(ManifestPath) || r.error == MalformedJson(ManifestPath)
      || r.error.SchemaFileMissing? || r.error.SchemaViolation?
  {
    var manifest :- ReadJson(a, ManifestPath, decode);
    var checked :- if validate then ValidateKind(Manifest, manifest, dir) else Ok(());
    Ok(manifest)
  }

  /** The second stage: the groups are read from the manifest and all five
      paths resolved before any component is read; then the five documents
      are read, and validated when asked, in component order. */
  function LoadComponents(a: seq<Entry>, manifest: Json, validate: bool, decode: Decoder, dir: SchemaDir): (r: Result<seq<Json>, Error>)
    ensures r.Ok? ==> |r.value| == |ComponentKinds|
    ensures r.Ok? && validate ==>
      forall i :: 0 <= i < |ComponentKinds| ==> Conforms(ComponentKinds[i], r.value[i], dir)
  {
    var groups :- ComponentGroups(manifest);
    var paths :- ResolveAll(groups);
    var docs :- ReadAll(a, paths, decode);
    var checked :- if validate then ValidateAll(docs, dir) else Ok([]);
    Ok(docs)
  }

  /** The package built from the manifest, the five component documents in
      component order, and the snapshot of every member. */
  function Assemble(a: seq<Entry>, manifest: Json, docs: seq<Json>): (p: Package)
    requires |docs| == |ComponentKinds|
    ensures p.manifest == manifest
    ensures forall i :: 0 <= i < |ComponentKinds| ==> Slot(p, ComponentKinds[i]) == docs[i]
  {
    Package(manifest, docs[0], docs[1], docs[2], docs[3], docs[4], Snapshot(a))
  }

  /** `load_uapf`: the whole pipeline, all or nothing. The archive must
      exist; the manifest is read and, when asked, validated before anything
      else; a package is returned only when no step failed, and then it
      holds every archive member and, when asked, only conforming documents. */
  function LoadUapf(file: ArchiveFile, validate: bool, decode: Decoder, dir: SchemaDir): (r: Result<Package, Error>)
    ensures file.Absent? ==> r == Err(ArchiveNotFound)
    ensures file.Unreadable? ==> r == Err(ArchiveUnreadable)
    ensures file.Readable? && ManifestPath !in Names(file.entries) ==>
      r == Err(MemberNotFound(ManifestPath))
    ensures r.Ok? ==>
      && file.Readable?
      && ReadJson(file.entries, ManifestPath, decode) == Ok(r.value.manifest)
      && (validate ==> forall k: Kind :: Conforms(k, Slot(r.value, k), dir))
      && (forall n :: n in Names(r.value.rawFiles) <==> n in Names(file.entries))
      && (forall e :: e in r.value.rawFiles ==> Read(file.entries, e.name) == Some(e.data))
      && (DistinctNames(file.entries) ==> r.value.rawFiles == file.entries)
  {
    match file
    case Absent => Err(ArchiveNotFound)
    case Unreadable => Err(ArchiveUnreadable)
    case Readable(a) =>
      var manifest :- LoadManifest(a, validate, decode, dir);
      var docs :- LoadComponents(a, manifest, validate, decode, dir);
      var p := Assemble(a, manifest, docs);
      SnapshotIsArchive(a);
      if validate then
        ValidatedSlotsConform(p, dir);
        Ok(p)
      else
        Ok(p)
  }

  /** `validate_uapf`: a validating load whose package is discarded. */
  function ValidateUapf(file: ArchiveFile, decode: Decoder, dir: SchemaDir): (r: Result<(), Error>)
    ensures r.Ok? <==> LoadUapf(file, true, decode, dir).Ok?
    ensures r.Err? ==> r.error == LoadUapf(file, true, decode, dir).error
  {
    var discarded :- LoadUapf(file, true, decode, dir);
    Ok(())
  }
}
