/** Properties of the loader that relate several calls: first-match
    resolution, the order in which a load fails, what validation adds to an
    unvalidated load, and what a successful load holds. */
module LoadProperties {
  import opened Results
  import opened JsonValues
  import opened Errors
  import opened Zip
  import opened Validators
  import opened Parser

  /** Resolution picks the first matching entry: whatever follows it, matching
      or not, is ignored. */
  lemma {:induction false} FirstMatchWins(before: seq<string>, path: string, after: seq<string>, filename: string)
    requires forall i :: 0 <= i < |before| ==> !EndsWith(before[i], filename)
    requires EndsWith(path, filename)
    ensures FindComponent(before + [path] + after, filename) == Ok(path)
  {
    if |before| > 0 {
      FirstMatchWins(before[1..], path, after, filename);
      assert (before + [path] + after)[1..] == before[1..] + [path] + after;
    }
  }

  /** Entries appended after a resolvable list never change what it resolves to. */
  lemma {:induction false} LaterEntriesIgnored(components: seq<string>, more: seq<string>, filename: string)
    requires FindComponent(components, filename).Ok?
    ensures FindComponent(components + more, filename) == FindComponent(components, filename)
  {
    if !EndsWith(components[0], filename) {
      LaterEntriesIgnored(components[1..], more, filename);
      assert (components + more)[1..] == components[1..] + more;
    }
  }

  /** The suffix test is on the whole path, not its file name, and of two
      paths ending in `roles.json` the first listed is chosen. */
  lemma SuffixMatchExamples()
    ensures FindComponent(["agents/myroles.json"], "roles.json") == Ok("agents/myroles.json")
    ensures FindComponent(["agents/roles.json", "legacy/roles.json"], "roles.json") == Ok("agents/roles.json")
    ensures FindComponent(["agents/capabilities.json"], "roles.json") == Err(ComponentNotDeclared("roles.json"))
  {
    assert EndsWith("agents/myroles.json", "roles.json");
    assert EndsWith("agents/roles.json", "roles.json");
    assert !EndsWith("agents/capabilities.json", "roles.json");
  }

  /** Over a group whose items are all strings, the scan is exactly the pure
      first-match resolution over those strings. */
  lemma ScanOfStrings(items: seq<Json>, groupName: string, filename: string)
    requires forall i :: 0 <= i < |items| ==> items[i].JString?
    ensures ScanGroup(items, groupName, filename)
         == FindComponent(seq(|items|, i requires 0 <= i < |items| => items[i].s), filename)
  {
    var strings := seq(|items|, i requires 0 <= i < |items| => items[i].s);
    var sp := StringPrefix(items);
    assert |sp| == |items|;
    assert sp == strings;
  }

  /** With validation off no validator is consulted: the outcome does not
      depend on the schema directory at all. */
  lemma UnvalidatedLoadIgnoresSchemas(file: ArchiveFile, decode: Decoder, d1: SchemaDir, d2: SchemaDir)
    ensures LoadUapf(file, false, decode, d1) == LoadUapf(file, false, decode, d2)
  {
    if file.Readable? {
      var a := file.entries;
      assert LoadManifest(a, false, decode, d1) == LoadManifest(a, false, decode, d2);
      if LoadManifest(a, false, decode, d1).Ok? {
        var m := LoadManifest(a, false, decode, d1).value;
        assert LoadComponents(a, m, false, decode, d1) == LoadComponents(a, m, false, decode, d2);
      }
    }
  }

  /** A manifest that fails its own validation is reported before anything is
      resolved or read, whatever its component groups say. */
  lemma ManifestValidationPrecedesResolution(a: seq<Entry>, decode: Decoder, dir: SchemaDir)
    requires ReadJson(a, ManifestPath, decode).Ok?
    requires !Conforms(Manifest, ReadJson(a, ManifestPath, decode).value, dir)
    ensures LoadUapf(Readable(a), true, decode, dir)
         == Err(ValidateKind(Manifest, ReadJson(a, ManifestPath, decode).value, dir).error)
  {
  }

  /** A manifest without a truthy `components`, or whose `components` has no
      truthy `agents`, fails on the first component, `roles.json`, as not
      declared: the missing groups stand for empty lists. */
  lemma MissingGroupsDefaultToEmpty(a: seq<Entry>, validate: bool, decode: Decoder, dir: SchemaDir)
    requires ReadJson(a, ManifestPath, decode).Ok?
    requires ReadJson(a, ManifestPath, decode).value.JObject?
    requires var members := ReadJson(a, ManifestPath, decode).value.members;
      || !TruthyAt(members, "components")
      || (Get(members, "components").value.JObject?
          && !TruthyAt(Get(members, "components").value.members, "agents"))
    requires !validate || Conforms(Manifest, ReadJson(a, ManifestPath, decode).value, dir)
    ensures LoadUapf(Readable(a), validate, decode, dir) == Err(ComponentNotDeclared("roles.json"))
  {
    var m := ReadJson(a, ManifestPath, decode).value;
    var g := ComponentGroups(m).value;
    assert g.agents == JArray([]);
    assert ScanReaches([], 0, "roles.json");
    assert Resolve(g, ComponentKinds[0]) == Err(ComponentNotDeclared("roles.json"));
    assert ResolveAll(g) == Err(ComponentNotDeclared("roles.json"));
  }

  /** A read error for a component path comes from reading the resolved
      components, after the manifest stage has passed. */
  lemma ComponentReadErrorPassesManifest(a: seq<Entry>, validate: bool, decode: Decoder, dir: SchemaDir, e: Error)
    requires LoadUapf(Readable(a), validate, decode, dir) == Err(e)
    requires e.MemberNotFound? || e.MalformedJson?
    requires e.path != ManifestPath
    ensures LoadManifest(a, validate, decode, dir).Ok?
    ensures LoadComponents(a, LoadManifest(a, validate, decode, dir).value, validate, decode, dir) == Err(e)
  {
  }

  /** Within the component stage, a read error means the groups were
      obtained from the manifest. */
  lemma ComponentReadErrorPassesGroups(a: seq<Entry>, m: Json, validate: bool, decode: Decoder, dir: SchemaDir, e: Error)
    requires LoadComponents(a, m, validate, decode, dir) == Err(e)
    requires e.MemberNotFound? || e.MalformedJson?
    ensures ComponentGroups(m).Ok?
  {
  }

  /** Within the component stage, a read error means all five paths
      resolved. */
  lemma ComponentReadErrorPassesPaths(a: seq<Entry>, m: Json, validate: bool, decode: Decoder, dir: SchemaDir, e: Error)
    requires LoadComponents(a, m, validate, decode, dir) == Err(e)
    requires e.MemberNotFound? || e.MalformedJson?
    requires ComponentGroups(m).Ok?
    ensures ResolveAll(ComponentGroups(m).value).Ok?
  {
  }

  /** Within the component stage, once groups and paths were obtained, a read
      error is the error of reading the resolved paths. */
  lemma ComponentReadErrorIsRead(a: seq<Entry>, m: Json, validate: bool, decode: Decoder, dir: SchemaDir, e: Error)
    requires LoadComponents(a, m, validate, decode, dir) == Err(e)
    requires e.MemberNotFound? || e.MalformedJson?
    requires ComponentGroups(m).Ok? && ResolveAll(ComponentGroups(m).value).Ok?
    ensures ReadAll(a, ResolveAll(ComponentGroups(m).value).value, decode) == Err(e)
  {
    ComponentErrorAfterResolution(a, m, validate, decode, dir);
  }

  /** Once groups and paths were obtained, the component stage fails with
      the read error when a read fails, and otherwise only with a schema
      error. */
  lemma ComponentErrorAfterResolution(a: seq<Entry>, m: Json, validate: bool, decode: Decoder, dir: SchemaDir)
    requires ComponentGroups(m).Ok? && ResolveAll(ComponentGroups(m).value).Ok?
    ensures var read := ReadAll(a, ResolveAll(ComponentGroups(m).value).value, decode);
      && (read.Err? ==> LoadComponents(a, m, validate, decode, dir) == Err(read.error))
      && (read.Ok? && LoadComponents(a, m, validate, decode, dir).Err? ==>
            var e := LoadComponents(a, m, validate, decode, dir).error;
            e.SchemaFileMissing? || e.SchemaViolation?)
  {
    var read := ReadAll(a, ResolveAll(ComponentGroups(m).value).value, decode);
    if read.Ok? && validate {
      var v := ValidateAll(read.value, dir);
      assert v.Err? ==> LoadComponents(a, m, validate, decode, dir) == Err(v.error);
    }
  }

  /** Within the component stage, a read error means groups and paths were
      all obtained and the read of the resolved paths failed. */
  lemma ComponentReadErrorPassesResolution(a: seq<Entry>, m: Json, validate: bool, decode: Decoder, dir: SchemaDir, e: Error)
    requires LoadComponents(a, m, validate, decode, dir) == Err(e)
    requires e.MemberNotFound? || e.MalformedJson?
    ensures ComponentGroups(m).Ok?
    ensures ResolveAll(ComponentGroups(m).value).Ok?
    ensures ReadAll(a, ResolveAll(ComponentGroups(m).value).value, decode) == Err(e)
  {
    ComponentReadErrorPassesGroups(a, m, validate, decode, dir, e);
    ComponentReadErrorPassesPaths(a, m, validate, decode, dir, e);
    ComponentReadErrorIsRead(a, m, validate, decode, dir, e);
  }

  /** A failed read of several paths names one of them. */
  lemma ReadErrorNamesAPath(a: seq<Entry>, paths: seq<string>, decode: Decoder, e: Error)
    requires ReadAll(a, paths, decode) == Err(e)
    ensures (e.MemberNotFound? || e.MalformedJson?) && e.path in paths
  {
    var i :| 0 <= i < |paths| && ReadJson(a, paths[i], decode) == Err(e)
             && forall j :: 0 <= j < i ==> ReadJson(a, paths[j], decode).Ok?;
    assert paths[i] == e.path;
  }

  /** A component member that is missing or malformed is reported only once
      all five paths have resolved, and it is one of them. */
  lemma ResolutionPrecedesReading(a: seq<Entry>, validate: bool, decode: Decoder, dir: SchemaDir, e: Error)
    requires LoadUapf(Readable(a), validate, decode, dir) == Err(e)
    requires e.MemberNotFound? || e.MalformedJson?
    requires e.path != ManifestPath
    ensures ReadJson(a, ManifestPath, decode).Ok?
    ensures ComponentGroups(ReadJson(a, ManifestPath, decode).value).Ok?
    ensures ResolveAll(ComponentGroups(ReadJson(a, ManifestPath, decode).value).value).Ok?
    ensures e.path in ResolveAll(ComponentGroups(ReadJson(a, ManifestPath, decode).value).value).value
  {
    ComponentReadErrorPassesManifest(a, validate, decode, dir, e);
    var m := LoadManifest(a, validate, decode, dir).value;
    assert ReadJson(a, ManifestPath, decode) == Ok(m);
    ComponentReadErrorPassesResolution(a, m, validate, decode, dir, e);
    ReadErrorNamesAPath(a, ResolveAll(ComponentGroups(m).value).value, decode, e);
  }

  /** Validation as a filter on the unvalidated load, for the components:
      given the same manifest, the validating stage fails exactly when the
      unvalidated one does or when a component document does not conform, and
      otherwise yields the same documents. */
  lemma ValidatedComponents(a: seq<Entry>, m: Json, decode: Decoder, dir: SchemaDir)
    ensures LoadComponents(a, m, false, decode, dir).Err? ==>
      LoadComponents(a, m, true, decode, dir) == LoadComponents(a, m, false, decode, dir)
    ensures LoadComponents(a, m, false, decode, dir).Ok? ==>
      var docs := LoadComponents(a, m, false, decode, dir).value;
      LoadComponents(a, m, true, decode, dir)
        == (if ValidateAll(docs, dir).Ok? then Ok(docs) else Err(ValidateAll(docs, dir).error))
  {
    var groups := ComponentGroups(m);
    if groups.Ok? {
      var resolved := ResolveAll(groups.value);
      if resolved.Ok? {
        var docs := ReadAll(a, resolved.value, decode);
        if docs.Ok? {
          assert LoadComponents(a, m, false, decode, dir) == docs;
        }
      }
    }
  }

  /** A document of every kind conforms exactly when the manifest and the five
      components do. */
  lemma AllSlotsConform(p: Package, dir: SchemaDir)
    ensures (forall k: Kind :: Conforms(k, Slot(p, k), dir)) <==>
      && Conforms(Manifest, p.manifest, dir)
      && forall i :: 0 <= i < |ComponentKinds| ==> Conforms(ComponentKinds[i], Slot(p, ComponentKinds[i]), dir)
  {
    if forall k: Kind :: Conforms(k, Slot(p, k), dir) {
      forall i | 0 <= i < |ComponentKinds|
        ensures Conforms(ComponentKinds[i], Slot(p, ComponentKinds[i]), dir)
      {
        var k: Kind := ComponentKinds[i];
        assert Conforms(k, Slot(p, k), dir);
      }
      assert Conforms(Manifest, Slot(p, Manifest), dir);
    }
    if Conforms(Manifest, p.manifest, dir)
       && forall i :: 0 <= i < |ComponentKinds| ==> Conforms(ComponentKinds[i], Slot(p, ComponentKinds[i]), dir)
    {
      ValidatedSlotsConform(p, dir);
    }
  }

  /** A validating load succeeds exactly when the unvalidated load does and
      every document of its package conforms to its kind's schema; it then
      returns that same package. */
  lemma ValidatedLoadIsFilter(file: ArchiveFile, decode: Decoder, dir: SchemaDir)
    ensures LoadUapf(file, true, decode, dir).Ok? <==>
      && LoadUapf(file, false, decode, dir).Ok?
      && forall k: Kind :: Conforms(k, Slot(LoadUapf(file, false, decode, dir).value, k), dir)
    ensures LoadUapf(file, true, decode, dir).Ok? ==>
      LoadUapf(file, true, decode, dir) == LoadUapf(file, false, decode, dir)
  {
    if file.Readable? {
      var a := file.entries;
      if ReadJson(a, ManifestPath, decode).Ok? {
        var m := ReadJson(a, ManifestPath, decode).value;
        ValidatedComponents(a, m, decode, dir);
        if LoadUapf(file, false, decode, dir).Ok? {
          var p := LoadUapf(file, false, decode, dir).value;
          var docs := LoadComponents(a, m, false, decode, dir).value;
          assert p == Assemble(a, m, docs);
          AllSlotsConform(p, dir);
          assert (forall i :: 0 <= i < |ComponentKinds| ==> Conforms(ComponentKinds[i], Slot(p, ComponentKinds[i]), dir))
             <==> ValidateAll(docs, dir).Ok?;
        }
      }
    }
  }

  /** When the unvalidated load succeeds and the manifest conforms, the
      validating load reports the first component, in the order roles,
      capabilities, bindings, mcp-tools, a2a-schemas, whose document does not
      conform, with that kind's own validation error. */
  lemma FirstFailingKindReported(file: ArchiveFile, decode: Decoder, dir: SchemaDir, i: nat)
    requires LoadUapf(file, false, decode, dir).Ok?
    requires Conforms(Manifest, LoadUapf(file, false, decode, dir).value.manifest, dir)
    requires i < |ComponentKinds|
    requires !Conforms(ComponentKinds[i], Slot(LoadUapf(file, false, decode, dir).value, ComponentKinds[i]), dir)
    requires forall j :: 0 <= j < i ==>
      Conforms(ComponentKinds[j], Slot(LoadUapf(file, false, decode, dir).value, ComponentKinds[j]), dir)
    ensures LoadUapf(file, true, decode, dir)
         == Err(ValidateKind(ComponentKinds[i], Slot(LoadUapf(file, false, decode, dir).value, ComponentKinds[i]), dir).error)
  {
    var a := file.entries;
    var p := LoadUapf(file, false, decode, dir).value;
    var m := ReadJson(a, ManifestPath, decode).value;
    var docs := LoadComponents(a, m, false, decode, dir).value;
    assert p == Assemble(a, m, docs);
    ValidatedComponents(a, m, decode, dir);
    var v := ValidateAll(docs, dir);
    assert v.Err?;
    var k :| 0 <= k < |docs| && ValidateKind(ComponentKinds[k], docs[k], dir) == Err(v.error)
             && forall j :: 0 <= j < k ==> Conforms(ComponentKinds[j], docs[j], dir);
    assert k == i;
  }

  /** A successful load holds the decoded manifest and, for each of the five
      components, the decoded member at the path resolved for it. */
  lemma LoadedSlotsAreResolvedMembers(file: ArchiveFile, validate: bool, decode: Decoder, dir: SchemaDir)
    requires LoadUapf(file, validate, decode, dir).Ok?
    ensures var p := LoadUapf(file, validate, decode, dir).value;
      && ReadJson(file.entries, ManifestPath, decode) == Ok(p.manifest)
      && ComponentGroups(p.manifest).Ok?
      && ResolveAll(ComponentGroups(p.manifest).value).Ok?
      && var paths := ResolveAll(ComponentGroups(p.manifest).value).value;
         forall i :: 0 <= i < |ComponentKinds| ==>
           ReadJson(file.entries, paths[i], decode) == Ok(Slot(p, ComponentKinds[i]))
  {
    LoadIsAssembled(file, validate, decode, dir);
    var a := file.entries;
    var m := LoadManifest(a, validate, decode, dir).value;
    ComponentsAreRead(a, m, validate, decode, dir);
  }

  /** A successful load is the package assembled from its manifest stage and
      its component stage. */
  lemma LoadIsAssembled(file: ArchiveFile, validate: bool, decode: Decoder, dir: SchemaDir)
    requires LoadUapf(file, validate, decode, dir).Ok?
    ensures file.Readable? && LoadManifest(file.entries, validate, decode, dir).Ok?
    ensures var m := LoadManifest(file.entries, validate, decode, dir).value;
      && LoadComponents(file.entries, m, validate, decode, dir).Ok?
      && LoadUapf(file, validate, decode, dir).value
           == Assemble(file.entries, m, LoadComponents(file.entries, m, validate, decode, dir).value)
  {
  }

  /** A successful component stage yields the documents read at the
      resolved paths. */
  lemma ComponentsAreRead(a: seq<Entry>, m: Json, validate: bool, decode: Decoder, dir: SchemaDir)
    requires LoadComponents(a, m, validate, decode, dir).Ok?
    ensures ComponentGroups(m).Ok? && ResolveAll(ComponentGroups(m).value).Ok?
    ensures ReadAll(a, ResolveAll(ComponentGroups(m).value).value, decode) == LoadComponents(a, m, validate, decode, dir)
  {
  }

  /** The "all" half of all-or-nothing: when the manifest decodes (and, when
      asked, conforms), the groups are read, all five paths resolve, every
      path decodes and (when asked) every component conforms, the load
      returns the package assembled from exactly those documents. */
  lemma LoadSucceedsWhenEveryStepDoes(a: seq<Entry>, validate: bool, decode: Decoder, dir: SchemaDir,
                                      m: Json, g: Groups, paths: seq<string>, docs: seq<Json>)
    requires ReadJson(a, ManifestPath, decode) == Ok(m)
    requires validate ==> Conforms(Manifest, m, dir)
    requires ComponentGroups(m) == Ok(g)
    requires ResolveAll(g) == Ok(paths)
    requires ReadAll(a, paths, decode) == Ok(docs)
    requires validate ==> forall i :: 0 <= i < |docs| ==> Conforms(ComponentKinds[i], docs[i], dir)
    ensures |docs| == |ComponentKinds|
    ensures LoadUapf(Readable(a), validate, decode, dir) == Ok(Assemble(a, m, docs))
  {
    assert LoadManifest(a, validate, decode, dir) == Ok(m);
    if validate {
      assert ValidateAll(docs, dir).Ok?;
    }
    ComponentsSucceed(a, m, validate, decode, dir, g, paths, docs);
    LoadOfStages(a, validate, decode, dir, m, docs);
  }

  /** The component stage succeeds with the documents read when groups,
      resolution, reading and (when asked) validation all succeed. */
  lemma ComponentsSucceed(a: seq<Entry>, m: Json, validate: bool, decode: Decoder, dir: SchemaDir,
                          g: Groups, paths: seq<string>, docs: seq<Json>)
    requires ComponentGroups(m) == Ok(g)
    requires ResolveAll(g) == Ok(paths)
    requires ReadAll(a, paths, decode) == Ok(docs)
    requires validate ==> |docs| == |ComponentKinds| && ValidateAll(docs, dir).Ok?
    ensures LoadComponents(a, m, validate, decode, dir) == Ok(docs)
  {
  }

  /** A load whose two stages succeed returns the package assembled from
      their results. */
  lemma LoadOfStages(a: seq<Entry>, validate: bool, decode: Decoder, dir: SchemaDir, m: Json, docs: seq<Json>)
    requires LoadManifest(a, validate, decode, dir) == Ok(m)
    requires LoadComponents(a, m, validate, decode, dir) == Ok(docs)
    ensures |docs| == |ComponentKinds|
    ensures LoadUapf(Readable(a), validate, decode, dir) == Ok(Assemble(a, m, docs))
  {
  }

  /** The component stage reports a failure to read the groups, or to
      resolve a path, as its own error, before anything is read. */
  lemma ComponentStageErrors(a: seq<Entry>, m: Json, validate: bool, decode: Decoder, dir: SchemaDir)
    ensures ComponentGroups(m).Err? ==>
      LoadComponents(a, m, validate, decode, dir) == Err(ComponentGroups(m).error)
    ensures ComponentGroups(m).Ok? && ResolveAll(ComponentGroups(m).value).Err? ==>
      LoadComponents(a, m, validate, decode, dir) == Err(ResolveAll(ComponentGroups(m).value).error)
  {
  }

  /** The error of a failing stage is the error of the whole load. */
  lemma StageErrorsAreLoadErrors(a: seq<Entry>, validate: bool, decode: Decoder, dir: SchemaDir)
    ensures LoadManifest(a, validate, decode, dir).Err? ==>
      LoadUapf(Readable(a), validate, decode, dir) == Err(LoadManifest(a, validate, decode, dir).error)
    ensures LoadManifest(a, validate, decode, dir).Ok? ==>
      var m := LoadManifest(a, validate, decode, dir).value;
      LoadComponents(a, m, validate, decode, dir).Err? ==>
        LoadUapf(Readable(a), validate, decode, dir) == Err(LoadComponents(a, m, validate, decode, dir).error)
  {
  }

  /** A group given as an object or a string yields only strings, so its scan
      never raises on a non-string item. */
  lemma KeyedGroupsNeverRaiseNotAString(group: Json, groupName: string, filename: string)
    requires group.JObject? || group.JString?
    ensures FindInGroup(group, groupName, filename) != Err(NotAString(groupName))
  {
    IterationYields(group);
    var items := Iteration(group).value;
    ScanGroupSpec(items, groupName, filename);
  }
}
