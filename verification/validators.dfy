/** Schema lookup and per-kind validation. JSON Schema itself is abstract:
    the schema directory supplies, for each file present, the decoded schema
    document, and the Draft 2020-12 satisfaction relation between a schema
    and an instance is a parameter. */
module Validators {
  import opened Results
  import opened JsonValues
  import opened Errors

  /** The schema directory as the validators find it on disk. */
  datatype SchemaDir = SchemaDir(files: map<string, Json>, satisfies: (Json, Json) -> bool)

  /** A compiled validator: the schema document it checks against. */
  datatype Validator = Validator(schema: Json)

  /** Every kind, in the order of the name table. */
  const AllKinds: seq<Kind> := [Manifest, Roles, Capabilities, Bindings, McpTools, A2aSchemas]

  /** The friendly name by which each kind's schema is requested. */
  function Name(k: Kind): string {
    match k
    case Manifest => "manifest"
    case Roles => "roles"
    case Capabilities => "capabilities"
    case Bindings => "bindings"
    case McpTools => "mcp_tools"
    case A2aSchemas => "a2a_schemas"
  }

  /** The schema file backing each kind. */
  function SchemaFile(k: Kind): string {
    match k
    case Manifest => "uapf-manifest.schema.json"
    case Roles => "uapf-roles.schema.json"
    case Capabilities => "uapf-capabilities.schema.json"
    case Bindings => "uapf-bindings.schema.json"
    case McpTools => "uapf-mcp-tools.schema.json"
    case A2aSchemas => "uapf-a2a-schemas.schema.json"
  }

  /** Looking a friendly name up in the table: the kind it names, if any. */
  function KindNamed(name: string): (r: Option<Kind>)
    ensures r.Some? ==> Name(r.value) == name
    ensures r.None? ==> forall k: Kind :: Name(k) != name
  {
    if name == "manifest" then Some(Manifest)
    else if name == "roles" then Some(Roles)
    else if name == "capabilities" then Some(Capabilities)
    else if name == "bindings" then Some(Bindings)
    else if name == "mcp_tools" then Some(McpTools)
    else if name == "a2a_schemas" then Some(A2aSchemas)
    else None
  }

  /** The table has exactly six entries, one per kind; names and file names
      are each distinct, and looking up a kind's name gives back the kind. */
  lemma SchemaTable()
    ensures |AllKinds| == 6
    ensures forall k: Kind :: k in AllKinds
    ensures forall i, j :: 0 <= i < j < |AllKinds| ==>
      Name(AllKinds[i]) != Name(AllKinds[j]) && SchemaFile(AllKinds[i]) != SchemaFile(AllKinds[j])
    ensures forall k: Kind :: KindNamed(Name(k)) == Some(k)
    ensures forall name: string :: KindNamed(name).Some? <==>
      name in {"manifest", "roles", "capabilities", "bindings", "mcp_tools", "a2a_schemas"}
  {
    forall k: Kind
      ensures k in AllKinds
    {
      match k
      case Manifest => assert AllKinds[0] == k;
      case Roles => assert AllKinds[1] == k;
      case Capabilities => assert AllKinds[2] == k;
      case Bindings => assert AllKinds[3] == k;
      case McpTools => assert AllKinds[4] == k;
      case A2aSchemas => assert AllKinds[5] == k;
    }
  }

  /** Where the named schema lives: an unknown name is rejected before any
      file is looked for; a known name whose file is absent is reported
      missing; otherwise the kind's file is returned. */
  function SchemaPath(name: string, dir: SchemaDir): (r: Result<string, Error>)
    ensures (forall k: Kind :: Name(k) != name) ==> r == Err(UnknownSchema(name))
    ensures forall k: Kind :: Name(k) == name ==>
      r == (if SchemaFile(k) in dir.files then Ok(SchemaFile(k)) else Err(SchemaFileMissing(SchemaFile(k))))
  {
    match KindNamed(name)
    case None => Err(UnknownSchema(name))
    case Some(k) =>
      var file := SchemaFile(k);
      if file in dir.files then Ok(file) else Err(SchemaFileMissing(file))
  }

  /** The decoded schema document for a name. */
  function LoadSchema(name: string, dir: SchemaDir): (r: Result<Json, Error>)
    ensures r.Ok? ==> exists k: Kind :: Name(k) == name && SchemaFile(k) in dir.files
                                        && r.value == dir.files[SchemaFile(k)]
    ensures r.Ok? <==> SchemaPath(name, dir).Ok?
    ensures r.Err? ==> SchemaPath(name, dir).Err? && r.error == SchemaPath(name, dir).error
  {
    var file :- SchemaPath(name, dir);
    Ok(dir.files[file])
  }

  /** A validator for the named schema. */
  function GetValidator(name: string, dir: SchemaDir): (r: Result<Validator, Error>)
    ensures forall k: Kind :: Name(k) == name && SchemaFile(k) in dir.files ==>
      r == Ok(Validator(dir.files[SchemaFile(k)]))
    ensures r.Ok? <==> SchemaPath(name, dir).Ok?
    ensures r.Err? ==> SchemaPath(name, dir).Err? && r.error == SchemaPath(name, dir).error
  {
    var schema :- LoadSchema(name, dir);
    Ok(Validator(schema))
  }

  /** A document conforms to a kind when that kind's schema file is present
      and the document satisfies the schema it holds. */
  ghost predicate Conforms(k: Kind, doc: Json, dir: SchemaDir) {
    SchemaFile(k) in dir.files && dir.satisfies(dir.files[SchemaFile(k)], doc)
  }

  /** `validate_<kind>`: requests the kind's own schema by name and checks the
      document against it. It succeeds exactly when the document conforms; a
      missing schema file and a violation are told apart. */
  function ValidateKind(k: Kind, doc: Json, dir: SchemaDir): (r: Result<(), Error>)
    ensures r.Ok? <==> Conforms(k, doc, dir)
    ensures SchemaFile(k) !in dir.files ==> r == Err(SchemaFileMissing(SchemaFile(k)))
    ensures SchemaFile(k) in dir.files && !Conforms(k, doc, dir) ==> r == Err(SchemaViolation(k))
  {
    var v :- GetValidator(Name(k), dir);
    if dir.satisfies(v.schema, doc) then Ok(()) else Err(SchemaViolation(k))
  }

  /** A kind's validation looks at that kind's schema file and nothing else:
      two directories that agree on that one file give the same outcome,
      whatever the other files hold. */
  lemma ValidateReadsOnlyOwnSchema(k: Kind, doc: Json, d1: SchemaDir, d2: SchemaDir)
    requires SchemaFile(k) in d1.files <==> SchemaFile(k) in d2.files
    requires SchemaFile(k) in d1.files ==>
      d1.files[SchemaFile(k)] == d2.files[SchemaFile(k)]
      && d1.satisfies(d1.files[SchemaFile(k)], doc) == d2.satisfies(d2.files[SchemaFile(k)], doc)
    ensures ValidateKind(k, doc, d1) == ValidateKind(k, doc, d2)
  {
  }
}
