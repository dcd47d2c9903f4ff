# UAPF package loader — a Dafny model

This project models the load/validate pipeline of the UAPF parser. A UAPF
package is a zip archive holding `manifest.json` plus five JSON documents
(roles, capabilities, bindings, MCP tools, A2A schemas) whose paths the
manifest declares in its `components.agents` and `components.integration`
groups. `load_uapf` reads the manifest, optionally validates it, resolves the
five component paths by suffix, reads them, optionally validates them in a
fixed order, snapshots every archive member and returns a package, or raises
at the first failing step. `validate_uapf` is a validating load whose result
is thrown away.

The model is functional. The archive is a sequence of `(name, bytes)`
entries. JSON decoding is an abstract partial function (`Decoder`). The
schema directory is a value holding the decoded schema documents present on
disk and an abstract Draft 2020-12 satisfaction relation. Each Python
exception the pipeline can raise is a constructor of `Errors.Error`, and
every operation returns a `Result`.

Modules, one per concern:

- `Results` (results.dfy): `Option`, `Result`, and `AllOrFirstError`, a run of
  steps in order that stops at the first failure.
- `Errors` (errors.dfy): the six document kinds and the error taxonomy.
- `JsonValues` (json_values.dfy): decoded JSON, and the Python operations the
  loader applies to it: truthiness, `dict.get`, `x or default`, iteration.
- `Zip` (zip.dfy): archive members, reading by name, and the `raw_files`
  snapshot.
- `Validators` (validators.dfy): the schema name table, `_schema_path`,
  `load_schema`, `get_validator` and the `validate_<kind>` functions.
- `Parser` (parser.dfy): `_read_json`, `_find_component`, the
  component groups, `load_uapf` in three stages, and `validate_uapf`.
- `LoadProperties` (load_properties.dfy): lemmas relating several calls.

Behaviour worth noting:

- The resolver tests a plain suffix of the whole path (`"agents/myroles.json"`
  satisfies `"roles.json"`), not a file-name match.
- It keeps the first match and never rejects several candidates.
- No compiled-schema cache exists: every `validate_<kind>` call looks the
  schema up again.
- Constructing the validator does not check the schema, so a malformed schema
  is not reported on its own.

Where the source leaves behaviour to Python itself, the model says what
Python does:

- `manifest.get` on a manifest that is not an object fails with `NotAnObject`.
- Iterating a group value yields list elements, object keys or the characters
  of a string; any other truthy value is not iterable.
- A group entry that is not a string fails when the scan reaches it, because
  `.endswith` is then called on it.
- Member names may repeat: reading a name returns the last entry with that
  name, and the snapshot keeps each name once, at its first position. With
  distinct names, the snapshot is the archive itself (`Zip.SnapshotIsArchive`).

## Model

| member | source | states |
|---|---|---|
| Results.AllOrFirstError | uapf_parser/parser.py:57-74 | A run of steps succeeds iff every step does, and then yields each step's value in order; otherwise its error is the error of the earliest failing step, after only successful steps |
| Results.FirstFailureDecides | uapf_parser/parser.py:69-74 | Once the i-th step fails after successful ones, the run's error is that step's error, whatever follows it |
| JsonValues.Get | uapf_parser/parser.py:53-55 | `get` finds nothing iff no member has the key; otherwise it returns the value of the first member with that key |
| JsonValues.FalsyValues | uapf_parser/parser.py:53-55 | The values `or` replaces by its default are exactly null, false, zero, and the empty string, list and object |
| JsonValues.IterationYields | uapf_parser/parser.py:34 | Only lists, objects and strings can be iterated. A list yields its elements, an object its keys and a string its one-character strings, in order, so objects and strings never yield a non-string |
| Zip.Read | uapf_parser/parser.py:77-78 | Reading a name finds nothing iff no member has it; otherwise it yields the bytes of the last member with that name |
| Zip.ReadOfDistinct | uapf_parser/parser.py:77-78 | With distinct names, reading a member's name yields exactly that member's bytes |
| Zip.Put | uapf_parser/parser.py:78 | Dict assignment keeps keys distinct, updates an existing key in place, and appends a new key at the end |
| Zip.PutContents | uapf_parser/parser.py:78 | After an assignment the keys are the old keys plus the assigned one, and every entry is the assigned one or an old entry |
| Zip.SnapshotPrefix | uapf_parser/parser.py:76-78 | The dict built over any prefix of the member listing has distinct keys |
| Zip.SnapshotKeys | uapf_parser/parser.py:76-78 | The dict built over a prefix of the listing holds exactly that prefix's names, each mapped to the bytes a read of that name returns |
| Zip.Snapshot | uapf_parser/parser.py:76-78 | `raw_files` has distinct keys, holds every archive member name and no other, and maps each to the bytes the archive returns for it |
| Zip.SnapshotOfDistinct | uapf_parser/parser.py:76-78 | With distinct names, the dict built over a prefix of the listing is that prefix, in archive order, with each member's own bytes |
| Zip.SnapshotIsArchive | uapf_parser/parser.py:76-78 | With distinct names, `raw_files` equals the archive: every member, referenced or not, in archive order |
| Validators.KindNamed | uapf_parser/validators.py:11-18 | A name found in the table is the name of the kind returned; a name not found is the name of no kind |
| Validators.SchemaTable | uapf_parser/validators.py:11-18 | The table has exactly six entries, one per kind. Names and file names are pairwise distinct. A name is known iff it is one of manifest, roles, capabilities, bindings, mcp_tools, a2a_schemas. Looking up a kind's name gives back that kind |
| Validators.SchemaPath | uapf_parser/validators.py:23-32 | An unknown name fails with `UnknownSchema`, whatever files exist; a known name whose file is absent fails with `SchemaFileMissing` of that file; otherwise the kind's file is returned |
| Validators.LoadSchema | uapf_parser/validators.py:35-40 | Succeeds exactly when the path lookup does, so an unknown name or a missing file fails; a success is the schema document stored in the named kind's file, and a failure carries the path lookup's error |
| Validators.GetValidator | uapf_parser/validators.py:43-47 | Succeeds exactly when the path lookup does, so an unknown name or a missing file fails with that lookup's error; a known name whose file is present gives a validator for the document in that file |
| Validators.ValidateKind | uapf_parser/validators.py:50-71 | `validate_<kind>` succeeds iff the document satisfies the schema in that kind's own file. An absent file fails with `SchemaFileMissing`, a violation fails with `SchemaViolation` naming the kind |
| Validators.ValidateReadsOnlyOwnSchema | uapf_parser/validators.py:50-71 | Two schema directories that agree on a kind's file give the same outcome for that kind, whatever the other files hold: no kind is checked against another kind's schema |
| Parser.ReadJson | uapf_parser/parser.py:25-30 | A name absent from the archive, and only such a name, fails with `MemberNotFound`. Undecodable bytes fail with `MalformedJson`, never with `MemberNotFound`. A success is the decoding of a member of that name |
| Parser.ReadJsonOfDistinct | uapf_parser/parser.py:25-30 | With distinct names, reading a member's name gives that member's decoded bytes, or `MalformedJson` when they do not decode |
| Parser.FindComponent | uapf_parser/parser.py:33-37 | Resolution succeeds iff some entry ends with the file name. Its result is then the earliest such entry, so later matches are ignored. Otherwise it fails with `ComponentNotDeclared` for that file name |
| Parser.EndsWithIsSuffix | uapf_parser/parser.py:35 | `str.endswith` holds exactly when the string is some string followed by the suffix |
| Parser.StringPrefix | uapf_parser/parser.py:34-35 | Yields the items before the first non-string item, as strings; the item after them, if any, is not a string |
| Parser.ScanGroupSpec | uapf_parser/parser.py:33-37 | Over the items a group yields, the scan succeeds iff it reaches a string ending with the file name, and it returns that string, the first such item it reaches. It fails with `NotAString` iff it reaches a non-string item first, and with `ComponentNotDeclared` iff it passes every item |
| Parser.FindInGroup | uapf_parser/parser.py:33-37 | A group value that cannot be iterated, and only such a value, fails with `NotIterable` before any item is scanned; otherwise the result is the scan of its items |
| Parser.ComponentGroups | uapf_parser/parser.py:53-55 | A manifest that is not an object fails. A missing or falsy `components` gives two empty groups. A truthy `components` that is not an object fails. Otherwise each group is its truthy value, or an empty list when missing or falsy |
| Parser.ResolveAll | uapf_parser/parser.py:57-61 | All five paths resolve, each in its own group (roles, capabilities and bindings in agents; mcp-tools and a2a-schemas in integration) with its own suffix, or the error is that of the first component in that order that does not |
| Parser.ReadAll | uapf_parser/parser.py:63-67 | Every resolved path is read in order, or the error is that of the first path that fails to read |
| Parser.ValidateAll | uapf_parser/parser.py:69-74 | Succeeds iff all five documents conform; otherwise the error is the validation error of the first kind, in the order roles, capabilities, bindings, mcp_tools, a2a_schemas, that does not conform |
| Parser.ValidatedSlotsConform | uapf_parser/parser.py:69-74 | A conforming manifest plus five conforming components makes every document of the package conform |
| Parser.LoadManifest | uapf_parser/parser.py:48-51 | A missing manifest fails with `MemberNotFound("manifest.json")`, and a manifest that does not decode fails with its read error before any validation. A success is the decoded manifest, and it conforms when validation is on. A decodable manifest, conforming when validation is on, always gets past this stage |
| Parser.LoadComponents | uapf_parser/parser.py:53-74 | On success there are five documents, each conforming to its kind when validation is on (when it succeeds and which error it reports are stated by `ComponentStageErrors`, `ComponentErrorAfterResolution` and `LoadSucceedsWhenEveryStepDoes`) |
| Parser.Assemble | uapf_parser/parser.py:80-88 | The package's manifest slot is the manifest and each component slot is the document read for that component |
| Parser.LoadUapf | uapf_parser/parser.py:40-88 | A nonexistent archive fails before anything is read, and a missing manifest fails before any resolution. A package is returned only when no step failed (the converse is `LoadSucceedsWhenEveryStepDoes`). It then holds the decoded manifest and, when validation is on, only conforming documents. Its `raw_files` holds every archive member with its bytes, and equals the archive when names are distinct |
| Parser.ValidateUapf | uapf_parser/parser.py:91-94 | `validate_uapf` succeeds exactly when a validating load succeeds, and otherwise fails with that load's error |
| LoadProperties.FirstMatchWins | uapf_parser/parser.py:33-36 | A matching entry preceded by no match is the one returned, whatever follows it |
| LoadProperties.LaterEntriesIgnored | uapf_parser/parser.py:33-36 | Appending entries to a list that already resolves does not change what it resolves to |
| LoadProperties.SuffixMatchExamples | uapf_parser/parser.py:33-37 | `agents/myroles.json` satisfies `roles.json`. Of two paths ending in `roles.json`, the first listed wins. A list without a match fails |
| LoadProperties.ScanOfStrings | uapf_parser/parser.py:33-37 | Over a group of strings only, the scan of Python values equals the pure first-match resolution |
| LoadProperties.UnvalidatedLoadIgnoresSchemas | uapf_parser/parser.py:50-74 | With validation off, the load's outcome is the same for every schema directory: no validator is invoked |
| LoadProperties.ManifestValidationPrecedesResolution | uapf_parser/parser.py:48-61 | A decodable manifest that does not conform fails a validating load with its own validation error, whatever its component groups hold |
| LoadProperties.MissingGroupsDefaultToEmpty | uapf_parser/parser.py:53-57 | A manifest object without a truthy `components`, or without a truthy `agents` in it, fails with `ComponentNotDeclared("roles.json")` rather than crashing |
| LoadProperties.ComponentReadErrorPassesManifest | uapf_parser/parser.py:48-67 | A read error on a component path arises only after the manifest stage has succeeded |
| LoadProperties.ComponentReadErrorPassesResolution | uapf_parser/parser.py:53-67 | A read error in the component stage arises only after the groups were read and all five paths resolved |
| LoadProperties.ResolutionPrecedesReading | uapf_parser/parser.py:57-67 | A missing or malformed component member is reported only after all five paths have resolved, and its path is one of them |
| LoadProperties.ValidatedComponents | uapf_parser/parser.py:53-74 | With the manifest fixed, the validating component stage fails like the unvalidated one does; otherwise it yields the same documents when they all validate, and else the validation error |
| LoadProperties.AllSlotsConform | uapf_parser/parser.py:50-74 | Every document of a package conforms iff the manifest and the five components, in component order, conform |
| LoadProperties.ValidatedLoadIsFilter | uapf_parser/parser.py:40-88 | A validating load succeeds iff the unvalidated load succeeds and every document of its package conforms, and it then returns the same package |
| LoadProperties.FirstFailingKindReported | uapf_parser/parser.py:69-74 | When the unvalidated load succeeds and the manifest conforms, a validating load fails with the validation error of the first non-conforming component, and no package is returned |
| LoadProperties.LoadSucceedsWhenEveryStepDoes | uapf_parser/parser.py:47-88 | When the manifest decodes and (with validation on) conforms, the groups are read, all five paths resolve, every path decodes and (with validation on) every component conforms, the load returns the package built from exactly those documents |
| LoadProperties.ComponentStageErrors | uapf_parser/parser.py:53-61 | A failure to read the groups, or the first failure to resolve a path, is the component stage's error |
| LoadProperties.ComponentErrorAfterResolution | uapf_parser/parser.py:63-74 | Once all paths resolve, a failed read is the component stage's error; otherwise the stage can fail only with a schema error |
| LoadProperties.StageErrorsAreLoadErrors | uapf_parser/parser.py:47-74 | A failing manifest stage, or a failing component stage after a successful manifest stage, fails the whole load with that stage's error |
| LoadProperties.KeyedGroupsNeverRaiseNotAString | uapf_parser/parser.py:33-35 | A group given as an object or a string yields only strings, so resolving in it never fails on a non-string item |
| LoadProperties.LoadedSlotsAreResolvedMembers | uapf_parser/parser.py:57-88 | On success the manifest slot is the decoded `manifest.json`. Each component slot is the decoded member at the path resolved for that component |

## Left out

- Zip container decoding and closing the archive handle are not modelled. An archive whose container cannot be opened is `Unreadable`, whatever the cause.
- Path existence is an input: the caller passes what is found at the path.
- LoadUapf: the default `validate=True` of `load_uapf` is not modelled; the flag is always passed explicitly, as both callers in the repository do.
- JSON text parsing is the abstract `Decoder`; every decoding failure, including a text-encoding failure, is `MalformedJson`. JSON numbers are reals, so `NaN` and `Infinity` are left out. The decoder is taken to return objects with distinct keys, as Python dicts have; on a key repeated in the text `Get` would return the first value, where Python keeps the last.
- JSON Schema semantics (the `jsonschema` library) is the abstract `satisfies` relation. The schema directory holds decoded schema documents, so a schema file whose text does not parse is not modelled.
- Error message texts are left out, and so are the Python exception classes. The archive, a member and a schema file missing are all `FileNotFoundError` in Python; the model tells them apart by constructor.
- Idempotence of repeated loads has no lemma: every operation is a pure function of its inputs, so equal inputs give equal packages.
- That validators never modify the document has no lemma for the same reason: a pure function cannot change its argument.
- uapf_parser/cli.py, uapf_parser/models.py and uapf_parser/__init__.py are glue, plain records and re-exports, and are not part of this model.
