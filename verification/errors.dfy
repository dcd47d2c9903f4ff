/** The vocabulary shared by the loader and the validators: the kinds of
    document a package holds, and every way loading one can fail. */
module Errors {

  /** The six document kinds; each is checked against a schema of its own. */
  datatype Kind = Manifest | Roles | Capabilities | Bindings | McpTools | A2aSchemas

  /** The exceptions the loader lets escape, one constructor per cause. */
  datatype Error =
    | ArchiveNotFound                         // nothing exists at the archive path
    | ArchiveUnreadable                       // the path is not a readable zip container
    | MemberNotFound(path: string)            // the archive has no member of that name
    | MalformedJson(path: string)             // the member's bytes do not decode as JSON
    | NotAnObject(field: string)              // `.get` on a value that is not a JSON object
    | NotIterable(group: string)              // a component group that cannot be iterated
    | NotAString(group: string)               // `.endswith` on a group entry that is not a string
    | ComponentNotDeclared(filename: string)  // no group entry ends with the required file name
    | UnknownSchema(name: string)             // a schema name outside the table
    | SchemaFileMissing(file: string)         // the schema directory lacks the kind's file
    | SchemaViolation(kind: Kind)             // a document does not satisfy its kind's schema
}
