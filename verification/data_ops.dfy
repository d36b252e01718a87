/**
 * Export and import of the whole snapshot. The JSON text itself is not
 * modelled: export yields the record that is serialised, and import starts
 * from the parsed document, whose array elements are taken to have the
 * stored record shapes.
 */
module DataOps {
  import opened Store

  /** One destructured field of the parsed document. */
  datatype Field<T> = Missing | NotArray | Array(items: seq<T>)

  /**
   * What `JSON.parse` made of the file: a syntax error, `null`, or a value
   * whose three fields were destructured. A number, string, boolean or array
   * destructures without error into three `Missing` fields.
   */
  datatype Parsed =
    | Unparsable
    | Null
    | Record(urls: Field<UrlEntry>, variables: Field<Variable>, environments: Field<Environment>)

  /** The record the export button serialises: `{urls, variables, environments}`. */
  function Export(s: Snapshot): (r: Parsed)
    ensures r.Record? && r.urls.Array? && r.variables.Array? && r.environments.Array?
    ensures r.urls.items == s.urls && r.variables.items == s.variables && r.environments.items == s.environments
  {
    Record(Array(s.urls), Array(s.variables), Array(s.environments))
  }

  /**
   * The import handler after parsing: a syntax error and destructuring
   * `null` both throw, three arrays are written wholesale, anything else is
   * refused as an invalid data structure. The elements themselves are not
   * checked.
   */
  function Import(p: Parsed): (r: Outcome)
    ensures !r.Ignored?
    ensures r.Written? <==> p.Record? && p.urls.Array? && p.variables.Array? && p.environments.Array?
    ensures p.Unparsable? ==> r == Rejected(NotJson)
    ensures p.Null? ==> r == Rejected(NotAnObject)
    ensures p.Record? && !r.Written? ==> r == Rejected(InvalidDataStructure)
    ensures r.Written? ==>
      && r.snapshot.urls == p.urls.items
      && r.snapshot.variables == p.variables.items
      && r.snapshot.environments == p.environments.items
  {
    match p
    case Unparsable => Rejected(NotJson)
    case Null => Rejected(NotAnObject)
    case Record(Array(urls), Array(variables), Array(environments)) => Written(Snapshot(urls, variables, environments))
    case Record(_, _, _) => Rejected(InvalidDataStructure)
  }

  /** Importing what was exported restores the snapshot exactly. */
  lemma ExportImportRoundTrip(s: Snapshot)
    ensures Import(Export(s)) == Written(s)
  {
  }

  /** Exporting what an import wrote gives back the imported record. */
  lemma ImportExportRoundTrip(p: Parsed)
    requires Import(p).Written?
    ensures Export(Import(p).snapshot) == p
  {
  }
}
