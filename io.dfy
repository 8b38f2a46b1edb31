/** The outside world as the validators see it. Every network request, file
    read and foreign algorithm is an oracle: a total function the caller
    supplies, so that the decision logic can be stated over all of them. */
module Io {
  import opened Values

  /** What loading the input document yields: a parsed value, a JSON decode
      error, a missing file, or any other I/O failure (which propagates). */
  datatype LoadOutcome =
    | Loaded(doc: Json)
    | DecodeError
    | NotFound
    | IoFailure

  /** What reading a local schema file yields. */
  datatype LocalRead =
    | LocalOk(schema: Json)
    | LocalNotFound            // the file vanished between the check and the open
    | LocalFailed              // any other exception while opening or parsing

  /** What reading the tabular catalog file yields: its header names with the
      index column already dropped, a missing file, or another read error
      with the exception's text. */
  datatype CsvRead =
    | CsvOk(columns: set<string>)
    | CsvNotFound
    | CsvFailed(text: string)

  /** One step of the location of a schema violation: a key or a list index. */
  datatype PathElem = Key(name: string) | Index(i: nat)

  /** The verdict of the JSON Schema algorithm on (document, schema). */
  datatype SchemaVerdict =
    | Accepts
    | Violation(message: string, path: seq<PathElem>)
    | Failed(text: string)     // an exception other than a validation error

  /** All oracles together. */
  datatype Env = Env(
    readFile: string -> LoadOutcome,        // open + json.load of a local path
    fetchUrl: string -> LoadOutcome,        // requests.get(url).json()
    isFile: string -> bool,                 // Path.is_file
    readSpecFile: string -> LocalRead,      // open + json.load of a schema file
    download: string -> Option<Json>,       // requests.get(url).json(); None on any failure
    schemaCheck: (Json, Json) -> SchemaVerdict,  // jsonschema.validate(document, schema)
    readCsv: Json -> CsvRead                // pandas.read_csv(catalog_file, index_col=0)
  )
}
