/** Values shared by both validators: parsed JSON documents, optional and
    fallible results, and the Python exceptions that escape the validators. */
module Values {

  datatype Option<+T> = None | Some(value: T)

  datatype Result<+T, +E> = Ok(value: T) | Err(error: E)

  /** A parsed JSON value (numbers are modelled as integers). A Python `dict`
      is `JObj`, a `list` is `JArr`, `None` is `JNull`. */
  datatype Json =
    | JNull
    | JBool(b: bool)
    | JNum(n: int)
    | JStr(s: string)
    | JArr(items: seq<Json>)
    | JObj(fields: map<string, Json>)

  /** Exceptions that propagate out of the validators instead of being
      folded into the report. */
  datatype PyError =
    | KeyError(key: string)     // a missing key in a dict subscript
    | TypeError                 // subscript, `in` or iteration on the wrong kind of value
    | IoError                   // an I/O failure the loader does not classify
    | VersionException          // the remote schema could not be downloaded
    | SystemExit(code: int)     // `sys.exit(code)` while resolving the schema
}
