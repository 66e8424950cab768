/** Shared shapes of the table extractor: the workflow states, the extracted grid,
    the uploaded file and an Option for the source's nullable values. */
module Types {

  /** The five states of the upload / convert workflow. */
  datatype AppState = Idle | Preview | Processing | Success | Error

  /** One extracted row: an ordered list of cell texts. Rows may differ in length. */
  type TableRow = seq<string>

  /** The extracted grid, row-major. */
  type TableData = seq<TableRow>

  /** A browser File as far as the application looks at it. */
  datatype File = File(name: string, mimeType: string, size: nat)

  /** A value that may be `null` in the source. */
  datatype Option<+T> = None | Some(value: T)

  /** `s.startsWith(prefix)` */
  predicate StartsWith(s: string, prefix: string) {
    |prefix| <= |s| && s[..|prefix|] == prefix
  }
}
