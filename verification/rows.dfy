/**
 * A database row as the repository hands it out: a Go
 * `map[string]interface{}` whose values are the scanned integers and texts.
 */
module Rows {

  datatype Value = Int(i: int) | Str(s: string)

  type Row = map<string, Value>
}
