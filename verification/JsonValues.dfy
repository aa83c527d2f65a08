/** The data of a configuration. */
module JsonValues {
  datatype Value =
    | Null
    | Bool(b: bool)
    | Int(n: int)
    | Str(s: string)
    | List(items: seq<Value>)
    | Table(entries: map<string, Value>)
}
