/** JSON values as the process keeps them: the tree behind a `JsonNode`. */
module JsonValues {

  datatype Option<+T> = None | Some(value: T)

  /** Doubles are opaque tokens: number formatting belongs to the JSON text layer. */
  datatype Json =
    | Null
    | Bool(b: bool)
    | Long(l: int)
    | Double(token: string)
    | Str(s: string)
    | Arr(items: seq<Json>)
    | Obj(fields: map<string, Json>)

  /** What a single node holds: anything but a container. */
  type JsonScalar = j: Json | !j.Arr? && !j.Obj? witness Null
}
