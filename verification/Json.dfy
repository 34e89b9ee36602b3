/** JSON values as the catalogs hold them after decoding. The fields of an object come in some iteration order. */
module JsonModel {
  datatype Json =
    | Null
    | Bool(b: bool)
    | Number(n: real)
    | String(s: string)
    | Array(items: seq<Json>)
    | Object(fields: seq<Field>)

  datatype Field = Field(key: string, val: Json)
}
