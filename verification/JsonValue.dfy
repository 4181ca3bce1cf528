/** JSON values, as the trees that parsing builds and printing walks. */
module JsonValue {
  import opened Ascii

  /** A number is its text; what the C library makes of the text is foreign. */
  datatype Json =
    | Null
    | False
    | True
    | Number(text: seq<byte>)
    | String(chars: seq<byte>)
    | Array(items: seq<Json>)
    | Object(members: seq<Member>)

  datatype Member = Member(name: seq<byte>, value: Json)

  /** `CJSON_NESTING_LIMIT`. */
  const NESTING_LIMIT: nat := 1000

  /** How deeply arrays and objects are nested in a value. */
  function Nesting(v: Json): nat
    decreases v
  {
    match v
    case Array(items) => 1 + NestingOfItems(items)
    case Object(members) => 1 + NestingOfMembers(members)
    case _ => 0
  }

  function NestingOfItems(items: seq<Json>): nat
    decreases items
  {
    if items == [] then 0
    else
      var a, b := Nesting(items[0]), NestingOfItems(items[1..]);
      if a < b then b else a
  }

  function NestingOfMembers(members: seq<Member>): nat
    decreases members
  {
    if members == [] then 0
    else
      var a, b := Nesting(members[0].value), NestingOfMembers(members[1..]);
      if a < b then b else a
  }
}
