/** JSON values, the JSON Schema keywords the generator emits, and what they accept. */
module JsonSchema {
  import opened Basics

  datatype Json =
    | JNull
    | JBool(b: bool)
    | JNum(n: real)
    | JStr(s: string)
    | JArr(items: seq<Json>)
    | JObj(fields: map<string, Json>)

  datatype JsonType = TNull | TBoolean | TNumber | TString | TArray | TObject

  function TypeOf(v: Json): JsonType {
    match v
    case JNull => TNull
    case JBool(_) => TBoolean
    case JNum(_) => TNumber
    case JStr(_) => TString
    case JArr(_) => TArray
    case JObj(_) => TObject
  }

  /** A schema is a boolean or a set of keywords. An absent `enum`, `anyOf`, `properties` or
      `required` is the empty collection: the generator never writes those empty. */
  datatype Schema =
    | Always(accept: bool)
    | Keywords(
        ty: Option<JsonType> := None,
        constant: Option<Json> := None,
        choices: seq<Json> := [],
        anyOf: seq<Schema> := [],
        items: Option<Schema> := None,
        properties: map<string, Schema> := map[],
        required: seq<string> := [],
        additional: Option<Schema> := None)

  /** Validation: every keyword present must accept the value (JSON Schema Validation draft
      2020-12, sections 6.1.1 to 6.1.3 and 6.5.3; Core draft 2020-12, sections 10.2.1.2,
      10.3.1.2, 10.3.2.1 and 10.3.2.3). */
  predicate Accepts(s: Schema, v: Json)
    decreases s
  {
    match s
    case Always(b) => b
    case Keywords(ty, constant, choices, anyOf, items, properties, required, additional) =>
      && (ty.Some? ==> TypeOf(v) == ty.value)
      && (constant.Some? ==> v == constant.value)
      && (choices != [] ==> v in choices)
      && (anyOf != [] ==> exists i :: 0 <= i < |anyOf| && Accepts(anyOf[i], v))
      && (items.Some? && v.JArr? ==> forall i :: 0 <= i < |v.items| ==> Accepts(items.value, v.items[i]))
      && (v.JObj? ==>
            && (forall i :: 0 <= i < |required| ==> required[i] in v.fields)
            && (forall k :: k in properties && k in v.fields ==> Accepts(properties[k], v.fields[k]))
            && (additional.Some? ==>
                  forall k :: k in v.fields && k !in properties ==> Accepts(additional.value, v.fields[k])))
  }
}
