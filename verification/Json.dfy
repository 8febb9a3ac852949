/** JavaScript values built from JSON data, with `undefined` for what is absent. */
module Json {
  import opened Text
  import opened Numbers

  type ValidNumber = n: Number | n.Valid() witness Zero(false)

  datatype Json =
    | Undefined
    | Null
    | Bool(b: bool)
    | Num(n: ValidNumber)
    | Str(s: Text)
    | Arr(items: seq<Json>)
    | Obj(members: map<Text, Json>)

  /** `object[key]` on own members. */
  function Lookup(members: map<Text, Json>, key: Text): Json {
    if key in members then members[key] else Undefined
  }

  /** `===` first, then structural equality, which tells nested zeros apart. */
  predicate DeepEqual(a: Json, b: Json) {
    a == b || (a.Num? && b.Num? && StrictEqual(a.n, b.n))
  }

  /** The value with every negative zero replaced by zero. */
  function Unsigned(v: Json): Json {
    match v
    case Num(n) => Num(n.Unsigned())
    case Arr(items) => Arr(seq(|items|, i requires 0 <= i < |items| => Unsigned(items[i])))
    case Obj(members) => Obj(map k | k in members :: Unsigned(members[k]))
    case _ => v
  }
}
