/** OpenAPI schemas converted to the enforced subset, reference by reference. */
module OpenApiSchema {
  import opened Text
  import opened Json
  import opened Options
  import opened Schema
  import Refs

  const K_TYPE := U("type")
  const K_NULLABLE := U("nullable")
  const K_ENUM := U("enum")
  const K_PROPERTIES := U("properties")
  const K_REQUIRED := U("required")
  const K_ADDITIONAL := U("additionalProperties")
  const K_ITEMS := U("items")
  const K_ALL_OF := U("allOf")
  const PROTO := U("__proto__")
  const METADATA := [U("title"), U("description"), U("default"), U("example"), U("examples"), U("deprecated")]

  type Members = map<Text, Json>

  // ---- Types ----

  function TypeNamed(t: Text): TypeName {
    if t == U("object") then ObjectType
    else if t == U("string") then StringType
    else if t == U("number") then NumberType
    else if t == U("integer") then IntegerType
    else if t == U("boolean") then BooleanType
    else if t == U("array") then ArrayType
    else if t == U("null") then NullType
    else UnknownType(t)
  }

  /** `typeList`: a string, or a list of strings only. */
  function TypeList(raw: Json): Option<seq<TypeName>> {
    match raw
    case Str(s) => Some([TypeNamed(s)])
    case Arr(items) =>
      if forall i :: 0 <= i < |items| ==> items[i].Str?
      then Some(seq(|items|, i requires 0 <= i < |items| => TypeNamed(items[i].s)))
      else None
    case _ => None
  }

  /** The names the validator knows, in order. */
  function Known(names: seq<TypeName>): (r: seq<TypeName>)
    ensures forall t :: t in r <==> t in names && !t.UnknownType?
  {
    if names == [] then []
    else if names[0].UnknownType? then Known(names[1..])
    else [names[0]] + Known(names[1..])
  }

  /** `resolveTypes`; `None` is a type list without a JSON type. */
  function ResolveTypes(m: Members): Option<Types> {
    var declared := TypeList(Lookup(m, K_TYPE));
    if declared.None? then Some(NoType)
    else
      var known := Known(declared.value);
      if known == [] then None
      else if Lookup(m, K_NULLABLE) == Bool(true) && NullType !in known then Some(Types(known + [NullType]))
      else Some(Types(known))
  }

  // ---- Single keywords ----

  function StringsOf(items: seq<Json>): (r: seq<Text>) {
    if items == [] then []
    else if items[0].Str? then [items[0].s] + StringsOf(items[1..])
    else StringsOf(items[1..])
  }

  /** The string entries of a `required` list. */
  function RequiredOf(m: Members): seq<Text> {
    var raw := Lookup(m, K_REQUIRED);
    if raw.Arr? then StringsOf(raw.items) else []
  }

  /** The declared properties; a malformed `properties` declares none. */
  function PropertiesOf(m: Members): Members {
    var raw := Lookup(m, K_PROPERTIES);
    if raw.Obj? then raw.members else map[]
  }

  predicate DeclaresProperties(m: Members) {
    Lookup(m, K_PROPERTIES).Obj?
  }

  function EnumOf(m: Members): Enum {
    var raw := Lookup(m, K_ENUM);
    if raw.Arr? then Enum(raw.items) else NoEnum
  }

  function MetadataOf(m: Members): Members {
    map k | k in m && k in METADATA :: m[k]
  }

  predicate Refused(m: Members) {
    U("oneOf") in m || U("anyOf") in m || U("not") in m || U("discriminator") in m
  }

  const ANYTHING := Schema(NoType, NoEnum, NoProperties, NoRequired, NoAdditional, NoItems, map[])

  // ---- Conversion ----

  function Room(chain: seq<Text>): nat {
    if |chain| < Refs.MAX_REF_DEPTH then Refs.MAX_REF_DEPTH - |chain| else 0
  }

  /** `convertNode`. */
  function Convert(document: Json, node: Json, chain: seq<Text>): Option<Schema>
    decreases Room(chain), node, 5
  {
    if node.Bool? then (if node.b then Some(ANYTHING) else None)
    else
      var d := Refs.Deref(document, node, chain);
      if d.None? || !d.value.value.Obj? then None
      else ConvertTarget(document, d.value.value, d.value.chain)
  }

  /** A node that is not a reference. */
  function ConvertTarget(document: Json, node: Json, chain: seq<Text>): Option<Schema>
    requires node.Obj?
    decreases Room(chain), node, 4
  {
    if Lookup(node.members, K_ALL_OF).Arr? then ConvertAllOf(document, node, chain)
    else ConvertPlain(document, node, node.members, chain)
  }

  /** The keywords `m` of `node`. */
  function ConvertPlain(document: Json, node: Json, m: Members, chain: seq<Text>): Option<Schema>
    requires node.Obj? && m.Items <= node.members.Items
    decreases Room(chain), node, 1
  {
    if Refused(m) then None
    else
      var types := ResolveTypes(m);
      var properties := ConvertProperties(document, node, m, chain);
      var additional := ConvertAdditional(document, node, m, chain);
      var items := ConvertItems(document, node, m, chain);
      if types.None? || properties.None? || additional.None? || items.None? then None
      else Some(Schema(types.value, EnumOf(m), properties.value,
                       if RequiredOf(m) == [] then NoRequired else Required(RequiredOf(m)),
                       additional.value, items.value, MetadataOf(m)))
  }

  function ConvertProperties(document: Json, node: Json, m: Members, chain: seq<Text>): Option<Properties>
    requires node.Obj? && m.Items <= node.members.Items
    decreases Room(chain), node, 0
  {
    if !DeclaresProperties(m) then Some(NoProperties)
    else
      KeywordIsSmaller(node, m, K_PROPERTIES);
      var ps := m[K_PROPERTIES].members;
      if PROTO in ps || exists k :: k in ps && Convert(document, ps[k], chain).None? then None
      else Some(Properties(map k | k in ps :: Node(Convert(document, ps[k], chain).value)))
  }

  function ConvertAdditional(document: Json, node: Json, m: Members, chain: seq<Text>): Option<Additional>
    requires node.Obj? && m.Items <= node.members.Items
    decreases Room(chain), node, 0
  {
    var raw := Lookup(m, K_ADDITIONAL);
    if raw.Bool? then Some(if raw.b then Allowed else Denied)
    else if raw.Undefined? then Some(if DeclaresProperties(m) then Denied else NoAdditional)
    else
      KeywordIsSmaller(node, m, K_ADDITIONAL);
      var s := Convert(document, raw, chain);
      if s.None? then None else Some(Extra(s.value))
  }

  function ConvertItems(document: Json, node: Json, m: Members, chain: seq<Text>): Option<Items>
    requires node.Obj? && m.Items <= node.members.Items
    decreases Room(chain), node, 0
  {
    var raw := Lookup(m, K_ITEMS);
    if raw.Arr? || raw.Undefined? then Some(NoItems)
    else
      KeywordIsSmaller(node, m, K_ITEMS);
      var s := Convert(document, raw, chain);
      if s.None? then None else Some(Items(s.value))
  }

  lemma KeywordIsSmaller(node: Json, m: Members, k: Text)
    requires node.Obj? && m.Items <= node.members.Items && k in m
    ensures m[k] < node
  {
    assert (k, m[k]) in m.Items;
    assert m[k] == node.members[k];
  }

  /** The node without its `allOf`. */
  function Siblings(node: Json): (m: Members)
    requires node.Obj?
    ensures m.Items <= node.members.Items
    ensures K_ALL_OF !in m
  {
    var m := node.members - {K_ALL_OF};
    assert forall i :: i in m.Items ==> i in node.members.Items;
    m
  }

  /** The branches and, last, the siblings if there are any. */
  function PartCount(node: Json): nat
    requires node.Obj? && Lookup(node.members, K_ALL_OF).Arr?
  {
    |node.members[K_ALL_OF].items| + if |Siblings(node)| > 0 then 1 else 0
  }

  function ConvertPart(document: Json, node: Json, chain: seq<Text>, i: nat): Option<Schema>
    requires node.Obj? && Lookup(node.members, K_ALL_OF).Arr? && i < PartCount(node)
    decreases Room(chain), node, 2
  {
    var branches := node.members[K_ALL_OF].items;
    if i < |branches| then Convert(document, branches[i], chain)
    else ConvertPlain(document, node, Siblings(node), chain)
  }

  function ConvertParts(document: Json, node: Json, chain: seq<Text>): Option<seq<Schema>>
    requires node.Obj? && Lookup(node.members, K_ALL_OF).Arr?
    decreases Room(chain), node, 3, 0
  {
    var n := PartCount(node);
    if exists i :: 0 <= i < n && ConvertPart(document, node, chain, i).None? then None
    else Some(seq(n, i requires 0 <= i < n => ConvertPart(document, node, chain, i).value))
  }

  /** `mergeAllOf`. */
  function ConvertAllOf(document: Json, node: Json, chain: seq<Text>): Option<Schema>
    requires node.Obj? && Lookup(node.members, K_ALL_OF).Arr?
    decreases Room(chain), node, 3, 1
  {
    var parts := ConvertParts(document, node, chain);
    if parts.None? then None else Merge(parts.value)
  }

  // ---- Merging converted branches ----

  datatype Merged = Merged(entries: map<Text, Entry>, required: seq<Text>, open: bool, metadata: Members)

  predicate CanJoin(acc: Merged, part: Schema) {
    && (part.types.Types? ==> ObjectType in part.types.names)
    && part.enum.NoEnum? && part.items.NoItems? && !part.additional.Extra?
    && forall k :: k in part.Entries() && k in acc.entries ==> acc.entries[k] == part.Entries()[k]
  }

  /** Names of `more` not yet in `names`, appended in order. */
  function AddNames(names: seq<Text>, more: seq<Text>): (r: seq<Text>)
    ensures forall k :: k in r <==> k in names || k in more
    decreases |more|
  {
    if more == [] then names
    else
      var names' := if more[0] in names then names else names + [more[0]];
      assert forall k :: k in more <==> k == more[0] || k in more[1..];
      AddNames(names', more[1..])
  }

  function Join(acc: Merged, part: Schema): Merged {
    Merged(acc.entries + part.Entries(), AddNames(acc.required, part.RequiredNames()),
           acc.open || part.additional.Allowed?, part.metadata + acc.metadata)
  }

  function JoinAll(acc: Merged, parts: seq<Schema>): Option<Merged>
    decreases |parts|
  {
    if parts == [] then Some(acc)
    else if CanJoin(acc, parts[0]) then JoinAll(Join(acc, parts[0]), parts[1..])
    else None
  }

  const EMPTY := Merged(map[], [], false, map[])

  function ToSchema(acc: Merged): Schema {
    Schema(Types([ObjectType]), NoEnum, Properties(acc.entries),
           if acc.required == [] then NoRequired else Required(acc.required),
           if acc.open then Allowed else Denied, NoItems, acc.metadata)
  }

  function Merge(parts: seq<Schema>): Option<Schema> {
    var acc := JoinAll(EMPTY, parts);
    if acc.None? then None else Some(ToSchema(acc.value))
  }
}
