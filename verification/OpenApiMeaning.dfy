/** What the gateway makes of an OpenAPI schema, read straight off the document. */
module OpenApiMeaning {
  import opened Text
  import opened Json
  import opened Schema
  import opened OpenApiSchema
  import Refs

  // ---- The reference meaning ----

  /** `type`, with `nullable` as one more alternative. */
  ghost predicate TypeMeans(m: Members, v: Json) {
    var declared := TypeList(Lookup(m, K_TYPE));
    declared.Some? ==>
      || (exists t :: t in declared.value && !t.UnknownType? && MatchesType(t, v))
      || (Lookup(m, K_NULLABLE) == Bool(true) && v.Null?)
  }

  ghost predicate EnumMeans(m: Members, v: Json) {
    EnumOf(m).Enum? ==> exists c :: c in EnumOf(m).values && DeepEqual(c, v)
  }

  ghost predicate Typed(m: Members) {
    TypeList(Lookup(m, K_TYPE)).Some?
  }

  /** Nodes whose object keywords the validator enforces. */
  ghost predicate ObjectEnforced(m: Members) {
    Typed(m) || DeclaresProperties(m) || RequiredOf(m) != []
  }

  /**
   * What the gateway makes of the node: `nullable` adds null, a node that
   * declares properties and says nothing of others refuses them, an `allOf` is
   * an object with the keys its branches declare, and the keywords of a node
   * without a type are in force only where the validator looks at them.
   */
  ghost predicate Means(document: Json, node: Json, chain: seq<Text>, v: Json)
    decreases Room(chain), node, 5
  {
    if node.Bool? then node.b
    else
      var d := Refs.Deref(document, node, chain);
      d.Some? && d.value.value.Obj? && TargetMeans(document, d.value.value, d.value.chain, v)
  }

  ghost predicate TargetMeans(document: Json, node: Json, chain: seq<Text>, v: Json)
    requires node.Obj?
    decreases Room(chain), node, 4
  {
    if Lookup(node.members, K_ALL_OF).Arr? then
      && v.Obj?
      && AllPartsMean(document, node, chain, v)
      && (SomePartOpen(document, node, chain) || forall k :: k in v.members ==> SomePartDeclares(document, node, chain, k))
    else PlainMeans(document, node, node.members, chain, v, false)
  }

  /** The node with its own undeclared keys let through. */
  ghost predicate OpenMeans(document: Json, node: Json, chain: seq<Text>, v: Json)
    decreases Room(chain), node, 5
  {
    if node.Bool? then node.b
    else
      var d := Refs.Deref(document, node, chain);
      d.Some? && d.value.value.Obj? && TargetOpenMeans(document, d.value.value, d.value.chain, v)
  }

  ghost predicate TargetOpenMeans(document: Json, node: Json, chain: seq<Text>, v: Json)
    requires node.Obj?
    decreases Room(chain), node, 4
  {
    if Lookup(node.members, K_ALL_OF).Arr? then v.Obj? && AllPartsMean(document, node, chain, v)
    else PlainMeans(document, node, node.members, chain, v, true)
  }

  ghost predicate AllPartsMean(document: Json, node: Json, chain: seq<Text>, v: Json)
    requires node.Obj? && Lookup(node.members, K_ALL_OF).Arr?
    decreases Room(chain), node, 3, 1
  {
    forall i :: 0 <= i < PartCount(node) ==> PartMeans(document, node, chain, i, v)
  }

  /** One branch of an `allOf`, or its siblings. */
  ghost predicate PartMeans(document: Json, node: Json, chain: seq<Text>, i: nat, v: Json)
    requires node.Obj? && Lookup(node.members, K_ALL_OF).Arr? && i < PartCount(node)
    decreases Room(chain), node, 3, 0
  {
    var branches := node.members[K_ALL_OF].items;
    if i < |branches| then OpenMeans(document, branches[i], chain, v)
    else PlainMeans(document, node, Siblings(node), chain, v, true)
  }

  ghost predicate PlainMeans(document: Json, node: Json, m: Members, chain: seq<Text>, v: Json, open: bool)
    requires node.Obj? && m.Items <= node.members.Items
    decreases Room(chain), node, 2
  {
    && TypeMeans(m, v)
    && EnumMeans(m, v)
    && (v.Obj? && ObjectEnforced(m) ==>
          && (forall k :: k in RequiredOf(m) ==> k in v.members)
          && (forall k :: k in v.members ==> MemberMeans(document, node, m, chain, v, k, open)))
    && (v.Arr? && Typed(m) ==> forall i :: 0 <= i < |v.items| ==> ItemMeans(document, node, m, chain, v, i))
  }

  /** One element of an array; only the single-schema form of `items` says anything. */
  ghost predicate ItemMeans(document: Json, node: Json, m: Members, chain: seq<Text>, v: Json, i: nat)
    requires node.Obj? && m.Items <= node.members.Items
    requires v.Arr? && i < |v.items|
    decreases Room(chain), node, 1
  {
    var raw := Lookup(m, K_ITEMS);
    if raw.Arr? || raw.Undefined? then true
    else KeywordIsSmaller(node, m, K_ITEMS); Means(document, raw, chain, v.items[i])
  }

  /** One key of an object: a declared property, or what `additionalProperties` says of the rest. */
  ghost predicate MemberMeans(document: Json, node: Json, m: Members, chain: seq<Text>, v: Json, k: Text, open: bool)
    requires node.Obj? && m.Items <= node.members.Items
    requires v.Obj? && k in v.members
    decreases Room(chain), node, 1
  {
    if k in PropertiesOf(m) then
      KeywordIsSmaller(node, m, K_PROPERTIES);
      Means(document, PropertiesOf(m)[k], chain, v.members[k])
    else if open then true
    else
      var raw := Lookup(m, K_ADDITIONAL);
      if raw.Bool? then raw.b
      else if raw.Undefined? then !DeclaresProperties(m)
      else KeywordIsSmaller(node, m, K_ADDITIONAL); Means(document, raw, chain, v.members[k])
  }

  ghost predicate IsPart(node: Json, i: nat)
    requires node.Obj? && Lookup(node.members, K_ALL_OF).Arr?
  {
    i < PartCount(node)
  }

  /** The names a node declares, through references and `allOf`. */
  ghost predicate Declares(document: Json, node: Json, chain: seq<Text>, k: Text)
    decreases Room(chain), node, 5
  {
    !node.Bool? &&
    var d := Refs.Deref(document, node, chain);
    d.Some? && d.value.value.Obj? && TargetDeclares(document, d.value.value, d.value.chain, k)
  }

  ghost predicate TargetDeclares(document: Json, node: Json, chain: seq<Text>, k: Text)
    requires node.Obj?
    decreases Room(chain), node, 4
  {
    if Lookup(node.members, K_ALL_OF).Arr? then SomePartDeclares(document, node, chain, k)
    else k in PropertiesOf(node.members)
  }

  ghost predicate SomePartDeclares(document: Json, node: Json, chain: seq<Text>, k: Text)
    requires node.Obj? && Lookup(node.members, K_ALL_OF).Arr?
    decreases Room(chain), node, 3
  {
    exists i: nat :: IsPart(node, i) && PartDeclares(document, node, chain, i, k)
  }

  ghost predicate PartDeclares(document: Json, node: Json, chain: seq<Text>, i: nat, k: Text)
    requires node.Obj? && Lookup(node.members, K_ALL_OF).Arr? && i < PartCount(node)
    decreases Room(chain), node, 2
  {
    var branches := node.members[K_ALL_OF].items;
    if i < |branches| then Declares(document, branches[i], chain, k) else k in PropertiesOf(Siblings(node))
  }

  /** `additionalProperties: true`, stated somewhere. */
  ghost predicate Opens(document: Json, node: Json, chain: seq<Text>)
    decreases Room(chain), node, 5
  {
    !node.Bool? &&
    var d := Refs.Deref(document, node, chain);
    d.Some? && d.value.value.Obj? && TargetOpens(document, d.value.value, d.value.chain)
  }

  ghost predicate TargetOpens(document: Json, node: Json, chain: seq<Text>)
    requires node.Obj?
    decreases Room(chain), node, 4
  {
    if Lookup(node.members, K_ALL_OF).Arr? then SomePartOpen(document, node, chain)
    else Lookup(node.members, K_ADDITIONAL) == Bool(true)
  }

  ghost predicate SomePartOpen(document: Json, node: Json, chain: seq<Text>)
    requires node.Obj? && Lookup(node.members, K_ALL_OF).Arr?
    decreases Room(chain), node, 3
  {
    exists i: nat :: IsPart(node, i) && PartOpens(document, node, chain, i)
  }

  ghost predicate PartOpens(document: Json, node: Json, chain: seq<Text>, i: nat)
    requires node.Obj? && Lookup(node.members, K_ALL_OF).Arr? && i < PartCount(node)
    decreases Room(chain), node, 2
  {
    var branches := node.members[K_ALL_OF].items;
    if i < |branches| then Opens(document, branches[i], chain)
    else Lookup(Siblings(node), K_ADDITIONAL) == Bool(true)
  }
}
