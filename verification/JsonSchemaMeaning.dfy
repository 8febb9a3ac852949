/**
 * Conversion measured against JSON Schema: the keywords the converter keeps
 * (`type`, `nullable`, `enum`, `properties`, `required`,
 * `additionalProperties`, `items`, `allOf`, `$ref`) as JSON Schema reads them,
 * and any reading whatever of the keywords it drops. Exactly which valid values
 * the gateway refuses, and exactly which invalid ones it lets through.
 */
module JsonSchemaMeaning {
  import opened Text
  import opened Json
  import opened Numbers
  import opened Options
  import opened Schema
  import opened OpenApiSchema
  import opened OpenApiMeaning
  import opened ConversionMeaning
  import AllOf
  import Refs

  // ---- JSON Schema's meaning ----

  /**
   * What the keywords say that conversion drops: whether they hold of a value
   * at their node (`pattern`, `minLength`, `minimum`, `format`, ...), and which
   * members and elements they take out of the reach of `additionalProperties`
   * and `items` (`patternProperties`, `prefixItems`). Every result below is for
   * whatever reading of them.
   */
  datatype Dropped = Dropped(
    hold: (Members, Json) -> bool,
    takeKey: (Members, Text) -> bool,
    takeItem: (Members, nat) -> bool)

  /** For nodes that use none of them. */
  const NONE_DROPPED := Dropped((m: Members, v: Json) => true, (m: Members, k: Text) => false, (m: Members, i: nat) => false)

  /** `enum` compares numbers by value, at every depth. */
  ghost predicate EnumAllows(m: Members, v: Json) {
    EnumOf(m).Enum? ==> exists c :: c in EnumOf(m).values && Unsigned(c) == Unsigned(v)
  }

  /**
   * A value is valid against a node: every keyword applies with or without a
   * `type`, keys are free where `additionalProperties` says nothing, and an
   * `allOf` is each of its branches in full. Keywords beside a `$ref` are
   * ignored, as OpenAPI 3.0 has it.
   */
  ghost predicate Valid(document: Json, node: Json, chain: seq<Text>, v: Json, dropped: Dropped)
    decreases Room(chain), node, 5
  {
    if node.Bool? then node.b
    else
      var d := Refs.Deref(document, node, chain);
      d.Some? && d.value.value.Obj? && TargetValid(document, d.value.value, d.value.chain, v, dropped)
  }

  ghost predicate TargetValid(document: Json, node: Json, chain: seq<Text>, v: Json, dropped: Dropped)
    requires node.Obj?
    decreases Room(chain), node, 4
  {
    if Lookup(node.members, K_ALL_OF).Arr? then AllPartsValid(document, node, chain, v, dropped)
    else PlainValid(document, node, node.members, chain, v, dropped)
  }

  ghost predicate AllPartsValid(document: Json, node: Json, chain: seq<Text>, v: Json, dropped: Dropped)
    requires node.Obj? && Lookup(node.members, K_ALL_OF).Arr?
    decreases Room(chain), node, 3, 1
  {
    forall i :: 0 <= i < PartCount(node) ==> PartValid(document, node, chain, i, v, dropped)
  }

  ghost predicate PartValid(document: Json, node: Json, chain: seq<Text>, i: nat, v: Json, dropped: Dropped)
    requires node.Obj? && Lookup(node.members, K_ALL_OF).Arr? && i < PartCount(node)
    decreases Room(chain), node, 3, 0
  {
    var branches := node.members[K_ALL_OF].items;
    if i < |branches| then Valid(document, branches[i], chain, v, dropped)
    else PlainValid(document, node, Siblings(node), chain, v, dropped)
  }

  ghost predicate PlainValid(document: Json, node: Json, m: Members, chain: seq<Text>, v: Json, dropped: Dropped)
    requires node.Obj? && m.Items <= node.members.Items
    decreases Room(chain), node, 2
  {
    && TypeMeans(m, v)
    && EnumAllows(m, v)
    && dropped.hold(m, v)
    && (v.Obj? ==>
          && (forall k :: k in RequiredOf(m) ==> k in v.members)
          && (forall k :: k in v.members ==> MemberValid(document, node, m, chain, k, v.members[k], dropped)))
    && (v.Arr? ==> forall i :: 0 <= i < |v.items| ==> ItemValid(document, node, m, chain, i, v.items[i], dropped))
  }

  ghost predicate MemberValid(document: Json, node: Json, m: Members, chain: seq<Text>, k: Text, x: Json, dropped: Dropped)
    requires node.Obj? && m.Items <= node.members.Items
    decreases Room(chain), node, 1
  {
    if k in PropertiesOf(m) then
      KeywordIsSmaller(node, m, K_PROPERTIES);
      Valid(document, PropertiesOf(m)[k], chain, x, dropped)
    else dropped.takeKey(m, k) || RestValid(document, node, m, chain, x, dropped)
  }

  /** What `additionalProperties` says of a value. */
  ghost predicate RestValid(document: Json, node: Json, m: Members, chain: seq<Text>, x: Json, dropped: Dropped)
    requires node.Obj? && m.Items <= node.members.Items
    decreases Room(chain), node, 0
  {
    var raw := Lookup(m, K_ADDITIONAL);
    if raw.Bool? then raw.b
    else if raw.Undefined? then true
    else KeywordIsSmaller(node, m, K_ADDITIONAL); Valid(document, raw, chain, x, dropped)
  }

  /** What the single-schema form of `items` says of element `i`. */
  ghost predicate ItemValid(document: Json, node: Json, m: Members, chain: seq<Text>, i: nat, x: Json, dropped: Dropped)
    requires node.Obj? && m.Items <= node.members.Items
    decreases Room(chain), node, 0
  {
    var raw := Lookup(m, K_ITEMS);
    if raw.Arr? || raw.Undefined? || dropped.takeItem(m, i) then true
    else KeywordIsSmaller(node, m, K_ITEMS); Valid(document, raw, chain, x, dropped)
  }

  // ---- What the gateway asks beyond that ----

  /**
   * Everywhere the validator looks, an `allOf` holds an object whose keys some
   * branch declares unless one is open, an object at a node that declares
   * properties and is silent about others has no others, a value listed by
   * `enum` up to the signs of nested zeros is listed with its own, and
   * `additionalProperties` and `items` are met even where a dropped keyword
   * would speak instead. `open` is inside a branch, whose own undeclared keys
   * are left to the merge.
   */
  ghost predicate ExtrasMet(document: Json, node: Json, chain: seq<Text>, v: Json, open: bool, dropped: Dropped)
    decreases Room(chain), node, 5
  {
    !node.Bool? ==>
      var d := Refs.Deref(document, node, chain);
      d.Some? && d.value.value.Obj? ==> TargetExtrasMet(document, d.value.value, d.value.chain, v, open, dropped)
  }

  ghost predicate TargetExtrasMet(document: Json, node: Json, chain: seq<Text>, v: Json, open: bool, dropped: Dropped)
    requires node.Obj?
    decreases Room(chain), node, 4
  {
    if Lookup(node.members, K_ALL_OF).Arr? then
      && v.Obj?
      && AllPartsExtrasMet(document, node, chain, v, dropped)
      && (open || SomePartOpen(document, node, chain)
          || forall k :: k in v.members ==> SomePartDeclares(document, node, chain, k))
    else PlainExtrasMet(document, node, node.members, chain, v, open, dropped)
  }

  ghost predicate AllPartsExtrasMet(document: Json, node: Json, chain: seq<Text>, v: Json, dropped: Dropped)
    requires node.Obj? && Lookup(node.members, K_ALL_OF).Arr?
    decreases Room(chain), node, 3, 1
  {
    forall i :: 0 <= i < PartCount(node) ==> PartExtrasMet(document, node, chain, i, v, dropped)
  }

  ghost predicate PartExtrasMet(document: Json, node: Json, chain: seq<Text>, i: nat, v: Json, dropped: Dropped)
    requires node.Obj? && Lookup(node.members, K_ALL_OF).Arr? && i < PartCount(node)
    decreases Room(chain), node, 3, 0
  {
    var branches := node.members[K_ALL_OF].items;
    if i < |branches| then ExtrasMet(document, branches[i], chain, v, true, dropped)
    else PlainExtrasMet(document, node, Siblings(node), chain, v, true, dropped)
  }

  ghost predicate PlainExtrasMet(document: Json, node: Json, m: Members, chain: seq<Text>, v: Json, open: bool, dropped: Dropped)
    requires node.Obj? && m.Items <= node.members.Items
    decreases Room(chain), node, 2
  {
    && (EnumAllows(m, v) ==> EnumMeans(m, v))
    && (v.Obj? && ObjectEnforced(m) ==>
          forall k :: k in v.members ==> MemberExtrasMet(document, node, m, chain, k, v.members[k], open, dropped))
    && (v.Arr? && Typed(m) ==>
          forall i :: 0 <= i < |v.items| ==> ItemExtrasMet(document, node, m, chain, i, v.items[i], dropped))
  }

  ghost predicate MemberExtrasMet(document: Json, node: Json, m: Members, chain: seq<Text>, k: Text, x: Json, open: bool, dropped: Dropped)
    requires node.Obj? && m.Items <= node.members.Items
    decreases Room(chain), node, 1
  {
    if k in PropertiesOf(m) then
      KeywordIsSmaller(node, m, K_PROPERTIES);
      ExtrasMet(document, PropertiesOf(m)[k], chain, x, false, dropped)
    else if open then true
    else
      var raw := Lookup(m, K_ADDITIONAL);
      if raw.Bool? then dropped.takeKey(m, k) ==> raw.b
      else if raw.Undefined? then !DeclaresProperties(m)
      else
        KeywordIsSmaller(node, m, K_ADDITIONAL);
        if dropped.takeKey(m, k) then Means(document, raw, chain, x) else ExtrasMet(document, raw, chain, x, false, dropped)
  }

  ghost predicate ItemExtrasMet(document: Json, node: Json, m: Members, chain: seq<Text>, i: nat, x: Json, dropped: Dropped)
    requires node.Obj? && m.Items <= node.members.Items
    decreases Room(chain), node, 1
  {
    var raw := Lookup(m, K_ITEMS);
    if raw.Arr? || raw.Undefined? then true
    else
      KeywordIsSmaller(node, m, K_ITEMS);
      if dropped.takeItem(m, i) then Means(document, raw, chain, x) else ExtrasMet(document, raw, chain, x, false, dropped)
  }

  // ---- What the gateway never checks ----

  /**
   * The keywords it skips hold all the same: those that conversion drops,
   * `items` and a lone `additionalProperties` on a node without a type, and the
   * `additionalProperties` of an `allOf` branch.
   */
  ghost predicate SkippedHold(document: Json, node: Json, chain: seq<Text>, v: Json, open: bool, dropped: Dropped)
    decreases Room(chain), node, 5
  {
    !node.Bool? ==>
      var d := Refs.Deref(document, node, chain);
      d.Some? && d.value.value.Obj? ==> TargetSkippedHold(document, d.value.value, d.value.chain, v, open, dropped)
  }

  ghost predicate TargetSkippedHold(document: Json, node: Json, chain: seq<Text>, v: Json, open: bool, dropped: Dropped)
    requires node.Obj?
    decreases Room(chain), node, 4
  {
    if Lookup(node.members, K_ALL_OF).Arr? then AllPartsSkippedHold(document, node, chain, v, dropped)
    else PlainSkippedHold(document, node, node.members, chain, v, open, dropped)
  }

  ghost predicate AllPartsSkippedHold(document: Json, node: Json, chain: seq<Text>, v: Json, dropped: Dropped)
    requires node.Obj? && Lookup(node.members, K_ALL_OF).Arr?
    decreases Room(chain), node, 3, 1
  {
    forall i :: 0 <= i < PartCount(node) ==> PartSkippedHold(document, node, chain, i, v, dropped)
  }

  ghost predicate PartSkippedHold(document: Json, node: Json, chain: seq<Text>, i: nat, v: Json, dropped: Dropped)
    requires node.Obj? && Lookup(node.members, K_ALL_OF).Arr? && i < PartCount(node)
    decreases Room(chain), node, 3, 0
  {
    var branches := node.members[K_ALL_OF].items;
    if i < |branches| then SkippedHold(document, branches[i], chain, v, true, dropped)
    else PlainSkippedHold(document, node, Siblings(node), chain, v, true, dropped)
  }

  ghost predicate PlainSkippedHold(document: Json, node: Json, m: Members, chain: seq<Text>, v: Json, open: bool, dropped: Dropped)
    requires node.Obj? && m.Items <= node.members.Items
    decreases Room(chain), node, 2
  {
    && dropped.hold(m, v)
    && (v.Obj? ==> forall k :: k in v.members ==> MemberSkippedHolds(document, node, m, chain, k, v.members[k], open, dropped))
    && (v.Arr? ==> forall i :: 0 <= i < |v.items| ==> ItemSkippedHolds(document, node, m, chain, i, v.items[i], dropped))
  }

  ghost predicate MemberSkippedHolds(document: Json, node: Json, m: Members, chain: seq<Text>, k: Text, x: Json, open: bool, dropped: Dropped)
    requires node.Obj? && m.Items <= node.members.Items
    decreases Room(chain), node, 1
  {
    if k in PropertiesOf(m) then
      KeywordIsSmaller(node, m, K_PROPERTIES);
      SkippedHold(document, PropertiesOf(m)[k], chain, x, false, dropped)
    else if dropped.takeKey(m, k) then true
    else if open || !ObjectEnforced(m) then RestValid(document, node, m, chain, x, dropped)
    else
      var raw := Lookup(m, K_ADDITIONAL);
      if raw.Bool? || raw.Undefined? then true
      else KeywordIsSmaller(node, m, K_ADDITIONAL); SkippedHold(document, raw, chain, x, false, dropped)
  }

  ghost predicate ItemSkippedHolds(document: Json, node: Json, m: Members, chain: seq<Text>, i: nat, x: Json, dropped: Dropped)
    requires node.Obj? && m.Items <= node.members.Items
    decreases Room(chain), node, 1
  {
    var raw := Lookup(m, K_ITEMS);
    if raw.Arr? || raw.Undefined? || dropped.takeItem(m, i) then true
    else if !Typed(m) then ItemValid(document, node, m, chain, i, x, dropped)
    else KeywordIsSmaller(node, m, K_ITEMS); SkippedHold(document, raw, chain, x, false, dropped)
  }

  // ---- The two meanings side by side ----

  /**
   * The gateway's meaning with the skipped keywords is JSON Schema's with the
   * declared keys; each side already gives its neighbour.
   */
  ghost predicate Square(gateway: bool, skipped: bool, valid: bool, declared: bool) {
    && (gateway && skipped <==> valid && declared)
    && (gateway ==> declared)
    && (valid ==> skipped)
  }

  ghost predicate GatewayMeans(document: Json, node: Json, chain: seq<Text>, v: Json, open: bool) {
    if open then OpenMeans(document, node, chain, v) else Means(document, node, chain, v)
  }

  ghost predicate TargetGatewayMeans(document: Json, node: Json, chain: seq<Text>, v: Json, open: bool)
    requires node.Obj?
  {
    if open then TargetOpenMeans(document, node, chain, v) else TargetMeans(document, node, chain, v)
  }

  lemma {:induction false} NodesSquare(document: Json, node: Json, chain: seq<Text>, v: Json, open: bool, dropped: Dropped)
    ensures Square(GatewayMeans(document, node, chain, v, open), SkippedHold(document, node, chain, v, open, dropped),
                   Valid(document, node, chain, v, dropped), ExtrasMet(document, node, chain, v, open, dropped))
    decreases Room(chain), node, 5
  {
    hide Means, OpenMeans, Valid, ExtrasMet, SkippedHold, TargetMeans, TargetOpenMeans, TargetValid, TargetExtrasMet,
      TargetSkippedHold, Refs.Deref;
    var d := Refs.Deref(document, node, chain);
    if !node.Bool? && d.Some? && d.value.value.Obj? {
      TargetsSquare(document, d.value.value, d.value.chain, v, open, dropped);
      NodeIsItsTarget(document, node, chain, v);
      NodeReadsItsTarget(document, node, chain, v, open, dropped);
    } else {
      NoTargetSquare(document, node, chain, v, open, dropped);
    }
  }

  lemma NodeReadsItsTarget(document: Json, node: Json, chain: seq<Text>, v: Json, open: bool, dropped: Dropped)
    requires !node.Bool?
    requires var d := Refs.Deref(document, node, chain); d.Some? && d.value.value.Obj?
    ensures var d := Refs.Deref(document, node, chain).value;
            && (Valid(document, node, chain, v, dropped) <==> TargetValid(document, d.value, d.chain, v, dropped))
            && (ExtrasMet(document, node, chain, v, open, dropped) <==> TargetExtrasMet(document, d.value, d.chain, v, open, dropped))
            && (SkippedHold(document, node, chain, v, open, dropped) <==> TargetSkippedHold(document, d.value, d.chain, v, open, dropped))
  {
    hide TargetValid, TargetExtrasMet, TargetSkippedHold, Refs.Deref;
  }

  /** A boolean schema, and one whose reference is broken. */
  lemma NoTargetSquare(document: Json, node: Json, chain: seq<Text>, v: Json, open: bool, dropped: Dropped)
    requires var d := Refs.Deref(document, node, chain); node.Bool? || d.None? || !d.value.value.Obj?
    ensures Square(GatewayMeans(document, node, chain, v, open), SkippedHold(document, node, chain, v, open, dropped),
                   Valid(document, node, chain, v, dropped), ExtrasMet(document, node, chain, v, open, dropped))
  {
    hide TargetMeans, TargetOpenMeans, TargetValid, TargetExtrasMet, TargetSkippedHold, Refs.Deref;
  }

  lemma {:induction false} TargetsSquare(document: Json, node: Json, chain: seq<Text>, v: Json, open: bool, dropped: Dropped)
    requires node.Obj?
    ensures Square(TargetGatewayMeans(document, node, chain, v, open), TargetSkippedHold(document, node, chain, v, open, dropped),
                   TargetValid(document, node, chain, v, dropped), TargetExtrasMet(document, node, chain, v, open, dropped))
    decreases Room(chain), node, 4
  {
    hide PlainMeans, PlainValid, PlainExtrasMet, PlainSkippedHold, AllPartsMean, AllPartsValid, AllPartsExtrasMet,
      AllPartsSkippedHold, SomePartOpen, SomePartDeclares;
    if Lookup(node.members, K_ALL_OF).Arr? {
      PartsSquare(document, node, chain, v, dropped);
    } else {
      PlainSquare(document, node, node.members, chain, v, open, dropped);
    }
  }

  lemma {:induction false} PartsSquare(document: Json, node: Json, chain: seq<Text>, v: Json, dropped: Dropped)
    requires node.Obj? && Lookup(node.members, K_ALL_OF).Arr?
    ensures Square(AllPartsMean(document, node, chain, v), AllPartsSkippedHold(document, node, chain, v, dropped),
                   AllPartsValid(document, node, chain, v, dropped), AllPartsExtrasMet(document, node, chain, v, dropped))
    decreases Room(chain), node, 3, 1
  {
    hide PartMeans, PartValid, PartExtrasMet, PartSkippedHold;
    forall i | 0 <= i < PartCount(node)
      ensures Square(PartMeans(document, node, chain, i, v), PartSkippedHold(document, node, chain, i, v, dropped),
                     PartValid(document, node, chain, i, v, dropped), PartExtrasMet(document, node, chain, i, v, dropped))
    {
      PartSquare(document, node, chain, i, v, dropped);
    }
  }

  lemma {:induction false} PartSquare(document: Json, node: Json, chain: seq<Text>, i: nat, v: Json, dropped: Dropped)
    requires node.Obj? && Lookup(node.members, K_ALL_OF).Arr? && i < PartCount(node)
    ensures Square(PartMeans(document, node, chain, i, v), PartSkippedHold(document, node, chain, i, v, dropped),
                   PartValid(document, node, chain, i, v, dropped), PartExtrasMet(document, node, chain, i, v, dropped))
    decreases Room(chain), node, 3, 0
  {
    hide PlainMeans, PlainValid, PlainExtrasMet, PlainSkippedHold, OpenMeans, Means, Valid, ExtrasMet, SkippedHold;
    var branches := node.members[K_ALL_OF].items;
    if i < |branches| {
      NodesSquare(document, branches[i], chain, v, true, dropped);
    } else {
      PlainSquare(document, node, Siblings(node), chain, v, true, dropped);
    }
  }

  /** The gateway's comparison is the finer one. */
  lemma ListedIsAllowed(m: Members, v: Json)
    ensures EnumMeans(m, v) ==> EnumAllows(m, v)
  {
  }

  lemma {:induction false} PlainSquare(document: Json, node: Json, m: Members, chain: seq<Text>, v: Json, open: bool, dropped: Dropped)
    requires node.Obj? && m.Items <= node.members.Items
    ensures Square(PlainMeans(document, node, m, chain, v, open), PlainSkippedHold(document, node, m, chain, v, open, dropped),
                   PlainValid(document, node, m, chain, v, dropped), PlainExtrasMet(document, node, m, chain, v, open, dropped))
    decreases Room(chain), node, 2
  {
    hide MemberMeans, MemberValid, MemberExtrasMet, MemberSkippedHolds, ItemMeans, ItemValid, ItemExtrasMet, ItemSkippedHolds,
      TypeMeans, EnumMeans, EnumAllows, RequiredOf, TypeList;
    ListedIsAllowed(m, v);
    if v.Obj? {
      forall k | k in v.members
        ensures ObjectEnforced(m) ==>
                  Square(MemberMeans(document, node, m, chain, v, k, open),
                         MemberSkippedHolds(document, node, m, chain, k, v.members[k], open, dropped),
                         MemberValid(document, node, m, chain, k, v.members[k], dropped),
                         MemberExtrasMet(document, node, m, chain, k, v.members[k], open, dropped))
        ensures !ObjectEnforced(m) ==>
                  (MemberSkippedHolds(document, node, m, chain, k, v.members[k], open, dropped) <==>
                   MemberValid(document, node, m, chain, k, v.members[k], dropped))
      {
        MemberSquare(document, node, m, chain, v, k, open, dropped);
      }
    } else if v.Arr? {
      forall i | 0 <= i < |v.items|
        ensures Typed(m) ==>
                  Square(ItemMeans(document, node, m, chain, v, i), ItemSkippedHolds(document, node, m, chain, i, v.items[i], dropped),
                         ItemValid(document, node, m, chain, i, v.items[i], dropped), ItemExtrasMet(document, node, m, chain, i, v.items[i], dropped))
        ensures !Typed(m) ==>
                  (ItemSkippedHolds(document, node, m, chain, i, v.items[i], dropped) <==> ItemValid(document, node, m, chain, i, v.items[i], dropped))
      {
        ItemSquare(document, node, m, chain, v, i, dropped);
      }
    }
  }

  lemma {:induction false} MemberSquare(
      document: Json, node: Json, m: Members, chain: seq<Text>, v: Json, k: Text, open: bool, dropped: Dropped)
    requires node.Obj? && m.Items <= node.members.Items
    requires v.Obj? && k in v.members
    ensures ObjectEnforced(m) ==>
              Square(MemberMeans(document, node, m, chain, v, k, open),
                     MemberSkippedHolds(document, node, m, chain, k, v.members[k], open, dropped),
                     MemberValid(document, node, m, chain, k, v.members[k], dropped),
                     MemberExtrasMet(document, node, m, chain, k, v.members[k], open, dropped))
    ensures !ObjectEnforced(m) ==>
              (MemberSkippedHolds(document, node, m, chain, k, v.members[k], open, dropped) <==>
               MemberValid(document, node, m, chain, k, v.members[k], dropped))
    decreases Room(chain), node, 1
  {
    hide Means, OpenMeans, Valid, ExtrasMet, SkippedHold, TypeList, RequiredOf;
    if k in PropertiesOf(m) {
      KeywordIsSmaller(node, m, K_PROPERTIES);
      NodesSquare(document, PropertiesOf(m)[k], chain, v.members[k], false, dropped);
    } else {
      var raw := Lookup(m, K_ADDITIONAL);
      if !raw.Bool? && !raw.Undefined? {
        KeywordIsSmaller(node, m, K_ADDITIONAL);
        NodesSquare(document, raw, chain, v.members[k], false, dropped);
      }
    }
  }

  lemma {:induction false} ItemSquare(document: Json, node: Json, m: Members, chain: seq<Text>, v: Json, i: nat, dropped: Dropped)
    requires node.Obj? && m.Items <= node.members.Items
    requires v.Arr? && i < |v.items|
    ensures Typed(m) ==>
              Square(ItemMeans(document, node, m, chain, v, i), ItemSkippedHolds(document, node, m, chain, i, v.items[i], dropped),
                     ItemValid(document, node, m, chain, i, v.items[i], dropped), ItemExtrasMet(document, node, m, chain, i, v.items[i], dropped))
    ensures !Typed(m) ==>
              (ItemSkippedHolds(document, node, m, chain, i, v.items[i], dropped) <==> ItemValid(document, node, m, chain, i, v.items[i], dropped))
    decreases Room(chain), node, 1
  {
    hide Means, OpenMeans, Valid, ExtrasMet, SkippedHold, TypeList, RequiredOf;
    var raw := Lookup(m, K_ITEMS);
    if !raw.Arr? && !raw.Undefined? {
      KeywordIsSmaller(node, m, K_ITEMS);
      NodesSquare(document, raw, chain, v.items[i], false, dropped);
    }
  }

  /**
   * For every document, node, value and reading of the dropped keywords: the
   * validator accepts and what it skips holds exactly when the value is valid
   * and meets the gateway's extras.
   */
  lemma AcceptanceAgainstJsonSchema(document: Json, node: Json, chain: seq<Text>, v: Json, dropped: Dropped)
    requires Convert(document, node, chain).Some?
    ensures Accepts(Convert(document, node, chain).value, v) && SkippedHold(document, node, chain, v, false, dropped) <==>
            Valid(document, node, chain, v, dropped) && ExtrasMet(document, node, chain, v, false, dropped)
  {
    NodesSquare(document, node, chain, v, false, dropped);
    ConversionPreservesMeaning(document, node, chain, v);
  }

  /**
   * A valid value is refused exactly where it misses one of the gateway's
   * extras: for an undeclared key, for not being an object under `allOf`, for
   * the sign of a nested zero under `enum`, or for what `additionalProperties`
   * or `items` say of a part that a dropped keyword takes from them.
   */
  lemma ValidIsRefusedExactly(document: Json, node: Json, chain: seq<Text>, v: Json, dropped: Dropped)
    requires Convert(document, node, chain).Some? && Valid(document, node, chain, v, dropped)
    ensures !Accepts(Convert(document, node, chain).value, v) <==> !ExtrasMet(document, node, chain, v, false, dropped)
  {
    NodesSquare(document, node, chain, v, false, dropped);
    ConversionPreservesMeaning(document, node, chain, v);
  }

  /** An accepted value is invalid exactly where a dropped or skipped keyword does not hold of it. */
  lemma InvalidIsAcceptedExactly(document: Json, node: Json, chain: seq<Text>, v: Json, dropped: Dropped)
    requires Convert(document, node, chain).Some? && Accepts(Convert(document, node, chain).value, v)
    ensures !Valid(document, node, chain, v, dropped) <==> !SkippedHold(document, node, chain, v, false, dropped)
  {
    NodesSquare(document, node, chain, v, false, dropped);
    ConversionPreservesMeaning(document, node, chain, v);
  }

  // ---- Node by node ----

  /** An object node that is neither a reference nor an `allOf`. */
  ghost predicate PlainNode(node: Json) {
    node.Obj? && !Refs.IsRef(node) && !Lookup(node.members, K_ALL_OF).Arr?
  }

  lemma PlainNodeReads(document: Json, node: Json, chain: seq<Text>, v: Json, dropped: Dropped)
    requires PlainNode(node)
    ensures Means(document, node, chain, v) <==> PlainMeans(document, node, node.members, chain, v, false)
    ensures Valid(document, node, chain, v, dropped) <==> PlainValid(document, node, node.members, chain, v, dropped)
  {
  }

  /** The converted node decides the value as JSON Schema does. */
  ghost predicate Exact(document: Json, node: Json, chain: seq<Text>, v: Json, dropped: Dropped)
    requires Convert(document, node, chain).Some?
  {
    Accepts(Convert(document, node, chain).value, v) <==> Valid(document, node, chain, v, dropped)
  }

  ghost predicate ArraysExact(document: Json, node: Json, chain: seq<Text>, dropped: Dropped)
    requires Convert(document, node, chain).Some?
  {
    forall ws: seq<Json> :: Exact(document, node, chain, Arr(ws), dropped)
  }

  ghost predicate ObjectsExact(document: Json, node: Json, chain: seq<Text>, dropped: Dropped)
    requires Convert(document, node, chain).Some?
  {
    forall ms: Members :: Exact(document, node, chain, Obj(ms), dropped)
  }

  ghost predicate RefusesNothing(document: Json, node: Json, chain: seq<Text>, dropped: Dropped) {
    forall w: Json :: Valid(document, node, chain, w, dropped)
  }

  /** A single-schema `items` on a node without a type. */
  ghost predicate LooseItems(node: Json) {
    PlainNode(node) && !Typed(node.members)
    && var raw := Lookup(node.members, K_ITEMS); !raw.Arr? && !raw.Undefined?
  }

  /** What the gateway leaves unchecked of an array there. */
  ghost predicate ElementsHold(document: Json, node: Json, chain: seq<Text>, ws: seq<Json>, dropped: Dropped)
    requires LooseItems(node)
  {
    && dropped.hold(node.members, Arr(ws))
    && forall i :: 0 <= i < |ws| ==> dropped.takeItem(node.members, i) || Valid(document, node.members[K_ITEMS], chain, ws[i], dropped)
  }

  /** For every array: the item schema counts for validity and not for acceptance. */
  lemma LooseItemsAreSkipped(document: Json, node: Json, chain: seq<Text>, ws: seq<Json>, dropped: Dropped)
    requires LooseItems(node) && Convert(document, node, chain).Some?
    ensures Accepts(Convert(document, node, chain).value, Arr(ws)) <==> EnumMeans(node.members, Arr(ws))
    ensures Valid(document, node, chain, Arr(ws), dropped) <==>
            EnumAllows(node.members, Arr(ws)) && ElementsHold(document, node, chain, ws, dropped)
  {
    hide Accepts, Convert, TypeList, EnumMeans, EnumAllows, Means, Valid;
    var v := Arr(ws);
    ConversionPreservesMeaning(document, node, chain, v);
    PlainNodeReads(document, node, chain, v, dropped);
    forall i | 0 <= i < |ws|
      ensures ItemValid(document, node, node.members, chain, i, v.items[i], dropped) <==>
              dropped.takeItem(node.members, i) || Valid(document, node.members[K_ITEMS], chain, ws[i], dropped)
    {
    }
  }

  /** Nothing unchecked refuses an array. */
  ghost predicate ElementsFree(document: Json, node: Json, chain: seq<Text>, dropped: Dropped)
    requires LooseItems(node)
  {
    && (forall ws: seq<Json> :: dropped.hold(node.members, Arr(ws)))
    && (RefusesNothing(document, node.members[K_ITEMS], chain, dropped) || forall i: nat :: dropped.takeItem(node.members, i))
  }

  /** The arrays `enum` lists are those it allows and nothing unchecked refuses. */
  ghost predicate ListedArraysHold(document: Json, node: Json, chain: seq<Text>, dropped: Dropped)
    requires LooseItems(node) && EnumOf(node.members).Enum?
  {
    forall ws: seq<Json> ::
      Arr(ws) in EnumOf(node.members).values <==>
      EnumAllows(node.members, Arr(ws)) && ElementsHold(document, node, chain, ws, dropped)
  }

  /**
   * Such a node decides arrays as JSON Schema does exactly when, without an
   * `enum`, nothing unchecked refuses any, and with one, it lists exactly the
   * arrays that it allows and nothing unchecked refuses.
   */
  lemma LooseItemsExactly(document: Json, node: Json, chain: seq<Text>, dropped: Dropped)
    requires LooseItems(node) && Convert(document, node, chain).Some?
    ensures EnumOf(node.members).NoEnum? ==>
              (ArraysExact(document, node, chain, dropped) <==> ElementsFree(document, node, chain, dropped))
    ensures EnumOf(node.members).Enum? ==>
              (ArraysExact(document, node, chain, dropped) <==> ListedArraysHold(document, node, chain, dropped))
  {
    hide Accepts, Convert, Valid, EnumOf, ElementsFree, ElementsHold, ListedArraysHold, EnumAllows;
    forall ws: seq<Json>
      ensures Exact(document, node, chain, Arr(ws), dropped) <==>
              (EnumMeans(node.members, Arr(ws)) <==>
               EnumAllows(node.members, Arr(ws)) && ElementsHold(document, node, chain, ws, dropped))
    {
      LooseItemsAreSkipped(document, node, chain, ws, dropped);
    }
    if EnumOf(node.members).NoEnum? {
      FreeElements(document, node, chain, dropped);
      forall ws: seq<Json> ensures EnumMeans(node.members, Arr(ws)) && EnumAllows(node.members, Arr(ws)) {
        NothingListed(node.members, Arr(ws));
      }
    } else {
      forall ws: seq<Json> ensures EnumMeans(node.members, Arr(ws)) <==> Arr(ws) in EnumOf(node.members).values {
        ListedExactly(node.members, Arr(ws));
      }
      assert ListedArraysHold(document, node, chain, dropped) <==> ArraysExact(document, node, chain, dropped) by {
        ListedArraysMean(document, node, chain, dropped);
      }
    }
  }

  lemma NothingListed(m: Members, v: Json)
    requires EnumOf(m).NoEnum?
    ensures EnumMeans(m, v) && EnumAllows(m, v)
  {
  }

  /** Arrays and objects are listed as they are. */
  lemma ListedExactly(m: Members, v: Json)
    requires EnumOf(m).Enum? && !v.Num?
    ensures EnumMeans(m, v) <==> v in EnumOf(m).values
  {
    assert DeepEqual(v, v);
  }

  lemma ListedArraysMean(document: Json, node: Json, chain: seq<Text>, dropped: Dropped)
    requires LooseItems(node) && EnumOf(node.members).Enum?
    ensures ListedArraysHold(document, node, chain, dropped) <==>
            forall ws: seq<Json> ::
              Arr(ws) in EnumOf(node.members).values <==>
              EnumAllows(node.members, Arr(ws)) && ElementsHold(document, node, chain, ws, dropped)
  {
    hide ElementsHold, EnumAllows;
  }

  /** Nothing unchecked refuses an array exactly when each array's elements hold. */
  lemma FreeElements(document: Json, node: Json, chain: seq<Text>, dropped: Dropped)
    requires LooseItems(node)
    ensures ElementsFree(document, node, chain, dropped) <==>
            forall ws: seq<Json> :: ElementsHold(document, node, chain, ws, dropped)
  {
    hide Valid;
    if forall ws: seq<Json> :: ElementsHold(document, node, chain, ws, dropped) {
      forall ws: seq<Json> ensures dropped.hold(node.members, Arr(ws)) {
        assert ElementsHold(document, node, chain, ws, dropped);
      }
      if i: nat :| !dropped.takeItem(node.members, i) {
        forall w: Json ensures Valid(document, node.members[K_ITEMS], chain, w, dropped) {
          var ws := seq(i + 1, _ => w);
          assert ElementsHold(document, node, chain, ws, dropped);
          assert ws[i] == w;
        }
      }
    }
  }

  /** `additionalProperties` alone: no type, properties or required names. */
  ghost predicate LoneAdditional(node: Json) {
    PlainNode(node) && !ObjectEnforced(node.members)
  }

  /** What the gateway leaves unchecked of an object there. */
  ghost predicate MembersHold(document: Json, node: Json, chain: seq<Text>, ms: Members, dropped: Dropped)
    requires node.Obj?
  {
    && dropped.hold(node.members, Obj(ms))
    && forall k :: k in ms ==> dropped.takeKey(node.members, k) || RestValid(document, node, node.members, chain, ms[k], dropped)
  }

  /** For every object: what it says of other keys counts for validity and not for acceptance. */
  lemma LoneAdditionalIsSkipped(document: Json, node: Json, chain: seq<Text>, ms: Members, dropped: Dropped)
    requires LoneAdditional(node) && Convert(document, node, chain).Some?
    ensures Accepts(Convert(document, node, chain).value, Obj(ms)) <==> EnumMeans(node.members, Obj(ms))
    ensures Valid(document, node, chain, Obj(ms), dropped) <==>
            EnumAllows(node.members, Obj(ms)) && MembersHold(document, node, chain, ms, dropped)
  {
    hide Accepts, Convert, TypeList, EnumMeans, EnumAllows, Means, Valid, RestValid;
    var v := Obj(ms);
    ConversionPreservesMeaning(document, node, chain, v);
    PlainNodeReads(document, node, chain, v, dropped);
    forall k | k in ms
      ensures MemberValid(document, node, node.members, chain, k, v.members[k], dropped) <==>
              dropped.takeKey(node.members, k) || RestValid(document, node, node.members, chain, ms[k], dropped)
    {
    }
  }

  /** Nothing unchecked refuses an object. */
  ghost predicate MembersFree(document: Json, node: Json, chain: seq<Text>, dropped: Dropped)
    requires node.Obj?
  {
    && (forall ms: Members :: dropped.hold(node.members, Obj(ms)))
    && (|| (forall w: Json :: RestValid(document, node, node.members, chain, w, dropped))
        || forall k: Text :: dropped.takeKey(node.members, k))
  }

  /** The objects `enum` lists are those it allows and nothing unchecked refuses. */
  ghost predicate ListedObjectsHold(document: Json, node: Json, chain: seq<Text>, dropped: Dropped)
    requires node.Obj? && EnumOf(node.members).Enum?
  {
    forall ms: Members ::
      Obj(ms) in EnumOf(node.members).values <==>
      EnumAllows(node.members, Obj(ms)) && MembersHold(document, node, chain, ms, dropped)
  }

  /**
   * Such a node decides objects as JSON Schema does exactly when, without an
   * `enum`, nothing unchecked refuses any, and with one, it lists exactly the
   * objects that it allows and nothing unchecked refuses.
   */
  lemma LoneAdditionalExactly(document: Json, node: Json, chain: seq<Text>, dropped: Dropped)
    requires LoneAdditional(node) && Convert(document, node, chain).Some?
    ensures EnumOf(node.members).NoEnum? ==>
              (ObjectsExact(document, node, chain, dropped) <==> MembersFree(document, node, chain, dropped))
    ensures EnumOf(node.members).Enum? ==>
              (ObjectsExact(document, node, chain, dropped) <==> ListedObjectsHold(document, node, chain, dropped))
  {
    hide Accepts, Convert, Valid, EnumOf, MembersFree, MembersHold, ListedObjectsHold, EnumAllows;
    forall ms: Members
      ensures Exact(document, node, chain, Obj(ms), dropped) <==>
              (EnumMeans(node.members, Obj(ms)) <==>
               EnumAllows(node.members, Obj(ms)) && MembersHold(document, node, chain, ms, dropped))
    {
      LoneAdditionalIsSkipped(document, node, chain, ms, dropped);
    }
    if EnumOf(node.members).NoEnum? {
      FreeMembers(document, node, chain, dropped);
      forall ms: Members ensures EnumMeans(node.members, Obj(ms)) && EnumAllows(node.members, Obj(ms)) {
        NothingListed(node.members, Obj(ms));
      }
    } else {
      forall ms: Members ensures EnumMeans(node.members, Obj(ms)) <==> Obj(ms) in EnumOf(node.members).values {
        ListedExactly(node.members, Obj(ms));
      }
      assert ListedObjectsHold(document, node, chain, dropped) <==> ObjectsExact(document, node, chain, dropped) by {
        ListedObjectsMean(document, node, chain, dropped);
      }
    }
  }

  lemma ListedObjectsMean(document: Json, node: Json, chain: seq<Text>, dropped: Dropped)
    requires node.Obj? && EnumOf(node.members).Enum?
    ensures ListedObjectsHold(document, node, chain, dropped) <==>
            forall ms: Members ::
              Obj(ms) in EnumOf(node.members).values <==>
              EnumAllows(node.members, Obj(ms)) && MembersHold(document, node, chain, ms, dropped)
  {
    hide MembersHold, EnumAllows;
  }

  lemma FreeMembers(document: Json, node: Json, chain: seq<Text>, dropped: Dropped)
    requires node.Obj?
    ensures MembersFree(document, node, chain, dropped) <==>
            forall ms: Members :: MembersHold(document, node, chain, ms, dropped)
  {
    hide RestValid;
    if forall ms: Members :: MembersHold(document, node, chain, ms, dropped) {
      forall ms: Members ensures dropped.hold(node.members, Obj(ms)) {
        assert MembersHold(document, node, chain, ms, dropped);
      }
      if k: Text :| !dropped.takeKey(node.members, k) {
        forall w: Json ensures RestValid(document, node, node.members, chain, w, dropped) {
          var ms: Members := map[k := w];
          assert MembersHold(document, node, chain, ms, dropped);
          assert k in ms && ms[k] == w;
        }
      }
    }
  }

  /**
   * A branch of an `allOf` that refuses other keys: no object with such a key
   * is valid, though the merge accepts it where another branch declares the key.
   */
  lemma ClosedBranchIsWidened(document: Json, node: Json, chain: seq<Text>, i: nat, v: Json, k: Text, dropped: Dropped)
    requires node.Obj? && !Refs.IsRef(node) && Lookup(node.members, K_ALL_OF).Arr? && i < |node.members[K_ALL_OF].items|
    requires var branch := node.members[K_ALL_OF].items[i];
             PlainNode(branch) && Lookup(branch.members, K_ADDITIONAL) == Bool(false) && k !in PropertiesOf(branch.members)
    requires v.Obj? && k in v.members && !dropped.takeKey(node.members[K_ALL_OF].items[i].members, k)
    ensures !Valid(document, node, chain, v, dropped)
  {
    hide PlainValid;
    var branch := node.members[K_ALL_OF].items[i];
    PlainNodeReads(document, branch, chain, v, dropped);
    assert !MemberValid(document, branch, branch.members, chain, k, v.members[k], dropped);
    assert !PlainValid(document, branch, branch.members, chain, v, dropped) by { MemberRefuses(document, branch, chain, v, k, dropped); }
    assert !PartValid(document, node, chain, i, v, dropped);
    AllOfReads(document, node, chain, v, dropped);
  }

  lemma AllOfReads(document: Json, node: Json, chain: seq<Text>, v: Json, dropped: Dropped)
    requires node.Obj? && !Refs.IsRef(node) && Lookup(node.members, K_ALL_OF).Arr?
    ensures Valid(document, node, chain, v, dropped) <==> AllPartsValid(document, node, chain, v, dropped)
  {
    hide AllPartsValid;
  }

  lemma MemberRefuses(document: Json, node: Json, chain: seq<Text>, v: Json, k: Text, dropped: Dropped)
    requires node.Obj? && v.Obj? && k in v.members
    requires !MemberValid(document, node, node.members, chain, k, v.members[k], dropped)
    ensures !PlainValid(document, node, node.members, chain, v, dropped)
  {
    hide MemberValid;
  }

  // ---- One schema for each difference ----

  const K_PATTERN := U("pattern")

  lemma KeysDiffer()
    ensures |K_TYPE| == 4 && |K_ITEMS| == 5 && |Refs.REF| == 4 && |K_ALL_OF| == 5 && |K_ENUM| == 4
    ensures |K_PROPERTIES| == 10 && |K_REQUIRED| == 8 && |K_ADDITIONAL| == 20 && |K_NULLABLE| == 8
    ensures K_TYPE[0] == 't' as int && K_ENUM[0] == 'e' as int && Refs.REF[0] == '$' as int
    ensures K_ITEMS[0] == 'i' as int && K_ALL_OF[0] == 'a' as int
    ensures |U("oneOf")| == 5 && |U("anyOf")| == 5 && |U("not")| == 3 && |U("discriminator")| == 13
    ensures U("oneOf")[0] == 'o' as int && U("anyOf")[0] == 'a' as int && U("anyOf")[1] == 'n' as int && K_ALL_OF[1] == 'l' as int
    ensures |PROTO| == 9
  {
  }

  /** Declared properties of any shape, and no word about others or `false`. */
  function PropertyNode(name: Option<Text>, closed: bool): Json {
    var m: Members := map[K_PROPERTIES := Obj(if name.None? then map[] else map[name.value := Bool(true)])];
    Obj(if closed then m[K_ADDITIONAL := Bool(false)] else m)
  }

  lemma PropertyNodeConverts(document: Json, chain: seq<Text>, name: Option<Text>, closed: bool)
    requires name.Some? ==> name.value != PROTO
    ensures var s := Convert(document, PropertyNode(name, closed), chain);
            && s.Some? && s.value.types == NoType && s.value.enum == NoEnum && s.value.required == NoRequired
            && s.value.additional == Denied && s.value.items == NoItems
            && s.value.properties == Properties(if name.None? then map[] else map[name.value := Node(ANYTHING)])
  {
    hide Convert;
    KeysDiffer();
    var node := PropertyNode(name, closed);
    var m := node.members;
    assert !Refs.IsRef(node) && !Lookup(m, K_ALL_OF).Arr? && !Refused(m);
    assert Lookup(m, K_TYPE) == Undefined && Lookup(m, K_ENUM) == Undefined && Lookup(m, K_REQUIRED) == Undefined;
    assert Lookup(m, K_ITEMS) == Undefined && ConvertItems(document, node, m, chain) == Some(NoItems);
    assert Lookup(m, K_ADDITIONAL) == (if closed then Bool(false) else Undefined) && DeclaresProperties(m);
    assert ConvertAdditional(document, node, m, chain) == Some(Denied);
    assert ResolveTypes(m) == Some(NoType) && RequiredOf(m) == [] && EnumOf(m) == NoEnum;
    assert ConvertProperties(document, node, m, chain) ==
           Some(Properties(if name.None? then map[] else map[name.value := Node(ANYTHING)])) by {
      TrueConverts(document, chain);
      PropertyEntries(document, name, closed, chain);
    }
    assert Convert(document, node, chain) == ConvertPlain(document, node, m, chain) by { ConvertsAsPlain(document, node, chain); }
  }

  lemma TrueConverts(document: Json, chain: seq<Text>)
    ensures Convert(document, Bool(true), chain) == Some(ANYTHING)
  {
  }

  lemma PropertyEntries(document: Json, name: Option<Text>, closed: bool, chain: seq<Text>)
    requires name.Some? ==> name.value != PROTO
    requires Convert(document, Bool(true), chain) == Some(ANYTHING)
    ensures var node := PropertyNode(name, closed);
            ConvertProperties(document, node, node.members, chain) ==
            Some(Properties(if name.None? then map[] else map[name.value := Node(ANYTHING)]))
  {
    hide Convert;
    KeysDiffer();
    var node := PropertyNode(name, closed);
    var ps := node.members[K_PROPERTIES].members;
    var r := ConvertProperties(document, node, node.members, chain);
    assert r.Some? && r.value.Properties?;
    if name.Some? {
      assert r.value.entries == map[name.value := Node(ANYTHING)];
    } else {
      assert r.value.entries == map[];
    }
  }

  lemma ConvertsAsPlain(document: Json, node: Json, chain: seq<Text>)
    requires PlainNode(node)
    ensures Convert(document, node, chain) == ConvertPlain(document, node, node.members, chain)
  {
  }

  /** `{properties: {}}` is valid for every value; the gateway refuses every object with a key. */
  lemma EmptyPropertiesRefuseKeys(document: Json, v: Json)
    ensures var node := PropertyNode(None, false);
            && Convert(document, node, []).Some?
            && Valid(document, node, [], v, NONE_DROPPED)
            && (Accepts(Convert(document, node, []).value, v) <==> (v.Obj? ==> v.members == map[]))
  {
    hide Convert;
    KeysDiffer();
    var node := PropertyNode(None, false);
    PropertyNodeConverts(document, [], None, false);
    PropertyNodeValid(document, None, false, v);
    var s := Convert(document, node, []).value;
    assert s.Entries() == map[] && s.RequiredNames() == [] && IsObjectNode(s) && !IsArrayNode(s);
    if v.Obj? {
      forall k | k in v.members ensures !AcceptsMember(s, v, k) {
      }
      if v.members != map[] { assert exists k :: k in v.members; }
    }
  }

  /** What JSON Schema makes of such a node. */
  lemma PropertyNodeValid(document: Json, name: Option<Text>, closed: bool, v: Json)
    ensures Valid(document, PropertyNode(name, closed), [], v, NONE_DROPPED) <==>
            (v.Obj? && closed ==> forall k :: k in v.members ==> name == Some(k))
  {
    KeysDiffer();
    var node := PropertyNode(name, closed);
    var m := node.members;
    assert PlainNode(node);
    PlainNodeReads(document, node, [], v, NONE_DROPPED);
    assert Lookup(m, K_TYPE) == Undefined && Lookup(m, K_ENUM) == Undefined && Lookup(m, K_REQUIRED) == Undefined;
    assert Lookup(m, K_ITEMS) == Undefined && Lookup(m, K_ADDITIONAL) == if closed then Bool(false) else Undefined;
    assert TypeMeans(m, v) && EnumAllows(m, v);
    if v.Obj? {
      forall k | k in v.members
        ensures MemberValid(document, node, m, [], k, v.members[k], NONE_DROPPED) <==> (closed ==> name == Some(k))
      {
        assert k in PropertiesOf(m) <==> name == Some(k);
        if name == Some(k) { assert PropertiesOf(m)[k] == Bool(true); }
      }
    }
  }

  /** An `allOf` of property nodes. */
  function AllOfNode(first: Json, second: Json): Json {
    Obj(map[K_ALL_OF := Arr([first, second])])
  }

  lemma AllOfNodeParts(document: Json, first: Json, second: Json)
    ensures var node := AllOfNode(first, second);
            && !Refs.IsRef(node) && Lookup(node.members, K_ALL_OF).Arr? && PartCount(node) == 2
            && ConvertPart(document, node, [], 0) == Convert(document, first, [])
            && ConvertPart(document, node, [], 1) == Convert(document, second, [])
  {
    hide Convert;
    KeysDiffer();
    var node := AllOfNode(first, second);
    assert Siblings(node) == map[];
  }

  lemma AllOfNodeConverts(document: Json, first: Json, second: Json)
    requires Convert(document, first, []).Some? && Convert(document, second, []).Some?
    ensures Convert(document, AllOfNode(first, second), []) ==
            Merge([Convert(document, first, []).value, Convert(document, second, []).value])
  {
    hide Convert, Merge, ConvertPart;
    var node := AllOfNode(first, second);
    var parts := [Convert(document, first, []).value, Convert(document, second, []).value];
    AllOfNodeParts(document, first, second);
    assert ConvertParts(document, node, []).Some?;
    assert ConvertParts(document, node, []).value == parts;
    assert ConvertTarget(document, node, []) == Merge(parts);
    ConvertsToTarget(document, node, []);
  }

  lemma ConvertsToTarget(document: Json, node: Json, chain: seq<Text>)
    requires node.Obj? && !Refs.IsRef(node)
    ensures Convert(document, node, chain) == ConvertTarget(document, node, chain)
  {
    hide ConvertTarget;
  }

  const NAME_A: Text := [0x61]
  const NAME_B: Text := [0x62]

  /** Two property nodes merge unless they declare the same name differently. */
  lemma PropertyNodesMerge(document: Json, a: Option<Text>, closed: bool, b: Option<Text>)
    requires (a.Some? ==> a.value != PROTO) && (b.Some? ==> b.value != PROTO)
    ensures var node := AllOfNode(PropertyNode(a, closed), PropertyNode(b, false));
            && Convert(document, node, []).Some?
            && forall v :: Accepts(Convert(document, node, []).value, v) <==>
                 v.Obj? && forall k :: k in v.members ==> a == Some(k) || b == Some(k)
  {
    hide Convert, Accepts;
    var first, second := PropertyNode(a, closed), PropertyNode(b, false);
    PropertyNodeConverts(document, [], a, closed);
    PropertyNodeConverts(document, [], b, false);
    AllOfNodeConverts(document, first, second);
    var p, q := Convert(document, first, []).value, Convert(document, second, []).value;
    TwoMerge(p, q, a, b);
  }

  lemma TwoMerge(p: Schema, q: Schema, a: Option<Text>, b: Option<Text>)
    requires p.types == NoType && p.enum == NoEnum && p.required == NoRequired && p.additional == Denied && p.items == NoItems
    requires q.types == NoType && q.enum == NoEnum && q.required == NoRequired && q.additional == Denied && q.items == NoItems
    requires p.properties == Properties(if a.None? then map[] else map[a.value := Node(ANYTHING)])
    requires q.properties == Properties(if b.None? then map[] else map[b.value := Node(ANYTHING)])
    ensures Merge([p, q]).Some?
    ensures forall v :: Accepts(Merge([p, q]).value, v) <==>
              v.Obj? && forall k :: k in v.members ==> a == Some(k) || b == Some(k)
  {
    hide Accepts, AddNames;
    var parts := [p, q];
    AllOf.JoinsIff(EMPTY, parts);
    assert forall x :: x in parts ==> CanJoin(EMPTY, x);
    assert forall x, y :: x in parts && y in parts ==> AllOf.Agree(x, y);
    var acc := JoinAll(EMPTY, parts).value;
    AllOf.JoinAllCollects(EMPTY, parts);
    forall v ensures Accepts(Merge(parts).value, v) <==>
                v.Obj? && forall k :: k in v.members ==> a == Some(k) || b == Some(k)
    {
      AllOf.MergedAccepts(acc, v);
      MergedKeys(parts, acc, a, b);
      if v.Obj? {
        forall k | k in v.members && k in acc.entries ensures Accepts(ANYTHING, v.members[k]) {
          AnythingAcceptsAll(v.members[k]);
        }
      }
    }
  }

  lemma MergedKeys(parts: seq<Schema>, acc: Merged, a: Option<Text>, b: Option<Text>)
    requires |parts| == 2 && AllOf.Collects(EMPTY, parts, acc)
    requires parts[0].required == NoRequired && parts[1].required == NoRequired
    requires parts[0].additional == Denied && parts[1].additional == Denied
    requires parts[0].properties == Properties(if a.None? then map[] else map[a.value := Node(ANYTHING)])
    requires parts[1].properties == Properties(if b.None? then map[] else map[b.value := Node(ANYTHING)])
    ensures !acc.open && forall k :: k !in acc.required
    ensures forall k :: k in acc.entries <==> a == Some(k) || b == Some(k)
    ensures forall k :: k in acc.entries ==> acc.entries[k] == Node(ANYTHING)
  {
    assert parts[0] in parts && parts[1] in parts;
    assert forall p :: p in parts <==> p == parts[0] || p == parts[1];
    forall k ensures AllOf.SomeDeclares(parts, k) <==> a == Some(k) || b == Some(k) {
      assert k in parts[0].Entries() <==> a == Some(k);
      assert k in parts[1].Entries() <==> b == Some(k);
    }
    forall k ensures !AllOf.SomeRequires(parts, k) {
    }
  }

  /** An `allOf` of two such nodes is valid for every value; the gateway accepts the empty object alone. */
  lemma AllOfRefusesNonObjects(document: Json, v: Json)
    ensures var node := AllOfNode(PropertyNode(None, false), PropertyNode(None, false));
            && Convert(document, node, []).Some?
            && Valid(document, node, [], v, NONE_DROPPED)
            && (Accepts(Convert(document, node, []).value, v) <==> v == Obj(map[]))
  {
    hide Convert, Accepts, Valid;
    PropertyNodesMerge(document, None, false, None);
    AllOfNodeValid(document, None, false, None, v);
    if v.Obj? && (forall k :: k !in v.members) { assert v.members == map[]; }
  }

  lemma AllOfNodeValid(document: Json, a: Option<Text>, closed: bool, b: Option<Text>, v: Json)
    ensures Valid(document, AllOfNode(PropertyNode(a, closed), PropertyNode(b, false)), [], v, NONE_DROPPED) <==>
            (v.Obj? && closed ==> forall k :: k in v.members ==> a == Some(k))
  {
    hide Valid;
    var first, second := PropertyNode(a, closed), PropertyNode(b, false);
    var node := AllOfNode(first, second);
    AllOfNodeParts(document, first, second);
    AllOfReads(document, node, [], v, NONE_DROPPED);
    PropertyNodeValid(document, a, closed, v);
    PropertyNodeValid(document, b, false, v);
    assert PartValid(document, node, [], 0, v, NONE_DROPPED) <==> Valid(document, first, [], v, NONE_DROPPED);
    assert PartValid(document, node, [], 1, v, NONE_DROPPED) <==> Valid(document, second, [], v, NONE_DROPPED);
    assert AllPartsValid(document, node, [], v, NONE_DROPPED) <==> PartValid(document, node, [], 0, v, NONE_DROPPED) && PartValid(document, node, [], 1, v, NONE_DROPPED);
  }

  /** A branch closed over `a` beside one that declares `b`: an object with `b` is invalid and accepted. */
  lemma ClosedBranchAcceptsOtherKeys(document: Json, x: Json)
    ensures var node := AllOfNode(PropertyNode(Some(NAME_A), true), PropertyNode(Some(NAME_B), false));
            && Convert(document, node, []).Some?
            && Accepts(Convert(document, node, []).value, Obj(map[NAME_B := x]))
            && !Valid(document, node, [], Obj(map[NAME_B := x]), NONE_DROPPED)
  {
    hide Convert, Accepts, Valid;
    KeysDiffer();
    assert NAME_A != NAME_B && |NAME_A| == 1 && |NAME_B| == 1;
    PropertyNodesMerge(document, Some(NAME_A), true, Some(NAME_B));
    AllOfNodeValid(document, Some(NAME_A), true, Some(NAME_B), Obj(map[NAME_B := x]));
    assert NAME_B in map[NAME_B := x];
  }

  /** `{items: {type: string}}` without `type: array`: an array holding null is invalid and accepted. */
  lemma ArrayOfStringsWithoutType(document: Json)
    ensures var strings := Obj(map[K_TYPE := Str(U("string"))]);
            var node := Obj(map[K_ITEMS := strings]);
            && Convert(document, node, []).Some?
            && Accepts(Convert(document, node, []).value, Arr([Null]))
            && !Valid(document, node, [], Arr([Null]), NONE_DROPPED)
  {
    hide Accepts, Convert, Valid;
    var strings := Obj(map[K_TYPE := Str(U("string"))]);
    var node := Obj(map[K_ITEMS := strings]);
    KeysDiffer();
    StringNode(document, strings);
    ItemsNode(document, node, strings);
    LooseItemsAreSkipped(document, node, [], [Null], NONE_DROPPED);
    assert [Null][0] == Null;
  }

  lemma StringNode(document: Json, node: Json)
    requires node == Obj(map[K_TYPE := Str(U("string"))])
    ensures Convert(document, node, []).Some?
    ensures !Valid(document, node, [], Null, NONE_DROPPED)
  {
    hide Valid;
    KeysDiffer();
    var m := node.members;
    assert !Refs.IsRef(node);
    assert TypeList(Lookup(m, K_TYPE)) == Some([TypeNamed(U("string"))]);
    assert U("string")[0] == 's' as int && U("object")[0] == 'o' as int;
    assert TypeNamed(U("string")) == StringType;
    assert !TypeMeans(m, Null);
    PlainNodeReads(document, node, [], Null, NONE_DROPPED);
    assert ConvertPlain(document, node, m, []).Some?;
  }

  lemma ItemsNode(document: Json, node: Json, strings: Json)
    requires strings == Obj(map[K_TYPE := Str(U("string"))]) && Convert(document, strings, []).Some?
    requires node == Obj(map[K_ITEMS := strings])
    ensures LooseItems(node) && EnumOf(node.members).NoEnum? && Convert(document, node, []).Some?
  {
    hide Convert;
    KeysDiffer();
    assert !Refs.IsRef(node);
    assert ConvertPlain(document, node, node.members, []).Some?;
    ConvertsAsPlain(document, node, []);
  }

  /** `{enum: [[0]]}` and the array holding negative zero: equal by value, and refused. */
  lemma NestedZeroIsRefused(document: Json)
    ensures var listed, v := Arr([Num(Zero(false))]), Arr([Num(Zero(true))]);
            var node := Obj(map[K_ENUM := Arr([listed])]);
            && Convert(document, node, []).Some?
            && Valid(document, node, [], v, NONE_DROPPED)
            && !Accepts(Convert(document, node, []).value, v)
  {
    hide Convert, Accepts;
    KeysDiffer();
    var zero, minus := Num(Zero(false)), Num(Zero(true));
    var listed, v := Arr([zero]), Arr([minus]);
    var node := Obj(map[K_ENUM := Arr([listed])]);
    var m := node.members;
    EnumNode(document, node, listed);
    assert EnumOf(m).values == [listed] && listed in EnumOf(m).values;
    assert Unsigned(listed) == Unsigned(v) by {
      assert Unsigned(listed).items == [zero] && Unsigned(v).items == [zero];
    }
    assert listed != v by { assert listed.items[0] != v.items[0]; }
    assert EnumAllows(m, v) && !EnumMeans(m, v);
    PlainNodeReads(document, node, [], v, NONE_DROPPED);
    ConversionPreservesMeaning(document, node, [], v);
  }

  lemma EnumNode(document: Json, node: Json, listed: Json)
    requires node == Obj(map[K_ENUM := Arr([listed])])
    ensures PlainNode(node) && Convert(document, node, []).Some?
    ensures EnumOf(node.members) == Enum([listed]) && !Typed(node.members)
    ensures Lookup(node.members, K_ITEMS) == Undefined && RequiredOf(node.members) == []
  {
    hide Convert;
    KeysDiffer();
    assert !Refs.IsRef(node) && !Refused(node.members);
    assert ConvertPlain(document, node, node.members, []).Some?;
    ConvertsAsPlain(document, node, []);
  }

  /** `{type: string, pattern: ...}`: every string is accepted, whatever the pattern says of it. */
  lemma PatternIsNotChecked(document: Json, pattern: Json, s: Text, dropped: Dropped)
    ensures var node := Obj(map[K_TYPE := Str(U("string")), K_PATTERN := pattern]);
            && Convert(document, node, []).Some?
            && Accepts(Convert(document, node, []).value, Str(s))
            && (Valid(document, node, [], Str(s), dropped) <==> dropped.hold(node.members, Str(s)))
  {
    hide Convert, Accepts;
    KeysDiffer();
    var node := Obj(map[K_TYPE := Str(U("string")), K_PATTERN := pattern]);
    var m, v := node.members, Str(s);
    PatternNode(document, node, pattern);
    assert TypeMeans(m, v) by { assert MatchesType(StringType, v); }
    PlainNodeReads(document, node, [], v, dropped);
    ConversionPreservesMeaning(document, node, [], v);
  }

  lemma PatternNode(document: Json, node: Json, pattern: Json)
    requires node == Obj(map[K_TYPE := Str(U("string")), K_PATTERN := pattern])
    ensures PlainNode(node) && Convert(document, node, []).Some?
    ensures TypeList(Lookup(node.members, K_TYPE)) == Some([StringType]) && EnumOf(node.members).NoEnum?
  {
    hide Convert;
    KeysDiffer();
    var m := node.members;
    assert |K_PATTERN| == 7 && K_PATTERN[0] == 'p' as int;
    assert !Refs.IsRef(node) && !Refused(m);
    assert Lookup(m, K_TYPE) == Str(U("string"));
    assert U("string")[0] == 's' as int && U("object")[0] == 'o' as int;
    assert TypeNamed(U("string")) == StringType;
    assert TypeList(Lookup(m, K_TYPE)) == Some([StringType]);
    assert ConvertPlain(document, node, m, []).Some?;
    ConvertsAsPlain(document, node, []);
  }
}
