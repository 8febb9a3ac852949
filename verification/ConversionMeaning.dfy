/** Conversion preserves meaning: the main theorems about `convertSchema`. */
module ConversionMeaning {
  import opened Text
  import opened Json
  import opened Options
  import opened Schema
  import opened OpenApiSchema
  import opened OpenApiMeaning
  import AllOf
  import Refs

  lemma TypesDecideMeaning(m: Members, v: Json)
    requires ResolveTypes(m).Some?
    ensures TypeAccepts(ResolveTypes(m).value, v) <==> TypeMeans(m, v)
  {
    var declared := TypeList(Lookup(m, K_TYPE));
    if declared.Some? {
      var types := ResolveTypes(m).value;
      var known := Known(declared.value);
      assert forall t :: t in types.names <==> t in known || (t == NullType && types.names != known);
      if TypeMeans(m, v) {
        if Lookup(m, K_NULLABLE) == Bool(true) && v.Null? {
          assert NullType in types.names && MatchesType(NullType, v);
        } else {
          var t :| t in declared.value && !t.UnknownType? && MatchesType(t, v);
          assert t in types.names;
        }
      }
    }
  }

  /** The constraints on an object are in force in the converted node exactly where the meaning puts them. */
  lemma ObjectNodes(m: Members, s: Schema, v: Json)
    requires ResolveTypes(m) == Some(s.types)
    requires s.properties.NoProperties? <==> !DeclaresProperties(m)
    requires s.required == if RequiredOf(m) == [] then NoRequired else Required(RequiredOf(m))
    requires v.Obj? && TypeAccepts(s.types, v)
    ensures IsObjectNode(s) <==> ObjectEnforced(m)
  {
    if s.types.Types? {
      var t :| t in s.types.names && MatchesType(t, v);
      assert forall t :: t in s.types.names ==> !t.UnknownType?;
      assert t == ObjectType;
    }
  }

  lemma ArrayNodes(m: Members, s: Schema, v: Json)
    requires ResolveTypes(m) == Some(s.types)
    requires v.Arr? && TypeAccepts(s.types, v)
    ensures IsArrayNode(s) <==> Typed(m)
  {
    if s.types.Types? {
      var t :| t in s.types.names && MatchesType(t, v);
      assert t == ArrayType;
    }
  }

  function OpenedIf(s: Schema, open: bool): Schema {
    if open then AllOf.Opened(s) else s
  }

  /** The converted node decides the meaning, closed and opened, and knows its names. */
  ghost predicate Agrees(document: Json, node: Json, chain: seq<Text>, v: Json) {
    var s := Convert(document, node, chain);
    s.Some? ==>
      && (Accepts(s.value, v) <==> Means(document, node, chain, v))
      && (Accepts(AllOf.Opened(s.value), v) <==> OpenMeans(document, node, chain, v))
      && (forall k :: k in s.value.Entries() <==> Declares(document, node, chain, k))
      && (s.value.additional.Allowed? <==> Opens(document, node, chain))
  }

  ghost predicate TargetAgrees(document: Json, node: Json, chain: seq<Text>, v: Json)
    requires node.Obj?
  {
    var s := ConvertTarget(document, node, chain);
    s.Some? ==>
      && (Accepts(s.value, v) <==> TargetMeans(document, node, chain, v))
      && (Accepts(AllOf.Opened(s.value), v) <==> TargetOpenMeans(document, node, chain, v))
      && (forall k :: k in s.value.Entries() <==> TargetDeclares(document, node, chain, k))
      && (s.value.additional.Allowed? <==> TargetOpens(document, node, chain))
  }

  lemma {:induction false} ConvertAgrees(document: Json, node: Json, chain: seq<Text>, v: Json)
    ensures Agrees(document, node, chain, v)
    decreases Room(chain), node, 6
  {
    hide Accepts, ConvertTarget, TargetMeans, TargetOpenMeans, TargetDeclares, TargetOpens, TargetAgrees, Refs.Deref;
    if node.Bool? {
      AnythingAcceptsAll(v);
    } else {
      var d := Refs.Deref(document, node, chain);
      if d.Some? && d.value.value.Obj? {
        TargetDecides(document, d.value.value, d.value.chain, v);
        NodeFollowsTarget(document, node, chain, v);
      }
    }
  }

  /** A node agrees when what it refers to does. */
  lemma NodeFollowsTarget(document: Json, node: Json, chain: seq<Text>, v: Json)
    requires !node.Bool?
    requires var d := Refs.Deref(document, node, chain);
             d.Some? && d.value.value.Obj? && TargetAgrees(document, d.value.value, d.value.chain, v)
    ensures Agrees(document, node, chain, v)
  {
    hide Accepts, ConvertTarget, TargetMeans, TargetOpenMeans, TargetDeclares, TargetOpens, Refs.Deref, AllOf.Opened,
         Means, OpenMeans, Declares, Opens, Convert;
    NodeIsItsTarget(document, node, chain, v);
  }

  lemma NodeIsItsTarget(document: Json, node: Json, chain: seq<Text>, v: Json)
    requires !node.Bool?
    requires var d := Refs.Deref(document, node, chain); d.Some? && d.value.value.Obj?
    ensures var d := Refs.Deref(document, node, chain).value;
            && Convert(document, node, chain) == ConvertTarget(document, d.value, d.chain)
            && (Means(document, node, chain, v) <==> TargetMeans(document, d.value, d.chain, v))
            && (OpenMeans(document, node, chain, v) <==> TargetOpenMeans(document, d.value, d.chain, v))
            && (forall k :: Declares(document, node, chain, k) <==> TargetDeclares(document, d.value, d.chain, k))
            && (Opens(document, node, chain) <==> TargetOpens(document, d.value, d.chain))
  {
    hide ConvertTarget, TargetMeans, TargetOpenMeans, TargetDeclares, TargetOpens, Refs.Deref;
  }

  lemma {:induction false} TargetDecides(document: Json, node: Json, chain: seq<Text>, v: Json)
    requires node.Obj?
    ensures TargetAgrees(document, node, chain, v)
    decreases Room(chain), node, 5, 1
  {
    hide Accepts, ConvertTarget, TargetMeans, TargetOpenMeans, TargetDeclares, TargetOpens, AllOf.Opened;
    if ConvertTarget(document, node, chain).Some? {
      if Lookup(node.members, K_ALL_OF).Arr? {
        AllOfAgrees(document, node, chain, v);
      } else {
        PlainTargetAgrees(document, node, chain, v);
      }
    }
  }

  lemma AnythingAcceptsAll(v: Json)
    ensures Accepts(ANYTHING, v) && Accepts(AllOf.Opened(ANYTHING), v)
  {
  }

  lemma {:induction false} PlainTargetAgrees(document: Json, node: Json, chain: seq<Text>, v: Json)
    requires node.Obj? && !Lookup(node.members, K_ALL_OF).Arr?
    requires ConvertTarget(document, node, chain).Some?
    ensures var s := ConvertTarget(document, node, chain).value;
            && (Accepts(s, v) <==> TargetMeans(document, node, chain, v))
            && (Accepts(AllOf.Opened(s), v) <==> TargetOpenMeans(document, node, chain, v))
            && (forall k :: k in s.Entries() <==> TargetDeclares(document, node, chain, k))
            && (s.additional.Allowed? <==> TargetOpens(document, node, chain))
    decreases Room(chain), node, 5, 0
  {
    hide Accepts, ConvertPlain, PlainMeans;
    PlainAgrees(document, node, node.members, chain, v, false);
    PlainAgrees(document, node, node.members, chain, v, true);
  }

  lemma {:induction false} PlainAgrees(document: Json, node: Json, m: Members, chain: seq<Text>, v: Json, open: bool)
    requires node.Obj? && m.Items <= node.members.Items
    requires ConvertPlain(document, node, m, chain).Some?
    ensures var s := ConvertPlain(document, node, m, chain).value;
            && (Accepts(OpenedIf(s, open), v) <==> PlainMeans(document, node, m, chain, v, open))
            && (forall k :: k in s.Entries() <==> k in PropertiesOf(m))
            && (s.additional.Allowed? <==> Lookup(m, K_ADDITIONAL) == Bool(true))
    decreases Room(chain), node, 2
  {
    hide ConvertProperties, ConvertAdditional, ConvertItems, TypeMeans, MemberMeans, ItemMeans, ResolveTypes,
      AcceptsMember, TypeAccepts, RequiredOf, TypeList;
    var s := ConvertPlain(document, node, m, chain).value;
    var t := OpenedIf(s, open);
    TypesDecideMeaning(m, v);
    PlainFields(document, node, m, chain);
    if TypeAccepts(s.types, v) {
      if v.Obj? {
        ObjectNodes(m, s, v);
        forall k | k in v.members
          ensures AcceptsMember(t, v, k) <==> MemberMeans(document, node, m, chain, v, k, open)
        {
          MemberAgrees(document, node, m, chain, v, k, open);
        }
      } else if v.Arr? {
        ArrayNodes(m, s, v);
        forall i | 0 <= i < |v.items|
          ensures (s.items.Items? ==> Accepts(s.items.schema, v.items[i])) <==> ItemMeans(document, node, m, chain, v, i)
        {
          ItemAgrees(document, node, m, chain, v, i);
        }
      }
    }
  }

  lemma PlainFields(document: Json, node: Json, m: Members, chain: seq<Text>)
    requires node.Obj? && m.Items <= node.members.Items
    requires ConvertPlain(document, node, m, chain).Some?
    ensures var s := ConvertPlain(document, node, m, chain).value;
            && (s.properties.NoProperties? <==> !DeclaresProperties(m))
            && s.Entries().Keys == PropertiesOf(m).Keys
            && (s.additional.Allowed? <==> Lookup(m, K_ADDITIONAL) == Bool(true))
  {
  }

  lemma {:induction false} MemberAgrees(
      document: Json, node: Json, m: Members, chain: seq<Text>, v: Json, k: Text, open: bool)
    requires node.Obj? && m.Items <= node.members.Items
    requires v.Obj? && k in v.members
    requires ConvertPlain(document, node, m, chain).Some?
    ensures AcceptsMember(OpenedIf(ConvertPlain(document, node, m, chain).value, open), v, k) <==>
            MemberMeans(document, node, m, chain, v, k, open)
    decreases Room(chain), node, 1
  {
    hide Accepts, Means, Convert, ResolveTypes, RequiredOf, TypeList, MetadataOf;
    var s := ConvertPlain(document, node, m, chain).value;
    var x := v.members[k];
    if k in PropertiesOf(m) {
      KeywordIsSmaller(node, m, K_PROPERTIES);
      var sub := PropertiesOf(m)[k];
      assert Convert(document, sub, chain).Some? && s.Entries()[k] == Node(Convert(document, sub, chain).value);
      ConvertAgrees(document, sub, chain, x);
    } else if !open {
      var raw := Lookup(m, K_ADDITIONAL);
      if !raw.Bool? && !raw.Undefined? {
        KeywordIsSmaller(node, m, K_ADDITIONAL);
        ConvertAgrees(document, raw, chain, x);
      }
    }
  }

  lemma {:induction false} ItemAgrees(document: Json, node: Json, m: Members, chain: seq<Text>, v: Json, i: nat)
    requires node.Obj? && m.Items <= node.members.Items
    requires v.Arr? && i < |v.items|
    requires ConvertPlain(document, node, m, chain).Some?
    ensures var s := ConvertPlain(document, node, m, chain).value;
            (s.items.Items? ==> Accepts(s.items.schema, v.items[i])) <==> ItemMeans(document, node, m, chain, v, i)
    decreases Room(chain), node, 1
  {
    hide Accepts, Means, Convert, ResolveTypes, RequiredOf, TypeList, MetadataOf, ConvertProperties, ConvertAdditional;
    var raw := Lookup(m, K_ITEMS);
    if !raw.Arr? && !raw.Undefined? {
      KeywordIsSmaller(node, m, K_ITEMS);
      ConvertAgrees(document, raw, chain, v.items[i]);
    }
  }

  // ---- allOf ----

  lemma {:induction false} PartAgrees(document: Json, node: Json, chain: seq<Text>, i: nat, v: Json)
    requires node.Obj? && Lookup(node.members, K_ALL_OF).Arr? && i < PartCount(node)
    requires ConvertPart(document, node, chain, i).Some?
    ensures var s := ConvertPart(document, node, chain, i).value;
            && (Accepts(AllOf.Opened(s), v) <==> PartMeans(document, node, chain, i, v))
            && (forall k :: k in s.Entries() <==> PartDeclares(document, node, chain, i, k))
            && (s.additional.Allowed? <==> PartOpens(document, node, chain, i))
    decreases Room(chain), node, 3, 0
  {
    hide Accepts, Convert, ConvertPlain, PlainMeans, OpenMeans, Declares, Opens, Siblings, PropertiesOf, Means;
    var branches := node.members[K_ALL_OF].items;
    if i < |branches| {
      ConvertAgrees(document, branches[i], chain, v);
    } else {
      PlainAgrees(document, node, Siblings(node), chain, v, true);
    }
  }

  lemma {:induction false} AllOfAgrees(document: Json, node: Json, chain: seq<Text>, v: Json)
    requires node.Obj? && Lookup(node.members, K_ALL_OF).Arr?
    requires ConvertTarget(document, node, chain).Some?
    ensures var s := ConvertTarget(document, node, chain).value;
            && (Accepts(s, v) <==> TargetMeans(document, node, chain, v))
            && (Accepts(AllOf.Opened(s), v) <==> TargetOpenMeans(document, node, chain, v))
            && (forall k :: k in s.Entries() <==> TargetDeclares(document, node, chain, k))
            && (s.additional.Allowed? <==> TargetOpens(document, node, chain))
    decreases Room(chain), node, 5, 0
  {
    hide Accepts, ConvertPart, ConvertParts, AllPartsMean, SomePartDeclares, SomePartOpen, Merge, AllOf.SomeDeclares, AllOf.SomeOpen;
    var parts := ConvertParts(document, node, chain).value;
    assert ConvertTarget(document, node, chain) == Merge(parts);
    AllOf.MergeIsConjunction(parts, v);
    AllOf.OpenedMergeIsConjunction(parts, v);
    MergedNames(parts);
    PartsAgree(document, node, chain, v);
  }

  lemma {:induction false} PartsAgree(document: Json, node: Json, chain: seq<Text>, v: Json)
    requires node.Obj? && Lookup(node.members, K_ALL_OF).Arr?
    requires ConvertParts(document, node, chain).Some?
    ensures var parts := ConvertParts(document, node, chain).value;
            && ((forall p :: p in parts ==> Accepts(AllOf.Opened(p), v)) <==> AllPartsMean(document, node, chain, v))
            && (forall k :: AllOf.SomeDeclares(parts, k) <==> SomePartDeclares(document, node, chain, k))
            && (AllOf.SomeOpen(parts) <==> SomePartOpen(document, node, chain))
    decreases Room(chain), node, 4
  {
    hide Accepts, ConvertPart, PartMeans, PartDeclares, PartOpens, SomePartDeclares, SomePartOpen, AllOf.SomeOpen, AllOf.SomeDeclares;
    var parts := ConvertParts(document, node, chain).value;
    forall i | 0 <= i < |parts|
      ensures Accepts(AllOf.Opened(parts[i]), v) <==> PartMeans(document, node, chain, i, v)
    {
      PartAgrees(document, node, chain, i, v);
    }
    if AllPartsMean(document, node, chain, v) {
      forall i | 0 <= i < |parts| ensures Accepts(AllOf.Opened(parts[i]), v) {
        assert PartMeans(document, node, chain, i, v);
      }
    }
    forall k ensures AllOf.SomeDeclares(parts, k) <==> SomePartDeclares(document, node, chain, k) {
      PartNames(document, node, chain, k, v);
    }
    PartOpenness(document, node, chain, v);
  }

  lemma {:induction false} PartOpenness(document: Json, node: Json, chain: seq<Text>, v: Json)
    requires node.Obj? && Lookup(node.members, K_ALL_OF).Arr?
    requires ConvertParts(document, node, chain).Some?
    ensures AllOf.SomeOpen(ConvertParts(document, node, chain).value) <==> SomePartOpen(document, node, chain)
    decreases Room(chain), node, 3, 1
  {
    hide ConvertPart, PartMeans, PartDeclares, Accepts;
    var parts := ConvertParts(document, node, chain).value;
    if AllOf.SomeOpen(parts) {
      var i :| 0 <= i < |parts| && parts[i].additional.Allowed?;
      PartAgrees(document, node, chain, i, v);
      assert IsPart(node, i) && PartOpens(document, node, chain, i);
    }
    forall i: nat | IsPart(node, i) && PartOpens(document, node, chain, i) ensures AllOf.SomeOpen(parts) {
      PartAgrees(document, node, chain, i, v);
      assert parts[i] in parts;
    }
  }

  lemma {:induction false} PartNames(document: Json, node: Json, chain: seq<Text>, k: Text, v: Json)
    requires node.Obj? && Lookup(node.members, K_ALL_OF).Arr?
    requires ConvertParts(document, node, chain).Some?
    ensures AllOf.SomeDeclares(ConvertParts(document, node, chain).value, k) <==> SomePartDeclares(document, node, chain, k)
    decreases Room(chain), node, 3, 1
  {
    hide ConvertPart, PartMeans, PartOpens, Accepts;
    var parts := ConvertParts(document, node, chain).value;
    if AllOf.SomeDeclares(parts, k) {
      var i :| 0 <= i < |parts| && k in parts[i].Entries();
      PartAgrees(document, node, chain, i, v);
      assert IsPart(node, i) && PartDeclares(document, node, chain, i, k);
    }
    forall i: nat | IsPart(node, i) && PartDeclares(document, node, chain, i, k) ensures AllOf.SomeDeclares(parts, k) {
      PartAgrees(document, node, chain, i, v);
      assert parts[i] in parts;
    }
  }

  lemma MergedNames(parts: seq<Schema>)
    requires Merge(parts).Some?
    ensures forall k :: k in Merge(parts).value.Entries() <==> AllOf.SomeDeclares(parts, k)
    ensures Merge(parts).value.additional.Allowed? <==> AllOf.SomeOpen(parts)
  {
    AllOf.JoinAllCollects(EMPTY, parts);
  }

  /**
   * What the validator accepts under the converted schema is exactly what the
   * source schema means, references expanded, `nullable` read as a null
   * alternative and undeclared properties closed.
   */
  lemma ConversionPreservesMeaning(document: Json, node: Json, chain: seq<Text>, v: Json)
    requires Convert(document, node, chain).Some?
    ensures Accepts(Convert(document, node, chain).value, v) <==> Means(document, node, chain, v)
  {
    ConvertAgrees(document, node, chain, v);
  }
}
