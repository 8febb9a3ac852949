/** Which OpenAPI schemas convert to a schema the loader accepts, read off the document. */
module ConvertedKeywords {
  import opened Text
  import opened Json
  import opened Options
  import opened Schema
  import opened OpenApiSchema
  import opened OpenApiMeaning
  import AllOf
  import ConversionMeaning
  import Refs

  // ---- The names a node requires ----

  /** The names a node requires, through references and `allOf`. */
  ghost predicate Requires(document: Json, node: Json, chain: seq<Text>, k: Text)
    decreases Room(chain), node, 5
  {
    !node.Bool? &&
    var d := Refs.Deref(document, node, chain);
    d.Some? && d.value.value.Obj? && TargetRequires(document, d.value.value, d.value.chain, k)
  }

  ghost predicate TargetRequires(document: Json, node: Json, chain: seq<Text>, k: Text)
    requires node.Obj?
    decreases Room(chain), node, 4
  {
    if Lookup(node.members, K_ALL_OF).Arr? then SomePartRequires(document, node, chain, k)
    else k in RequiredOf(node.members)
  }

  ghost predicate SomePartRequires(document: Json, node: Json, chain: seq<Text>, k: Text)
    requires node.Obj? && Lookup(node.members, K_ALL_OF).Arr?
    decreases Room(chain), node, 3
  {
    exists i: nat :: IsPart(node, i) && PartRequires(document, node, chain, i, k)
  }

  ghost predicate PartRequires(document: Json, node: Json, chain: seq<Text>, i: nat, k: Text)
    requires node.Obj? && Lookup(node.members, K_ALL_OF).Arr? && i < PartCount(node)
    decreases Room(chain), node, 2
  {
    var branches := node.members[K_ALL_OF].items;
    if i < |branches| then Requires(document, branches[i], chain, k) else k in RequiredOf(Siblings(node))
  }

  // ---- The condition ----

  /**
   * What the loader asks of one node: object keywords only where the type has
   * an object in it, and no name required that the closed node does not declare.
   */
  ghost predicate KeywordsFit(m: Members) {
    && (Typed(m) && (DeclaresProperties(m) || RequiredOf(m) != []) ==> ObjectType in TypeList(Lookup(m, K_TYPE)).value)
    && (Lookup(m, K_ADDITIONAL).Undefined? || Lookup(m, K_ADDITIONAL) == Bool(false) ==>
          forall k :: k in RequiredOf(m) ==> k in PropertiesOf(m))
  }

  /** An `allOf` requires only names some branch declares, unless a branch is open. */
  ghost predicate PartsFit(document: Json, node: Json, chain: seq<Text>)
    requires node.Obj? && Lookup(node.members, K_ALL_OF).Arr?
  {
    || SomePartOpen(document, node, chain)
    || forall k :: SomePartRequires(document, node, chain, k) ==> SomePartDeclares(document, node, chain, k)
  }

  /** The node fits, and so does everything its keywords lead to. */
  ghost predicate Fits(document: Json, node: Json, chain: seq<Text>)
    decreases Room(chain), node, 5
  {
    node.Bool? ||
    var d := Refs.Deref(document, node, chain);
    d.Some? && d.value.value.Obj? ==> TargetFits(document, d.value.value, d.value.chain)
  }

  ghost predicate TargetFits(document: Json, node: Json, chain: seq<Text>)
    requires node.Obj?
    decreases Room(chain), node, 4
  {
    if Lookup(node.members, K_ALL_OF).Arr? then PartsFit(document, node, chain) && AllNested(document, node, chain)
    else KeywordsFit(node.members) && NestedFit(document, node, node.members, chain)
  }

  /** What the keywords of the node lead to fits; the node itself need not, as a branch of an `allOf`. */
  ghost predicate Nested(document: Json, node: Json, chain: seq<Text>)
    decreases Room(chain), node, 5
  {
    node.Bool? ||
    var d := Refs.Deref(document, node, chain);
    d.Some? && d.value.value.Obj? ==> TargetNested(document, d.value.value, d.value.chain)
  }

  ghost predicate TargetNested(document: Json, node: Json, chain: seq<Text>)
    requires node.Obj?
    decreases Room(chain), node, 4
  {
    if Lookup(node.members, K_ALL_OF).Arr? then AllNested(document, node, chain)
    else NestedFit(document, node, node.members, chain)
  }

  ghost predicate AllNested(document: Json, node: Json, chain: seq<Text>)
    requires node.Obj? && Lookup(node.members, K_ALL_OF).Arr?
    decreases Room(chain), node, 3, 1
  {
    forall i :: 0 <= i < PartCount(node) ==> PartNested(document, node, chain, i)
  }

  ghost predicate PartNested(document: Json, node: Json, chain: seq<Text>, i: nat)
    requires node.Obj? && Lookup(node.members, K_ALL_OF).Arr? && i < PartCount(node)
    decreases Room(chain), node, 3, 0
  {
    var branches := node.members[K_ALL_OF].items;
    if i < |branches| then Nested(document, branches[i], chain)
    else NestedFit(document, node, Siblings(node), chain)
  }

  ghost predicate NestedFit(document: Json, node: Json, m: Members, chain: seq<Text>)
    requires node.Obj? && m.Items <= node.members.Items
    decreases Room(chain), node, 2
  {
    && (forall k :: k in PropertiesOf(m) ==> PropertyFits(document, node, m, chain, k))
    && KeywordFits(document, node, m, chain, K_ADDITIONAL)
    && (!Lookup(m, K_ITEMS).Arr? ==> KeywordFits(document, node, m, chain, K_ITEMS))
  }

  ghost predicate PropertyFits(document: Json, node: Json, m: Members, chain: seq<Text>, k: Text)
    requires node.Obj? && m.Items <= node.members.Items && k in PropertiesOf(m)
    decreases Room(chain), node, 1
  {
    KeywordIsSmaller(node, m, K_PROPERTIES);
    Fits(document, PropertiesOf(m)[k], chain)
  }

  /** The schema a keyword holds, if it holds one. */
  ghost predicate KeywordFits(document: Json, node: Json, m: Members, chain: seq<Text>, keyword: Text)
    requires node.Obj? && m.Items <= node.members.Items
    decreases Room(chain), node, 1
  {
    var raw := Lookup(m, keyword);
    raw.Bool? || raw.Undefined? || (KeywordIsSmaller(node, m, keyword); Fits(document, raw, chain))
  }

  // ---- The walk decides it ----

  /** The walk below a node, whatever the node itself requires. */
  ghost predicate NestedAccepted(s: Schema) {
    && PropertiesAccepted(s.properties)
    && (s.additional.Extra? ==> KeywordsAccepted(s.additional.schema))
    && (s.items.Items? ==> KeywordsAccepted(s.items.schema))
  }

  ghost predicate WalkAgrees(document: Json, node: Json, chain: seq<Text>) {
    var s := Convert(document, node, chain);
    s.Some? ==>
      && (KeywordsAccepted(s.value) <==> Fits(document, node, chain))
      && (NestedAccepted(s.value) <==> Nested(document, node, chain))
      && (forall k :: k in s.value.RequiredNames() <==> Requires(document, node, chain, k))
  }

  ghost predicate TargetWalkAgrees(document: Json, node: Json, chain: seq<Text>)
    requires node.Obj?
  {
    var s := ConvertTarget(document, node, chain);
    s.Some? ==>
      && (KeywordsAccepted(s.value) <==> TargetFits(document, node, chain))
      && (NestedAccepted(s.value) <==> TargetNested(document, node, chain))
      && (forall k :: k in s.value.RequiredNames() <==> TargetRequires(document, node, chain, k))
  }

  lemma AcceptedMeans(s: Schema)
    ensures KeywordsAccepted(s) <==> !NodeRefused(s) && NestedAccepted(s)
  {
  }

  lemma AnythingIsAccepted()
    ensures KeywordsAccepted(ANYTHING) && NestedAccepted(ANYTHING)
  {
  }

  lemma NodeIsItsTarget(document: Json, node: Json, chain: seq<Text>)
    requires !node.Bool?
    requires var d := Refs.Deref(document, node, chain); d.Some? && d.value.value.Obj?
    ensures var d := Refs.Deref(document, node, chain).value;
            && Convert(document, node, chain) == ConvertTarget(document, d.value, d.chain)
            && (Fits(document, node, chain) <==> TargetFits(document, d.value, d.chain))
            && (Nested(document, node, chain) <==> TargetNested(document, d.value, d.chain))
            && (forall k :: Requires(document, node, chain, k) <==> TargetRequires(document, d.value, d.chain, k))
  {
    hide ConvertTarget, TargetFits, TargetNested, TargetRequires, Refs.Deref;
  }

  lemma {:induction false} ConvertWalks(document: Json, node: Json, chain: seq<Text>)
    ensures WalkAgrees(document, node, chain)
    decreases Room(chain), node, 6
  {
    hide ConvertTarget, TargetFits, TargetNested, TargetRequires, TargetWalkAgrees, KeywordsAccepted, NestedAccepted, Refs.Deref;
    if node.Bool? {
      AnythingIsAccepted();
    } else {
      var d := Refs.Deref(document, node, chain);
      if d.Some? && d.value.value.Obj? {
        TargetWalks(document, d.value.value, d.value.chain);
        NodeFollows(document, node, chain);
      }
    }
  }

  lemma NodeFollows(document: Json, node: Json, chain: seq<Text>)
    requires !node.Bool?
    requires var d := Refs.Deref(document, node, chain);
             d.Some? && d.value.value.Obj? && TargetWalkAgrees(document, d.value.value, d.value.chain)
    ensures WalkAgrees(document, node, chain)
  {
    hide KeywordsAccepted, NestedAccepted, ConvertTarget, TargetFits, TargetNested, TargetRequires, Refs.Deref,
         Fits, Nested, Requires, Convert;
    NodeIsItsTarget(document, node, chain);
  }

  lemma {:induction false} TargetWalks(document: Json, node: Json, chain: seq<Text>)
    requires node.Obj?
    ensures TargetWalkAgrees(document, node, chain)
    decreases Room(chain), node, 5
  {
    hide KeywordsAccepted, NestedAccepted, NodeRefused, KeywordsFit, PartsFit, NestedFit, AllNested, ConvertPlain, ConvertAllOf;
    var s := ConvertTarget(document, node, chain);
    if s.Some? {
      AcceptedMeans(s.value);
      if Lookup(node.members, K_ALL_OF).Arr? {
        AllOfWalks(document, node, chain);
      } else {
        PlainWalks(document, node, node.members, chain);
      }
    }
  }

  lemma {:induction false} PlainWalks(document: Json, node: Json, m: Members, chain: seq<Text>)
    requires node.Obj? && m.Items <= node.members.Items
    requires ConvertPlain(document, node, m, chain).Some?
    ensures var s := ConvertPlain(document, node, m, chain).value;
            && (!NodeRefused(s) <==> KeywordsFit(m))
            && (NestedAccepted(s) <==> NestedFit(document, node, m, chain))
            && s.RequiredNames() == RequiredOf(m)
    decreases Room(chain), node, 2
  {
    hide KeywordsAccepted, NestedAccepted, NestedFit, NodeRefused, KeywordsFit, ConvertPlain;
    PlainRefused(document, node, m, chain);
    PlainNested(document, node, m, chain);
  }

  lemma PlainRefused(document: Json, node: Json, m: Members, chain: seq<Text>)
    requires node.Obj? && m.Items <= node.members.Items
    requires ConvertPlain(document, node, m, chain).Some?
    ensures var s := ConvertPlain(document, node, m, chain).value;
            && (!NodeRefused(s) <==> KeywordsFit(m))
            && s.RequiredNames() == RequiredOf(m)
  {
    hide ConvertProperties, ConvertAdditional, ConvertItems, RequiredOf, TypeList;
    var s := ConvertPlain(document, node, m, chain).value;
    PlainShape(document, node, m, chain);
    assert Typed(m) ==> (ObjectType in s.types.names <==> ObjectType in TypeList(Lookup(m, K_TYPE)).value);
  }

  lemma PlainShape(document: Json, node: Json, m: Members, chain: seq<Text>)
    requires node.Obj? && m.Items <= node.members.Items
    requires ConvertPlain(document, node, m, chain).Some?
    ensures var s := ConvertPlain(document, node, m, chain).value;
            && (s.properties.NoProperties? || s.properties.Properties?)
            && (s.properties.NoProperties? <==> !DeclaresProperties(m))
            && s.Entries().Keys == PropertiesOf(m).Keys
            && (s.additional.NoAdditional? || s.additional.Denied? <==>
                  Lookup(m, K_ADDITIONAL).Undefined? || Lookup(m, K_ADDITIONAL) == Bool(false))
  {
    hide Convert, RequiredOf, ResolveTypes, ConvertItems;
  }

  lemma {:induction false} PlainNested(document: Json, node: Json, m: Members, chain: seq<Text>)
    requires node.Obj? && m.Items <= node.members.Items
    requires ConvertPlain(document, node, m, chain).Some?
    ensures NestedAccepted(ConvertPlain(document, node, m, chain).value) <==> NestedFit(document, node, m, chain)
    decreases Room(chain), node, 1
  {
    hide KeywordsAccepted, PropertyFits, KeywordFits, ConvertPlain, EntryAccepted;
    var s := ConvertPlain(document, node, m, chain).value;
    forall k | k in PropertiesOf(m)
      ensures k in s.Entries() && (EntryAccepted(s.Entries()[k]) <==> PropertyFits(document, node, m, chain, k))
    {
      PropertyWalks(document, node, m, chain, k);
    }
    assert s.Entries().Keys == PropertiesOf(m).Keys by { PlainShape(document, node, m, chain); }
    assert PropertiesAccepted(s.properties) <==> forall k :: k in s.Entries() ==> EntryAccepted(s.Entries()[k]) by {
      PlainShape(document, node, m, chain);
    }
    AdditionalWalks(document, node, m, chain);
    ItemsWalk(document, node, m, chain);
  }

  lemma {:induction false} PropertyWalks(document: Json, node: Json, m: Members, chain: seq<Text>, k: Text)
    requires node.Obj? && m.Items <= node.members.Items
    requires ConvertPlain(document, node, m, chain).Some? && k in PropertiesOf(m)
    ensures var s := ConvertPlain(document, node, m, chain).value;
            k in s.Entries() && (EntryAccepted(s.Entries()[k]) <==> PropertyFits(document, node, m, chain, k))
    decreases Room(chain), node, 0
  {
    hide KeywordsAccepted, NestedAccepted, Fits, Convert, RequiredOf, ResolveTypes, ConvertAdditional, ConvertItems;
    KeywordIsSmaller(node, m, K_PROPERTIES);
    ConvertWalks(document, PropertiesOf(m)[k], chain);
  }

  lemma {:induction false} AdditionalWalks(document: Json, node: Json, m: Members, chain: seq<Text>)
    requires node.Obj? && m.Items <= node.members.Items
    requires ConvertPlain(document, node, m, chain).Some?
    ensures var s := ConvertPlain(document, node, m, chain).value;
            (s.additional.Extra? ==> KeywordsAccepted(s.additional.schema)) <==> KeywordFits(document, node, m, chain, K_ADDITIONAL)
    decreases Room(chain), node, 0
  {
    hide KeywordsAccepted, NestedAccepted, Fits, Convert, RequiredOf, ResolveTypes, ConvertProperties, ConvertItems;
    var raw := Lookup(m, K_ADDITIONAL);
    if !raw.Bool? && !raw.Undefined? {
      KeywordIsSmaller(node, m, K_ADDITIONAL);
      ConvertWalks(document, raw, chain);
    }
  }

  lemma {:induction false} ItemsWalk(document: Json, node: Json, m: Members, chain: seq<Text>)
    requires node.Obj? && m.Items <= node.members.Items
    requires ConvertPlain(document, node, m, chain).Some?
    ensures var s := ConvertPlain(document, node, m, chain).value;
            (s.items.Items? ==> KeywordsAccepted(s.items.schema)) <==>
            (Lookup(m, K_ITEMS).Arr? || KeywordFits(document, node, m, chain, K_ITEMS))
    decreases Room(chain), node, 0
  {
    hide KeywordsAccepted, NestedAccepted, Fits, Convert, RequiredOf, ResolveTypes, ConvertProperties, ConvertAdditional;
    var raw := Lookup(m, K_ITEMS);
    if !raw.Arr? && !raw.Undefined? {
      KeywordIsSmaller(node, m, K_ITEMS);
      ConvertWalks(document, raw, chain);
      AnyBoolIsAccepted(document, raw, chain);
    }
  }

  lemma AnyBoolIsAccepted(document: Json, node: Json, chain: seq<Text>)
    ensures node.Bool? ==> Fits(document, node, chain)
  {
  }

  // ---- allOf ----

  lemma {:induction false} PartWalks(document: Json, node: Json, chain: seq<Text>, i: nat)
    requires node.Obj? && Lookup(node.members, K_ALL_OF).Arr? && i < PartCount(node)
    requires ConvertPart(document, node, chain, i).Some?
    ensures var s := ConvertPart(document, node, chain, i).value;
            && (NestedAccepted(s) <==> PartNested(document, node, chain, i))
            && (forall k :: k in s.RequiredNames() <==> PartRequires(document, node, chain, i, k))
    decreases Room(chain), node, 3, 0
  {
    hide KeywordsAccepted, NestedAccepted, NestedFit, Convert, ConvertPlain, Fits, Nested, Requires, Siblings, RequiredOf;
    var branches := node.members[K_ALL_OF].items;
    if i < |branches| {
      ConvertWalks(document, branches[i], chain);
    } else {
      PlainWalks(document, node, Siblings(node), chain);
    }
  }

  /** Only declared properties are nested in a merge, and each is some branch's own. */
  lemma MergedNested(parts: seq<Schema>)
    requires Merge(parts).Some?
    ensures NestedAccepted(Merge(parts).value) <==> forall p :: p in parts ==> NestedAccepted(p)
    ensures forall k :: k in Merge(parts).value.RequiredNames() <==> AllOf.SomeRequires(parts, k)
  {
    hide EntryAccepted, NestedAccepted, CanJoin;
    var acc := JoinAll(EMPTY, parts).value;
    AllOf.JoinAllCollects(EMPTY, parts);
    AllOf.JoinsIff(EMPTY, parts);
    assert NestedAccepted(ToSchema(acc)) <==> forall k :: k in acc.entries ==> EntryAccepted(acc.entries[k]) by {
      MergedIsNested(acc);
    }
    if forall p :: p in parts ==> NestedAccepted(p) {
      forall k | k in acc.entries ensures EntryAccepted(acc.entries[k]) {
        var p :| p in parts && k in p.Entries();
        BranchIsNested(p);
      }
    }
    if forall k :: k in acc.entries ==> EntryAccepted(acc.entries[k]) {
      forall p | p in parts ensures NestedAccepted(p) {
        BranchIsNested(p);
        forall k | k in p.Entries() ensures EntryAccepted(p.Entries()[k]) {
          assert AllOf.SomeDeclares(parts, k);
        }
      }
    }
  }

  lemma BranchIsNested(p: Schema)
    requires CanJoin(EMPTY, p)
    ensures NestedAccepted(p) <==> forall k :: k in p.Entries() ==> EntryAccepted(p.Entries()[k])
  {
    hide EntryAccepted;
    assert NestedAccepted(p) <==> PropertiesAccepted(p.properties);
    if forall k :: k in p.Entries() ==> EntryAccepted(p.Entries()[k]) {
      assert p.properties.Properties? ==> forall k :: k in p.properties.entries ==> EntryAccepted(p.Entries()[k]);
    }
  }

  lemma MergedIsNested(acc: Merged)
    ensures NestedAccepted(ToSchema(acc)) <==> forall k :: k in acc.entries ==> EntryAccepted(acc.entries[k])
  {
    hide EntryAccepted;
  }

  /** A merge is refused exactly when it is closed and requires a name no branch declares. */
  lemma MergedRefused(parts: seq<Schema>)
    requires Merge(parts).Some?
    ensures !NodeRefused(Merge(parts).value) <==>
            || AllOf.SomeOpen(parts)
            || forall k :: AllOf.SomeRequires(parts, k) ==> AllOf.SomeDeclares(parts, k)
  {
    hide AllOf.SomeOpen, AllOf.SomeRequires, AllOf.SomeDeclares;
    var s := Merge(parts).value;
    MergedNested(parts);
    ConversionMeaning.MergedNames(parts);
    assert ObjectType in s.types.names;
    assert RequiresUndeclared(s) <==> !AllOf.SomeOpen(parts) && exists k :: k in s.RequiredNames() && k !in s.Entries();
  }

  lemma {:induction false} PartRequirements(document: Json, node: Json, chain: seq<Text>, k: Text)
    requires node.Obj? && Lookup(node.members, K_ALL_OF).Arr?
    requires ConvertParts(document, node, chain).Some?
    ensures AllOf.SomeRequires(ConvertParts(document, node, chain).value, k) <==> SomePartRequires(document, node, chain, k)
    decreases Room(chain), node, 3, 1
  {
    hide ConvertPart, NestedAccepted, PartNested;
    var parts := ConvertParts(document, node, chain).value;
    if AllOf.SomeRequires(parts, k) {
      var i :| 0 <= i < |parts| && k in parts[i].RequiredNames();
      PartWalks(document, node, chain, i);
      assert IsPart(node, i) && PartRequires(document, node, chain, i, k);
    }
    forall i: nat | IsPart(node, i) && PartRequires(document, node, chain, i, k) ensures AllOf.SomeRequires(parts, k) {
      PartWalks(document, node, chain, i);
      assert parts[i] in parts;
    }
  }

  lemma {:induction false} AllOfWalks(document: Json, node: Json, chain: seq<Text>)
    requires node.Obj? && Lookup(node.members, K_ALL_OF).Arr?
    requires ConvertTarget(document, node, chain).Some?
    ensures var s := ConvertTarget(document, node, chain).value;
            && (!NodeRefused(s) <==> PartsFit(document, node, chain))
            && (NestedAccepted(s) <==> AllNested(document, node, chain))
            && (forall k :: k in s.RequiredNames() <==> SomePartRequires(document, node, chain, k))
    decreases Room(chain), node, 4
  {
    hide NodeRefused, NestedAccepted, ConvertPart, ConvertParts, PartNested, SomePartRequires, SomePartDeclares, SomePartOpen,
         Merge, AllOf.SomeDeclares, AllOf.SomeRequires, AllOf.SomeOpen;
    var parts := ConvertParts(document, node, chain).value;
    assert ConvertTarget(document, node, chain) == Merge(parts);
    MergedNested(parts);
    MergedRefused(parts);
    ConversionMeaning.PartsAgree(document, node, chain, Null);
    forall k ensures AllOf.SomeRequires(parts, k) <==> SomePartRequires(document, node, chain, k) {
      PartRequirements(document, node, chain, k);
    }
    PartsNest(document, node, chain);
  }

  lemma {:induction false} PartsNest(document: Json, node: Json, chain: seq<Text>)
    requires node.Obj? && Lookup(node.members, K_ALL_OF).Arr?
    requires ConvertParts(document, node, chain).Some?
    ensures (forall p :: p in ConvertParts(document, node, chain).value ==> NestedAccepted(p)) <==> AllNested(document, node, chain)
    decreases Room(chain), node, 3, 1
  {
    hide NestedAccepted, ConvertPart, PartNested, PartRequires;
    var parts := ConvertParts(document, node, chain).value;
    forall i | 0 <= i < |parts| ensures NestedAccepted(parts[i]) <==> PartNested(document, node, chain, i) {
      PartWalks(document, node, chain, i);
    }
    if AllNested(document, node, chain) {
      forall i | 0 <= i < |parts| ensures NestedAccepted(parts[i]) {
        assert PartNested(document, node, chain, i);
      }
    }
  }

  /**
   * The loader accepts the schema a node converts to exactly when the node and
   * all it leads to, through references and `allOf`, state object keywords
   * where an object is allowed and require declared names.
   */
  lemma LoaderAcceptsExactly(document: Json, node: Json, chain: seq<Text>)
    requires Convert(document, node, chain).Some?
    ensures KeywordsAccepted(Convert(document, node, chain).value) <==> Fits(document, node, chain)
  {
    hide KeywordsAccepted, Convert, Fits, Nested, Requires, NestedAccepted;
    ConvertWalks(document, node, chain);
  }
}
