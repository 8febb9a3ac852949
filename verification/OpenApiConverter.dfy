/** The converter's own loops, proved against the conversion function. */
module OpenApiConverter {
  import opened Text
  import opened Json
  import opened Options
  import opened Schema
  import opened OpenApiSchema
  import Refs

  /** `convertNode`. */
  method ConvertNode(document: Json, node: Json, chain: seq<Text>) returns (r: Option<Schema>)
    ensures r == Convert(document, node, chain)
    decreases Room(chain), node, 5
  {
    hide ConvertPlain, ConvertAllOf;
    if node.Bool? {
      return if node.b then Some(ANYTHING) else None;
    }
    var d := Refs.Dereference(document, node, chain);
    if d.None? || !d.value.value.Obj? { return None; }
    var target := d.value.value;
    if Lookup(target.members, K_ALL_OF).Arr? {
      r := MergeAllOf(document, target, d.value.chain);
    } else {
      r := ConvertKeywords(document, target, target.members, d.value.chain);
    }
  }

  method ConvertKeywords(document: Json, node: Json, m: Members, chain: seq<Text>) returns (r: Option<Schema>)
    requires node.Obj? && m.Items <= node.members.Items
    ensures r == ConvertPlain(document, node, m, chain)
    decreases Room(chain), node, 1
  {
    hide Convert, ResolveTypes, RequiredOf, MetadataOf, ConvertProperties;
    if Refused(m) { return None; }
    var types := ResolveTypes(m);
    if types.None? { return None; }
    var properties := ConvertDeclared(document, node, m, chain);
    if properties.None? { return None; }
    var required := RequiredOf(m);
    var additional := NoAdditional;
    var rawAdditional := Lookup(m, K_ADDITIONAL);
    if rawAdditional.Bool? {
      additional := if rawAdditional.b then Allowed else Denied;
    } else if !rawAdditional.Undefined? {
      KeywordIsSmaller(node, m, K_ADDITIONAL);
      var s := ConvertNode(document, rawAdditional, chain);
      if s.None? { return None; }
      additional := Extra(s.value);
    } else if DeclaresProperties(m) {
      additional := Denied;
    }
    var items := NoItems;
    var rawItems := Lookup(m, K_ITEMS);
    if !rawItems.Arr? && !rawItems.Undefined? {
      KeywordIsSmaller(node, m, K_ITEMS);
      var s := ConvertNode(document, rawItems, chain);
      if s.None? { return None; }
      items := Items(s.value);
    }
    return Some(Schema(types.value, EnumOf(m), properties.value,
                       if required == [] then NoRequired else Required(required), additional, items, MetadataOf(m)));
  }

  /** The loop over `properties`. */
  method ConvertDeclared(document: Json, node: Json, m: Members, chain: seq<Text>) returns (r: Option<Properties>)
    requires node.Obj? && m.Items <= node.members.Items
    ensures r == ConvertProperties(document, node, m, chain)
    decreases Room(chain), node, 0
  {
    hide Convert;
    if !DeclaresProperties(m) { return Some(NoProperties); }
    KeywordIsSmaller(node, m, K_PROPERTIES);
    var declared := m[K_PROPERTIES].members;
    var converted: map<Text, Entry> := map[];
    var names := declared.Keys;
    while names != {}
      invariant names <= declared.Keys
      invariant converted.Keys == declared.Keys - names
      invariant PROTO !in converted
      invariant forall k :: k in converted ==>
        Convert(document, declared[k], chain).Some? && converted[k] == Node(Convert(document, declared[k], chain).value)
      decreases names
    {
      var name :| name in names;
      if name == PROTO { return None; }
      var sub := ConvertNode(document, declared[name], chain);
      if sub.None? { return None; }
      converted := converted[name := Node(sub.value)];
      names := names - {name};
    }
    assert converted == map k | k in declared :: Node(Convert(document, declared[k], chain).value);
    return Some(Properties(converted));
  }

  /** `mergeAllOf`: convert a branch, check it, join it. */
  method MergeAllOf(document: Json, node: Json, chain: seq<Text>) returns (r: Option<Schema>)
    requires node.Obj? && Lookup(node.members, K_ALL_OF).Arr?
    ensures r == ConvertAllOf(document, node, chain)
    decreases Room(chain), node, 3
  {
    hide Convert, ConvertPlain, ConvertPart, CanJoin, Join, AddNames;
    var branches := node.members[K_ALL_OF].items;
    var siblings := Siblings(node);
    var n := PartCount(node);
    var acc := EMPTY;
    ghost var done: seq<Schema> := [];
    for i := 0 to n
      invariant |done| == i
      invariant forall j :: 0 <= j < i ==> ConvertPart(document, node, chain, j) == Some(done[j])
      invariant JoinAll(EMPTY, done) == Some(acc)
    {
      var part: Option<Schema>;
      if i < |branches| {
        part := ConvertNode(document, branches[i], chain);
      } else {
        part := ConvertKeywords(document, node, siblings, chain);
      }
      PartUnfolds(document, node, chain, i);
      if part.None? { return None; }
      JoinAllSnoc(EMPTY, done, part.value);
      done := done + [part.value];
      if !CanJoin(acc, part.value) {
        var parts := ConvertParts(document, node, chain);
        if parts.Some? {
          assert parts.value == done + parts.value[i + 1..];
          JoinAllPrefix(EMPTY, done, parts.value[i + 1..]);
        }
        return None;
      }
      acc := Join(acc, part.value);
    }
    PartsCollect(document, node, chain, done);
    return Some(ToSchema(acc));
  }

  lemma PartsCollect(document: Json, node: Json, chain: seq<Text>, parts: seq<Schema>)
    requires node.Obj? && Lookup(node.members, K_ALL_OF).Arr?
    requires |parts| == PartCount(node)
    requires forall j :: 0 <= j < |parts| ==> ConvertPart(document, node, chain, j) == Some(parts[j])
    ensures ConvertParts(document, node, chain) == Some(parts)
  {
    hide Convert, ConvertPlain;
    var r := ConvertParts(document, node, chain);
    assert r.Some? ==> r.value == parts;
  }

  lemma PartUnfolds(document: Json, node: Json, chain: seq<Text>, i: nat)
    requires node.Obj? && Lookup(node.members, K_ALL_OF).Arr? && i < PartCount(node)
    ensures var branches := node.members[K_ALL_OF].items;
            ConvertPart(document, node, chain, i) ==
            if i < |branches| then Convert(document, branches[i], chain)
            else ConvertPlain(document, node, Siblings(node), chain)
  {
    hide Convert, ConvertPlain;
  }

  lemma {:induction false} JoinAllSnoc(acc: Merged, parts: seq<Schema>, p: Schema)
    ensures var r := JoinAll(acc, parts);
            JoinAll(acc, parts + [p]) ==
            if r.Some? && CanJoin(r.value, p) then Some(Join(r.value, p)) else None
    decreases |parts|
  {
    hide CanJoin, Join;
    var all := parts + [p];
    if parts == [] {
      assert all[1..] == [];
    } else {
      assert all[1..] == parts[1..] + [p];
      JoinAllSnoc(Join(acc, parts[0]), parts[1..], p);
    }
  }

  lemma {:induction false} JoinAllPrefix(acc: Merged, a: seq<Schema>, b: seq<Schema>)
    requires JoinAll(acc, a).None?
    ensures JoinAll(acc, a + b).None?
    decreases |a|
  {
    hide CanJoin, Join;
    if a != [] {
      assert (a + b)[1..] == a[1..] + b;
      if CanJoin(acc, a[0]) { JoinAllPrefix(Join(acc, a[0]), a[1..], b); }
    }
  }

  // ---- Cycles ----

  /** One keyword the conversion descends through. */
  datatype Turn = ToProperty(name: Text) | ToAdditional | ToItems | ToBranch(i: nat)

  datatype Place = Place(node: Json, chain: seq<Text>)

  /** Where a turn leads from what a node refers to. */
  function Take(target: Json, chain: seq<Text>, turn: Turn): Option<Place>
    requires target.Obj?
  {
    var m := target.members;
    match turn
    case ToProperty(name) => if name in PropertiesOf(m) then Some(Place(PropertiesOf(m)[name], chain)) else None
    case ToAdditional =>
      var raw := Lookup(m, K_ADDITIONAL);
      if raw.Bool? || raw.Undefined? then None else Some(Place(raw, chain))
    case ToItems =>
      var raw := Lookup(m, K_ITEMS);
      if raw.Arr? || raw.Undefined? then None else Some(Place(raw, chain))
    case ToBranch(i) =>
      var branches := Lookup(m, K_ALL_OF);
      if branches.Arr? && i < |branches.items| then Some(Place(branches.items[i], chain)) else None
  }

  /** Where a series of turns leads, references followed on the way. */
  function Follow(document: Json, node: Json, chain: seq<Text>, turns: seq<Turn>): Option<Place>
    decreases |turns|
  {
    if turns == [] then Some(Place(node, chain))
    else
      var d := Refs.Deref(document, node, chain);
      if d.None? || !d.value.value.Obj? then None
      else
        var next := Take(d.value.value, d.value.chain, turns[0]);
        if next.None? then None else Follow(document, next.value.node, next.value.chain, turns[1..])
  }

  lemma PlainTurnConverts(document: Json, node: Json, m: Members, chain: seq<Text>, turn: Turn)
    requires node.Obj? && m.Items <= node.members.Items && (forall k :: k in node.members && k != K_ALL_OF ==> k in m)
    requires ConvertPlain(document, node, m, chain).Some?
    requires !turn.ToBranch? && Take(node, chain, turn).Some?
    ensures Convert(document, Take(node, chain, turn).value.node, chain).Some?
  {
    hide Convert, ResolveTypes, MetadataOf, RequiredOf;
    AllOfIsApart();
    SameKeywords(node, m);
    match turn
    case ToProperty(name) => assert Convert(document, PropertiesOf(m)[name], chain).Some?;
    case ToAdditional =>
    case ToItems =>
  }

  lemma AllOfIsApart()
    ensures K_ALL_OF != K_PROPERTIES && K_ALL_OF != K_ADDITIONAL && K_ALL_OF != K_ITEMS
  {
    assert |K_ALL_OF| == 5 && |K_PROPERTIES| == 10 && |K_ADDITIONAL| == 20;
    assert K_ALL_OF[0] == 'a' as int && K_ITEMS[0] == 'i' as int;
  }

  lemma SameKeywords(node: Json, m: Members)
    requires node.Obj? && m.Items <= node.members.Items && (forall k :: k in node.members && k != K_ALL_OF ==> k in m)
    ensures forall k :: k != K_ALL_OF ==> Lookup(m, k) == Lookup(node.members, k)
  {
    forall k | k != K_ALL_OF ensures Lookup(m, k) == Lookup(node.members, k) {
      if k in m { assert (k, m[k]) in m.Items; }
    }
  }

  /** What a converted node leads to in one turn is converted too. */
  lemma TurnConverts(document: Json, node: Json, chain: seq<Text>, turn: Turn)
    requires node.Obj? && ConvertTarget(document, node, chain).Some? && Take(node, chain, turn).Some?
    ensures Convert(document, Take(node, chain, turn).value.node, chain).Some?
  {
    hide Convert, ConvertPlain, ConvertPart, Merge;
    var whole := node.members;
    if !Lookup(whole, K_ALL_OF).Arr? {
      PlainTurnConverts(document, node, whole, chain, turn);
    } else {
      assert ConvertParts(document, node, chain).Some?;
      match turn
      case ToBranch(i) =>
        PartUnfolds(document, node, chain, i);
        assert ConvertPart(document, node, chain, i).Some?;
      case _ =>
        var last := |whole[K_ALL_OF].items|;
        assert Siblings(node) != map[] by { TurnNeedsKeyword(node, chain, turn); }
        PartUnfolds(document, node, chain, last);
        assert ConvertPart(document, node, chain, last).Some?;
        PlainTurnConverts(document, node, Siblings(node), chain, turn);
    }
  }

  lemma TurnNeedsKeyword(node: Json, chain: seq<Text>, turn: Turn)
    requires node.Obj? && !turn.ToBranch? && Take(node, chain, turn).Some?
    ensures |Siblings(node)| > 0
  {
    AllOfIsApart();
    var k := match turn case ToProperty(_) => K_PROPERTIES case ToAdditional => K_ADDITIONAL case _ => K_ITEMS;
    assert k in Siblings(node);
  }

  /** A schema converts only if everything it leads to does, through any keywords and references. */
  lemma {:induction false} EverythingReachedConverts(document: Json, node: Json, chain: seq<Text>, turns: seq<Turn>)
    requires Convert(document, node, chain).Some? && Follow(document, node, chain, turns).Some?
    ensures var place := Follow(document, node, chain, turns).value;
            Convert(document, place.node, place.chain).Some?
    decreases |turns|
  {
    hide ConvertTarget, Take, Refs.Deref, Convert;
    if turns != [] {
      var d := Refs.Deref(document, node, chain).value;
      assert !node.Bool? by { OnlyObjectsLead(document, node, chain); }
      FollowsTarget(document, node, chain);
      TurnConverts(document, d.value, d.chain, turns[0]);
      var next := Take(d.value, d.chain, turns[0]).value;
      assert next.chain == d.chain by { TurnsKeepChain(d.value, d.chain, turns[0]); }
      EverythingReachedConverts(document, next.node, next.chain, turns[1..]);
    }
  }

  lemma OnlyObjectsLead(document: Json, node: Json, chain: seq<Text>)
    ensures node.Bool? ==> Refs.Deref(document, node, chain) == Some(Refs.Dereferenced(node, chain))
  {
  }

  lemma TurnsKeepChain(target: Json, chain: seq<Text>, turn: Turn)
    requires target.Obj? && Take(target, chain, turn).Some?
    ensures Take(target, chain, turn).value.chain == chain
  {
  }

  /** The references under way only grow, and count the node's own. */
  lemma {:induction false} FollowGrows(document: Json, node: Json, chain: seq<Text>, turns: seq<Turn>)
    requires Follow(document, node, chain, turns).Some?
    ensures chain <= Follow(document, node, chain, turns).value.chain
    ensures turns != [] && Refs.IsRef(node) ==> Refs.Pointer(node) in Follow(document, node, chain, turns).value.chain
    decreases |turns|
  {
    hide Take, Refs.Deref;
    if turns != [] {
      var d := Refs.Deref(document, node, chain).value;
      var next := Take(d.value, d.chain, turns[0]).value;
      TurnsKeepChain(d.value, d.chain, turns[0]);
      FollowGrows(document, next.node, next.chain, turns[1..]);
      var last := Follow(document, node, chain, turns).value.chain;
      assert chain <= d.chain <= last;
      if Refs.IsRef(node) {
        Refs.DerefRecords(document, node, chain);
        assert last[|chain|] == d.chain[|chain|];
      }
    }
  }

  /**
   * A reference from which some series of properties, items, additional
   * properties and branches, across any references between, leads back to the
   * same pointer cannot be converted.
   */
  lemma RecursiveSchemaIsRefused(document: Json, node: Json, chain: seq<Text>, turns: seq<Turn>)
    requires turns != [] && Refs.IsRef(node) && Follow(document, node, chain, turns).Some?
    requires var back := Follow(document, node, chain, turns).value.node;
             Refs.IsRef(back) && Refs.Pointer(back) == Refs.Pointer(node)
    ensures Convert(document, node, chain).None?
  {
    hide Follow;
    var place := Follow(document, node, chain, turns).value;
    FollowGrows(document, node, chain, turns);
    Refs.CycleIsRefused(document, place.node, place.chain);
    if Convert(document, node, chain).Some? {
      EverythingReachedConverts(document, node, chain, turns);
    }
  }

  lemma FollowsTarget(document: Json, node: Json, chain: seq<Text>)
    requires !node.Bool? && Refs.Deref(document, node, chain).Some?
    requires Refs.Deref(document, node, chain).value.value.Obj?
    ensures var d := Refs.Deref(document, node, chain).value;
            Convert(document, node, chain) == ConvertTarget(document, d.value, d.chain)
  {
    hide Refs.Deref;
  }

  // ---- Which schemas convert ----

  /** A schema written without references or `allOf`, at any depth the converter reaches. */
  predicate SelfContained(node: Json)
    decreases node
  {
    node.Obj? ==>
      && !Refs.IsRef(node)
      && !Lookup(node.members, K_ALL_OF).Arr?
      && (DeclaresProperties(node.members) ==>
            forall k :: k in node.members[K_PROPERTIES].members ==>
              (PropertyIsSmaller(node, k); SelfContained(node.members[K_PROPERTIES].members[k])))
      && (K_ADDITIONAL in node.members ==> (MemberIsSmaller(node, K_ADDITIONAL); SelfContained(node.members[K_ADDITIONAL])))
      && (K_ITEMS in node.members ==> (MemberIsSmaller(node, K_ITEMS); SelfContained(node.members[K_ITEMS])))
  }

  lemma MemberIsSmaller(node: Json, k: Text)
    requires node.Obj? && k in node.members
    ensures node.members[k] < node
  {
  }

  lemma PropertyIsSmaller(node: Json, k: Text)
    requires node.Obj? && DeclaresProperties(node.members) && k in node.members[K_PROPERTIES].members
    ensures node.members[K_PROPERTIES].members[k] < node
  {
    assert node.members[K_PROPERTIES] < node;
  }

  /**
   * What the gateway can enforce: no choice or negation keyword, a JSON type
   * where a type is stated, no `__proto__` property, and the same of every
   * schema underneath.
   */
  predicate Enforceable(node: Json)
    decreases node
  {
    if node.Bool? then node.b
    else
      && node.Obj?
      && !Refused(node.members)
      && (TypeList(Lookup(node.members, K_TYPE)).Some? ==>
            exists t :: t in TypeList(Lookup(node.members, K_TYPE)).value && !t.UnknownType?)
      && (DeclaresProperties(node.members) ==>
            && PROTO !in node.members[K_PROPERTIES].members
            && forall k :: k in node.members[K_PROPERTIES].members ==>
                 (PropertyIsSmaller(node, k); Enforceable(node.members[K_PROPERTIES].members[k])))
      && (K_ADDITIONAL in node.members && !node.members[K_ADDITIONAL].Bool? && !node.members[K_ADDITIONAL].Undefined? ==>
            (MemberIsSmaller(node, K_ADDITIONAL); Enforceable(node.members[K_ADDITIONAL])))
      && (K_ITEMS in node.members && !node.members[K_ITEMS].Arr? && !node.members[K_ITEMS].Undefined? ==>
            (MemberIsSmaller(node, K_ITEMS); Enforceable(node.members[K_ITEMS])))
  }

  lemma TypesConvert(m: Members)
    ensures ResolveTypes(m).Some? <==>
            (TypeList(Lookup(m, K_TYPE)).Some? ==> exists t :: t in TypeList(Lookup(m, K_TYPE)).value && !t.UnknownType?)
  {
    var declared := TypeList(Lookup(m, K_TYPE));
    if declared.Some? {
      var known := Known(declared.value);
      if known != [] { assert known[0] in known; }
    }
  }

  /** A self-contained schema converts exactly when the gateway can enforce it. */
  lemma {:induction false} SelfContainedConvertsExactly(document: Json, node: Json, chain: seq<Text>)
    requires SelfContained(node)
    ensures Convert(document, node, chain).Some? <==> Enforceable(node)
    decreases node
  {
    hide ResolveTypes, TypeList, Refused, Known;
    ConvertSelf(document, node, chain);
    if node.Obj? {
      TypesConvert(node.members);
      PropertiesConvert(document, node, chain);
      KeywordConverts(document, node, chain, K_ADDITIONAL);
      KeywordConverts(document, node, chain, K_ITEMS);
    }
  }

  lemma ConvertSelf(document: Json, node: Json, chain: seq<Text>)
    requires node.Obj? ==> !Refs.IsRef(node) && !Lookup(node.members, K_ALL_OF).Arr?
    ensures Convert(document, node, chain).Some? <==>
            if node.Bool? then node.b
            else
              && node.Obj? && !Refused(node.members)
              && ResolveTypes(node.members).Some?
              && ConvertProperties(document, node, node.members, chain).Some?
              && ConvertAdditional(document, node, node.members, chain).Some?
              && ConvertItems(document, node, node.members, chain).Some?
  {
    hide ResolveTypes, Refused, ConvertProperties, ConvertAdditional, ConvertItems;
    if !node.Bool? {
      assert !Refs.IsRef(node);
      assert Refs.Deref(document, node, chain) == Some(Refs.Dereferenced(node, chain));
      if node.Obj? {
        assert Convert(document, node, chain) == ConvertPlain(document, node, node.members, chain);
      }
    }
  }

  lemma {:induction false} PropertiesConvert(document: Json, node: Json, chain: seq<Text>)
    requires SelfContained(node) && node.Obj?
    ensures ConvertProperties(document, node, node.members, chain).Some? <==>
            (DeclaresProperties(node.members) ==>
              && PROTO !in node.members[K_PROPERTIES].members
              && forall k :: k in node.members[K_PROPERTIES].members ==> Enforceable(node.members[K_PROPERTIES].members[k]))
    decreases node, 0
  {
    hide Convert, Enforceable;
    if DeclaresProperties(node.members) {
      var ps := node.members[K_PROPERTIES].members;
      forall k | k in ps ensures Convert(document, ps[k], chain).Some? <==> Enforceable(ps[k]) {
        PropertyIsSmaller(node, k);
        SelfContainedConvertsExactly(document, ps[k], chain);
      }
    }
  }

  lemma {:induction false} KeywordConverts(document: Json, node: Json, chain: seq<Text>, keyword: Text)
    requires SelfContained(node) && node.Obj? && keyword in {K_ADDITIONAL, K_ITEMS}
    ensures keyword == K_ADDITIONAL ==>
              (ConvertAdditional(document, node, node.members, chain).Some? <==>
                var raw := Lookup(node.members, keyword);
                raw.Bool? || raw.Undefined? || Enforceable(raw))
    ensures keyword == K_ITEMS ==>
              (ConvertItems(document, node, node.members, chain).Some? <==>
                var raw := Lookup(node.members, keyword);
                raw.Arr? || raw.Undefined? || Enforceable(raw))
    decreases node, 0
  {
    hide Convert, Enforceable;
    if keyword in node.members {
      MemberIsSmaller(node, keyword);
      SelfContainedConvertsExactly(document, node.members[keyword], chain);
    }
  }
}
