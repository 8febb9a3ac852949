/** Which imported operations become drafts the loader accepts, read off the OpenAPI document. */
module DraftLoading {
  import opened Text
  import opened Json
  import opened Options
  import opened Schema
  import opened PathTemplate
  import opened BackendRequest
  import opened RequestMapping
  import opened OpenApiSchema
  import opened ImportedRequests
  import opened ConvertedKeywords
  import ConfigBackend
  import Refs

  // ---- The conditions on the document ----

  /** A parameter that becomes a property of the generated schema. */
  ghost predicate Carried(document: Json, template: seq<Text>, m: Members) {
    var name, location := Lookup(m, K_NAME), Lookup(m, K_IN);
    && name.Str?
    && (location == Str(QUERY) || (location == Str(PATH) && name.s in template))
    && ConvertParameter(document, m, location == Str(PATH)).Some?
  }

  ghost predicate ParametersFit(document: Json, template: seq<Text>, table: Table) {
    forall i :: 0 <= i < |table| && Carried(document, template, table[i].1) ==>
      Fits(document, Lookup(table[i].1, K_SCHEMA), [])
  }

  /** The schema node of the chosen media type; `Undefined` when there is none. */
  function BodyNode(document: Json, candidate: Candidate, chosen: Option<Text>): Json {
    var d := Refs.Deref(document, candidate.requestBody, []);
    if d.None? || !d.value.value.Obj? then Undefined
    else
      var content := Lookup(d.value.value.members, K_CONTENT);
      if !content.Obj? || chosen.None? || chosen.value !in content.members then Undefined
      else
        var media := Refs.Deref(document, content.members[chosen.value], d.value.chain);
        if media.None? || !media.value.value.Obj? then Undefined
        else Lookup(media.value.value.members, K_SCHEMA)
  }

  ghost predicate BodyFits(document: Json, candidate: Candidate, chosen: Option<Text>) {
    var node := BodyNode(document, candidate, chosen);
    candidate.verb.AcceptsBody() && !node.Undefined? && Convert(document, node, []).Some? ==> Fits(document, node, [])
  }

  lemma BodyIsItsNode(document: Json, candidate: Candidate, chosen: Option<Text>)
    requires ResolveBody(document, candidate, chosen).Some?
    ensures var body := ResolveBody(document, candidate, chosen).value;
            body.BodySchema? ==> (KeywordsAccepted(body.schema) <==> BodyFits(document, candidate, chosen))
    ensures var body := ResolveBody(document, candidate, chosen).value;
            !body.BodySchema? ==> BodyFits(document, candidate, chosen)
  {
    hide Convert, KeywordsAccepted, Fits;
    var node := BodyNode(document, candidate, chosen);
    if !node.Undefined? && Convert(document, node, []).Some? { LoaderAcceptsExactly(document, node, []); }
    assert KeywordsAccepted(OPEN_OBJECT) by { OpenObjectAccepted(); }
  }

  lemma OpenObjectAccepted()
    ensures KeywordsAccepted(OPEN_OBJECT)
  {
  }

  // ---- Every property is some parameter's ----

  /** The property is parameter `i`, converted. */
  ghost predicate Is(document: Json, table: Table, i: nat, location: Text, k: Text, e: Entry) {
    && IsParameter(table, i, location, k)
    && e.Node? && ConvertParameter(document, table[i].1, location == PATH) == Some(e.schema)
  }

  ghost predicate ComesFrom(document: Json, table: Table, location: Text, k: Text, e: Entry) {
    exists i: nat :: Is(document, table, i, location, k, e)
  }

  /** Every property was there before or is a parameter, converted. */
  ghost predicate Sourced(document: Json, table: Table, location: Text, before: map<Text, Entry>, after: map<Text, Entry>) {
    forall k :: k in after ==> (k in before && after[k] == before[k]) || ComesFrom(document, table, location, k, after[k])
  }

  lemma {:induction false} EntriesAreParameters(document: Json, template: seq<Text>, acc: Groups, table: Table)
    requires AddParameters(document, template, acc, table).Some?
    ensures var r := AddParameters(document, template, acc, table).value;
            && Sourced(document, table, PATH, acc.path.entries, r.path.entries)
            && Sourced(document, table, QUERY, acc.query.entries, r.query.entries)
    decreases |table|
  {
    hide ConvertParameter, AddParameter, Sourced;
    if table == [] {
      NothingSourced(document, acc.path.entries, acc.query.entries);
    } else {
      var next := AddParameter(document, template, acc, table[0].1).value;
      EntriesAreParameters(document, template, next, table[1..]);
      var r := AddParameters(document, template, acc, table).value;
      OneEntry(document, template, acc, table);
      SourcedFurther(document, table, PATH, acc.path.entries, next.path.entries, r.path.entries);
      SourcedFurther(document, table, QUERY, acc.query.entries, next.query.entries, r.query.entries);
    }
  }

  lemma NothingSourced(document: Json, path: map<Text, Entry>, query: map<Text, Entry>)
    ensures Sourced(document, [], PATH, path, path) && Sourced(document, [], QUERY, query, query)
  {
  }

  /** What the first parameter adds is that parameter. */
  ghost predicate FirstAdds(document: Json, table: Table, location: Text, before: map<Text, Entry>, after: map<Text, Entry>) {
    forall k :: k in after ==> (k in before && after[k] == before[k]) || Is(document, table, 0, location, k, after[k])
  }

  lemma OneEntry(document: Json, template: seq<Text>, acc: Groups, table: Table)
    requires table != [] && AddParameter(document, template, acc, table[0].1).Some?
    ensures var r := AddParameter(document, template, acc, table[0].1).value;
            && FirstAdds(document, table, PATH, acc.path.entries, r.path.entries)
            && FirstAdds(document, table, QUERY, acc.query.entries, r.query.entries)
  {
    hide ConvertParameter, IgnoredHeader;
    LocationsDiffer();
    assert PATH != QUERY by { GroupsDiffer(); }
  }

  lemma SourcedFurther(document: Json, table: Table, location: Text,
                       a: map<Text, Entry>, b: map<Text, Entry>, c: map<Text, Entry>)
    requires table != [] && FirstAdds(document, table, location, a, b) && Sourced(document, table[1..], location, b, c)
    ensures Sourced(document, table, location, a, c)
  {
    hide ConvertParameter;
    forall k | k in c
      ensures (k in a && c[k] == a[k]) || ComesFrom(document, table, location, k, c[k])
    {
      if k in b && c[k] == b[k] {
        assert Is(document, table, 0, location, k, c[k]) || (k in a && c[k] == a[k]);
      } else {
        var i: nat :| Is(document, table[1..], i, location, k, c[k]);
        assert Is(document, table, i + 1, location, k, c[k]);
      }
    }
  }

  /** No two of the merged parameters share a location and a name. */
  lemma OneOfEachName(document: Json, parameters: seq<Json>, i: nat, j: nat, location: Text, name: Text)
    requires MergedParameters(document, parameters, []).Some?
    requires var table := MergedParameters(document, parameters, []).value;
             IsParameter(table, i, location, name) && IsParameter(table, j, location, name)
    ensures i == j
  {
    hide MergedParameters, Identity, LastDefinition;
    var table := MergedParameters(document, parameters, []).value;
    LastDefinitionWins(document, parameters, []);
    KeyIsIdentity(document, parameters, table, i);
    KeyIsIdentity(document, parameters, table, j);
    assert Identity(table[i].1) == Identity(table[j].1) by { SameIdentity(table[i].1, table[j].1); }
  }

  lemma SameIdentity(a: Members, b: Members)
    requires Lookup(a, K_IN) == Lookup(b, K_IN) && Lookup(a, K_NAME) == Lookup(b, K_NAME)
    ensures Identity(a) == Identity(b)
  {
  }

  lemma KeyIsIdentity(document: Json, parameters: seq<Json>, table: Table, i: nat)
    requires i < |table|
    requires forall k, m :: Find(table, k, m) ==>
               LastDefinition(document, parameters, k, m) || (Find([], k, m) && NoneAfter(document, parameters, -1, k))
    ensures table[i].0 == Identity(table[i].1)
  {
    var k, m := table[i].0, table[i].1;
    assert table[i] == (k, m);
    assert Find(table, k, m);
    assert LastDefinition(document, parameters, k, m);
  }

  // ---- The loader's walk over the generated schema ----

  lemma ParameterWalk(document: Json, m: Members, path: bool, e: Entry)
    requires e.Node? && ConvertParameter(document, m, path) == Some(e.schema)
    ensures EntryAccepted(e) <==> Fits(document, Lookup(m, K_SCHEMA), [])
  {
    hide Convert, KeywordsAccepted, Fits, IsPrimitive, StyleSupported;
    LoaderAcceptsExactly(document, Lookup(m, K_SCHEMA), []);
  }

  /** The parameters with one location. */
  ghost predicate LocationFits(document: Json, template: seq<Text>, table: Table, location: Text) {
    forall i :: 0 <= i < |table| && Lookup(table[i].1, K_IN) == Str(location) && Carried(document, template, table[i].1) ==>
      Fits(document, Lookup(table[i].1, K_SCHEMA), [])
  }

  ghost predicate EntriesAccepted(entries: map<Text, Entry>) {
    forall k :: k in entries ==> EntryAccepted(entries[k])
  }

  /** A group holds exactly the parameters of its location. */
  ghost predicate Collected(document: Json, template: seq<Text>, table: Table, location: Text, entries: map<Text, Entry>) {
    && (location == PATH || location == QUERY)
    && Sourced(document, table, location, map[], entries)
    && forall k :: k in entries <==>
         if location == PATH then k in template && HasParameter(table, PATH, k) else HasQuery(document, table, k)
  }

  lemma ParameterIsEntry(document: Json, parameters: seq<Json>, template: seq<Text>, location: Text, entries: map<Text, Entry>, i: nat)
    requires MergedParameters(document, parameters, []).Some?
    requires var table := MergedParameters(document, parameters, []).value;
             && Collected(document, template, table, location, entries) && i < |table|
             && Lookup(table[i].1, K_IN) == Str(location) && Carried(document, template, table[i].1)
    ensures var m := MergedParameters(document, parameters, []).value[i].1;
            var k := Lookup(m, K_NAME).s;
            k in entries && (EntryAccepted(entries[k]) <==> Fits(document, Lookup(m, K_SCHEMA), []))
  {
    hide MergedParameters, ConvertParameter, Fits, EntryAccepted;
    var table := MergedParameters(document, parameters, []).value;
    assert PATH != QUERY by { GroupsDiffer(); }
    var k := Lookup(table[i].1, K_NAME).s;
    assert IsParameter(table, i, location, k);
    assert k in entries;
    assert ComesFrom(document, table, location, k, entries[k]);
    var j: nat :| Is(document, table, j, location, k, entries[k]);
    OneOfEachName(document, parameters, i, j, location, k);
    ParameterWalk(document, table[i].1, location == PATH, entries[k]);
  }

  lemma EntryIsParameter(document: Json, template: seq<Text>, table: Table, location: Text, entries: map<Text, Entry>, k: Text)
    returns (i: nat)
    requires Collected(document, template, table, location, entries) && k in entries
    ensures i < |table| && Lookup(table[i].1, K_IN) == Str(location) && Carried(document, template, table[i].1)
    ensures EntryAccepted(entries[k]) <==> Fits(document, Lookup(table[i].1, K_SCHEMA), [])
  {
    hide ConvertParameter, Fits, EntryAccepted, HasParameter, HasQuery;
    assert PATH != QUERY by { GroupsDiffer(); }
    assert ComesFrom(document, table, location, k, entries[k]);
    i :| Is(document, table, i, location, k, entries[k]);
    ParameterWalk(document, table[i].1, location == PATH, entries[k]);
  }

  lemma GroupWalk(document: Json, parameters: seq<Json>, template: seq<Text>, location: Text, entries: map<Text, Entry>)
    requires MergedParameters(document, parameters, []).Some?
    requires Collected(document, template, MergedParameters(document, parameters, []).value, location, entries)
    ensures EntriesAccepted(entries) <==>
            LocationFits(document, template, MergedParameters(document, parameters, []).value, location)
  {
    hide MergedParameters, Fits, EntryAccepted, Collected, Carried;
    var table := MergedParameters(document, parameters, []).value;
    if EntriesAccepted(entries) {
      forall i | 0 <= i < |table| && Lookup(table[i].1, K_IN) == Str(location) && Carried(document, template, table[i].1)
        ensures Fits(document, Lookup(table[i].1, K_SCHEMA), [])
      {
        ParameterIsEntry(document, parameters, template, location, entries, i);
      }
    }
    if LocationFits(document, template, table, location) {
      forall k | k in entries ensures EntryAccepted(entries[k]) {
        var i := EntryIsParameter(document, template, table, location, entries, k);
      }
    }
  }

  lemma GroupsCollect(document: Json, template: seq<Text>, table: Table, groups: Groups)
    requires AddParameters(document, template, NO_GROUPS, table) == Some(groups)
    ensures Collected(document, template, table, PATH, groups.path.entries)
    ensures Collected(document, template, table, QUERY, groups.query.entries)
  {
    hide AddParameters, HasParameter, HasQuery, Sourced;
    assert PATH != QUERY by { GroupsDiffer(); }
    GroupsAreExact(document, template, NO_GROUPS, table);
    EntriesAreParameters(document, template, NO_GROUPS, table);
  }

  lemma BothLocations(document: Json, template: seq<Text>, table: Table)
    ensures ParametersFit(document, template, table) <==>
            LocationFits(document, template, table, PATH) && LocationFits(document, template, table, QUERY)
  {
    hide ConvertParameter, Fits;
  }

  /** The walk over the assembled schema is the walk over its properties' properties and its body. */
  lemma AssembledWalk(groups: Groups, body: BodyResult)
    requires WellGrouped(groups)
    ensures PartsAccepted(Assemble(groups, body).schema) <==>
            && EntriesAccepted(groups.path.entries) && EntriesAccepted(groups.query.entries)
            && (body.BodySchema? ==> KeywordsAccepted(body.schema))
  {
    hide Assemble, ClosedObject, KeywordsAccepted, IsPrimitive;
    var s := Assemble(groups, body).schema;
    Assembled(groups, body);
    GroupsDiffer();
    ClosedObjectFields(groups.path.entries, groups.path.names);
    ClosedObjectFields(groups.query.entries, groups.query.names);
    if PartsAccepted(s) {
      assert groups.path.entries != map[] ==> PartAccepted(s, PATH);
      assert groups.query.entries != map[] ==> PartAccepted(s, QUERY);
      assert body.BodySchema? ==> PartAccepted(s, BODY);
    }
  }

  /**
   * The loader accepts an imported draft exactly when its URL is whole and, in
   * the OpenAPI document, the schemas of its path and query parameters and of
   * its body put object keywords where an object is allowed and require
   * declared names, through every reference and `allOf` they lead to. The
   * importer checks the braces of the URL and none of the rest.
   */
  lemma DraftLoadsExactly(document: Json, candidate: Candidate, chosen: Option<Text>, server: Text, origin: Option<Text>)
    requires MapRequest(document, candidate, chosen).Mapped? && OPEN !in server
    ensures MergedParameters(document, candidate.parameters, []).Some?
    ensures var r := MapRequest(document, candidate, chosen);
            var handler := DraftHandler(candidate, server, r.bindings);
            ConfigBackend.Loads(handler, Some(r.schema), origin) <==>
            && !HasStrayBrace(Parse(handler.url))
            && (ConfigBackend.Templated(handler.url) ==>
                  origin.Some? && origin.value + [ConfigBackend.SLASH] <= ConfigBackend.LiteralHead(handler.url))
            && ParametersFit(document, Names(Parse(candidate.path)), MergedParameters(document, candidate.parameters, []).value)
            && BodyFits(document, candidate, chosen)
  {
    hide Assemble, Parse, KeywordsAccepted, PartsAccepted, HasStrayBrace, ConfigBackend.Loads, ConfigBackend.LiteralHead,
      ParametersFit, BodyFits, AddParameters, MergedParameters, ResolveBody, EntriesAccepted, HasParameter, HasQuery, Sourced,
      LocationFits, Collected;
    var template := Names(Parse(candidate.path));
    var table := MergedParameters(document, candidate.parameters, []).value;
    var groups, body := MappingHasGroups(document, candidate, chosen);
    ImportedDraftLoadsExactly(document, candidate, chosen, server, origin);
    AssembledWalk(groups, body);
    GroupsCollect(document, template, table, groups);
    GroupWalk(document, candidate.parameters, template, PATH, groups.path.entries);
    GroupWalk(document, candidate.parameters, template, QUERY, groups.query.entries);
    BothLocations(document, template, table);
    BodyIsItsNode(document, candidate, chosen);
  }

  // ---- Two operations ----

  const ROOT: Text := [ConfigBackend.SLASH]

  /** `POST /` with no parameter. */
  function Posting(requestBody: Json): Candidate {
    Candidate(Post, ROOT, [], requestBody)
  }

  /** A request body with one media type. */
  function BodyOf(media: Text, node: Json): Json {
    Obj(map[K_CONTENT := Obj(map[media := Obj(map[K_SCHEMA := node])])])
  }

  /** `{properties: {}, required: [k]}` */
  function Undeclaring(k: Text): Json {
    Obj(map[K_PROPERTIES := Obj(map[]), K_REQUIRED := Arr([Str(k)])])
  }

  lemma RootHasNoNames()
    ensures Names(Parse(ROOT)) == []
  {
    NoOpenBrace(ROOT, []);
    assert ROOT + [] == ROOT;
  }

  lemma PostingMaps(document: Json, requestBody: Json, chosen: Option<Text>)
    requires var b := ResolveBody(document, Posting(requestBody), chosen);
             b.Some? && !(b.value.UnsupportedBody? && b.value.required)
    ensures MapRequest(document, Posting(requestBody), chosen) ==
            Assemble(NO_GROUPS, ResolveBody(document, Posting(requestBody), chosen).value)
  {
    hide ResolveBody, Assemble, Parse;
    RootHasNoNames();
  }

  lemma KeysDiffer()
    ensures |Refs.REF| == 4 && |K_CONTENT| == 7 && |K_SCHEMA| == 6 && |K_PROPERTIES| == 10 && |K_REQUIRED| == 8
    ensures |K_TYPE| == 4 && |K_ENUM| == 4 && |K_ITEMS| == 5 && |K_ADDITIONAL| == 20 && |K_NULLABLE| == 8 && |K_ALL_OF| == 5
    ensures |U("oneOf")| == 5 && |U("anyOf")| == 5 && |U("not")| == 3 && |U("discriminator")| == 13 && |PROTO| == 9
  {
  }

  lemma UndeclaringNode(document: Json, k: Text)
    ensures Convert(document, Undeclaring(k), []).Some? && !Fits(document, Undeclaring(k), [])
  {
    hide ConvertPlain, KeywordsFit, NestedFit, Refs.Deref;
    KeysDiffer();
    var node := Undeclaring(k);
    assert !Refs.IsRef(node);
    UndeclaringConverts(document, node, k);
    UndeclaringKeywords(k);
    assert Refs.Deref(document, node, []) == Some(Refs.Dereferenced(node, [])) by { ItselfIsReached(document, node); }
  }

  lemma ItselfIsReached(document: Json, node: Json)
    requires !Refs.IsRef(node)
    ensures Refs.Deref(document, node, []) == Some(Refs.Dereferenced(node, []))
  {
  }

  lemma UndeclaringConverts(document: Json, node: Json, k: Text)
    requires node == Undeclaring(k)
    ensures ConvertPlain(document, node, node.members, []).Some?
  {
    hide Convert;
    KeysDiffer();
  }

  lemma UndeclaringKeywords(k: Text)
    ensures !KeywordsFit(Undeclaring(k).members)
  {
    KeysDiffer();
    var m := Undeclaring(k).members;
    assert K_PROPERTIES != K_REQUIRED && K_ADDITIONAL != K_REQUIRED && K_ADDITIONAL != K_PROPERTIES;
    assert m[K_REQUIRED] == Arr([Str(k)]) && m[K_PROPERTIES] == Obj(map[]);
    assert PropertiesOf(m) == map[];
    assert [Str(k)][1..] == [] && StringsOf([]) == [];
    assert StringsOf([Str(k)]) == [k];
    assert k in RequiredOf(m);
  }

  lemma BodyIsFound(document: Json, media: Text, node: Json)
    requires !node.Undefined? && Convert(document, node, []).Some?
    ensures BodyNode(document, Posting(BodyOf(media, node)), Some(media)) == node
    ensures ResolveBody(document, Posting(BodyOf(media, node)), Some(media)) ==
            Some(BodySchema(Convert(document, node, []).value, false))
  {
    hide Convert;
    KeysDiffer();
    assert !Refs.IsRef(BodyOf(media, node)) && !Refs.IsRef(Obj(map[K_SCHEMA := node]));
  }

  /**
   * `POST /` whose body is `{properties: {}, required: [k]}`: the importer maps
   * it without a word, and the loader refuses the draft.
   */
  lemma UndeclaredBodyNameIsRefused(document: Json, media: Text, k: Text, server: Text, origin: Option<Text>)
    requires OPEN !in server
    ensures var r := MapRequest(document, Posting(BodyOf(media, Undeclaring(k))), Some(media));
            && r.Mapped?
            && !ConfigBackend.Loads(DraftHandler(Posting(BodyOf(media, Undeclaring(k))), server, r.bindings), Some(r.schema), origin)
  {
    hide Convert, Fits, ResolveBody, BodyNode, MapRequest, ConfigBackend.Loads, ParametersFit;
    var node := Undeclaring(k);
    UndeclaringNode(document, k);
    BodyIsFound(document, media, node);
    PostingMaps(document, BodyOf(media, node), Some(media));
    DraftLoadsExactly(document, Posting(BodyOf(media, node)), Some(media), server, origin);
  }

  /**
   * `POST /` with neither parameters nor body: the draft has no bindings, so
   * the empty object it accepts is sent as a body the document never mentions.
   */
  lemma UnaskedBodyIsSent(document: Json, server: Text)
    requires OPEN !in server
    ensures var r := MapRequest(document, Posting(Undefined), None);
            && r.Mapped? && NoBindings(r.bindings)
            && (forall v :: Accepts(r.schema, v) <==> v == Obj(map[]))
            && var parts := BuildParts(DraftHandler(Posting(Undefined), server, r.bindings), map[]);
               parts.Built? && parts.value.query == map[] && parts.value.body == Some(Obj(map[]))
  {
    hide Assemble, Accepts, MapRequest, BuildParts, Parse;
    assert ResolveBody(document, Posting(Undefined), None) == Some(NoBody);
    PostingMaps(document, Undefined, None);
    Assembled(NO_GROUPS, NoBody);
    RootHasNoNames();
    NoOpenBrace(server, ROOT);
    var s := Assemble(NO_GROUPS, NoBody).schema;
    assert s.Entries() == map[] && s.RequiredNames() == [] by { NothingRequired(); }
    forall v ensures Accepts(s, v) <==> v == Obj(map[]) {
      ClosedObjectAccepts(map[], [], v);
      if v.Obj? && v.members.Keys == {} { assert v.members == map[]; }
    }
    UnboundBuild(Posting(Undefined), server, NO_GROUPS, NoBody, Obj(map[]));
  }

  lemma NothingRequired()
    ensures Assemble(NO_GROUPS, NoBody).schema == ClosedObject(map[], [])
  {
  }
}
