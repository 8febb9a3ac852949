/** What an imported operation's generated schema and bindings promise at call time. */
module ImportedRequests {
  import opened Text
  import opened Json
  import opened Options
  import opened Schema
  import opened PathTemplate
  import opened BackendRequest
  import opened RequestMapping
  import opened OpenApiSchema
  import ConfigBackend
  import Refs

  // ---- What the parameter loop collects ----

  /** Entry `i` of the merged parameters is the one with this location and name. */
  ghost predicate IsParameter(table: Table, i: nat, location: Text, name: Text) {
    && i < |table|
    && Lookup(table[i].1, K_IN) == Str(location)
    && Lookup(table[i].1, K_NAME) == Str(name)
  }

  ghost predicate HasParameter(table: Table, location: Text, name: Text) {
    exists i: nat :: IsParameter(table, i, location, name)
  }

  /** A query parameter the gateway can serialize. */
  ghost predicate HasQuery(document: Json, table: Table, name: Text) {
    exists i: nat :: IsParameter(table, i, QUERY, name) && ConvertParameter(document, table[i].1, false).Some?
  }

  ghost predicate FirstIsQuery(document: Json, table: Table, name: Text)
    requires table != []
  {
    IsParameter(table, 0, QUERY, name) && ConvertParameter(document, table[0].1, false).Some?
  }

  lemma HasParameterCons(table: Table, location: Text, name: Text)
    requires table != []
    ensures HasParameter(table, location, name) <==>
            IsParameter(table, 0, location, name) || HasParameter(table[1..], location, name)
  {
    var rest := table[1..];
    if HasParameter(rest, location, name) {
      var i: nat :| IsParameter(rest, i, location, name);
      assert IsParameter(table, i + 1, location, name);
    }
    if HasParameter(table, location, name) {
      var i: nat :| IsParameter(table, i, location, name);
      if i > 0 { assert IsParameter(rest, i - 1, location, name); }
    }
  }

  lemma HasQueryCons(document: Json, table: Table, name: Text)
    requires table != []
    ensures HasQuery(document, table, name) <==>
            FirstIsQuery(document, table, name) || HasQuery(document, table[1..], name)
  {
    hide ConvertParameter;
    var rest := table[1..];
    if HasQuery(document, rest, name) {
      var i: nat :| IsParameter(rest, i, QUERY, name) && ConvertParameter(document, rest[i].1, false).Some?;
      assert IsParameter(table, i + 1, QUERY, name) && table[i + 1] == rest[i];
    }
    if HasQuery(document, table, name) {
      var i: nat :| IsParameter(table, i, QUERY, name) && ConvertParameter(document, table[i].1, false).Some?;
      if i > 0 { assert IsParameter(rest, i - 1, QUERY, name) && rest[i - 1] == table[i]; }
    }
  }

  /** Every property is a primitive schema, and `names` lists declared properties. */
  ghost predicate Flat(g: Group) {
    && (forall k :: k in g.entries ==> g.entries[k].Node? && IsPrimitive(g.entries[k].schema))
    && (forall k :: k in g.names ==> k in g.entries)
  }

  ghost predicate WellGrouped(g: Groups) {
    && Flat(g.path) && Flat(g.query)
    && forall k :: k in g.path.entries ==> k in g.path.names
  }

  lemma OneParameter(document: Json, template: seq<Text>, acc: Groups, m: Members)
    requires AddParameter(document, template, acc, m).Some? && WellGrouped(acc)
    ensures var r := AddParameter(document, template, acc, m).value;
            && WellGrouped(r)
            && (forall k :: k in r.path.entries <==>
                  || k in acc.path.entries
                  || (k in template && Lookup(m, K_IN) == Str(PATH) && Lookup(m, K_NAME) == Str(k)))
            && (forall k :: k in r.query.entries <==>
                  || k in acc.query.entries
                  || (Lookup(m, K_IN) == Str(QUERY) && Lookup(m, K_NAME) == Str(k) && ConvertParameter(document, m, false).Some?))
  {
    hide ConvertParameter, IgnoredHeader, IsPrimitive;
    assert PATH != QUERY;
    assert HEADER != PATH && HEADER != QUERY by { LocationsDiffer(); }
  }

  lemma LocationsDiffer()
    ensures HEADER != PATH && HEADER != QUERY
  {
    assert |HEADER| == 6 && |PATH| == 4 && |QUERY| == 5;
  }

  /**
   * An operation that is not skipped collects exactly the template's path
   * parameters and the query parameters the gateway can serialize.
   */
  lemma {:induction false} GroupsAreExact(document: Json, template: seq<Text>, acc: Groups, table: Table)
    requires AddParameters(document, template, acc, table).Some? && WellGrouped(acc)
    ensures var r := AddParameters(document, template, acc, table).value;
            && WellGrouped(r)
            && (forall k :: k in r.path.entries <==>
                  k in acc.path.entries || (k in template && HasParameter(table, PATH, k)))
            && (forall k :: k in r.query.entries <==> k in acc.query.entries || HasQuery(document, table, k))
    decreases |table|
  {
    hide ConvertParameter, AddParameter, WellGrouped, HasParameter, HasQuery;
    if table == [] {
      NothingThere(document);
    } else {
      var m := table[0].1;
      OneParameter(document, template, acc, m);
      GroupsAreExact(document, template, AddParameter(document, template, acc, m).value, table[1..]);
      forall k ensures HasParameter(table, PATH, k) <==> IsParameter(table, 0, PATH, k) || HasParameter(table[1..], PATH, k) {
        HasParameterCons(table, PATH, k);
      }
      forall k ensures HasQuery(document, table, k) <==> FirstIsQuery(document, table, k) || HasQuery(document, table[1..], k) {
        HasQueryCons(document, table, k);
      }
    }
  }

  lemma NothingThere(document: Json)
    ensures forall k :: !HasParameter([], PATH, k) && !HasQuery(document, [], k)
  {
  }

  /** A parameter the operation cannot do without and the gateway cannot send. */
  ghost predicate Fatal(document: Json, m: Members) {
    var name, location := Lookup(m, K_NAME), Lookup(m, K_IN);
    && name.Str? && location.Str?
    && (location.s == PATH || Lookup(m, K_REQUIRED) == Bool(true))
    && if location.s == PATH || location.s == QUERY then ConvertParameter(document, m, location.s == PATH).None?
       else !(location.s == HEADER && IgnoredHeader(m))
  }

  lemma OneIsFatal(document: Json, template: seq<Text>, acc: Groups, m: Members)
    ensures AddParameter(document, template, acc, m).None? <==> Fatal(document, m)
  {
    hide ConvertParameter, IgnoredHeader;
    LocationsDiffer();
  }

  ghost predicate SomeFatal(document: Json, table: Table) {
    exists i :: 0 <= i < |table| && Fatal(document, table[i].1)
  }

  lemma SomeFatalCons(document: Json, table: Table)
    requires table != []
    ensures SomeFatal(document, table) <==> Fatal(document, table[0].1) || SomeFatal(document, table[1..])
  {
    hide Fatal;
    if SomeFatal(document, table) {
      var i :| 0 <= i < |table| && Fatal(document, table[i].1);
      if i > 0 { assert table[1..][i - 1] == table[i]; }
    }
    if SomeFatal(document, table[1..]) {
      var i :| 0 <= i < |table[1..]| && Fatal(document, table[1..][i].1);
      assert table[i + 1] == table[1..][i];
    }
  }

  /** The parameters skip an operation exactly when one of them is fatal, in whatever order they come. */
  lemma {:induction false} SkippedExactly(document: Json, template: seq<Text>, acc: Groups, table: Table)
    ensures AddParameters(document, template, acc, table).None? <==> SomeFatal(document, table)
    decreases |table|
  {
    hide AddParameter, Fatal, SomeFatal;
    if table == [] {
      NothingFatal(document);
    } else {
      OneIsFatal(document, template, acc, table[0].1);
      SomeFatalCons(document, table);
      var next := AddParameter(document, template, acc, table[0].1);
      if next.Some? { SkippedExactly(document, template, next.value, table[1..]); }
    }
  }

  lemma NothingFatal(document: Json)
    ensures !SomeFatal(document, [])
  {
  }

  // ---- Accepting the generated schema ----

  lemma ClosedObjectAccepts(entries: map<Text, Entry>, required: seq<Text>, v: Json)
    ensures Accepts(ClosedObject(entries, required), v) <==>
            && v.Obj?
            && (forall k :: k in required ==> k in v.members)
            && (forall k :: k in v.members ==>
                  k in entries && (entries[k].Node? ==> Accepts(entries[k].schema, v.members[k])))
  {
    var s := ClosedObject(entries, required);
    assert s.RequiredNames() == required;
    assert s.Entries() == entries;
    assert TypeAccepts(s.types, v) <==> v.Obj? by {
      assert s.types.names == [ObjectType] && ObjectType in s.types.names;
      assert MatchesType(ObjectType, v) <==> v.Obj?;
    }
    if v.Obj? {
      forall k | k in v.members
        ensures AcceptsMember(s, v, k) <==> k in entries && (entries[k].Node? ==> Accepts(entries[k].schema, v.members[k]))
      {
      }
    }
  }

  /** The groups and body behind a mapped operation. */
  ghost predicate MappedFrom(document: Json, candidate: Candidate, groups: Groups, body: BodyResult, r: Mapping) {
    && WellGrouped(groups)
    && (forall k :: k in groups.path.entries <==> k in Names(Parse(candidate.path)))
    && (body.BodySchema? ==> candidate.verb.AcceptsBody())
    && r == Assemble(groups, body)
  }

  lemma MappingHasGroups(document: Json, candidate: Candidate, chosen: Option<Text>) returns (groups: Groups, body: BodyResult)
    requires MapRequest(document, candidate, chosen).Mapped?
    ensures MappedFrom(document, candidate, groups, body, MapRequest(document, candidate, chosen))
    ensures AddParameters(document, Names(Parse(candidate.path)), NO_GROUPS, MergedParameters(document, candidate.parameters, []).value)
            == Some(groups)
    ensures ResolveBody(document, candidate, chosen) == Some(body)
    ensures forall k :: k in groups.query.entries ==> HasQuery(document, MergedParameters(document, candidate.parameters, []).value, k)
  {
    hide MergedParameters, AddParameters, Assemble, ConvertParameter, Convert;
    var template := Names(Parse(candidate.path));
    var table := MergedParameters(document, candidate.parameters, []).value;
    GroupsAreExact(document, template, NO_GROUPS, table);
    groups := AddParameters(document, template, NO_GROUPS, table).value;
    body := ResolveBody(document, candidate, chosen).value;
  }

  lemma Assembled(groups: Groups, body: BodyResult)
    ensures var r := Assemble(groups, body);
            var required := r.schema.RequiredNames();
            var entries := r.schema.Entries();
            && r.Mapped?
            && r.schema == ClosedObject(entries, required)
            && entries.Keys == (if groups.path.entries != map[] then {PATH} else {})
                               + (if groups.query.entries != map[] then {QUERY} else {})
                               + (if body.BodySchema? then {BODY} else {})
            && (groups.path.entries != map[] ==>
                 && PATH in required
                 && entries[PATH] == Node(ClosedObject(groups.path.entries, groups.path.names)))
            && (groups.query.entries != map[] ==>
                 entries[QUERY] == Node(ClosedObject(groups.query.entries, groups.query.names)))
            && (body.BodySchema? ==> entries[BODY] == Node(body.schema))
            && (body.BodySchema? && body.required ==> BODY in required)
            && r.bindings == Bindings(if groups.path.entries != map[] then Some(PATH) else None,
                                      if groups.query.entries != map[] then Some(QUERY) else None,
                                      if body.BodySchema? then Some(BODY) else None)
  {
    assert PATH != QUERY && PATH != BODY && QUERY != BODY by { GroupsDiffer(); }
  }

  lemma GroupsDiffer()
    ensures PATH != QUERY && PATH != BODY && QUERY != BODY
  {
    assert |PATH| == 4 && |QUERY| == 5 && |BODY| == 4 && PATH[0] != BODY[0];
  }

  predicate NoBindings(b: Bindings) {
    b.path.None? && b.query.None? && b.body.None?
  }

  /** The backend a draft is written with: an empty binding block is left out. */
  function DraftHandler(candidate: Candidate, server: Text, b: Bindings): Handler {
    Handler(candidate.verb, server + candidate.path, if NoBindings(b) then None else Some(b))
  }

  /** What an accepted input looks like, group by group. */
  lemma AcceptedInput(groups: Groups, body: BodyResult, v: Json)
    requires WellGrouped(groups) && Accepts(Assemble(groups, body).schema, v)
    ensures v.Obj?
    ensures forall k :: k in v.members ==> k in {PATH, QUERY, BODY}
    ensures groups.path.entries != map[] ==>
              && PATH in v.members && v.members[PATH].Obj?
              && v.members[PATH].members.Keys == groups.path.entries.Keys
    ensures QUERY in v.members ==>
              && groups.query.entries != map[] && v.members[QUERY].Obj?
              && v.members[QUERY].members.Keys <= groups.query.entries.Keys
    ensures PATH in v.members ==> groups.path.entries != map[]
    ensures BODY in v.members ==> body.BodySchema? && Accepts(body.schema, v.members[BODY])
    ensures body.BodySchema? && body.required ==> BODY in v.members
  {
    hide Accepts, Assemble, ClosedObject, IsPrimitive;
    Assembled(groups, body);
    var schema := Assemble(groups, body).schema;
    ClosedObjectAccepts(schema.Entries(), schema.RequiredNames(), v);
    GroupsDiffer();
    if groups.path.entries != map[] {
      ClosedObjectAccepts(groups.path.entries, groups.path.names, v.members[PATH]);
      assert v.members[PATH].members.Keys == groups.path.entries.Keys;
    }
    if QUERY in v.members {
      ClosedObjectAccepts(groups.query.entries, groups.query.names, v.members[QUERY]);
    }
  }

  /** The object path values are read from. */
  function PathValues(v: Json): Members
    requires v.Obj?
  {
    var group := Lookup(v.members, PATH);
    if group.Obj? then group.members else map[]
  }

  lemma NamesOfGroup(entries: map<Text, Entry>, names: seq<Text>)
    requires forall k :: k in entries <==> k in names
    ensures entries == map[] <==> names == []
  {
    if names != [] { assert names[0] in names; }
    if entries != map[] { assert entries.Keys != {}; var k :| k in entries.Keys; }
  }

  lemma OnlyPathFails(handler: Handler, input: Members)
    requires handler.bindings.Some? && Distinct(Names(Parse(handler.url)))
    requires var b := handler.bindings.value;
             && BoundGroup(input, b.path).Built? && BoundGroup(input, b.query).Built?
             && forall k :: k in Names(Parse(handler.url)) ==> k in BoundGroup(input, b.path).value
    requires BuildParts(handler, input).Refused?
    ensures BuildParts(handler, input).failure.UriError? || BuildParts(handler, input).failure.InvalidParameter?
  {
    hide Parse;
    MissingMeansMissing(handler.url, BoundGroup(input, handler.bindings.value.path).value);
  }

  /** An operation with neither parameters nor body accepts only the empty object. */
  lemma UnboundBuild(candidate: Candidate, server: Text, groups: Groups, body: BodyResult, v: Json)
    requires WellGrouped(groups) && Accepts(Assemble(groups, body).schema, v)
    requires NoBindings(Assemble(groups, body).bindings) && Names(Parse(server + candidate.path)) == []
    ensures v == Obj(map[])
    ensures var r := BuildParts(DraftHandler(candidate, server, Assemble(groups, body).bindings), v.members);
            && r.Built? && r.value.query == map[]
            && r.value.body == if candidate.verb.AcceptsBody() then Some(Obj(map[])) else None
  {
    hide Accepts, Assemble, Apply, Parse;
    Assembled(groups, body);
    AcceptedInput(groups, body, v);
    assert v.members == map[];
    ApplyIsExact(server + candidate.path, v.members);
    assert v.members - NameSet(Parse(server + candidate.path)) == map[];
  }

  /** An accepted input supplies every bound group as an object. */
  lemma BoundGroups(groups: Groups, body: BodyResult, v: Json)
    requires WellGrouped(groups) && Accepts(Assemble(groups, body).schema, v)
    ensures v.Obj?
    ensures var b := Assemble(groups, body).bindings;
            var path, query := BoundGroup(v.members, b.path), BoundGroup(v.members, b.query);
            && path == Built(PathValues(v))
            && (forall k :: k in groups.path.entries ==> k in PathValues(v))
            && query.Built? && query.value.Keys <= groups.query.entries.Keys
            && (b.body.None? ==> BODY !in v.members)
            && (b.body.Some? <==> body.BodySchema?) && (b.body.Some? ==> b.body.value == BODY)
  {
    hide Accepts, Assemble, WellGrouped;
    Assembled(groups, body);
    AcceptedInput(groups, body, v);
  }

  lemma BoundBuild(candidate: Candidate, server: Text, groups: Groups, body: BodyResult, v: Json)
    requires WellGrouped(groups) && Accepts(Assemble(groups, body).schema, v)
    requires body.BodySchema? ==> candidate.verb.AcceptsBody()
    requires !NoBindings(Assemble(groups, body).bindings)
    requires var names := Names(Parse(server + candidate.path));
             Distinct(names) && forall k :: k in groups.path.entries <==> k in names
    ensures v.Obj?
    ensures var names := Names(Parse(server + candidate.path));
            var r := BuildParts(DraftHandler(candidate, server, Assemble(groups, body).bindings), v.members);
            && (forall k :: k in names ==> k in PathValues(v))
            && (r.Built? <==> forall k :: k in names ==> Usable(PathValues(v)[k]))
            && (r.Refused? ==> r.failure.UriError? || r.failure.InvalidParameter?)
            && (r == Refused(UriError) <==> exists k :: k in names && Unpaired(PathValues(v)[k]))
            && (r.Built? ==>
                 && r.value.query.Keys <= groups.query.entries.Keys
                 && (r.value.body.Some? <==> !Lookup(v.members, BODY).Undefined?)
                 && (r.value.body.Some? ==> r.value.body.value == v.members[BODY]))
  {
    hide Accepts, Assemble, Apply, Parse, Usable, BuildParts, Distinct, BoundGroup, PathValues, WellGrouped, Unpaired;
    var handler := DraftHandler(candidate, server, Assemble(groups, body).bindings);
    BoundGroups(groups, body, v);
    NamesOfGroup(groups.path.entries, Names(Parse(handler.url)));
    BoundRequestIsExact(handler, v.members);
    BuildThrowsExactly(handler, v.members);
    if BuildParts(handler, v.members).Refused? { OnlyPathFails(handler, v.members); }
  }

  /**
   * Every input the generated schema accepts builds a request, unless a path
   * value is `null`, prints as empty or a dot segment, or has a lone surrogate;
   * the last is the one that ends in a `URIError`.
   * Query keys are declared ones; the body is sent exactly when the input
   * supplies it, except that an operation with neither parameters nor body
   * falls back to the default mapping and sends an empty object.
   */
  lemma ImportedOperationsBuild(document: Json, candidate: Candidate, chosen: Option<Text>, server: Text, v: Json)
    requires MapRequest(document, candidate, chosen).Mapped?
    requires Distinct(Names(Parse(candidate.path))) && OPEN !in server
    requires Accepts(MapRequest(document, candidate, chosen).schema, v)
    ensures v.Obj?
    ensures var names := Names(Parse(candidate.path));
            var b := MapRequest(document, candidate, chosen).bindings;
            var r := BuildParts(DraftHandler(candidate, server, b), v.members);
            && (forall k :: k in names ==> k in PathValues(v))
            && (r.Built? <==> forall k :: k in names ==> Usable(PathValues(v)[k]))
            && (r.Refused? ==> r.failure.UriError? || r.failure.InvalidParameter?)
            && (r == Refused(UriError) <==> exists k :: k in names && Unpaired(PathValues(v)[k]))
            && (r.Built? ==>
                 && (forall k :: k in r.value.query ==>
                       HasQuery(document, MergedParameters(document, candidate.parameters, []).value, k))
                 && (r.value.body.Some? <==>
                       if NoBindings(b) then candidate.verb.AcceptsBody() else !Lookup(v.members, BODY).Undefined?)
                 && (r.value.body.Some? ==>
                       r.value.body.value == if NoBindings(b) then Obj(map[]) else v.members[BODY]))
  {
    hide Accepts, MapRequest, Assemble, MergedParameters, BuildParts, Parse, Usable, HasQuery, Distinct;
    var groups, body := MappingHasGroups(document, candidate, chosen);
    Assembled(groups, body);
    NoOpenBrace(server, candidate.path);
    NamesOfGroup(groups.path.entries, Names(Parse(candidate.path)));
    if NoBindings(Assemble(groups, body).bindings) {
      UnboundBuild(candidate, server, groups, body, v);
    } else {
      BoundBuild(candidate, server, groups, body, v);
    }
  }

  /**
   * The config loader accepts every generated binding block, and finds every
   * path parameter declared and required where it looks for it.
   */
  lemma ImportedBindingsPass(document: Json, candidate: Candidate, chosen: Option<Text>, server: Text)
    requires MapRequest(document, candidate, chosen).Mapped? && OPEN !in server
    ensures var r := MapRequest(document, candidate, chosen);
            var handler := DraftHandler(candidate, server, r.bindings);
            var scope := ConfigBackend.PathScope(handler, Some(r.schema));
            && ConfigBackend.BindingsPass(handler, Some(r.schema))
            && forall k :: k in Names(Parse(handler.url)) ==>
                 k in ConfigBackend.Declared(scope) && k in ConfigBackend.RequiredIn(scope)
  {
    hide MapRequest, Assemble, MergedParameters, Parse, HasQuery, ConfigBackend.BindingsPass, ConfigBackend.PathScope,
         ConfigBackend.Declared, ConfigBackend.RequiredIn, IsPrimitive;
    var groups, body := MappingHasGroups(document, candidate, chosen);
    NoOpenBrace(server, candidate.path);
    AssembledBindingsPass(candidate, server, groups, body);
    AssembledScope(candidate, server, groups, body);
  }

  lemma AssembledBindingsPass(candidate: Candidate, server: Text, groups: Groups, body: BodyResult)
    requires WellGrouped(groups) && (body.BodySchema? ==> candidate.verb.AcceptsBody())
    requires forall k :: k in groups.path.entries <==> k in Names(Parse(server + candidate.path))
    ensures var r := Assemble(groups, body);
            ConfigBackend.BindingsPass(DraftHandler(candidate, server, r.bindings), Some(r.schema))
  {
    hide Assemble, Parse, ClosedObject, IsPrimitive, WellGrouped, ConfigBackend.BindingFits, ConfigBackend.Separate;
    Assembled(groups, body);
    NamesOfGroup(groups.path.entries, Names(Parse(server + candidate.path)));
    var r := Assemble(groups, body);
    if !NoBindings(r.bindings) {
      GroupsAreObjectNodes(groups, body);
      GroupsFit(DraftHandler(candidate, server, r.bindings), r.bindings, r.schema);
    }
  }

  /** Where config looks for path parameters, they are declared and required. */
  lemma AssembledScope(candidate: Candidate, server: Text, groups: Groups, body: BodyResult)
    requires WellGrouped(groups)
    requires forall k :: k in groups.path.entries <==> k in Names(Parse(server + candidate.path))
    ensures var r := Assemble(groups, body);
            var scope := ConfigBackend.PathScope(DraftHandler(candidate, server, r.bindings), Some(r.schema));
            forall k :: k in Names(Parse(server + candidate.path)) ==>
              k in ConfigBackend.Declared(scope) && k in ConfigBackend.RequiredIn(scope)
  {
    hide Assemble, Parse, ClosedObject, IsPrimitive;
    Assembled(groups, body);
    NamesOfGroup(groups.path.entries, Names(Parse(server + candidate.path)));
    ClosedObjectFields(groups.path.entries, groups.path.names);
  }

  lemma ClosedObjectFields(entries: map<Text, Entry>, required: seq<Text>)
    ensures var s := ClosedObject(entries, required);
            s.Entries() == entries && s.RequiredNames() == required && IsObjectNode(s)
  {
  }

  lemma GroupsAreObjectNodes(groups: Groups, body: BodyResult)
    ensures var entries := Assemble(groups, body).schema.Entries();
            && (groups.path.entries != map[] ==> entries[PATH].Node? && IsObjectNode(entries[PATH].schema))
            && (groups.query.entries != map[] ==> entries[QUERY].Node? && IsObjectNode(entries[QUERY].schema))
  {
    hide Assemble, ClosedObject;
    Assembled(groups, body);
    ClosedObjectFields(groups.path.entries, groups.path.names);
    ClosedObjectFields(groups.query.entries, groups.query.names);
  }

  lemma GroupsFit(handler: Handler, b: Bindings, schema: Schema)
    requires b.path.Some? ==>
               b.path.value == PATH && PATH in schema.Entries() && schema.Entries()[PATH].Node? && IsObjectNode(schema.Entries()[PATH].schema)
    requires b.query.Some? ==>
               b.query.value == QUERY && QUERY in schema.Entries() && schema.Entries()[QUERY].Node? && IsObjectNode(schema.Entries()[QUERY].schema)
    requires b.body.Some? ==> b.body.value == BODY && BODY in schema.Entries()
    ensures ConfigBackend.Separate(ConfigBackend.Entries(b))
    ensures forall e :: e in ConfigBackend.Entries(b) ==> ConfigBackend.BindingFits(e, Some(schema))
  {
    hide IsObjectNode;
    GroupsDiffer();
    NotReserved();
  }

  lemma NotReserved()
    ensures PATH !in ConfigBackend.RESERVED && QUERY !in ConfigBackend.RESERVED && BODY !in ConfigBackend.RESERVED
  {
    assert |U("_payment")| == 8 && |U("_authorization")| == 14;
  }

  // ---- Which drafts the loader accepts ----

  /** The loader walks such an object's properties; its own keywords pass unless it requires more than it declares. */
  lemma ClosedObjectAccepted(entries: map<Text, Entry>, required: seq<Text>)
    ensures KeywordsAccepted(ClosedObject(entries, required)) <==>
            && (forall k :: k in entries ==> EntryAccepted(entries[k]))
            && (forall k :: k in required ==> k in entries)
  {
    var s := ClosedObject(entries, required);
    assert s.RequiredNames() == required && s.Entries() == entries && IsObjectNode(s);
    assert ObjectType in s.types.names;
  }

  /** A parameter's schema passes unless it carries object keywords, which its type rules out. */
  lemma PrimitiveAccepted(s: Schema)
    requires IsPrimitive(s)
    ensures KeywordsAccepted(s) <==>
            && s.properties.NoProperties? && s.required.NoRequired?
            && (s.additional.Extra? ==> KeywordsAccepted(s.additional.schema))
            && (s.items.Items? ==> KeywordsAccepted(s.items.schema))
  {
  }

  /** Every parameter schema and the body schema pass the loader's walk. */
  ghost predicate PartsAccepted(schema: Schema) {
    forall k :: k in schema.Entries() ==> PartAccepted(schema, k)
  }

  ghost predicate PartAccepted(schema: Schema, k: Text)
    requires k in schema.Entries()
  {
    var e := schema.Entries()[k];
    if k == BODY then EntryAccepted(e)
    else e.Node? && forall name :: name in e.schema.Entries() ==> EntryAccepted(e.schema.Entries()[name])
  }

  lemma AssembledAccepted(groups: Groups, body: BodyResult)
    requires WellGrouped(groups)
    ensures KeywordsAccepted(Assemble(groups, body).schema) <==> PartsAccepted(Assemble(groups, body).schema)
  {
    hide Assemble, ClosedObject, IsPrimitive, KeywordsAccepted;
    var s := Assemble(groups, body).schema;
    Assembled(groups, body);
    AssembledRequired(groups, body);
    GroupsDiffer();
    ClosedObjectAccepted(s.Entries(), s.RequiredNames());
    ClosedObjectAccepted(groups.path.entries, groups.path.names);
    ClosedObjectAccepted(groups.query.entries, groups.query.names);
    ClosedObjectFields(groups.path.entries, groups.path.names);
    ClosedObjectFields(groups.query.entries, groups.query.names);
    forall k | k in s.Entries() ensures EntryAccepted(s.Entries()[k]) <==> PartAccepted(s, k) {
    }
  }

  lemma AssembledRequired(groups: Groups, body: BodyResult)
    ensures var s := Assemble(groups, body).schema;
            forall k :: k in s.RequiredNames() ==> k in s.Entries()
  {
    GroupsDiffer();
  }

  /**
   * The loader accepts an imported draft exactly when its URL is whole and its
   * parameter and body schemas pass the keyword walk, which the importer does
   * not make.
   */
  lemma ImportedDraftLoadsExactly(document: Json, candidate: Candidate, chosen: Option<Text>, server: Text, origin: Option<Text>)
    requires MapRequest(document, candidate, chosen).Mapped? && OPEN !in server
    ensures var r := MapRequest(document, candidate, chosen);
            var handler := DraftHandler(candidate, server, r.bindings);
            ConfigBackend.Loads(handler, Some(r.schema), origin) <==>
            && !HasStrayBrace(Parse(handler.url))
            && (ConfigBackend.Templated(handler.url) ==>
                  origin.Some? && origin.value + [ConfigBackend.SLASH] <= ConfigBackend.LiteralHead(handler.url))
            && PartsAccepted(r.schema)
  {
    hide MapRequest, Assemble, Parse, KeywordsAccepted, PartsAccepted, HasStrayBrace, ConfigBackend.BindingsPass,
      ConfigBackend.PathScope, ConfigBackend.Declared, ConfigBackend.RequiredIn, ConfigBackend.LiteralHead;
    var groups, body := MappingHasGroups(document, candidate, chosen);
    ImportedBindingsPass(document, candidate, chosen, server);
    AssembledAccepted(groups, body);
  }

  /**
   * A body whose node is closed and requires a name it does not declare
   * converts, and its draft is refused when it is loaded.
   */
  lemma OverRequiringBodyIsRefused(
      document: Json, candidate: Candidate, chosen: Option<Text>, server: Text, origin: Option<Text>, k: Text)
    requires MapRequest(document, candidate, chosen).Mapped? && OPEN !in server
    requires var r := MapRequest(document, candidate, chosen);
             && BODY in r.schema.Entries() && r.schema.Entries()[BODY].Node?
             && var b := r.schema.Entries()[BODY].schema;
                (b.additional.Denied? || b.additional.NoAdditional?) && IsObjectNode(b) && k in b.RequiredNames() && k !in b.Entries()
    ensures var r := MapRequest(document, candidate, chosen);
            !ConfigBackend.Loads(DraftHandler(candidate, server, r.bindings), Some(r.schema), origin)
  {
    hide MapRequest, ConfigBackend.Loads, Parse, IsObjectNode;
    ImportedDraftLoadsExactly(document, candidate, chosen, server, origin);
    var r := MapRequest(document, candidate, chosen);
    assert RequiresUndeclared(r.schema.Entries()[BODY].schema);
    assert !KeywordsAccepted(r.schema.Entries()[BODY].schema);
    assert !PartAccepted(r.schema, BODY);
  }

  /** The nodes of that kind: properties declared, others not mentioned or refused, one more name required. */
  lemma OverRequiringNodes(document: Json, node: Json, k: Text)
    requires node.Obj? && !Refs.IsRef(node) && !Lookup(node.members, K_ALL_OF).Arr?
    requires DeclaresProperties(node.members)
    requires Lookup(node.members, K_ADDITIONAL).Undefined? || Lookup(node.members, K_ADDITIONAL) == Bool(false)
    requires k in RequiredOf(node.members) && k !in PropertiesOf(node.members)
    requires Convert(document, node, []).Some? && IsObjectNode(Convert(document, node, []).value)
    ensures var s := Convert(document, node, []).value;
            && s.additional.Denied? && k in s.RequiredNames() && k !in s.Entries()
            && !KeywordsAccepted(s)
  {
    hide Convert, ConvertPlain, RequiredOf, PropertiesOf, IsObjectNode;
    assert Convert(document, node, []) == ConvertPlain(document, node, node.members, []) by { PlainConverts(document, node); }
    ClosedPlainFields(document, node);
    assert RequiresUndeclared(Convert(document, node, []).value);
  }

  lemma ClosedPlainFields(document: Json, node: Json)
    requires node.Obj? && DeclaresProperties(node.members)
    requires Lookup(node.members, K_ADDITIONAL).Undefined? || Lookup(node.members, K_ADDITIONAL) == Bool(false)
    requires ConvertPlain(document, node, node.members, []).Some?
    ensures var s := ConvertPlain(document, node, node.members, []).value;
            && s.additional.Denied? && s.RequiredNames() == RequiredOf(node.members)
            && s.Entries().Keys == PropertiesOf(node.members).Keys
  {
  }

  lemma PlainConverts(document: Json, node: Json)
    requires node.Obj? && !Refs.IsRef(node) && !Lookup(node.members, K_ALL_OF).Arr?
    ensures Convert(document, node, []) == ConvertPlain(document, node, node.members, [])
  {
  }
}
