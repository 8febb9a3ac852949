/** Load-time checks of a resource's backend, and what they promise at call time. */
module ConfigBackend {
  import opened Text
  import opened Json
  import opened Options
  import opened Schema
  import opened PathTemplate
  import opened BackendRequest

  const RESERVED: seq<Text> := [U("_payment"), U("_authorization")]
  const SLASH: CodeUnit := 0x2F

  datatype Location = PathLocation | QueryLocation | BodyLocation

  datatype Binding = Binding(location: Location, property: Text)

  function Bound(location: Location, property: Option<Text>): seq<Binding> {
    if property.None? then [] else [Binding(location, property.value)]
  }

  /** The bindings that are set, in schema order. */
  function Entries(b: Bindings): (entries: seq<Binding>)
    ensures forall e :: e in entries <==>
              || (e.location == PathLocation && b.path == Some(e.property))
              || (e.location == QueryLocation && b.query == Some(e.property))
              || (e.location == BodyLocation && b.body == Some(e.property))
  {
    Bound(PathLocation, b.path) + Bound(QueryLocation, b.query) + Bound(BodyLocation, b.body)
  }

  function Declared(input: Option<Schema>): map<Text, Entry> {
    if input.None? then map[] else input.value.Entries()
  }

  function RequiredIn(input: Option<Schema>): seq<Text> {
    if input.None? then [] else input.value.RequiredNames()
  }

  predicate Templated(url: Text) {
    Names(Parse(url)) != []
  }

  // ---- validateInputBindings ----

  /** One binding names a declared, unreserved property that can hold its group. */
  predicate BindingFits(e: Binding, input: Option<Schema>) {
    && e.property !in RESERVED
    && e.property in Declared(input)
    && (!e.location.BodyLocation? ==>
          var d := Declared(input)[e.property];
          d.Node? ==> IsObjectNode(d.schema))
  }

  /** No two locations share a property. */
  ghost predicate Separate(entries: seq<Binding>) {
    forall i, j :: 0 <= i < j < |entries| ==> entries[i].property != entries[j].property
  }

  ghost predicate BindingsPass(handler: Handler, input: Option<Schema>) {
    handler.bindings.Some? ==>
      var b := handler.bindings.value;
      && (b.path.Some? || b.query.Some? || b.body.Some?)
      && (b.body.Some? ==> handler.verb.AcceptsBody())
      && (Templated(handler.url) ==> b.path.Some? && b.path.value in RequiredIn(input))
      && Separate(Entries(b))
      && (forall e :: e in Entries(b) ==> BindingFits(e, input))
  }

  /** The schema path parameters must be declared in. */
  function PathScope(handler: Handler, input: Option<Schema>): Option<Schema> {
    if handler.bindings.None? then input
    else
      var path := handler.bindings.value.path;
      if path.None? || path.value !in Declared(input) then None
      else
        match Declared(input)[path.value]
        case Node(group) => Some(group)
        case NotASchema => None
  }

  /** `validateInputBindings`: `None` is the load error. */
  method ValidateInputBindings(handler: Handler, input: Option<Schema>) returns (r: Option<Option<Schema>>)
    ensures r == if BindingsPass(handler, input) then Some(PathScope(handler, input)) else None
  {
    hide Parse, IsObjectNode, Entries, Separate, SharesProperty, BindingFits, Declared, Templated;
    if handler.bindings.None? { return Some(input); }
    var b := handler.bindings.value;
    var templated := Templated(handler.url);
    var entries := Entries(b);
    SomeEntries(b);
    if entries == [] { return None; }
    if (handler.verb.Get? || handler.verb.Delete?) && b.body.Some? { return None; }
    if templated && b.path.None? { return None; }
    var seen: map<Text, Location> := map[];
    NothingShared(entries);
    for i := 0 to |entries|
      invariant forall k :: k in seen <==> SharesProperty(entries, i, k)
      invariant Separate(entries[..i])
      invariant forall j :: 0 <= j < i ==> BindingFits(entries[j], input)
    {
      var e := entries[i];
      assert e in entries;
      SeparateStep(entries, i);
      FitMeans(e, input);
      if e.property in RESERVED { return None; }
      if e.property in seen { return None; }
      seen := seen[e.property := e.location];
      if e.property !in Declared(input) { return None; }
      var declared := Declared(input)[e.property];
      if !e.location.BodyLocation? && declared.Node? && !IsObjectNode(declared.schema) { return None; }
    }
    assert entries[..|entries|] == entries;
    if templated && b.path.value !in RequiredIn(input) { return None; }
    if b.path.None? { return Some(None); }
    assert Binding(PathLocation, b.path.value) in entries by { SetBindings(b); }
    FitMeans(Binding(PathLocation, b.path.value), input);
    var group := Declared(input)[b.path.value];
    return Some(if group.Node? then Some(group.schema) else None);
  }

  lemma SomeEntries(b: Bindings)
    ensures Entries(b) != [] <==> b.path.Some? || b.query.Some? || b.body.Some?
  {
    if b.path.Some? { assert Binding(PathLocation, b.path.value) in Entries(b); }
    if b.query.Some? { assert Binding(QueryLocation, b.query.value) in Entries(b); }
    if b.body.Some? { assert Binding(BodyLocation, b.body.value) in Entries(b); }
  }

  lemma SetBindings(b: Bindings)
    ensures b.path.Some? ==> Binding(PathLocation, b.path.value) in Entries(b)
  {
  }

  ghost predicate SharesProperty(entries: seq<Binding>, n: nat, property: Text)
    requires n <= |entries|
  {
    exists j :: 0 <= j < n && entries[j].property == property
  }

  lemma NothingShared(entries: seq<Binding>)
    ensures Separate(entries[..0]) && forall k :: !SharesProperty(entries, 0, k)
  {
  }

  lemma FitMeans(e: Binding, input: Option<Schema>)
    ensures BindingFits(e, input) <==>
            && e.property !in RESERVED
            && e.property in Declared(input)
            && (e.location.BodyLocation? || Declared(input)[e.property].NotASchema?
                || IsObjectNode(Declared(input)[e.property].schema))
  {
  }

  lemma SeparateSnoc(entries: seq<Binding>, e: Binding)
    ensures Separate(entries + [e]) <==> Separate(entries) && !SharesProperty(entries, |entries|, e.property)
  {
    var all := entries + [e];
    if Separate(all) {
      forall i, j | 0 <= i < j < |entries| ensures entries[i].property != entries[j].property {
        assert all[i].property != all[j].property;
      }
      forall i | 0 <= i < |entries| ensures entries[i].property != e.property {
        assert all[i].property != all[|entries|].property;
      }
    }
    if Separate(entries) && !SharesProperty(entries, |entries|, e.property) {
      forall i, j | 0 <= i < j < |all| ensures all[i].property != all[j].property {
        if j == |entries| { assert all[i] == entries[i]; } else { assert all[i] == entries[i] && all[j] == entries[j]; }
      }
    }
  }

  lemma SharesPrefix(entries: seq<Binding>, n: nat, property: Text)
    requires n <= |entries|
    ensures SharesProperty(entries[..n], n, property) <==> SharesProperty(entries, n, property)
  {
    if SharesProperty(entries, n, property) {
      var j :| 0 <= j < n && entries[j].property == property;
      assert entries[..n][j].property == property;
    }
  }

  lemma SharesMore(entries: seq<Binding>, i: nat, k: Text)
    requires i < |entries|
    ensures SharesProperty(entries, i + 1, k) <==> SharesProperty(entries, i, k) || k == entries[i].property
  {
    if SharesProperty(entries, i, k) {
      var j :| 0 <= j < i && entries[j].property == k;
      assert entries[j].property == k;
    }
    if k == entries[i].property { assert entries[i].property == k; }
  }

  lemma SeparateStep(entries: seq<Binding>, i: nat)
    requires i < |entries|
    ensures Separate(entries[..i + 1]) <==> Separate(entries[..i]) && !SharesProperty(entries, i, entries[i].property)
    ensures SharesProperty(entries, i, entries[i].property) ==> !Separate(entries)
    ensures forall k :: SharesProperty(entries, i + 1, k) <==> SharesProperty(entries, i, k) || k == entries[i].property
  {
    assert entries[..i + 1] == entries[..i] + [entries[i]];
    SeparateSnoc(entries[..i], entries[i]);
    SharesPrefix(entries, i, entries[i].property);
    forall k ensures SharesProperty(entries, i + 1, k) <==> SharesProperty(entries, i, k) || k == entries[i].property {
      SharesMore(entries, i, k);
    }
    if SharesProperty(entries, i, entries[i].property) {
      var j :| 0 <= j < i && entries[j].property == entries[i].property;
      assert !Separate(entries);
    }
  }

  // ---- validatePathParametersDeclared ----

  /**
   * `origin` is what the URL parser reports for the text before the first
   * brace, or `None` when that is not a URL with a host.
   */
  ghost predicate ParametersPass(url: Text, scope: Option<Schema>, origin: Option<Text>) {
    && !HasStrayBrace(Parse(url))
    && (Templated(url) ==> origin.Some? && origin.value + [SLASH] <= LiteralHead(url))
    && forall k :: k in Names(Parse(url)) ==> k in Declared(scope) && k in RequiredIn(scope)
  }

  /** The text before the first brace. */
  function LiteralHead(t: Text): (head: Text)
    ensures head <= t && OPEN !in head
  {
    if t == [] || t[0] == OPEN then [] else [t[0]] + LiteralHead(t[1..])
  }

  method ValidatePathParametersDeclared(url: Text, scope: Option<Schema>, origin: Option<Text>) returns (ok: bool)
    ensures ok <==> ParametersPass(url, scope, origin)
  {
    hide Parse;
    if HasStrayBrace(Parse(url)) { return false; }
    var params := Names(Parse(url));
    if params == [] { return true; }
    if origin.None? || !(origin.value + [SLASH] <= LiteralHead(url)) { return false; }
    for i := 0 to |params|
      invariant forall j :: 0 <= j < i ==> params[j] in Declared(scope) && params[j] in RequiredIn(scope)
    {
      assert params[i] in params;
      if params[i] !in Declared(scope) { return false; }
      if params[i] !in RequiredIn(scope) { return false; }
    }
    return true;
  }

  // ---- What the checks promise ----

  /** The input schema a loaded resource enforces. */
  function Effective(input: Option<Schema>): Schema {
    if input.None? then Schema(Types([ObjectType]), NoEnum, Properties(map[]), NoRequired, Denied, NoItems, map[])
    else Close(input.value)
  }

  ghost predicate Loads(handler: Handler, input: Option<Schema>, origin: Option<Text>) {
    && (input.Some? ==> KeywordsAccepted(input.value))
    && BindingsPass(handler, input)
    && ParametersPass(handler.url, PathScope(handler, input), origin)
  }

  /** JSON data has no `undefined`. */
  predicate IsData(v: Json) {
    v.Obj? && forall k :: k in v.members ==> !v.members[k].Undefined?
  }

  /** Where path values come from. */
  function PathSource(handler: Handler, v: Json): Json
    requires v.Obj?
  {
    if handler.bindings.None? then v
    else
      var path := handler.bindings.value.path;
      if path.None? then Obj(map[]) else Lookup(v.members, path.value)
  }

  /** An accepted object holds every name an accepted schema requires. */
  lemma RequiredIsPresent(s: Schema, v: Json, k: Text)
    requires KeywordsAccepted(s) && Accepts(Close(s), v) && v.Obj?
    requires k in s.RequiredNames()
    ensures k in v.members
  {
    hide CloseProperties, CloseItems, CloseAdditional, PropertiesAccepted, NodeRefused;
    RequiringIsObjectNode(s);
    CloseKeeps(s);
    assert AcceptsMembers(Close(s), v);
    assert k in Close(s).RequiredNames();
  }

  lemma RequiringIsObjectNode(s: Schema)
    requires KeywordsAccepted(s) && s.RequiredNames() != []
    ensures IsObjectNode(s)
  {
    AcceptedNodesAreObjectNodes(s);
  }

  /** A value under a declared property satisfies the property's closed schema. */
  lemma DeclaredIsEnforced(s: Schema, v: Json, k: Text)
    requires KeywordsAccepted(s) && Accepts(Close(s), v) && v.Obj? && k in v.members
    requires k in s.Entries() && s.Entries()[k].Node?
    ensures KeywordsAccepted(s.Entries()[k].schema)
    ensures Accepts(Close(s.Entries()[k].schema), v.members[k])
  {
    AcceptedNodesAreObjectNodes(s);
    CloseKeeps(s);
    CloseKeepsEntries(s);
    assert EntryAccepted(s.properties.entries[k]);
    assert AcceptsMember(Close(s), v, k);
  }

  /** Whatever object the path values are read from has every parameter. */
  lemma PathValuesArePresent(handler: Handler, input: Option<Schema>, origin: Option<Text>, v: Json, k: Text)
    requires Loads(handler, input, origin) && IsData(v) && Accepts(Effective(input), v)
    requires k in Names(Parse(handler.url)) && PathSource(handler, v).Obj?
    ensures k in PathSource(handler, v).members
  {
    hide Close, Accepts, KeywordsAccepted, Parse, IsObjectNode;
    var scope := PathScope(handler, input);
    assert Templated(handler.url);
    assert scope.Some? && input.Some?;
    var s := input.value;
    if handler.bindings.None? {
      RequiredIsPresent(s, v, k);
    } else {
      var path := handler.bindings.value.path.value;
      RequiredIsPresent(s, v, path);
      DeclaredIsEnforced(s, v, path);
      RequiredIsPresent(scope.value, v.members[path], k);
    }
  }

  lemma PathGroupIsSource(handler: Handler, input: Option<Schema>, origin: Option<Text>, v: Json)
    requires Loads(handler, input, origin) && IsData(v) && Accepts(Effective(input), v)
    requires handler.bindings.Some?
    ensures var group := BoundGroup(v.members, handler.bindings.value.path);
            && (Templated(handler.url) ==> !PathSource(handler, v).Undefined?)
            && (group.Built? <==> PathSource(handler, v).Obj? || PathSource(handler, v).Undefined?)
            && (PathSource(handler, v).Obj? ==> group.value == PathSource(handler, v).members)
  {
    hide Close, Accepts, KeywordsAccepted, Parse, IsObjectNode;
    if Templated(handler.url) {
      var path := handler.bindings.value.path.value;
      RequiredIsPresent(input.value, v, path);
    }
  }

  /**
   * A loaded resource never reports a missing path parameter for an object
   * input its closed schema accepts, exactly because no name repeats; with a
   * repeated name no input at all is served.
   */
  lemma AcceptedConfigSuppliesParameters(handler: Handler, input: Option<Schema>, origin: Option<Text>, v: Json)
    requires Loads(handler, input, origin) && IsData(v) && Accepts(Effective(input), v)
    ensures var names := Names(Parse(handler.url));
            var r := BuildParts(handler, v.members);
            && (Distinct(names) ==> r.Built? || !r.failure.MissingParameter?)
            && (!Distinct(names) ==> r.Refused?)
  {
    hide Close, Accepts, KeywordsAccepted, Parse, IsObjectNode, Apply, Loads;
    var names := Names(Parse(handler.url));
    var source := PathSource(handler, v);
    if handler.bindings.Some? { PathGroupIsSource(handler, input, origin, v); }
    if source.Obj? {
      forall k | k in names ensures k in source.members {
        PathValuesArePresent(handler, input, origin, v, k);
      }
      ApplyIsExact(handler.url, source.members);
      if Distinct(names) { MissingMeansMissing(handler.url, source.members); }
    } else if source.Undefined? {
      NothingToFill(handler.url);
    }
  }

  /** Without parameters the template is its own path. */
  lemma NothingToFill(url: Text)
    requires !Templated(url)
    ensures Distinct(Names(Parse(url))) && Apply(url, map[]).Built?
  {
    ApplyIsExact(url, map[]);
  }

  /** All that can still go wrong, as a caller could check it on the input. */
  lemma AcceptedConfigFailsOnlyOn(handler: Handler, input: Option<Schema>, origin: Option<Text>, v: Json)
    requires Loads(handler, input, origin) && IsData(v) && Accepts(Effective(input), v)
    requires Distinct(Names(Parse(handler.url)))
    ensures var source := PathSource(handler, v);
            BuildParts(handler, v.members).Built? <==>
              && (source.Obj? || source.Undefined?)
              && (source.Obj? ==> forall k :: k in Names(Parse(handler.url)) ==> k in source.members && Usable(source.members[k]))
              && (handler.bindings.Some? ==> BoundGroup(v.members, handler.bindings.value.query).Built?)
  {
    hide Close, Accepts, KeywordsAccepted, Parse, IsObjectNode, Apply, Loads, Usable;
    var source := PathSource(handler, v);
    if handler.bindings.None? {
      ApplyIsExact(handler.url, v.members);
    } else {
      PathGroupIsSource(handler, input, origin, v);
      BoundRequestIsExact(handler, v.members);
      if source.Undefined? {
        NothingToFill(handler.url);
      }
    }
  }

  /** Without a `type` a schema also accepts a non-object, which supplies nothing. */
  lemma NonObjectSuppliesNothing(handler: Handler)
    requires handler.bindings.None? && Templated(handler.url)
    ensures BuildParts(handler, map[]).Refused? && BuildParts(handler, map[]).failure.MissingParameter?
  {
    var ts := Parse(handler.url);
    NothingAbsent(ts, map[]);
    assert Names(ts)[0] in Names(ts);
  }

  /** The host part of a loaded, templated URL is fixed by the operator. */
  lemma LoadedUrlSplits(url: Text, scope: Option<Schema>, origin: Option<Text>)
    requires ParametersPass(url, scope, origin) && Templated(url)
    ensures var o := origin.value;
            && o <= url && |o| < |url| && url[|o|] == SLASH
            && OPEN !in o && Names(Parse(url)) == Names(Parse(url[|o|..]))
  {
    hide HasStrayBrace, Parse, Names, LiteralHead, Declared, RequiredIn;
    var o, head := origin.value, LiteralHead(url);
    assert o + [SLASH] <= head <= url;
    assert url[..|o|] == o && url == o + url[|o|..];
    assert (o + [SLASH])[|o|] == head[|o|];
    forall i | 0 <= i < |o| ensures o[i] != OPEN {
      assert o[i] == (o + [SLASH])[i] == head[i];
    }
    NoOpenBrace(o, url[|o|..]);
  }
}
