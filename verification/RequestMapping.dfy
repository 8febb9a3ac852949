/** OpenAPI parameters and request body mapped to one input schema and its bindings. */
module RequestMapping {
  import opened Text
  import opened Numbers
  import opened Json
  import opened Options
  import opened Schema
  import opened OpenApiSchema
  import opened PathTemplate
  import opened BackendRequest
  import Refs

  const K_NAME := U("name")
  const K_IN := U("in")
  const K_CONTENT := U("content")
  const K_STYLE := U("style")
  const K_SCHEMA := U("schema")
  const HEADER := U("header")
  const PATH: Text := [0x70, 0x61, 0x74, 0x68]
  const QUERY: Text := [0x71, 0x75, 0x65, 0x72, 0x79]
  const BODY: Text := [0x62, 0x6F, 0x64, 0x79]
  const IGNORED_HEADERS := [U("accept"), U("content-type"), U("authorization")]
  const UNSUPPORTED_QUERY_STYLES := [U("deepObject"), U("spaceDelimited"), U("pipeDelimited")]

  datatype Candidate = Candidate(verb: Method, path: Text, parameters: seq<Json>, requestBody: Json)

  // ---- mergeParameters ----

  /** `String(value)`. */
  function JsString(v: Json): Text
    decreases v, 1
  {
    match v
    case Undefined => U("undefined")
    case Null => U("null")
    case Bool(b) => if b then U("true") else U("false")
    case Num(n) => ToString(n)
    case Str(s) => s
    case Arr(items) => JsJoin(v, 0)
    case Obj(_) => U("[object Object]")
  }

  function JsJoin(v: Json, i: nat): Text
    requires v.Arr? && i <= |v.items|
    decreases v, 0, |v.items| - i
  {
    if i == |v.items| then []
    else
      (if i == 0 then [] else U(",")) +
      (if v.items[i].Undefined? || v.items[i].Null? then [] else JsString(v.items[i])) +
      JsJoin(v, i + 1)
  }

  function Identity(m: Members): Text {
    JsString(Lookup(m, K_IN)) + U(":") + JsString(Lookup(m, K_NAME))
  }

  /** A JavaScript `Map`: keys stay where they were first set. */
  type Table = seq<(Text, Members)>

  function Put(table: Table, key: Text, m: Members): Table {
    if table == [] then [(key, m)]
    else if table[0].0 == key then [(key, m)] + table[1..]
    else [table[0]] + Put(table[1..], key, m)
  }

  /** What the parameters resolve to, or `None` when a reference is broken. */
  function Resolved(document: Json, raw: Json): Option<Json> {
    var d := Refs.Deref(document, raw, []);
    if d.None? then None else Some(d.value.value)
  }

  function MergedParameters(document: Json, parameters: seq<Json>, table: Table): Option<Table>
    decreases |parameters|
  {
    if parameters == [] then Some(table)
    else
      var p := Resolved(document, parameters[0]);
      if p.None? then None
      else MergedParameters(document, parameters[1..],
                  if p.value.Obj? then Put(table, Identity(p.value.members), p.value.members) else table)
  }

  method MergeParameters(document: Json, parameters: seq<Json>) returns (r: Option<Table>)
    ensures r == MergedParameters(document, parameters, [])
  {
    var table: Table := [];
    for i := 0 to |parameters|
      invariant MergedParameters(document, parameters[i..], table) == MergedParameters(document, parameters, [])
    {
      assert parameters[i..][1..] == parameters[i + 1..];
      var d := Refs.Dereference(document, parameters[i], []);
      if d.None? { return None; }
      if d.value.value.Obj? {
        table := Put(table, Identity(d.value.value.members), d.value.value.members);
      }
    }
    assert parameters[|parameters|..] == [];
    return Some(table);
  }

  /** The last parameter with an identity is the one that is kept, once. */
  ghost predicate Find(table: Table, key: Text, m: Members) {
    exists i :: 0 <= i < |table| && table[i] == (key, m)
  }

  ghost predicate KeysDistinct(table: Table) {
    forall i, j :: 0 <= i < j < |table| ==> table[i].0 != table[j].0
  }

  lemma {:induction false} PutSets(table: Table, key: Text, m: Members)
    requires KeysDistinct(table)
    ensures KeysDistinct(Put(table, key, m))
    ensures forall k, x :: Find(Put(table, key, m), k, x) <==> if k == key then x == m else Find(table, k, x)
  {
    hide Find, KeysDistinct;
    if table == [] {
      SingleEntry(key, m);
    } else {
      var head, rest := table[0], table[1..];
      assert table == [head] + rest;
      DistinctTable(head, rest);
      forall k, x ensures Find(table, k, x) <==> (k, x) == head || Find(rest, k, x) { FindCons(head, rest, k, x); }
      if head.0 == key {
        DistinctTable((key, m), rest);
        forall k, x ensures Find([(key, m)] + rest, k, x) <==> (k, x) == (key, m) || Find(rest, k, x) {
          FindCons((key, m), rest, k, x);
        }
      } else {
        var put := Put(rest, key, m);
        PutSets(rest, key, m);
        DistinctTable(head, put);
        forall k, x ensures Find([head] + put, k, x) <==> (k, x) == head || Find(put, k, x) { FindCons(head, put, k, x); }
      }
    }
  }

  lemma SingleEntry(key: Text, m: Members)
    ensures KeysDistinct([(key, m)]) && forall k, x :: Find([(key, m)], k, x) <==> k == key && x == m
    ensures forall k, x :: !Find([], k, x)
  {
    assert [(key, m)][0] == (key, m);
  }

  /** An entry in front keeps the keys distinct exactly when nothing behind has its key. */
  lemma DistinctTable(head: (Text, Members), rest: Table)
    ensures KeysDistinct([head] + rest) <==> KeysDistinct(rest) && forall x :: !Find(rest, head.0, x)
  {
    var all := [head] + rest;
    assert forall i :: 0 <= i < |rest| ==> all[i + 1] == rest[i];
    if KeysDistinct(all) {
      forall i, j | 0 <= i < j < |rest| ensures rest[i].0 != rest[j].0 {
        assert all[i + 1].0 != all[j + 1].0;
      }
      forall i | 0 <= i < |rest| ensures rest[i].0 != head.0 {
        assert all[0].0 != all[i + 1].0;
      }
    }
    if KeysDistinct(rest) && forall x :: !Find(rest, head.0, x) {
      forall i | 0 <= i < |rest| ensures rest[i].0 != head.0 {
        assert rest[i] == (rest[i].0, rest[i].1);
        assert rest[i].0 == head.0 ==> Find(rest, head.0, rest[i].1);
      }
    }
  }

  lemma FindCons(head: (Text, Members), rest: Table, k: Text, x: Members)
    ensures Find([head] + rest, k, x) <==> (k, x) == head || Find(rest, k, x)
  {
    var all := [head] + rest;
    if (k, x) == head { assert all[0] == (k, x); }
    if Find(rest, k, x) {
      var i :| 0 <= i < |rest| && rest[i] == (k, x);
      assert all[i + 1] == (k, x);
    }
  }

  /** Parameter `i` is a record with this identity. */
  ghost predicate Defines(document: Json, parameters: seq<Json>, i: nat, key: Text, m: Members)
    requires i < |parameters|
  {
    Resolved(document, parameters[i]) == Some(Obj(m)) && Identity(m) == key
  }

  ghost predicate DefinesKey(document: Json, parameters: seq<Json>, i: nat, key: Text)
    requires i < |parameters|
  {
    var p := Resolved(document, parameters[i]);
    p.Some? && p.value.Obj? && Identity(p.value.members) == key
  }

  /** The last of the parameters from `i` on with this identity. */
  ghost predicate LastDefinition(document: Json, parameters: seq<Json>, key: Text, m: Members) {
    exists i :: 0 <= i < |parameters| && Defines(document, parameters, i, key, m) && NoneAfter(document, parameters, i, key)
  }

  lemma DefinesTail(document: Json, parameters: seq<Json>, i: nat, key: Text)
    requires i + 1 < |parameters|
    ensures DefinesKey(document, parameters[1..], i, key) <==> DefinesKey(document, parameters, i + 1, key)
    ensures forall m :: Defines(document, parameters[1..], i, key, m) <==> Defines(document, parameters, i + 1, key, m)
  {
    assert parameters[1..][i] == parameters[i + 1];
  }

  ghost predicate NoneAfter(document: Json, parameters: seq<Json>, i: int, key: Text)
    requires -1 <= i
  {
    forall j :: i < j < |parameters| ==> !DefinesKey(document, parameters, j, key)
  }

  lemma NoneAfterTail(document: Json, parameters: seq<Json>, i: int, key: Text)
    requires -1 <= i && parameters != []
    ensures NoneAfter(document, parameters[1..], i, key) <==> NoneAfter(document, parameters, i + 1, key)
  {
    hide DefinesKey;
    var rest := parameters[1..];
    if NoneAfter(document, rest, i, key) {
      forall j | i + 1 < j < |parameters| ensures !DefinesKey(document, parameters, j, key) {
        DefinesTail(document, parameters, j - 1, key);
      }
    }
    if NoneAfter(document, parameters, i + 1, key) {
      forall j | i < j < |rest| ensures !DefinesKey(document, rest, j, key) {
        DefinesTail(document, parameters, j, key);
      }
    }
  }

  lemma LastOfCons(document: Json, parameters: seq<Json>, key: Text, m: Members)
    requires parameters != []
    ensures LastDefinition(document, parameters, key, m) <==>
            || LastDefinition(document, parameters[1..], key, m)
            || (Defines(document, parameters, 0, key, m) && NoneAfter(document, parameters, 0, key))
  {
    hide Defines, DefinesKey, NoneAfter;
    var rest := parameters[1..];
    if LastDefinition(document, rest, key, m) {
      var i :| 0 <= i < |rest| && Defines(document, rest, i, key, m) && NoneAfter(document, rest, i, key);
      DefinesTail(document, parameters, i, key);
      NoneAfterTail(document, parameters, i, key);
      assert Defines(document, parameters, i + 1, key, m) && NoneAfter(document, parameters, i + 1, key);
    }
    if LastDefinition(document, parameters, key, m) {
      var i :| 0 <= i < |parameters| && Defines(document, parameters, i, key, m) && NoneAfter(document, parameters, i, key);
      if i > 0 {
        DefinesTail(document, parameters, i - 1, key);
        NoneAfterTail(document, parameters, i - 1, key);
        assert Defines(document, rest, i - 1, key, m) && NoneAfter(document, rest, i - 1, key);
      }
    }
  }

  /** The operation's own definition wins over the path item's, which comes first. */
  lemma {:induction false} LastDefinitionWins(document: Json, parameters: seq<Json>, table: Table)
    requires KeysDistinct(table) && MergedParameters(document, parameters, table).Some?
    ensures var r := MergedParameters(document, parameters, table).value;
            && KeysDistinct(r)
            && forall k, m :: Find(r, k, m) <==>
                 || LastDefinition(document, parameters, k, m)
                 || (Find(table, k, m) && NoneAfter(document, parameters, -1, k))
    decreases |parameters|
  {
    hide Identity, Resolved, LastDefinition, Find, KeysDistinct, Put, NoneAfter, Defines, DefinesKey;
    if parameters == [] {
      forall k, m ensures !LastDefinition(document, parameters, k, m) && NoneAfter(document, parameters, -1, k) {
        NothingDefined(document, k, m);
      }
    } else {
      var p := Resolved(document, parameters[0]).value;
      var next := if p.Obj? then Put(table, Identity(p.members), p.members) else table;
      if p.Obj? { PutSets(table, Identity(p.members), p.members); }
      LastDefinitionWins(document, parameters[1..], next);
      var r := MergedParameters(document, parameters, table).value;
      forall k, m ensures Find(r, k, m) <==>
          || LastDefinition(document, parameters, k, m)
          || (Find(table, k, m) && NoneAfter(document, parameters, -1, k))
      {
        LastOfCons(document, parameters, k, m);
        NoneAfterTail(document, parameters, -1, k);
        FirstDefines(document, parameters, k, m);
      }
    }
  }

  lemma NothingDefined(document: Json, key: Text, m: Members)
    ensures !LastDefinition(document, [], key, m) && NoneAfter(document, [], -1, key)
  {
  }

  lemma FirstDefines(document: Json, parameters: seq<Json>, key: Text, m: Members)
    requires parameters != [] && Resolved(document, parameters[0]).Some?
    ensures var p := Resolved(document, parameters[0]).value;
            && (Defines(document, parameters, 0, key, m) <==> p.Obj? && Identity(p.members) == key && p.members == m)
            && (NoneAfter(document, parameters, -1, key) <==>
                 !(p.Obj? && Identity(p.members) == key) && NoneAfter(document, parameters, 0, key))
  {
    hide Identity, Resolved;
    var defines := DefinesKey(document, parameters, 0, key);
    assert defines <==> Resolved(document, parameters[0]).value.Obj? && Identity(Resolved(document, parameters[0]).value.members) == key;
    if NoneAfter(document, parameters, -1, key) {
      assert !DefinesKey(document, parameters, 0, key);
    }
    if !defines && NoneAfter(document, parameters, 0, key) {
      forall j | -1 < j < |parameters| ensures !DefinesKey(document, parameters, j, key) {
      }
    }
  }

  // ---- convertParameter ----

  /** Types one path segment or query pair can carry. */
  predicate IsPrimitive(s: Schema) {
    && s.types.Types?
    && forall t :: t in s.types.names ==> !t.ObjectType? && !t.ArrayType? && !t.UnknownType?
  }

  predicate StyleSupported(m: Members, path: bool) {
    var style := Lookup(m, K_STYLE);
    style.Str? ==> if path then style.s == U("simple") else style.s !in UNSUPPORTED_QUERY_STYLES
  }

  function ConvertParameter(document: Json, m: Members, path: bool): (r: Option<Schema>)
    ensures r.Some? ==> IsPrimitive(r.value)
  {
    if Lookup(m, K_NAME) == Str(PROTO) || !Lookup(m, K_CONTENT).Undefined? || !StyleSupported(m, path) then None
    else
      var s := Convert(document, Lookup(m, K_SCHEMA), []);
      if s.Some? && IsPrimitive(s.value) then s else None
  }

  // ---- resolveBody ----

  datatype BodyResult = NoBody | BodySchema(schema: Schema, required: bool) | UnsupportedBody(required: bool)

  const OPEN_OBJECT := Schema(Types([ObjectType]), NoEnum, NoProperties, NoRequired, Allowed, NoItems, map[])

  /**
   * `None` is a broken reference, which fails the import. `chosen` is the media
   * type the importer picks among the keys of `content`.
   */
  function ResolveBody(document: Json, candidate: Candidate, chosen: Option<Text>): Option<BodyResult> {
    if candidate.requestBody.Undefined? then Some(NoBody)
    else
      var d := Refs.Deref(document, candidate.requestBody, []);
      if d.None? then None
      else if !d.value.value.Obj? then Some(NoBody)
      else
        var m := d.value.value.members;
        var required := Lookup(m, K_REQUIRED) == Bool(true);
        var content := Lookup(m, K_CONTENT);
        if !candidate.verb.AcceptsBody() then Some(UnsupportedBody(false))
        else if !content.Obj? then Some(NoBody)
        else if chosen.None? || chosen.value !in content.members then Some(UnsupportedBody(required))
        else
          var media := Refs.Deref(document, content.members[chosen.value], d.value.chain);
          if media.None? then None
          else
            var node := if media.value.value.Obj? then Lookup(media.value.value.members, K_SCHEMA) else Undefined;
            if node.Undefined? then Some(BodySchema(OPEN_OBJECT, required))
            else
              var s := Convert(document, node, []);
              if s.None? then Some(UnsupportedBody(required)) else Some(BodySchema(s.value, required))
  }

  // ---- mapRequest ----

  datatype Group = Group(entries: map<Text, Entry>, names: seq<Text>)

  datatype Groups = Groups(path: Group, query: Group)

  function AddName(names: seq<Text>, name: Text): seq<Text> {
    if name in names then names else names + [name]
  }

  predicate IgnoredHeader(m: Members) {
    Lookup(m, K_NAME).Str? && AsciiLower(Lookup(m, K_NAME).s) in IGNORED_HEADERS
  }

  function LowerUnit(u: CodeUnit): CodeUnit {
    if 0x41 <= u <= 0x5A then u + 0x20 else u
  }

  function AsciiLower(t: Text): Text {
    seq(|t|, i requires 0 <= i < |t| => LowerUnit(t[i]))
  }

  /** One parameter; `None` skips the operation. */
  function AddParameter(document: Json, template: seq<Text>, acc: Groups, m: Members): Option<Groups> {
    var name, location := Lookup(m, K_NAME), Lookup(m, K_IN);
    if !name.Str? || !location.Str? then Some(acc)
    else
      var required := Lookup(m, K_REQUIRED) == Bool(true) || location.s == PATH;
      if location.s == HEADER && IgnoredHeader(m) then Some(acc)
      else if location.s != PATH && location.s != QUERY then (if required then None else Some(acc))
      else
        var s := ConvertParameter(document, m, location.s == PATH);
        if s.None? then (if required then None else Some(acc))
        else if location.s == PATH then
          if name.s !in template then Some(acc)
          else Some(acc.(path := Group(acc.path.entries[name.s := Node(s.value)], AddName(acc.path.names, name.s))))
        else
          Some(acc.(query := Group(acc.query.entries[name.s := Node(s.value)],
                                   if required then AddName(acc.query.names, name.s) else acc.query.names)))
  }

  function AddParameters(document: Json, template: seq<Text>, acc: Groups, table: Table): Option<Groups>
    decreases |table|
  {
    if table == [] then Some(acc)
    else
      var next := AddParameter(document, template, acc, table[0].1);
      if next.None? then None else AddParameters(document, template, next.value, table[1..])
  }

  const NO_GROUPS := Groups(Group(map[], []), Group(map[], []))

  function ClosedObject(entries: map<Text, Entry>, required: seq<Text>): Schema {
    Schema(Types([ObjectType]), NoEnum, Properties(entries),
           if required == [] then NoRequired else Required(required), Denied, NoItems, map[])
  }

  datatype Mapping =
    | ImportFails // a reference is broken: the whole import stops
    | Skipped
    | Mapped(schema: Schema, bindings: Bindings)

  /** The generated input schema and its bindings. */
  function Assemble(groups: Groups, body: BodyResult): (r: Mapping)
    ensures r.Mapped?
  {
    var hasPath, hasQuery := groups.path.entries != map[], groups.query.entries != map[];
    var entries0: map<Text, Entry> :=
      if hasPath then map[PATH := Node(ClosedObject(groups.path.entries, groups.path.names))] else map[];
    var entries1 :=
      if hasQuery then entries0[QUERY := Node(ClosedObject(groups.query.entries, groups.query.names))] else entries0;
    var entries2 := if body.BodySchema? then entries1[BODY := Node(body.schema)] else entries1;
    var required :=
      (if hasPath then [PATH] else [])
      + (if hasQuery && groups.query.names != [] then [QUERY] else [])
      + (if body.BodySchema? && body.required then [BODY] else []);
    Mapped(ClosedObject(entries2, required),
           Bindings(if hasPath then Some(PATH) else None,
                    if hasQuery then Some(QUERY) else None,
                    if body.BodySchema? then Some(BODY) else None))
  }

  function MapRequest(document: Json, candidate: Candidate, chosen: Option<Text>): Mapping {
    var template := Names(Parse(candidate.path));
    var table := MergedParameters(document, candidate.parameters, []);
    if table.None? then ImportFails
    else
      var groups := AddParameters(document, template, NO_GROUPS, table.value);
      if groups.None? || exists k :: k in template && k !in groups.value.path.entries then Skipped
      else
        var body := ResolveBody(document, candidate, chosen);
        if body.None? then ImportFails
        else if body.value.UnsupportedBody? && body.value.required then Skipped
        else Assemble(groups.value, body.value)
  }

  /** `mapRequest` as the importer runs it. */
  method MapOperation(document: Json, candidate: Candidate, chosen: Option<Text>) returns (r: Mapping)
    ensures r == MapRequest(document, candidate, chosen)
  {
    hide AddParameter, MergedParameters, ResolveBody, Parse, Assemble;
    var template := Names(Parse(candidate.path));
    var table := MergeParameters(document, candidate.parameters);
    if table.None? { return ImportFails; }
    var groups := NO_GROUPS;
    for i := 0 to |table.value|
      invariant AddParameters(document, template, groups, table.value[i..]) ==
                AddParameters(document, template, NO_GROUPS, table.value)
    {
      assert table.value[i..][1..] == table.value[i + 1..];
      var next := AddParameter(document, template, groups, table.value[i].1);
      if next.None? { return Skipped; }
      groups := next.value;
    }
    assert table.value[|table.value|..] == [];
    for i := 0 to |template|
      invariant forall j :: 0 <= j < i ==> template[j] in groups.path.entries
    {
      if template[i] !in groups.path.entries { return Skipped; }
    }
    var body := ResolveBody(document, candidate, chosen);
    if body.None? { return ImportFails; }
    if body.value.UnsupportedBody? && body.value.required { return Skipped; }
    return Assemble(groups, body.value);
  }
}
