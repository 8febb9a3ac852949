/**
 * The JSON Schema subset the gateway enforces: the runtime validator that fixes
 * what a schema means, and the config pass that closes object nodes.
 */
module Schema {
  import opened Text
  import opened Numbers
  import opened Json

  datatype TypeName =
    | ObjectType | StringType | NumberType | IntegerType | BooleanType | ArrayType | NullType
    | UnknownType(name: Text)

  /** `type`: a string or a list of strings; anything else is ignored by the validator. */
  datatype Types =
    | NoType
    | MalformedType(listsObject: bool) // a list with a non-string entry may still contain "object"
    | Types(names: seq<TypeName>)

  /** A value of `properties`, which need not be a schema. */
  datatype Entry = Node(schema: Schema) | NotASchema

  datatype Properties = NoProperties | MalformedProperties | Properties(entries: map<Text, Entry>)

  /** `required`, reduced to its string entries when it is a list. */
  datatype Required = NoRequired | MalformedRequired | Required(names: seq<Text>)

  /** `additionalProperties`; any value but `false` or a schema lets every key through. */
  datatype Additional = NoAdditional | Denied | Allowed | Extra(schema: Schema)

  /** `items`; the tuple form and other values are not enforced. */
  datatype Items = NoItems | Unenforced | Items(schema: Schema)

  datatype Enum = NoEnum | Enum(values: seq<Json>)

  datatype Schema = Schema(
    types: Types,
    enum: Enum,
    properties: Properties,
    required: Required,
    additional: Additional,
    items: Items,
    metadata: map<Text, Json> // titles, descriptions, defaults and examples: never a constraint
  ) {
    function Entries(): map<Text, Entry> {
      if properties.Properties? then properties.entries else map[]
    }

    function RequiredNames(): seq<Text> {
      if required.Required? then required.names else []
    }
  }

  // ---- What a schema means ----

  predicate MatchesType(name: TypeName, v: Json) {
    match name
    case ObjectType => v.Obj?
    case ArrayType => v.Arr?
    case StringType => v.Str?
    case BooleanType => v.Bool?
    case NumberType => v.Num? && v.n.IsFinite()
    case IntegerType => v.Num? && v.n.IsInteger()
    case NullType => v.Null?
    case UnknownType(_) => true
  }

  /** The type check runs only when every name is known. */
  predicate TypeAccepts(types: Types, v: Json) {
    types.Types? && types.names != [] && (forall t :: t in types.names ==> !t.UnknownType?) ==>
      exists t :: t in types.names && MatchesType(t, v)
  }

  predicate EnumAccepts(enum: Enum, v: Json) {
    enum.Enum? ==> exists c :: c in enum.values && DeepEqual(c, v)
  }

  predicate IsObjectNode(s: Schema) {
    if s.types.Types? then ObjectType in s.types.names
    else !s.properties.NoProperties? || !s.required.NoRequired?
  }

  predicate IsArrayNode(s: Schema) {
    s.types.Types? && ArrayType in s.types.names
  }

  predicate Accepts(s: Schema, v: Json)
    decreases v, 2
  {
    && TypeAccepts(s.types, v)
    && EnumAccepts(s.enum, v)
    && if IsObjectNode(s) && v.Obj? then AcceptsMembers(s, v)
       else IsArrayNode(s) && v.Arr? && s.items.Items? ==>
         forall i :: 0 <= i < |v.items| ==> Accepts(s.items.schema, v.items[i])
  }

  predicate AcceptsMembers(s: Schema, v: Json)
    requires v.Obj?
    decreases v, 1
  {
    && (forall k :: k in s.RequiredNames() ==> k in v.members)
    && (forall k :: k in v.members ==> AcceptsMember(s, v, k))
  }

  /** The check of one key of an object. */
  predicate AcceptsMember(s: Schema, v: Json, k: Text)
    requires v.Obj? && k in v.members
    decreases v, 0
  {
    if k in s.Entries() then s.Entries()[k].Node? ==> Accepts(s.Entries()[k].schema, v.members[k])
    else !s.additional.Denied? && (s.additional.Extra? ==> Accepts(s.additional.schema, v.members[k]))
  }

  // ---- The validator ----

  datatype Step = Key(name: Text) | Index(i: nat)

  datatype Problem = WrongType | NotInEnum | IsRequired | NotAllowed

  datatype FieldError = FieldError(path: seq<Step>, problem: Problem)

  ghost predicate Under(path: seq<Step>, errors: seq<FieldError>) {
    forall i :: 0 <= i < |errors| ==> path <= errors[i].path
  }

  method ValidateNode(s: Schema, v: Json, path: seq<Step>) returns (errors: seq<FieldError>)
    ensures errors == [] <==> Accepts(s, v)
    ensures Under(path, errors)
    decreases v, 1
  {
    errors := [];
    if !TypeAccepts(s.types, v) {
      return [FieldError(path, WrongType)];
    }
    if !EnumAccepts(s.enum, v) {
      errors := errors + [FieldError(path, NotInEnum)];
    }
    if IsObjectNode(s) && v.Obj? {
      var more := ValidateObject(s, v, path);
      errors := errors + more;
    } else if IsArrayNode(s) && v.Arr? {
      var more := ValidateArray(s, v, path);
      errors := errors + more;
    }
  }

  method ValidateObject(s: Schema, v: Json, path: seq<Step>) returns (errors: seq<FieldError>)
    requires v.Obj?
    ensures errors == [] <==> AcceptsMembers(s, v)
    ensures Under(path, errors)
    decreases v, 0
  {
    errors := [];
    var required := s.RequiredNames();
    for i := 0 to |required|
      invariant errors == [] <==> forall j :: 0 <= j < i ==> required[j] in v.members
      invariant Under(path, errors)
    {
      if required[i] !in v.members {
        errors := errors + [FieldError(path + [Key(required[i])], IsRequired)];
      }
    }
    ghost var present := errors == [];
    var keys := v.members.Keys;
    while keys != {}
      invariant keys <= v.members.Keys
      invariant errors == [] <==> present && forall k :: k in v.members && k !in keys ==> AcceptsMember(s, v, k)
      invariant Under(path, errors)
      decreases keys
    {
      var k :| k in keys;
      var here := path + [Key(k)];
      var more: seq<FieldError> := [];
      if k in s.Entries() {
        if s.Entries()[k].Node? {
          more := ValidateNode(s.Entries()[k].schema, v.members[k], here);
        }
      } else if s.additional.Denied? {
        more := [FieldError(here, NotAllowed)];
      } else if s.additional.Extra? {
        more := ValidateNode(s.additional.schema, v.members[k], here);
      }
      assert more == [] <==> AcceptsMember(s, v, k);
      errors := errors + more;
      keys := keys - {k};
    }
  }

  method ValidateArray(s: Schema, v: Json, path: seq<Step>) returns (errors: seq<FieldError>)
    requires v.Arr?
    ensures errors == [] <==>
            (s.items.Items? ==> forall i :: 0 <= i < |v.items| ==> Accepts(s.items.schema, v.items[i]))
    ensures Under(path, errors)
    decreases v, 0
  {
    errors := [];
    if s.items.Items? {
      for i := 0 to |v.items|
        invariant errors == [] <==> forall j :: 0 <= j < i ==> Accepts(s.items.schema, v.items[j])
        invariant Under(path, errors)
      {
        var more := ValidateNode(s.items.schema, v.items[i], path + [Index(i)]);
        errors := errors + more;
      }
    }
  }

  // ---- Closing ----

  /** `defaultClosedObjectSchema`. */
  function Close(s: Schema): Schema
    decreases s
  {
    var isObject := IsObjectNode(s);
    s.(
      properties := if isObject then CloseProperties(s.properties) else s.properties,
      additional := if isObject && s.additional.NoAdditional? then Denied else CloseAdditional(s.additional),
      items := CloseItems(s.items)
    )
  }

  function CloseProperties(p: Properties): Properties
    decreases p
  {
    match p
    case Properties(entries) => Properties(map k | k in entries :: CloseEntry(entries[k]))
    case _ => p
  }

  function CloseEntry(e: Entry): Entry
    decreases e
  {
    match e
    case Node(s) => Node(Close(s))
    case NotASchema => NotASchema
  }

  function CloseAdditional(a: Additional): Additional
    decreases a
  {
    match a
    case Extra(s) => Extra(Close(s))
    case _ => a
  }

  function CloseItems(i: Items): Items
    decreases i
  {
    match i
    case Items(s) => Items(Close(s))
    case _ => i
  }

  /** Every object reached under a node silent about additional keys has only declared keys. */
  predicate OnlyDeclaredKeys(s: Schema, v: Json)
    decreases v, 1
  {
    if IsObjectNode(s) && v.Obj? then
      forall k :: k in v.members ==> DeclaredMember(s, v, k)
    else
      IsArrayNode(s) && v.Arr? && s.items.Items? ==>
        forall i :: 0 <= i < |v.items| ==> OnlyDeclaredKeys(s.items.schema, v.items[i])
  }

  predicate DeclaredMember(s: Schema, v: Json, k: Text)
    requires v.Obj? && k in v.members
    decreases v, 0
  {
    if k in s.Entries() then s.Entries()[k].Node? ==> OnlyDeclaredKeys(s.Entries()[k].schema, v.members[k])
    else !s.additional.NoAdditional? && (s.additional.Extra? ==> OnlyDeclaredKeys(s.additional.schema, v.members[k]))
  }

  lemma CloseKeeps(s: Schema)
    ensures var c := Close(s);
            && c.types == s.types && c.enum == s.enum && c.required == s.required
            && (IsObjectNode(c) <==> IsObjectNode(s))
            && c.additional == (if IsObjectNode(s) && s.additional.NoAdditional? then Denied else CloseAdditional(s.additional))
            && c.items == CloseItems(s.items)
            && (IsObjectNode(s) ==> c.properties == CloseProperties(s.properties))
  {
  }

  lemma CloseKeepsEntries(s: Schema)
    requires IsObjectNode(s)
    ensures Close(s).Entries().Keys == s.Entries().Keys
    ensures forall k :: k in s.Entries() ==> Close(s).Entries()[k] == CloseEntry(s.Entries()[k])
  {
    CloseKeeps(s);
    var p := CloseProperties(s.properties);
    if s.properties.Properties? {
      assert p.Properties? && p.entries.Keys == s.properties.entries.Keys;
    }
  }

  /** Closing keeps the meaning and adds exactly the refusal of undeclared keys. */
  lemma {:induction false} ClosingIsExact(s: Schema, v: Json)
    ensures Accepts(Close(s), v) <==> Accepts(s, v) && OnlyDeclaredKeys(s, v)
    decreases v, 1
  {
    CloseKeeps(s);
    if IsObjectNode(s) && v.Obj? {
      forall k | k in v.members
        ensures AcceptsMember(Close(s), v, k) <==> AcceptsMember(s, v, k) && DeclaredMember(s, v, k)
      {
        ClosingMemberIsExact(s, v, k);
      }
    } else if IsArrayNode(s) && v.Arr? && s.items.Items? {
      forall i | 0 <= i < |v.items|
        ensures Accepts(Close(s.items.schema), v.items[i]) <==>
                Accepts(s.items.schema, v.items[i]) && OnlyDeclaredKeys(s.items.schema, v.items[i])
      {
        ClosingIsExact(s.items.schema, v.items[i]);
      }
    }
  }

  lemma {:induction false} ClosingMemberIsExact(s: Schema, v: Json, k: Text)
    requires v.Obj? && k in v.members && IsObjectNode(s)
    ensures AcceptsMember(Close(s), v, k) <==> AcceptsMember(s, v, k) && DeclaredMember(s, v, k)
    decreases v, 0
  {
    hide Accepts, OnlyDeclaredKeys;
    CloseKeeps(s);
    CloseKeepsEntries(s);
    if k in s.Entries() {
      if s.Entries()[k].Node? { ClosingIsExact(s.Entries()[k].schema, v.members[k]); }
    } else if s.additional.Extra? {
      ClosingIsExact(s.additional.schema, v.members[k]);
    }
  }

  /** No object node the validator can reach is silent about additional keys. */
  ghost predicate ClosedThroughout(s: Schema)
    decreases s
  {
    && (IsObjectNode(s) ==> !s.additional.NoAdditional? && PropertiesClosed(s.properties))
    && (s.additional.Extra? ==> ClosedThroughout(s.additional.schema))
    && (s.items.Items? ==> ClosedThroughout(s.items.schema))
  }

  ghost predicate PropertiesClosed(p: Properties)
    decreases p
  {
    p.Properties? ==> forall k :: k in p.entries ==> EntryClosed(p.entries[k])
  }

  ghost predicate EntryClosed(e: Entry)
    decreases e
  {
    e.Node? ==> ClosedThroughout(e.schema)
  }

  lemma {:induction false} ClosingLeavesNothingOpen(s: Schema)
    ensures ClosedThroughout(Close(s))
    ensures Close(Close(s)) == Close(s)
    decreases s
  {
    if s.additional.Extra? { ClosingLeavesNothingOpen(s.additional.schema); }
    if s.items.Items? { ClosingLeavesNothingOpen(s.items.schema); }
    ClosingPropertiesLeavesNothingOpen(s.properties);
  }

  lemma {:induction false} ClosingPropertiesLeavesNothingOpen(p: Properties)
    ensures PropertiesClosed(CloseProperties(p))
    ensures CloseProperties(CloseProperties(p)) == CloseProperties(p)
    decreases p
  {
    if p.Properties? {
      forall k | k in p.entries
        ensures EntryClosed(CloseEntry(p.entries[k]))
        ensures CloseEntry(CloseEntry(p.entries[k])) == CloseEntry(p.entries[k])
      {
        ClosingEntryLeavesNothingOpen(p.entries[k]);
      }
    }
  }

  lemma {:induction false} ClosingEntryLeavesNothingOpen(e: Entry)
    ensures EntryClosed(CloseEntry(e))
    ensures CloseEntry(CloseEntry(e)) == CloseEntry(e)
    decreases e
  {
    if e.Node? { ClosingLeavesNothingOpen(e.schema); }
  }

  /** Where nothing is open, every accepted value already has only declared keys. */
  lemma {:induction false} ClosedMeansDeclared(s: Schema, v: Json)
    requires ClosedThroughout(s) && Accepts(s, v)
    ensures OnlyDeclaredKeys(s, v)
    decreases v
  {
    if IsObjectNode(s) && v.Obj? {
      forall k | k in v.members ensures DeclaredMember(s, v, k) {
        assert AcceptsMember(s, v, k);
        if k in s.Entries() {
          assert EntryClosed(s.properties.entries[k]);
          if s.Entries()[k].Node? { ClosedMeansDeclared(s.Entries()[k].schema, v.members[k]); }
        } else if s.additional.Extra? {
          ClosedMeansDeclared(s.additional.schema, v.members[k]);
        }
      }
    } else if IsArrayNode(s) && v.Arr? && s.items.Items? {
      forall i | 0 <= i < |v.items| ensures OnlyDeclaredKeys(s.items.schema, v.items[i]) {
        ClosedMeansDeclared(s.items.schema, v.items[i]);
      }
    }
  }

  // ---- Load-time refusals ----

  /** `excludesObjectType`. */
  predicate ExcludesObject(t: Types) {
    match t
    case NoType => false
    case MalformedType(listsObject) => !listsObject
    case Types(names) => ObjectType !in names
  }

  /** A closed object node that requires a name it never declares. */
  predicate RequiresUndeclared(s: Schema) {
    && (s.additional.NoAdditional? || s.additional.Denied?)
    && IsObjectNode(s)
    && exists k :: k in s.RequiredNames() && k !in s.Entries()
  }

  predicate NodeRefused(s: Schema) {
    || ((!s.properties.NoProperties? || !s.required.NoRequired?) && ExcludesObject(s.types))
    || RequiresUndeclared(s)
  }

  /** `validateResourceSchemaKeywords` returns: no node is refused at any depth. */
  predicate KeywordsAccepted(s: Schema)
    decreases s
  {
    && !NodeRefused(s)
    && PropertiesAccepted(s.properties)
    && (s.additional.Extra? ==> KeywordsAccepted(s.additional.schema))
    && (s.items.Items? ==> KeywordsAccepted(s.items.schema))
  }

  predicate PropertiesAccepted(p: Properties)
    decreases p
  {
    p.Properties? ==> forall k :: k in p.entries ==> EntryAccepted(p.entries[k])
  }

  predicate EntryAccepted(e: Entry)
    decreases e
  {
    e.Node? ==> KeywordsAccepted(e.schema)
  }

  /** `validateResourceSchemaKeywords`: `false` is the load error. */
  method ValidateKeywords(s: Schema) returns (ok: bool)
    ensures ok <==> KeywordsAccepted(s)
    decreases s
  {
    if NodeRefused(s) { return false; }
    if s.properties.Properties? {
      var keys := s.properties.entries.Keys;
      while keys != {}
        invariant keys <= s.properties.entries.Keys
        invariant forall k :: k in s.properties.entries && k !in keys ==> EntryAccepted(s.properties.entries[k])
        decreases keys
      {
        var k :| k in keys;
        match s.properties.entries[k] {
          case Node(sub) =>
            EntryIsSmaller(s, k);
            var fine := ValidateKeywords(sub);
            assert fine <==> EntryAccepted(s.properties.entries[k]);
            if !fine { return false; }
          case NotASchema =>
        }
        keys := keys - {k};
      }
    }
    if s.additional.Extra? {
      var fine := ValidateKeywords(s.additional.schema);
      if !fine { return false; }
    }
    if s.items.Items? {
      var fine := ValidateKeywords(s.items.schema);
      if !fine { return false; }
    }
    return true;
  }

  lemma EntryIsSmaller(s: Schema, k: Text)
    requires s.properties.Properties? && k in s.properties.entries && s.properties.entries[k].Node?
    ensures s.properties.entries[k].schema < s
  {
    assert s.properties.entries[k] < s.properties;
  }

  /** A node that requires an undeclared name accepts no object once closed. */
  lemma RefusedNodesAcceptNoObject(s: Schema, v: Json)
    requires RequiresUndeclared(s) && v.Obj?
    ensures !Accepts(Close(s), v)
  {
    var k :| k in s.RequiredNames() && k !in s.Entries();
    var c := Close(s);
    CloseKeeps(s);
    CloseKeepsEntries(s);
    if k in v.members {
      assert !AcceptsMember(c, v, k);
    } else {
      assert k in c.RequiredNames();
    }
  }

  /** Past the load checks, `properties` and `required` are always enforced on objects. */
  lemma AcceptedNodesAreObjectNodes(s: Schema)
    requires KeywordsAccepted(s)
    requires !s.properties.NoProperties? || !s.required.NoRequired?
    ensures IsObjectNode(s)
  {
  }
}
