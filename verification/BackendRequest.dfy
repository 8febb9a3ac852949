/** Splitting validated input into a backend URL, query and body. */
module BackendRequest {
  import opened Text
  import opened Json
  import opened Options
  import opened PathTemplate
  import opened JsonText
  import Uri

  type Members = map<Text, Json>

  datatype Failure =
    | UriError
    | MissingParameter(name: Text)
    | InvalidParameter(name: Text)
    | NotAnObject(field: Text)

  datatype Outcome<+T> = Built(value: T) | Refused(failure: Failure)

  datatype Filled = Filled(url: Text, remaining: Members)

  const DOT: Text := [0x2E]
  const DOT_DOT: Text := [0x2E, 0x2E]

  predicate IsTraversal(raw: Text) {
    raw == [] || raw == DOT || raw == DOT_DOT
  }

  // ---- Filling the template ----

  /** Parameter `i` finds its key: the input has it and no earlier parameter took it. */
  predicate Supplied(ts: seq<Token>, input: Members, i: nat)
    requires i < |ts| && ts[i].Parameter?
  {
    ts[i].name in input && ts[i].name !in Names(ts[..i])
  }

  predicate Absent(ts: seq<Token>, input: Members, i: nat)
    requires i < |ts|
  {
    ts[i].Parameter? && !Supplied(ts, input, i)
  }

  predicate Traverses(ts: seq<Token>, input: Members, i: nat)
    requires i < |ts|
  {
    ts[i].Parameter? && Supplied(ts, input, i) && IsTraversal(StringifyPrimitive(input[ts[i].name]))
  }

  predicate Unencodable(ts: seq<Token>, input: Members, i: nat)
    requires i < |ts|
  {
    ts[i].Parameter? && Supplied(ts, input, i) && HasLoneSurrogate(StringifyPrimitive(input[ts[i].name]))
  }

  /** The last of the first `n` parameters that is absent. */
  function LastAbsent(ts: seq<Token>, input: Members, n: nat): (r: Option<Text>)
    requires n <= |ts|
    ensures r.None? <==> forall i :: 0 <= i < n ==> !Absent(ts, input, i)
  {
    if n == 0 then None
    else if Absent(ts, input, n - 1) then Some(ts[n - 1].name)
    else LastAbsent(ts, input, n - 1)
  }

  /** The last of the first `n` parameters whose value is empty or a dot segment. */
  function LastTraversal(ts: seq<Token>, input: Members, n: nat): (r: Option<Text>)
    requires n <= |ts|
    ensures r.None? <==> forall i :: 0 <= i < n ==> !Traverses(ts, input, i)
  {
    if n == 0 then None
    else if Traverses(ts, input, n - 1) then Some(ts[n - 1].name)
    else LastTraversal(ts, input, n - 1)
  }

  /** What one token becomes in the URL. */
  function Piece(t: Token, input: Members): Text {
    match t
    case Literal(u) => [u]
    case Parameter(name) =>
      if name !in input then [] else
      var encoded := Uri.Encode(StringifyPrimitive(input[name]));
      if encoded.None? then [] else encoded.value
  }

  function Expand(ts: seq<Token>, input: Members): Text {
    if ts == [] then [] else Piece(ts[0], input) + Expand(ts[1..], input)
  }

  function NameSet(ts: seq<Token>): set<Text> {
    set k | k in Names(ts)
  }

  function Apply(template: Text, input: Members): Outcome<Filled> {
    var ts := Parse(template);
    if exists i :: 0 <= i < |ts| && Unencodable(ts, input, i) then Refused(UriError)
    else if LastAbsent(ts, input, |ts|).Some? then Refused(MissingParameter(LastAbsent(ts, input, |ts|).value))
    else if LastTraversal(ts, input, |ts|).Some? then Refused(InvalidParameter(LastTraversal(ts, input, |ts|).value))
    else Built(Filled(Expand(ts, input), input - NameSet(ts)))
  }

  lemma NamesOfSnoc(ts: seq<Token>, i: nat)
    requires i < |ts|
    ensures NameSet(ts[..i + 1]) == NameSet(ts[..i]) + if ts[i].Parameter? then {ts[i].name} else {}
  {
    assert ts[..i + 1] == ts[..i] + [ts[i]];
    forall k ensures Parameter(k) in ts[..i + 1] <==> Parameter(k) in ts[..i] || Parameter(k) == ts[i] {
    }
  }

  lemma FillStep(ts: seq<Token>, input: Members, i: nat)
    requires i < |ts|
    ensures LastAbsent(ts, input, i + 1) == if Absent(ts, input, i) then Some(ts[i].name) else LastAbsent(ts, input, i)
    ensures LastTraversal(ts, input, i + 1) == if Traverses(ts, input, i) then Some(ts[i].name) else LastTraversal(ts, input, i)
    ensures Expand(ts[i..], input) == Piece(ts[i], input) + Expand(ts[i + 1..], input)
  {
    assert ts[i..][1..] == ts[i + 1..];
  }

  /** Taking parameter `i` out of what its predecessors left. */
  lemma TakeStep(ts: seq<Token>, input: Members, i: nat, remaining: Members)
    requires i < |ts| && remaining == input - NameSet(ts[..i])
    ensures ts[i].Literal? ==> remaining == input - NameSet(ts[..i + 1])
    ensures ts[i].Parameter? ==>
              && (ts[i].name in remaining <==> Supplied(ts, input, i))
              && (ts[i].name in remaining ==> remaining[ts[i].name] == input[ts[i].name])
              && (ts[i].name !in remaining ==> remaining == input - NameSet(ts[..i + 1]))
              && remaining - {ts[i].name} == input - NameSet(ts[..i + 1])
  {
    NamesOfSnoc(ts, i);
  }

  /** `applyPathTemplate`: each key is deleted as it is used. */
  method ApplyPathTemplate(template: Text, input: Members) returns (r: Outcome<Filled>)
    ensures r == Apply(template, input)
  {
    hide JsonText.StringifyPrimitive, HasLoneSurrogate, Uri.Encode, Parse, LastAbsent, LastTraversal, Expand, IsTraversal, NameSet, Supplied;
    var ts := Parse(template);
    var remaining := input;
    assert remaining == input - NameSet(ts[..0]) by { NothingTaken(ts, input); }
    var missing: Option<Text> := None;
    var invalid: Option<Text> := None;
    var url: Text := [];
    for i := 0 to |ts|
      invariant remaining == input - NameSet(ts[..i])
      invariant forall j :: 0 <= j < i ==> !Unencodable(ts, input, j)
      invariant missing == LastAbsent(ts, input, i)
      invariant invalid == LastTraversal(ts, input, i)
      invariant missing.None? && invalid.None? ==> url + Expand(ts[i..], input) == Expand(ts, input)
    {
      FillStep(ts, input, i);
      TakeStep(ts, input, i, remaining);
      match ts[i] {
        case Literal(u) =>
          url := url + [u];
        case Parameter(key) =>
          if key !in remaining {
            missing := Some(key);
          } else {
            var raw := StringifyPrimitive(remaining[key]);
            remaining := remaining - {key};
            if IsTraversal(raw) {
              invalid := Some(key);
              TraversalIsPaired(raw);
            } else {
              Uri.EncodesUnlessLoneSurrogate(raw);
              var encoded := Uri.Encode(raw);
              if encoded.None? {
                assert Unencodable(ts, input, i);
                return Refused(UriError);
              }
              assert url + (encoded.value + Expand(ts[i + 1..], input)) == (url + encoded.value) + Expand(ts[i + 1..], input);
              url := url + encoded.value;
            }
          }
      }
    }
    assert ts[..|ts|] == ts && ts[|ts|..] == [];
    ExpandNothing(input);
    assert url + [] == url;
    if missing.Some? { return Refused(MissingParameter(missing.value)); }
    if invalid.Some? { return Refused(InvalidParameter(invalid.value)); }
    return Built(Filled(url, remaining));
  }

  lemma NothingTaken(ts: seq<Token>, input: Members)
    ensures input - NameSet(ts[..0]) == input
  {
  }

  lemma ExpandNothing(input: Members)
    ensures Expand([], input) == []
  {
  }

  lemma TraversalIsPaired(raw: Text)
    requires IsTraversal(raw)
    ensures !HasLoneSurrogate(raw)
  {
    PlainIsPaired(raw);
  }

  // ---- Exactly when a path is built ----

  ghost predicate Distinct(names: seq<Text>) {
    forall i, j :: 0 <= i < j < |names| ==> names[i] != names[j]
  }

  /** Values a path segment can carry, as a caller would check them. */
  predicate Usable(v: Json) {
    && !v.Undefined? && !v.Null?
    && (v.Str? ==> !IsTraversal(v.s) && !HasLoneSurrogate(v.s))
  }

  lemma UsableIsExact(v: Json)
    ensures Usable(v) <==> !IsTraversal(StringifyPrimitive(v)) && !HasLoneSurrogate(StringifyPrimitive(v))
  {
    match v
    case Num(n) => NumberIsPaired(n);
    case Arr(_) => StringifyIsPaired(v);
    case Obj(_) => StringifyIsPaired(v);
    case Bool(_) => PlainIsPaired(StringifyPrimitive(v));
    case _ =>
  }

  ghost predicate Unrepeated(ts: seq<Token>) {
    forall i, j :: 0 <= i < j < |ts| && ts[i].Parameter? ==> ts[i] != ts[j]
  }

  lemma UnrepeatedCons(t: Token, ts: seq<Token>)
    ensures Unrepeated([t] + ts) <==> Unrepeated(ts) && (t.Parameter? ==> t !in ts)
  {
    var all := [t] + ts;
    assert forall i :: 0 <= i < |ts| ==> all[i + 1] == ts[i];
    if Unrepeated(all) {
      forall i, j | 0 <= i < j < |ts| && ts[i].Parameter? ensures ts[i] != ts[j] {
        assert all[i + 1] != all[j + 1];
      }
      forall j | 0 <= j < |ts| && t.Parameter? ensures t != ts[j] {
        assert all[0] != all[j + 1];
      }
    }
  }

  lemma DistinctCons(name: Text, names: seq<Text>)
    ensures Distinct([name] + names) <==> name !in names && Distinct(names)
  {
    var all := [name] + names;
    assert forall i :: 0 <= i < |names| ==> all[i + 1] == names[i];
    if Distinct(all) {
      forall i, j | 0 <= i < j < |names| ensures names[i] != names[j] {
        assert all[i + 1] != all[j + 1];
      }
      forall j | 0 <= j < |names| ensures name != names[j] {
        assert all[0] != all[j + 1];
      }
    }
  }

  /** Each parameter is used once exactly when no two tokens name the same one. */
  lemma {:induction false} DistinctTokens(ts: seq<Token>)
    ensures Distinct(Names(ts)) <==> Unrepeated(ts)
  {
    hide Distinct, Unrepeated;
    if ts == [] {
      assert Distinct(Names(ts)) && Unrepeated(ts) by { NothingRepeats(); }
    } else {
      DistinctTokens(ts[1..]);
      assert ts == [ts[0]] + ts[1..];
      UnrepeatedCons(ts[0], ts[1..]);
      if ts[0].Parameter? {
        DistinctCons(ts[0].name, Names(ts[1..]));
      } else {
        assert Names(ts) == Names(ts[1..]);
      }
    }
  }

  lemma NothingRepeats()
    ensures Distinct(Names([])) && Unrepeated([])
  {
  }

  lemma RepeatIsAbsent(ts: seq<Token>, input: Members, i: nat, j: nat)
    requires i < j < |ts| && ts[i].Parameter?
    ensures ts[i] == ts[j] ==> Absent(ts, input, j)
  {
    assert ts[..j][i] == ts[i];
  }

  /** A key taken earlier is absent the second time; distinct names are absent only when the input lacks them. */
  lemma NothingAbsent(ts: seq<Token>, input: Members)
    ensures (forall i :: 0 <= i < |ts| ==> !Absent(ts, input, i)) <==>
            Distinct(Names(ts)) && forall k :: k in Names(ts) ==> k in input
  {
    DistinctTokens(ts);
    if forall i :: 0 <= i < |ts| ==> !Absent(ts, input, i) {
      forall k | k in Names(ts) ensures k in input {
        var i :| 0 <= i < |ts| && ts[i] == Parameter(k);
        assert !Absent(ts, input, i);
      }
      forall i, j | 0 <= i < j < |ts| && ts[i].Parameter? ensures ts[i] != ts[j] {
        RepeatIsAbsent(ts, input, i, j);
      }
    }
    if Distinct(Names(ts)) && forall k :: k in Names(ts) ==> k in input {
      forall i | 0 <= i < |ts| ensures !Absent(ts, input, i) {
        if ts[i].Parameter? {
          assert Parameter(ts[i].name) in ts;
        }
      }
    }
  }

  /**
   * A path is built exactly when no name repeats and every named value is
   * present and usable; what remains of the input is everything else.
   */
  lemma ApplyIsExact(template: Text, input: Members)
    ensures var ts := Parse(template);
            && (Apply(template, input).Built? <==>
                 Distinct(Names(ts)) && forall k :: k in Names(ts) ==> k in input && Usable(input[k]))
            && (Apply(template, input).Built? ==>
                 && Apply(template, input).value.remaining == map k | k in input && k !in Names(ts) :: input[k])
  {
    hide JsonText.StringifyPrimitive, HasLoneSurrogate, Parse, Expand, Usable;
    var ts := Parse(template);
    NothingAbsent(ts, input);
    if forall i :: 0 <= i < |ts| ==> !Absent(ts, input, i) {
      forall k | k in Names(ts)
        ensures Usable(input[k]) <==>
                forall i :: 0 <= i < |ts| && ts[i] == Parameter(k) ==> !Traverses(ts, input, i) && !Unencodable(ts, input, i)
      {
        UsableIsExact(input[k]);
        var i :| 0 <= i < |ts| && ts[i] == Parameter(k);
        assert !Absent(ts, input, i);
      }
      NamesCoverTokens(ts);
    }
  }

  lemma NamesCoverTokens(ts: seq<Token>)
    ensures forall i :: 0 <= i < |ts| && ts[i].Parameter? ==> ts[i].name in Names(ts)
  {
  }

  /** The second occurrence of a repeated parameter is never supplied. */
  lemma RepeatedParameterNeverFills(template: Text, input: Members)
    requires !Distinct(Names(Parse(template)))
    ensures Apply(template, input).Refused?
    ensures Apply(template, input).failure.UriError? || Apply(template, input).failure.MissingParameter?
  {
    NothingAbsent(Parse(template), input);
  }

  lemma {:induction false} LastAbsentIs(ts: seq<Token>, input: Members, n: nat) returns (i: nat)
    requires n <= |ts| && LastAbsent(ts, input, n).Some?
    ensures i < n && Absent(ts, input, i) && LastAbsent(ts, input, n).value == ts[i].name
  {
    hide Supplied;
    if Absent(ts, input, n - 1) { i := n - 1; } else { i := LastAbsentIs(ts, input, n - 1); }
  }

  lemma {:induction false} LastTraversalIs(ts: seq<Token>, input: Members, n: nat) returns (i: nat)
    requires n <= |ts| && LastTraversal(ts, input, n).Some?
    ensures i < n && Traverses(ts, input, i) && LastTraversal(ts, input, n).value == ts[i].name
  {
    hide Supplied, JsonText.StringifyPrimitive, IsTraversal;
    if Traverses(ts, input, n - 1) { i := n - 1; } else { i := LastTraversalIs(ts, input, n - 1); }
  }

  /**
   * With distinct names, the parameter reported missing is one the input lacks,
   * and the one reported invalid has an empty or dot-segment value.
   */
  lemma FailureNamesItsParameter(template: Text, input: Members)
    requires Distinct(Names(Parse(template))) && Apply(template, input).Refused?
    ensures var names, failure := Names(Parse(template)), Apply(template, input).failure;
            && (failure.MissingParameter? ==> failure.name in names && failure.name !in input)
            && (failure.InvalidParameter? ==>
                 && failure.name in names && failure.name in input
                 && IsTraversal(StringifyPrimitive(input[failure.name])))
            && !failure.NotAnObject?
  {
    hide JsonText.StringifyPrimitive, HasLoneSurrogate, Parse, IsTraversal;
    var ts := Parse(template);
    NamesCoverTokens(ts);
    if exists i :: 0 <= i < |ts| && Unencodable(ts, input, i) {
    } else if LastAbsent(ts, input, |ts|).Some? {
      var i := LastAbsentIs(ts, input, |ts|);
      AbsentMeansLacking(ts, input, i);
    } else {
      var i := LastTraversalIs(ts, input, |ts|);
    }
  }

  // ---- Exactly when encoding throws ----

  /** A string with a surrogate that is not half of a pair. */
  predicate Unpaired(v: Json) {
    v.Str? && HasLoneSurrogate(v.s)
  }

  lemma OnlyStringsAreUnpaired(v: Json)
    ensures HasLoneSurrogate(StringifyPrimitive(v)) <==> Unpaired(v)
  {
    match v
    case Num(n) => NumberIsPaired(n);
    case Arr(_) => StringifyIsPaired(v);
    case Obj(_) => StringifyIsPaired(v);
    case _ => if !v.Str? { PlainIsPaired(StringifyPrimitive(v)); }
  }

  /** The first token naming a key that the input has takes it. */
  lemma {:induction false} FirstUse(ts: seq<Token>, input: Members, k: Text, n: nat) returns (i: nat)
    requires n < |ts| && ts[n] == Parameter(k) && k in input
    ensures i < |ts| && ts[i] == Parameter(k) && Supplied(ts, input, i)
    decreases n
  {
    if k in Names(ts[..n]) {
      var j :| 0 <= j < n && ts[..n][j] == Parameter(k);
      i := FirstUse(ts, input, k, j);
    } else {
      i := n;
    }
  }

  /**
   * A path is refused with a `URIError` exactly when some named value the input
   * has is a string with a lone surrogate, whatever else is wrong with it.
   */
  lemma UriErrorExactly(template: Text, input: Members)
    ensures Apply(template, input) == Refused(UriError) <==>
            exists k :: k in Names(Parse(template)) && k in input && Unpaired(input[k])
  {
    hide JsonText.StringifyPrimitive, HasLoneSurrogate, Parse, Expand, IsTraversal, Unpaired, LastAbsent, LastTraversal;
    var ts := Parse(template);
    NamesCoverTokens(ts);
    if i :| 0 <= i < |ts| && Unencodable(ts, input, i) {
      OnlyStringsAreUnpaired(input[ts[i].name]);
      assert ts[i].name in Names(ts);
    }
    if k :| k in Names(ts) && k in input && Unpaired(input[k]) {
      var n :| 0 <= n < |ts| && ts[n] == Parameter(k);
      var i := FirstUse(ts, input, k, n);
      OnlyStringsAreUnpaired(input[k]);
      assert Unencodable(ts, input, i);
    }
  }

  /** With distinct names nothing earlier can have taken the key. */
  lemma AbsentMeansLacking(ts: seq<Token>, input: Members, i: nat)
    requires Distinct(Names(ts)) && i < |ts| && Absent(ts, input, i)
    ensures ts[i].name in Names(ts) && ts[i].name !in input
  {
    DistinctTokens(ts);
    assert Parameter(ts[i].name) in ts;
    forall j | 0 <= j < i ensures ts[..i][j] != ts[i] {
    }
    assert Parameter(ts[i].name) !in ts[..i];
  }

  /** With distinct names a parameter is reported missing only when the input lacks one. */
  lemma MissingMeansMissing(template: Text, input: Members)
    requires Distinct(Names(Parse(template)))
    ensures Apply(template, input).Refused? && Apply(template, input).failure.MissingParameter? ==>
              exists k :: k in Names(Parse(template)) && k !in input
  {
    if Apply(template, input).Refused? { FailureNamesItsParameter(template, input); }
  }

  // ---- The whole request ----

  datatype Method = Get | Post | Put | Patch | Delete {
    predicate AcceptsBody() {
      !Get? && !Delete?
    }
  }

  datatype Bindings = Bindings(path: Option<Text>, query: Option<Text>, body: Option<Text>)

  datatype Handler = Handler(verb: Method, url: Text, bindings: Option<Bindings>)

  datatype Parts = Parts(url: Text, query: Members, body: Option<Json>)

  /** `resolveBoundGroup`; an unbound group is empty. */
  function BoundGroup(input: Members, key: Option<Text>): Outcome<Members> {
    if key.None? then Built(map[])
    else
      match Lookup(input, key.value)
      case Undefined => Built(map[])
      case Obj(members) => Built(members)
      case _ => Refused(NotAnObject(key.value))
  }

  /** `buildBackendRequestParts`. */
  function BuildParts(handler: Handler, input: Members): Outcome<Parts> {
    if handler.bindings.None? then
      match Apply(handler.url, input)
      case Refused(f) => Refused(f)
      case Built(filled) =>
        if handler.verb.AcceptsBody() then Built(Parts(filled.url, map[], Some(Obj(filled.remaining))))
        else Built(Parts(filled.url, filled.remaining, None))
    else
      var b := handler.bindings.value;
      var path := BoundGroup(input, b.path);
      if path.Refused? then Refused(path.failure)
      else
        var filled := Apply(handler.url, path.value);
        if filled.Refused? then Refused(filled.failure)
        else
          var query := BoundGroup(input, b.query);
          if query.Refused? then Refused(query.failure)
          else
            var body := if b.body.None? then Undefined else Lookup(input, b.body.value);
            Built(Parts(filled.value.url, query.value,
                        if body.Undefined? || !handler.verb.AcceptsBody() then None else Some(body)))
  }

  /** The members a request carries outside its path. */
  function Sent(parts: Parts): Members {
    if parts.body.Some? && parts.body.value.Obj? then parts.query + parts.body.value.members else parts.query
  }

  /** Without bindings every input member is sent once: in the path, or in the query or body. */
  lemma DefaultSplitLosesNothing(handler: Handler, input: Members)
    requires handler.bindings.None? && BuildParts(handler, input).Built?
    ensures var parts := BuildParts(handler, input).value;
            var names := NameSet(Parse(handler.url));
            && Sent(parts).Keys !! names
            && Sent(parts).Keys + names == input.Keys
            && (forall k :: k in Sent(parts) ==> Sent(parts)[k] == input[k])
            && (handler.verb.AcceptsBody() ==> parts.query == map[])
            && (!handler.verb.AcceptsBody() ==> parts.body.None?)
  {
    hide Parse, Apply;
    ApplyIsExact(handler.url, input);
    var parts := BuildParts(handler, input).value;
    assert Sent(parts) == Apply(handler.url, input).value.remaining;
  }

  /** Every way a bound request fails, and what the ones that succeed carry. */
  lemma BoundRequestIsExact(handler: Handler, input: Members)
    requires handler.bindings.Some?
    ensures var b := handler.bindings.value;
            var path, query := BoundGroup(input, b.path), BoundGroup(input, b.query);
            var names := Names(Parse(handler.url));
            && (BuildParts(handler, input).Built? <==>
                 && path.Built? && query.Built? && Distinct(names)
                 && forall k :: k in names ==> k in path.value && Usable(path.value[k]))
            && (BuildParts(handler, input).Built? ==>
                 var parts := BuildParts(handler, input).value;
                 && parts.query == query.value
                 && (parts.body.Some? <==>
                      handler.verb.AcceptsBody() && b.body.Some? && !Lookup(input, b.body.value).Undefined?)
                 && (parts.body.Some? ==> parts.body.value == input[b.body.value]))
  {
    hide Parse, Apply, Usable;
    var path := BoundGroup(input, handler.bindings.value.path);
    if path.Built? { ApplyIsExact(handler.url, path.value); }
  }

  /** The members path values are read from, where there are any. */
  function PathMembers(handler: Handler, input: Members): Outcome<Members> {
    if handler.bindings.None? then Built(input) else BoundGroup(input, handler.bindings.value.path)
  }

  /** Building a request throws a `URIError` exactly when a string given for a path parameter has a lone surrogate. */
  lemma BuildThrowsExactly(handler: Handler, input: Members)
    ensures var source := PathMembers(handler, input);
            BuildParts(handler, input) == Refused(UriError) <==>
            source.Built? && exists k :: k in Names(Parse(handler.url)) && k in source.value && Unpaired(source.value[k])
  {
    hide Parse, Apply, Unpaired;
    var source := PathMembers(handler, input);
    if source.Built? { UriErrorExactly(handler.url, source.value); }
  }

  const X: Text := [0x78]
  const LONE: Text := [0xD800]

  /** `/{x}` with `x` a single high surrogate. */
  lemma LoneSurrogateThrows(verb: Method)
    ensures BuildParts(Handler(verb, [0x2F, OPEN, 0x78, CLOSE], None), map[X := Str(LONE)]) == Refused(UriError)
  {
    hide Parse, Source;
    var ts := [PathTemplate.Literal(0x2F), Parameter(X)];
    var url := [0x2F, OPEN, 0x78, CLOSE];
    assert Source(ts) == url && Readable(ts) by { TemplateReads(); }
    ParseOfSource(ts);
    assert Parameter(X) in ts && X in Names(ts);
    assert Unpaired(Str(LONE));
    BuildThrowsExactly(Handler(verb, url, None), map[X := Str(LONE)]);
  }

  lemma TemplateReads()
    ensures var ts := [PathTemplate.Literal(0x2F), Parameter(X)];
            Source(ts) == [0x2F, OPEN, 0x78, CLOSE] && Readable(ts)
  {
    var ts := [PathTemplate.Literal(0x2F), Parameter(X)];
    assert ts[1..] == [Parameter(X)] && ts[1..][1..] == [];
    assert Source(ts[1..]) == [OPEN] + X + [CLOSE] + Source([]);
  }
}
