/** Lazy internal `$ref` resolution in an OpenAPI document. */
module Refs {
  import opened Text
  import opened Json
  import opened Options
  import P = Positional
  import Uri

  const REF := U("$ref")
  const HASH: CodeUnit := 0x23
  const SLASH: CodeUnit := 0x2F
  const TILDE: CodeUnit := 0x7E

  /** Bounds a chain of references that point at references. */
  const MAX_REF_DEPTH := 100

  predicate IsRef(node: Json) {
    node.Obj? && Lookup(node.members, REF).Str?
  }

  function Pointer(node: Json): Text
    requires IsRef(node)
  {
    node.members[REF].s
  }

  // ---- JSON Pointer (RFC 6901) in a URI fragment ----

  function Split(t: Text, separator: CodeUnit): (parts: seq<Text>)
    ensures parts != []
  {
    if t == [] then [[]]
    else
      var rest := Split(t[1..], separator);
      if t[0] == separator then [[]] + rest else [[t[0]] + rest[0]] + rest[1..]
  }

  /** `replaceAll('~' + digit, by)`. */
  function ReplaceTilde(t: Text, digit: CodeUnit, replacement: CodeUnit): Text {
    if |t| < 2 then t
    else if t[0] == TILDE && t[1] == digit then [replacement] + ReplaceTilde(t[2..], digit, replacement)
    else [t[0]] + ReplaceTilde(t[1..], digit, replacement)
  }

  /** `~1` before `~0`. */
  function UnescapeSegment(t: Text): Text {
    ReplaceTilde(ReplaceTilde(t, 0x31, SLASH), 0x30, TILDE)
  }

  /** The index a segment names, for decimal digits and the empty segment. */
  function ArrayIndex(segment: Text): Option<nat> {
    if DigitRun(segment) == |segment| then Some(P.Value(TextDigits(segment), 10)) else None
  }

  /** One step down the document; `Undefined` when nothing is there. */
  function Child(v: Json, segment: Text): Json {
    match v
    case Arr(items) =>
      var i := ArrayIndex(segment);
      if i.Some? && i.value < |items| then items[i.value] else Undefined
    case Obj(members) => Lookup(members, segment)
    case _ => Undefined
  }

  function Walk(v: Json, segments: seq<Text>): Option<Json> {
    if segments == [] then Some(v)
    else
      var decoded := Uri.Decode(segments[0]);
      if decoded.None? then None
      else
        var child := Child(v, UnescapeSegment(decoded.value));
        if child.Undefined? then None else Walk(child, segments[1..])
  }

  /** What a pointer that starts with `#` names. */
  function Resolve(document: Json, pointer: Text): Option<Json>
    requires pointer != []
  {
    var path := pointer[1..];
    if path == [] then Some(document)
    else if path[0] != SLASH then None
    else Walk(document, Split(path[1..], SLASH))
  }

  /** `resolvePointer`. */
  method ResolvePointer(document: Json, pointer: Text) returns (r: Option<Json>)
    requires pointer != []
    ensures r == Resolve(document, pointer)
  {
    var path := pointer[1..];
    if path == [] { return Some(document); }
    if path[0] != SLASH { return None; }
    var segments := Split(path[1..], SLASH);
    var current := document;
    for i := 0 to |segments|
      invariant Walk(current, segments[i..]) == Walk(document, segments)
    {
      assert segments[i..][1..] == segments[i + 1..];
      var decoded := Uri.Decode(segments[i]);
      if decoded.None? { return None; }
      current := Child(current, UnescapeSegment(decoded.value));
      if current.Undefined? { return None; }
    }
    assert segments[|segments|..] == [];
    return Some(current);
  }

  // ---- Following chains of references ----

  datatype Dereferenced = Dereferenced(value: Json, chain: seq<Text>)

  ghost predicate Distinct(chain: seq<Text>) {
    forall i, j :: 0 <= i < j < |chain| ==> chain[i] != chain[j]
  }

  /**
   * The first value down the chain that is not a reference. A repeated pointer,
   * a chain past the bound and a pointer to nothing are refused.
   */
  function Deref(document: Json, node: Json, chain: seq<Text>): (d: Option<Dereferenced>)
    ensures d.Some? ==> !IsRef(d.value.value) && chain <= d.value.chain
    ensures d.Some? && IsRef(node) ==> |chain| < |d.value.chain| <= MAX_REF_DEPTH
    ensures d.Some? && !IsRef(node) ==> d.value == Dereferenced(node, chain)
    ensures d.Some? && Distinct(chain) ==> Distinct(d.value.chain)
    decreases if |chain| < MAX_REF_DEPTH then MAX_REF_DEPTH - |chain| else 0
  {
    if !IsRef(node) then Some(Dereferenced(node, chain))
    else
      var pointer := Pointer(node);
      if pointer == [] || pointer[0] != HASH then None
      else if pointer in chain || |chain| >= MAX_REF_DEPTH then None
      else
        var target := Resolve(document, pointer);
        if target.None? then None else Deref(document, target.value, chain + [pointer])
  }

  /** `dereference`. */
  method Dereference(document: Json, node: Json, chain0: seq<Text>) returns (r: Option<Dereferenced>)
    ensures r == Deref(document, node, chain0)
  {
    var current, chain := node, chain0;
    while IsRef(current)
      invariant Deref(document, current, chain) == Deref(document, node, chain0)
      decreases MAX_REF_DEPTH - |chain|
    {
      var pointer := Pointer(current);
      if pointer == [] || pointer[0] != HASH { return None; }
      if pointer in chain || |chain| >= MAX_REF_DEPTH { return None; }
      var target := ResolvePointer(document, pointer);
      if target.None? { return None; }
      current := target.value;
      chain := chain + [pointer];
    }
    return Some(Dereferenced(current, chain));
  }

  /** A pointer already in the chain is reported, never followed. */
  lemma CycleIsRefused(document: Json, node: Json, chain: seq<Text>)
    requires IsRef(node) && Pointer(node) in chain
    ensures Deref(document, node, chain).None?
  {
  }

  /** Pointer hops along a document, from a reference to what it names. */
  ghost predicate Hops(document: Json, node: Json, pointers: seq<Text>, last: Json)
    decreases |pointers|
  {
    if pointers == [] then last == node
    else
      && IsRef(node) && Pointer(node) == pointers[0]
      && pointers[0] != [] && pointers[0][0] == HASH
      && Resolve(document, pointers[0]).Some?
      && Hops(document, Resolve(document, pointers[0]).value, pointers[1..], last)
  }

  /** What the reference names exists, in this document. */
  predicate Leads(document: Json, node: Json)
    requires IsRef(node)
  {
    Pointer(node) != [] && Pointer(node)[0] == HASH && Resolve(document, Pointer(node)).Some?
  }

  lemma DerefStep(document: Json, node: Json, chain: seq<Text>)
    requires IsRef(node)
    ensures Deref(document, node, chain) ==
            if Leads(document, node) && Pointer(node) !in chain && |chain| < MAX_REF_DEPTH
            then Deref(document, Resolve(document, Pointer(node)).value, chain + [Pointer(node)]) else None
  {
    hide Resolve;
  }

  lemma HopsStep(document: Json, node: Json, hops: seq<Text>, last: Json)
    requires hops != []
    ensures Hops(document, node, hops, last) <==>
            && IsRef(node) && Pointer(node) == hops[0] && Leads(document, node)
            && Hops(document, Resolve(document, Pointer(node)).value, hops[1..], last)
  {
    hide Resolve;
  }

  /** What a resolved reference records first is its own pointer. */
  lemma DerefRecords(document: Json, node: Json, chain: seq<Text>)
    requires IsRef(node) && Deref(document, node, chain).Some?
    ensures var d := Deref(document, node, chain).value;
            |d.chain| > |chain| && d.chain[|chain|] == Pointer(node)
  {
    hide Deref, Leads, Resolve;
    DerefStep(document, node, chain);
    var longer := chain + [Pointer(node)];
    assert longer[|chain|] == Pointer(node);
    assert longer <= Deref(document, node, chain).value.chain;
  }

  lemma RepeatedIsNotDistinct(chain: seq<Text>, hops: seq<Text>)
    requires hops != [] && hops[0] in chain
    ensures !Distinct(chain + hops)
  {
    var whole := chain + hops;
    var i :| 0 <= i < |chain| && chain[i] == hops[0];
    assert whole[i] == whole[|chain|];
  }

  /**
   * A reference resolves exactly when its hops end, unrepeated and within the
   * bound, at something that is not a reference.
   */
  lemma {:induction false} DerefIsExact(document: Json, node: Json, chain: seq<Text>, value: Json, hops: seq<Text>)
    requires Distinct(chain) && |chain| <= MAX_REF_DEPTH
    ensures Deref(document, node, chain) == Some(Dereferenced(value, chain + hops)) <==>
            && Hops(document, node, hops, value)
            && !IsRef(value)
            && Distinct(chain + hops)
            && |chain + hops| <= MAX_REF_DEPTH
    decreases MAX_REF_DEPTH - |chain|
  {
    hide Deref, Resolve, Distinct, Hops, IsRef;
    var whole := chain + hops;
    if !IsRef(node) {
      PlainStays(document, node, chain, value, hops);
    } else {
      var pointer := Pointer(node);
      DerefStep(document, node, chain);
      if hops == [] {
        assert whole == chain;
        NoHops(document, node, value);
        if Deref(document, node, chain).Some? { DerefRecords(document, node, chain); }
      } else {
        HopsStep(document, node, hops, value);
        assert whole[|chain|] == hops[0];
        if Deref(document, node, chain).Some? { DerefRecords(document, node, chain); }
        if hops[0] == pointer {
          if pointer in chain {
            RepeatedIsNotDistinct(chain, hops);
          } else if Leads(document, node) && |chain| < MAX_REF_DEPTH {
            var next, longer := Resolve(document, pointer).value, chain + [pointer];
            assert whole == longer + hops[1..];
            LongerIsDistinct(chain, pointer);
            DerefIsExact(document, next, longer, value, hops[1..]);
          }
        }
      }
    }
  }

  lemma LongerIsDistinct(chain: seq<Text>, pointer: Text)
    requires Distinct(chain) && pointer !in chain
    ensures Distinct(chain + [pointer])
  {
  }

  lemma NoHops(document: Json, node: Json, last: Json)
    ensures Hops(document, node, [], last) <==> last == node
  {
  }

  /** What is not a reference resolves to itself, over no hops. */
  lemma PlainStays(document: Json, node: Json, chain: seq<Text>, value: Json, hops: seq<Text>)
    requires !IsRef(node) && Distinct(chain) && |chain| <= MAX_REF_DEPTH
    ensures Deref(document, node, chain) == Some(Dereferenced(value, chain + hops)) <==>
            Hops(document, node, hops, value) && !IsRef(value) && Distinct(chain + hops) && |chain + hops| <= MAX_REF_DEPTH
  {
    assert chain + hops == chain <==> hops == [];
  }
}
