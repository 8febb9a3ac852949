/** Merging `allOf` is the conjunction of its branches. */
module AllOf {
  import opened Text
  import opened Json
  import opened Schema
  import opened OpenApiSchema

  /** Two branches agree on every property both declare. */
  ghost predicate Agree(p: Schema, q: Schema) {
    forall k :: k in p.Entries() && k in q.Entries() ==> p.Entries()[k] == q.Entries()[k]
  }

  ghost predicate SomeDeclares(parts: seq<Schema>, k: Text) {
    exists p :: p in parts && k in p.Entries()
  }

  ghost predicate SomeRequires(parts: seq<Schema>, k: Text) {
    exists p :: p in parts && k in p.RequiredNames()
  }

  ghost predicate SomeOpen(parts: seq<Schema>) {
    exists p :: p in parts && p.additional.Allowed?
  }

  /** Branches join exactly when each can and all agree, whatever the order. */
  lemma {:induction false} JoinsIff(acc: Merged, parts: seq<Schema>)
    ensures JoinAll(acc, parts).Some? <==>
            && (forall p :: p in parts ==> CanJoin(acc, p))
            && (forall p, q :: p in parts && q in parts ==> Agree(p, q))
    decreases |parts|
  {
    if parts != [] {
      var p0, rest := parts[0], parts[1..];
      assert forall p :: p in parts <==> p == p0 || p in rest;
      if CanJoin(acc, p0) {
        JoinsIff(Join(acc, p0), rest);
        forall q ensures CanJoin(Join(acc, p0), q) <==> CanJoin(acc, q) && Agree(p0, q) {
        }
      }
    }
  }

  /** What a successful merge collects. */
  ghost predicate Collects(acc: Merged, parts: seq<Schema>, r: Merged) {
    && (forall k :: k in r.entries <==> k in acc.entries || SomeDeclares(parts, k))
    && (forall k :: k in acc.entries ==> r.entries[k] == acc.entries[k])
    && (forall p, k :: p in parts && k in p.Entries() ==> r.entries[k] == p.Entries()[k])
    && (forall k :: k in r.required <==> k in acc.required || SomeRequires(parts, k))
    && (r.open <==> acc.open || SomeOpen(parts))
  }

  lemma {:induction false} JoinAllCollects(acc: Merged, parts: seq<Schema>)
    requires JoinAll(acc, parts).Some?
    ensures Collects(acc, parts, JoinAll(acc, parts).value)
    decreases |parts|
  {
    if parts != [] {
      var p0, rest := parts[0], parts[1..];
      var acc', r := Join(acc, p0), JoinAll(acc, parts).value;
      assert forall p :: p in parts <==> p == p0 || p in rest;
      JoinAllCollects(acc', rest);
      forall k
        ensures SomeDeclares(parts, k) <==> k in p0.Entries() || SomeDeclares(rest, k)
        ensures SomeRequires(parts, k) <==> k in p0.RequiredNames() || SomeRequires(rest, k)
      {
        assert p0 in parts;
      }
      assert SomeOpen(parts) <==> p0.additional.Allowed? || SomeOpen(rest);
      forall k | k in acc.entries ensures r.entries[k] == acc.entries[k] {
        assert k in acc'.entries && acc'.entries[k] == acc.entries[k];
      }
      forall p, k | p in parts && k in p.Entries() ensures r.entries[k] == p.Entries()[k] {
        if p == p0 { assert k in acc'.entries && acc'.entries[k] == p0.Entries()[k]; }
      }
    }
  }

  /** A branch with its own undeclared keys let through. */
  function Opened(p: Schema): Schema {
    p.(additional := Allowed)
  }

  /** The constraints an object gets from one branch. */
  ghost predicate BranchAccepts(p: Schema, v: Json)
    requires v.Obj?
  {
    && (forall k :: k in p.RequiredNames() ==> k in v.members)
    && (forall k :: k in p.Entries() && k in v.members && p.Entries()[k].Node? ==>
          Accepts(p.Entries()[k].schema, v.members[k]))
  }

  lemma OpenedBranch(p: Schema, v: Json)
    requires CanJoin(EMPTY, p) && v.Obj?
    ensures Accepts(Opened(p), v) <==> BranchAccepts(p, v)
  {
    var o := Opened(p);
    assert o.Entries() == p.Entries() && o.RequiredNames() == p.RequiredNames();
    assert TypeAccepts(o.types, v) by {
      if o.types.Types? { assert MatchesType(ObjectType, v); }
    }
    if IsObjectNode(o) {
      forall k | k in v.members
        ensures AcceptsMember(o, v, k) <==>
                (k in p.Entries() && p.Entries()[k].Node? ==> Accepts(p.Entries()[k].schema, v.members[k]))
      {
      }
    } else {
      assert p.properties.NoProperties? && p.required.NoRequired?;
    }
  }

  /** The merged schema on an object. */
  lemma MergedAccepts(acc: Merged, v: Json)
    ensures Accepts(ToSchema(acc), v) <==>
            && v.Obj?
            && (forall k :: k in acc.required ==> k in v.members)
            && (forall k :: k in v.members ==>
                  if k in acc.entries then acc.entries[k].Node? ==> Accepts(acc.entries[k].schema, v.members[k]) else acc.open)
  {
    var s := ToSchema(acc);
    assert TypeAccepts(s.types, v) <==> v.Obj? by {
      if v.Obj? { assert MatchesType(ObjectType, v); }
    }
    assert s.Entries() == acc.entries && s.RequiredNames() == acc.required;
    if v.Obj? {
      forall k | k in v.members
        ensures AcceptsMember(s, v, k) <==>
                if k in acc.entries then acc.entries[k].Node? ==> Accepts(acc.entries[k].schema, v.members[k]) else acc.open
      {
      }
    }
  }

  /**
   * The merged schema accepts a value iff it is an object that meets every
   * branch and, unless some branch is explicitly open, uses only keys some
   * branch declares.
   */
  lemma MergeIsConjunction(parts: seq<Schema>, v: Json)
    requires Merge(parts).Some?
    ensures Accepts(Merge(parts).value, v) <==>
            && v.Obj?
            && (forall p :: p in parts ==> Accepts(Opened(p), v))
            && (SomeOpen(parts) || forall k :: k in v.members ==> SomeDeclares(parts, k))
  {
    hide Accepts, Join;
    var acc := JoinAll(EMPTY, parts).value;
    JoinAllCollects(EMPTY, parts);
    JoinsIff(EMPTY, parts);
    MergedAccepts(acc, v);
    if v.Obj? {
      forall p | p in parts ensures Accepts(Opened(p), v) <==> BranchAccepts(p, v) {
        OpenedBranch(p, v);
      }
      ObjectConjunction(parts, acc, v);
    }
  }

  /** The same with undeclared keys let through. */
  lemma OpenedMergeIsConjunction(parts: seq<Schema>, v: Json)
    requires Merge(parts).Some?
    ensures Accepts(Opened(Merge(parts).value), v) <==> v.Obj? && forall p :: p in parts ==> Accepts(Opened(p), v)
  {
    hide Accepts, Join;
    var acc := JoinAll(EMPTY, parts).value;
    var open := acc.(open := true);
    JoinAllCollects(EMPTY, parts);
    JoinsIff(EMPTY, parts);
    assert Opened(ToSchema(acc)) == ToSchema(open);
    MergedAccepts(open, v);
    if v.Obj? {
      forall p | p in parts ensures Accepts(Opened(p), v) <==> BranchAccepts(p, v) {
        OpenedBranch(p, v);
      }
      OpenConjunction(parts, acc, v);
    }
  }

  lemma OpenConjunction(parts: seq<Schema>, acc: Merged, v: Json)
    requires v.Obj? && Collects(EMPTY, parts, acc)
    ensures (&& (forall k :: k in acc.required ==> k in v.members)
             && (forall k :: k in v.members && k in acc.entries && acc.entries[k].Node? ==>
                   Accepts(acc.entries[k].schema, v.members[k])))
       <==> forall p :: p in parts ==> BranchAccepts(p, v)
  {
    hide Accepts;
    if && (forall k :: k in acc.required ==> k in v.members)
       && (forall k :: k in v.members && k in acc.entries && acc.entries[k].Node? ==>
             Accepts(acc.entries[k].schema, v.members[k]))
    {
      forall p | p in parts ensures BranchAccepts(p, v) {
        forall k | k in p.RequiredNames() ensures k in v.members { assert SomeRequires(parts, k); }
        forall k | k in p.Entries() && k in v.members && p.Entries()[k].Node?
          ensures Accepts(p.Entries()[k].schema, v.members[k])
        {
          assert SomeDeclares(parts, k);
        }
      }
    }
    if forall p :: p in parts ==> BranchAccepts(p, v) {
      forall k | k in acc.required ensures k in v.members {
        var p :| p in parts && k in p.RequiredNames();
        assert BranchAccepts(p, v);
      }
      forall k | k in v.members && k in acc.entries && acc.entries[k].Node?
        ensures Accepts(acc.entries[k].schema, v.members[k])
      {
        var p :| p in parts && k in p.Entries();
        assert BranchAccepts(p, v);
      }
    }
  }

  lemma ObjectConjunction(parts: seq<Schema>, acc: Merged, v: Json)
    requires v.Obj? && Collects(EMPTY, parts, acc)
    ensures (&& (forall k :: k in acc.required ==> k in v.members)
             && (forall k :: k in v.members ==>
                   if k in acc.entries then acc.entries[k].Node? ==> Accepts(acc.entries[k].schema, v.members[k]) else acc.open))
       <==> (&& (forall p :: p in parts ==> BranchAccepts(p, v))
             && (SomeOpen(parts) || forall k :: k in v.members ==> SomeDeclares(parts, k)))
  {
    hide Accepts, BranchAccepts;
    OpenConjunction(parts, acc, v);
    if !SomeOpen(parts) && forall k :: k in v.members ==> SomeDeclares(parts, k) {
      assert forall k :: k in v.members ==> k in acc.entries;
    }
  }

  /** Neither the outcome nor the meaning of a merge depends on branch order. */
  lemma MergeIgnoresOrder(a: seq<Schema>, b: seq<Schema>, v: Json)
    requires forall p :: p in a <==> p in b
    ensures Merge(a).Some? <==> Merge(b).Some?
    ensures Merge(a).Some? ==> (Accepts(Merge(a).value, v) <==> Accepts(Merge(b).value, v))
  {
    hide Accepts, CanJoin;
    JoinsIff(EMPTY, a);
    JoinsIff(EMPTY, b);
    if Merge(a).Some? {
      MergeIsConjunction(a, v);
      MergeIsConjunction(b, v);
      forall k ensures SomeDeclares(a, k) <==> SomeDeclares(b, k) {
      }
    }
  }
}
