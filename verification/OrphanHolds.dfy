/** Releasing old reservations whose request never reached a payment attempt. */
module OrphanHolds {
  import opened Text
  import opened Options
  import opened HoldTable
  import opened HoldProvider

  datatype HoldRow = HoldRow(provider: Id, request: Id, state: HoldState, updated: int)

  type HoldRows = map<Id, HoldRow>

  datatype Entry = Entry(reference: Id, request: Id, released: bool)

  /** What other processes may do between two calls. */
  datatype Other =
    | Wait(elapsed: nat)
    | ClaimHold(reference: Id, provider: Id, request: Id)
    | MoveHold(reference: Id, to: HoldState, holder: Option<Id>)
    | StartAttempt(request: Id)

  const PAGE := 200

  /** What a release that reaches the provider leaves: the holder's open row released, any other row as it was. */
  function AfterRelease(rows: HoldRows, reference: Id, request: Id, now: int): HoldRows {
    if reference in rows && rows[reference].state.Open() && rows[reference].request == request
    then rows[reference := rows[reference].(state := Released, updated := now)]
    else rows
  }

  function SmallerOf(a: nat, b: nat): nat {
    if a < b then a else b
  }

  class Holds {
    var rows: HoldRows
    var attempted: set<Id> // requests with a current or archived payment attempt
    var now: int
    var others: seq<seq<Other>>

    constructor (rows: HoldRows, attempted: set<Id>, now: int, others: seq<seq<Other>>)
      ensures this.rows == rows && this.attempted == attempted && this.now == now && this.others == others
    {
      this.rows, this.attempted, this.now, this.others := rows, attempted, now, others;
    }

    /** Last updated before the cutoff and still reserved. */
    predicate OldReserved(cutoff: int, reference: Id)
      reads this`rows
    {
      reference in rows && rows[reference].state.Reserved? && rows[reference].updated < cutoff
    }

    predicate Orphan(cutoff: int, reference: Id)
      reads this`rows, this`attempted
    {
      OldReserved(cutoff, reference) && rows[reference].request !in attempted
    }

    predicate NoOrphans(cutoff: int)
      reads this`rows, this`attempted
    {
      forall r :: r in rows ==> !Orphan(cutoff, r)
    }

    /** Rows not written since the cutoff. */
    function Old(cutoff: int): set<Id>
      reads this`rows
    {
      set r | r in rows && rows[r].updated < cutoff
    }

    method Put(reference: Id, row: HoldRow)
      requires row.updated == now
      modifies this`rows
      ensures rows == old(rows)[reference := row]
      ensures forall c :: c <= now ==> Old(c) <= old(Old(c))
      ensures forall c, r :: c <= now && OldReserved(c, r) ==> old(OldReserved(c, r)) && rows[r] == old(rows)[r]
    {
      rows := rows[reference := row];
    }

    /** Other processes run; every row they write is as new as the clock. */
    method Await()
      modifies this
      ensures now >= old(now)
      ensures forall c :: c <= old(now) ==> Old(c) <= old(Old(c))
      ensures forall c, r :: c <= old(now) && OldReserved(c, r) ==> old(OldReserved(c, r)) && rows[r] == old(rows)[r]
      ensures old(attempted) <= attempted
    {
      if others == [] { return; }
      var batch := others[0];
      others := others[1..];
      for i := 0 to |batch|
        invariant now >= old(now)
        invariant forall c :: c <= old(now) ==> Old(c) <= old(Old(c))
        invariant forall c, r :: c <= old(now) && OldReserved(c, r) ==> old(OldReserved(c, r)) && rows[r] == old(rows)[r]
        invariant old(attempted) <= attempted
      {
        match batch[i] {
          case Wait(elapsed) => now := now + elapsed;
          case StartAttempt(request) => attempted := attempted + {request};
          case ClaimHold(reference, provider, request) =>
            if reference !in rows || rows[reference].state.Released? {
              Put(reference, HoldRow(provider, request, Reserved, now));
            }
          case MoveHold(reference, to, holder) =>
            if reference in rows && rows[reference].state.Open() && !to.Reserved?
               && (holder.None? || rows[reference].request == holder.value) {
              Put(reference, rows[reference].(state := to, updated := now));
            }
        }
      }
    }

    /** The order of the listing: least recently updated first, then by reference. */
    predicate Sooner(a: Id, b: Id)
      requires a in rows && b in rows
      reads this`rows
    {
      rows[a].updated < rows[b].updated || (rows[a].updated == rows[b].updated && Before(a, b))
    }

    lemma SoonerIsAnOrder(a: Id, b: Id, c: Id)
      requires a in rows && b in rows && c in rows
      ensures Sooner(a, b) || a == b || Sooner(b, a)
      ensures Sooner(a, b) && Sooner(b, c) ==> Sooner(a, c)
      ensures !Sooner(a, a)
    {
      BeforeIsTotal(a, b);
      BeforeIsTotal(a, a);
      if Before(a, b) && Before(b, c) { BeforeIsTransitive(a, b, c); }
    }

    /** The orphan that comes first. */
    method Oldest(s: set<Id>) returns (oldest: Id)
      requires s != {} && forall r :: r in s ==> r in rows
      ensures oldest in s && forall r :: r in s && r != oldest ==> Sooner(oldest, r)
    {
      oldest :| oldest in s;
      var rest := s - {oldest};
      while rest != {}
        invariant rest <= s && oldest in s
        invariant forall r :: r in s && r !in rest && r != oldest ==> Sooner(oldest, r)
        decreases rest
      {
        var r :| r in rest;
        SoonerIsAnOrder(oldest, r, r);
        if Sooner(r, oldest) {
          forall x | x in s && x !in rest && x != r ensures Sooner(r, x) { SoonerIsAnOrder(r, oldest, x); }
          oldest := r;
        }
        rest := rest - {r};
      }
    }

    /** `listOrphanAuthorizationHolds`: in order, none skipped below the limit. */
    method ListOrphans(cutoff: int, limit: nat) returns (page: seq<Id>)
      ensures |page| <= limit
      ensures forall r :: r in page ==> r in rows && Orphan(cutoff, r)
      ensures Distinct(page)
      ensures forall k, l :: 0 <= k < l < |page| ==> Sooner(page[k], page[l])
      ensures |page| < limit ==> forall r :: r in rows && Orphan(cutoff, r) ==> r in page
      ensures forall k, r :: 0 <= k < |page| && r in rows && Orphan(cutoff, r) && r !in page ==> Sooner(page[k], r)
    {
      page := [];
      var rest := set r | r in rows && Orphan(cutoff, r);
      while rest != {} && |page| < limit
        invariant |page| <= limit
        invariant forall r :: r in rest ==> Orphan(cutoff, r)
        invariant forall k :: 0 <= k < |page| ==> Orphan(cutoff, page[k]) && page[k] !in rest
        invariant forall r :: Orphan(cutoff, r) ==> r in rest || r in page
        invariant forall k, l :: 0 <= k < l < |page| ==> page[k] != page[l] && Sooner(page[k], page[l])
        invariant forall k, r :: 0 <= k < |page| && r in rest ==> Sooner(page[k], r)
        decreases rest
      {
        var r := Oldest(rest);
        page := page + [r];
        rest := rest - {r};
      }
    }

    /** The provider's release for the request that was listed; true when it is acknowledged. */
    method Release(reference: Id, request: Id, fault: CallFault) returns (ok: bool)
      modifies this`rows
      ensures forall c :: c <= now ==> Old(c) <= old(Old(c))
      ensures forall c, r :: c <= now && OldReserved(c, r) ==> old(OldReserved(c, r)) && rows[r] == old(rows)[r]
      ensures ok ==> reference in rows && (rows[reference].request != request || rows[reference].state.Released?)
      ensures rows == if fault.CallThrows? then old(rows) else AfterRelease(old(rows), reference, request, now)
    {
      if fault.CallThrows? || reference !in rows { return false; }
      var row := rows[reference];
      if row.state.Open() && row.request == request {
        Put(reference, row.(state := Released, updated := now));
        return fault.NoFault?;
      }
      ok := fault.NoFault? && (row.request != request || row.state.Released?);
    }

    /**
     * `releaseOrphanHolds`. Ends for every interference: only rows older than
     * the fixed cutoff are ever listed, and each is handled once.
     */
    method ReleaseOrphanHolds(
        limit: Option<nat>, minAge: nat, dryRun: bool, enabled: set<Id>, faults: Id -> CallFault)
        returns (entries: seq<Entry>)
      modifies this
      ensures limit.Some? ==> |entries| <= limit.value
      ensures forall i, j :: 0 <= i < j < |entries| ==> entries[i].reference != entries[j].reference
      ensures forall i :: 0 <= i < |entries| ==> entries[i].reference in old(Old(now - minAge))
      ensures forall i :: 0 <= i < |entries| && entries[i].released ==>
                !dryRun && !OldReserved(old(now) - minAge, entries[i].reference)
      ensures AllReleased(entries) ==>
                (limit.Some? && |entries| == limit.value) || NoOrphans(old(now) - minAge)
    {
      hide Handled, ReleasedAreGone, Distinct, AllReleased;
      entries := [];
      var cutoff := now - minAge;
      NothingHandled(cutoff, dryRun);
      var seen: set<Id> := {};
      ghost var scope := Old(cutoff);
      while limit.None? || |entries| < limit.value
        invariant limit.Some? ==> |entries| <= limit.value
        invariant now >= old(now) && Old(cutoff) <= scope && seen <= scope
        invariant Handled(entries, seen)
        invariant ReleasedAreGone(entries, cutoff, dryRun)
        decreases |scope - seen|
      {
        ghost var before := seen;
        var finished;
        entries, seen, finished := ReleasePage(
          cutoff, if limit.None? then PAGE else SmallerOf(PAGE, limit.value - |entries|), entries, seen, dryRun, enabled, faults);
        if finished { break; }
        SeenGrows(scope, before, seen);
      }
      EntriesMean(cutoff, entries, seen, dryRun);
    }

    predicate AllReleased(entries: seq<Entry>) {
      forall i :: 0 <= i < |entries| ==> entries[i].released
    }

    /** One page: list, keep what was not seen, release it; finished when nothing is new. */
    method ReleasePage(
        cutoff: int, room: nat, before: seq<Entry>, seenBefore: set<Id>, dryRun: bool, enabled: set<Id>, faults: Id -> CallFault)
        returns (entries: seq<Entry>, seen: set<Id>, finished: bool)
      requires cutoff <= now && room > 0
      requires Handled(before, seenBefore) && ReleasedAreGone(before, cutoff, dryRun)
      modifies this
      ensures now >= old(now) && Old(cutoff) <= old(Old(cutoff))
      ensures |entries| <= |before| + room
      ensures Handled(entries, seen) && ReleasedAreGone(entries, cutoff, dryRun)
      ensures finished ==> seen == seenBefore && (AllReleased(entries) ==> NoOrphans(cutoff))
      ensures !finished ==> seenBefore < seen && seen <= seenBefore + old(Old(cutoff))
    {
      hide Handled, ReleasedAreGone, Distinct;
      Pause(cutoff, before, dryRun);
      var page := ListOrphans(cutoff, room);
      var unseen := Unseen(page, seenBefore);
      if unseen == [] {
        if AllReleased(before) {
          SeenAreGone(cutoff, before, seenBefore, dryRun);
          assert forall r :: r in page ==> r in seenBefore && OldReserved(cutoff, r);
          assert forall r :: r !in page;
          assert page == [];
        }
        return before, seenBefore, true;
      }
      PageIsInScope(cutoff, page);
      entries, seen := ReleaseUnseen(cutoff, unseen, before, seenBefore, dryRun, enabled, faults);
      assert unseen[0] in seen && unseen[0] !in seenBefore;
      finished := false;
    }

    /** Interference brings no released reference back as an old reservation. */
    method Pause(cutoff: int, entries: seq<Entry>, dryRun: bool)
      requires cutoff <= now && ReleasedAreGone(entries, cutoff, dryRun)
      modifies this
      ensures now >= old(now) && Old(cutoff) <= old(Old(cutoff))
      ensures ReleasedAreGone(entries, cutoff, dryRun)
    {
      Await();
    }

    /** The loop over one page's unseen holds. */
    method ReleaseUnseen(
        cutoff: int, unseen: seq<Id>, before: seq<Entry>, seenBefore: set<Id>, dryRun: bool, enabled: set<Id>, faults: Id -> CallFault)
        returns (entries: seq<Entry>, seen: set<Id>)
      requires cutoff <= now
      requires Handled(before, seenBefore) && ReleasedAreGone(before, cutoff, dryRun)
      requires forall r :: r in unseen ==> r in rows && r !in seenBefore
      requires Distinct(unseen)
      modifies this
      ensures now >= old(now) && Old(cutoff) <= old(Old(cutoff))
      ensures |entries| == |before| + |unseen|
      ensures forall r :: r in seen <==> r in seenBefore || r in unseen
      ensures Handled(entries, seen) && ReleasedAreGone(entries, cutoff, dryRun)
    {
      hide Handled;
      entries, seen := before, seenBefore;
      var listed := rows;
      for k := 0 to |unseen|
        invariant now >= old(now) && Old(cutoff) <= old(Old(cutoff))
        invariant |entries| == |before| + k
        invariant forall r :: r in seen <==> r in seenBefore || r in unseen[..k]
        invariant Handled(entries, seen)
        invariant ReleasedAreGone(entries, cutoff, dryRun)
        invariant forall l :: k <= l < |unseen| && OldReserved(cutoff, unseen[l]) ==> rows[unseen[l]] == listed[unseen[l]]
      {
        var r := unseen[k];
        assert unseen[..k + 1] == unseen[..k] + [r];
        assert r !in seen;
        var ok := false;
        if listed[r].provider in enabled && !dryRun {
          Await();
          ok := Release(r, listed[r].request, faults(r));
        }
        HandledGrows(entries, seen, Entry(r, listed[r].request, ok));
        seen := seen + {r};
        entries := entries + [Entry(r, listed[r].request, ok)];
      }
      assert unseen[..|unseen|] == unseen;
    }

    /** No reference reported released is an old reservation any more. */
    ghost predicate ReleasedAreGone(entries: seq<Entry>, cutoff: int, dryRun: bool)
      reads this`rows
    {
      forall i :: 0 <= i < |entries| && entries[i].released ==> !dryRun && !OldReserved(cutoff, entries[i].reference)
    }

    lemma NothingHandled(cutoff: int, dryRun: bool)
      ensures Handled([], {}) && ReleasedAreGone([], cutoff, dryRun)
    {
    }

    lemma PageIsInScope(cutoff: int, page: seq<Id>)
      requires forall r :: r in page ==> r in rows && Orphan(cutoff, r)
      ensures forall r :: r in page ==> r in Old(cutoff)
    {
    }

    /** What the entries say about the references handled. */
    lemma EntriesMean(cutoff: int, entries: seq<Entry>, seen: set<Id>, dryRun: bool)
      requires Handled(entries, seen) && ReleasedAreGone(entries, cutoff, dryRun)
      ensures forall i, j :: 0 <= i < j < |entries| ==> entries[i].reference != entries[j].reference
      ensures forall i :: 0 <= i < |entries| ==> entries[i].reference in seen
      ensures forall i :: 0 <= i < |entries| && entries[i].released ==> !dryRun && !OldReserved(cutoff, entries[i].reference)
    {
    }

    lemma SeenAreGone(cutoff: int, entries: seq<Entry>, seen: set<Id>, dryRun: bool)
      requires Handled(entries, seen) && ReleasedAreGone(entries, cutoff, dryRun)
      requires forall i :: 0 <= i < |entries| ==> entries[i].released
      ensures forall r :: r in seen ==> !OldReserved(cutoff, r)
    {
      forall r | r in seen ensures !OldReserved(cutoff, r) {
        var i :| 0 <= i < |entries| && entries[i].reference == r;
        assert entries[i].released;
      }
    }
  }

  lemma SeenGrows(scope: set<Id>, before: set<Id>, seen: set<Id>)
    requires before < seen && before <= scope && seen <= before + scope
    ensures |scope - seen| < |scope - before| && seen <= scope
  {
    assert scope - seen <= scope - before;
    assert !(seen <= before);
    var r :| r in seen && r !in before;
    assert r in scope - before && r !in scope - seen;
    SmallerSet(scope - seen, scope - before);
  }

  lemma SmallerSet(a: set<Id>, b: set<Id>)
    requires a < b
    ensures |a| < |b|
  {
    assert !(b <= a);
    var x :| x in b && x !in a;
    var rest := b - {x};
    assert a <= rest;
    SubsetIsSmaller(a, rest);
  }

  lemma {:induction false} SubsetIsSmaller(a: set<Id>, b: set<Id>)
    requires a <= b
    ensures |a| <= |b|
  {
    if a != {} {
      var x :| x in a;
      SubsetIsSmaller(a - {x}, b - {x});
    }
  }

  predicate Distinct(s: seq<Id>) {
    forall i, j :: 0 <= i < j < |s| ==> s[i] != s[j]
  }

  /** `page.filter((hold) => !seen.has(hold.reference))`. */
  function Unseen(page: seq<Id>, seen: set<Id>): (unseen: seq<Id>)
    ensures |unseen| <= |page|
    ensures forall r :: r in unseen <==> r in page && r !in seen
    ensures Distinct(page) ==> Distinct(unseen)
  {
    if page == [] then []
    else
      assert forall r :: r in page <==> r == page[0] || r in page[1..];
      var rest := Unseen(page[1..], seen);
      assert Distinct(page) ==> Distinct(page[1..]) && page[0] !in page[1..];
      if page[0] in seen then rest else [page[0]] + rest
  }

  /** The entries are exactly the references seen, each once. */
  ghost predicate Handled(entries: seq<Entry>, seen: set<Id>) {
    && (forall i :: 0 <= i < |entries| ==> entries[i].reference in seen)
    && (forall r :: r in seen ==> exists i :: 0 <= i < |entries| && entries[i].reference == r)
    && (forall i, j :: 0 <= i < j < |entries| ==> entries[i].reference != entries[j].reference)
  }

  lemma HandledGrows(entries: seq<Entry>, seen: set<Id>, entry: Entry)
    requires Handled(entries, seen) && entry.reference !in seen
    ensures Handled(entries + [entry], seen + {entry.reference})
  {
    var all := entries + [entry];
    forall r | r in seen + {entry.reference} ensures exists i :: 0 <= i < |all| && all[i].reference == r {
      if r == entry.reference {
        assert all[|entries|].reference == r;
      } else {
        var i :| 0 <= i < |entries| && entries[i].reference == r;
        assert all[i].reference == r;
      }
    }
  }
}
