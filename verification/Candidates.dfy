/** Which payment attempts a reconcile run checks. */
module Candidates {
  import opened Text
  import opened Options
  import opened TransactionState
  import opened Pages

  type Id = Text

  /** A journal row; its payment status is read from the attempt it names. */
  datatype Entry = Entry(number: nat, attempt: Id, backend: Option<Backend>, completed: bool, cached: DerivedState)

  datatype Attempt = Attempt(status: PaymentStatus, resolved: bool, createdAt: Time, journaled: bool)

  /** The store as one run sees it; `legacy` lists the first 500 uncertain attempts. */
  datatype Snapshot = Snapshot(entries: seq<Entry>, attempts: map<Id, Attempt>, legacy: seq<Id>)

  function FactsOf(db: Snapshot, e: Entry): Facts
    requires e.attempt in db.attempts
  {
    Facts(db.attempts[e.attempt].status, e.backend, e.completed)
  }

  function StateOf(db: Snapshot, e: Entry, now: int): DerivedState
    requires e.attempt in db.attempts
  {
    Derive(FactsOf(db, e), Some(now))
  }

  /** Every row names a stored attempt, and its cached state was derived at its last write. */
  ghost predicate Consistent(db: Snapshot) {
    && NewestFirst(db.entries, NumberOf)
    && (forall i :: 0 <= i < |db.entries| ==> CachedSound(db, db.entries[i]))
    && (forall k :: 0 <= k < |db.legacy| ==> db.legacy[k] in db.attempts)
  }

  ghost predicate CachedSound(db: Snapshot, e: Entry) {
    e.attempt in db.attempts && exists at: Time :: Derive(FactsOf(db, e), at) == e.cached
  }

  function NumberOf(e: Entry): nat {
    e.number
  }

  predicate Eligible(a: Attempt, asOf: int, minAge: int) {
    Resolvable(a.status, a.resolved, a.createdAt, asOf, minAge)
  }

  /** A journaled attempt a scan in `state` at `now` turns into a candidate. */
  predicate Wanted(db: Snapshot, e: Entry, state: DerivedState, now: int, asOf: int, minAge: int)
    requires e.attempt in db.attempts
  {
    StateOf(db, e, now) == state && Eligible(db.attempts[e.attempt], asOf, minAge)
  }

  function Add(found: seq<Id>, id: Id): (r: seq<Id>)
    ensures found <= r
  {
    if id in found then found else found + [id]
  }

  // ---- The unlimited result ----

  /** One state scan from row `i` on. */
  function Scan(db: Snapshot, state: DerivedState, now: int, asOf: int, minAge: int, i: nat, found: seq<Id>): (r: seq<Id>)
    requires i <= |db.entries| && forall j :: 0 <= j < |db.entries| ==> db.entries[j].attempt in db.attempts
    ensures found <= r
    decreases |db.entries| - i
  {
    if i == |db.entries| then found
    else
      var e := db.entries[i];
      Scan(db, state, now, asOf, minAge, i + 1,
           if Wanted(db, e, state, now, asOf, minAge) then Add(found, e.attempt) else found)
  }

  /** The attempts without a journal entry, appended. */
  function AddLegacy(db: Snapshot, asOf: int, minAge: int, k: nat, found: seq<Id>): (r: seq<Id>)
    requires k <= |db.legacy| && forall j :: 0 <= j < |db.legacy| ==> db.legacy[j] in db.attempts
    ensures found <= r
    decreases |db.legacy| - k
  {
    if k == |db.legacy| then found
    else
      var a := db.attempts[db.legacy[k]];
      AddLegacy(db, asOf, minAge, k + 1,
                if !a.journaled && Eligible(a, asOf, minAge) then Add(found, db.legacy[k]) else found)
  }

  /** The clock at each of the three scans. */
  datatype Clock = Clock(uncertain: int, pending: int, started: int)

  function Journaled(db: Snapshot, clock: Clock, asOf: int, minAge: int): seq<Id>
    requires forall j :: 0 <= j < |db.entries| ==> db.entries[j].attempt in db.attempts
  {
    var one := Scan(db, PaymentUncertain, clock.uncertain, asOf, minAge, 0, []);
    var two := Scan(db, PaymentPending, clock.pending, asOf, minAge, 0, one);
    Scan(db, DeliveryStarted, clock.started, asOf, minAge, 0, two)
  }

  function All(db: Snapshot, clock: Clock, asOf: int, minAge: int): seq<Id>
    requires forall j :: 0 <= j < |db.entries| ==> db.entries[j].attempt in db.attempts
    requires forall j :: 0 <= j < |db.legacy| ==> db.legacy[j] in db.attempts
  {
    AddLegacy(db, asOf, minAge, 0, Journaled(db, clock, asOf, minAge))
  }

  // ---- Complete and duplicate-free ----

  ghost predicate NoRepeats(s: seq<Id>) {
    forall i, j :: 0 <= i < j < |s| ==> s[i] != s[j]
  }

  ghost predicate WantedFrom(db: Snapshot, state: DerivedState, now: int, asOf: int, minAge: int, i: nat, id: Id)
    requires forall j :: 0 <= j < |db.entries| ==> db.entries[j].attempt in db.attempts
  {
    exists j :: i <= j < |db.entries| && db.entries[j].attempt == id && Wanted(db, db.entries[j], state, now, asOf, minAge)
  }

  lemma WantedFromNext(db: Snapshot, state: DerivedState, now: int, asOf: int, minAge: int, i: nat, id: Id)
    requires i < |db.entries| && forall j :: 0 <= j < |db.entries| ==> db.entries[j].attempt in db.attempts
    ensures WantedFrom(db, state, now, asOf, minAge, i, id) <==>
            || (db.entries[i].attempt == id && Wanted(db, db.entries[i], state, now, asOf, minAge))
            || WantedFrom(db, state, now, asOf, minAge, i + 1, id)
  {
    hide Wanted;
    if WantedFrom(db, state, now, asOf, minAge, i, id) {
      var j :| i <= j < |db.entries| && db.entries[j].attempt == id && Wanted(db, db.entries[j], state, now, asOf, minAge);
      assert j == i || i + 1 <= j;
    }
    if db.entries[i].attempt == id && Wanted(db, db.entries[i], state, now, asOf, minAge) {
      assert i <= i < |db.entries|;
    }
  }

  lemma LegacyFromNext(db: Snapshot, asOf: int, minAge: int, k: nat, id: Id)
    requires k < |db.legacy| && forall j :: 0 <= j < |db.legacy| ==> db.legacy[j] in db.attempts
    ensures LegacyFrom(db, asOf, minAge, k, id) <==>
            || (db.legacy[k] == id && !db.attempts[id].journaled && Eligible(db.attempts[id], asOf, minAge))
            || LegacyFrom(db, asOf, minAge, k + 1, id)
  {
    hide Eligible;
    if LegacyFrom(db, asOf, minAge, k, id) {
      var j :| k <= j < |db.legacy| && db.legacy[j] == id && !db.attempts[id].journaled && Eligible(db.attempts[id], asOf, minAge);
      assert j == k || k + 1 <= j;
    }
    if db.legacy[k] == id && !db.attempts[id].journaled && Eligible(db.attempts[id], asOf, minAge) {
      assert k <= k < |db.legacy|;
    }
  }

  lemma AddFinds(found: seq<Id>, id: Id, x: Id)
    ensures x in Add(found, id) <==> x in found || x == id
    ensures NoRepeats(found) ==> NoRepeats(Add(found, id))
  {
  }

  lemma {:induction false} ScanIsExact(db: Snapshot, state: DerivedState, now: int, asOf: int, minAge: int, i: nat, found: seq<Id>)
    requires i <= |db.entries| && forall j :: 0 <= j < |db.entries| ==> db.entries[j].attempt in db.attempts
    ensures var r := Scan(db, state, now, asOf, minAge, i, found);
            && (forall id :: id in r <==> id in found || WantedFrom(db, state, now, asOf, minAge, i, id))
            && (NoRepeats(found) ==> NoRepeats(r))
    decreases |db.entries| - i
  {
    hide Wanted, Add, NoRepeats, WantedFrom;
    if i == |db.entries| {
      forall id ensures !WantedFrom(db, state, now, asOf, minAge, i, id) { NothingWanted(db, state, now, asOf, minAge, id); }
    } else {
      var e := db.entries[i];
      var next := if Wanted(db, e, state, now, asOf, minAge) then Add(found, e.attempt) else found;
      ScanIsExact(db, state, now, asOf, minAge, i + 1, next);
      forall id ensures id in next <==> id in found || (id == e.attempt && Wanted(db, e, state, now, asOf, minAge)) {
        AddFinds(found, e.attempt, id);
      }
      forall id ensures WantedFrom(db, state, now, asOf, minAge, i, id) <==>
          || (db.entries[i].attempt == id && Wanted(db, db.entries[i], state, now, asOf, minAge))
          || WantedFrom(db, state, now, asOf, minAge, i + 1, id)
      {
        WantedFromNext(db, state, now, asOf, minAge, i, id);
      }
      AddFinds(found, e.attempt, e.attempt);
    }
  }

  lemma NothingWanted(db: Snapshot, state: DerivedState, now: int, asOf: int, minAge: int, id: Id)
    requires forall j :: 0 <= j < |db.entries| ==> db.entries[j].attempt in db.attempts
    ensures !WantedFrom(db, state, now, asOf, minAge, |db.entries|, id)
  {
  }

  /** An attempt is a candidate of some scan at these times. */
  ghost predicate Scanned(db: Snapshot, clock: Clock, e: Entry)
    requires e.attempt in db.attempts
  {
    || StateOf(db, e, clock.uncertain) == PaymentUncertain
    || StateOf(db, e, clock.pending) == PaymentPending
    || StateOf(db, e, clock.started) == DeliveryStarted
  }

  ghost predicate HasEligibleEntry(db: Snapshot, clock: Clock, asOf: int, minAge: int, id: Id)
    requires forall j :: 0 <= j < |db.entries| ==> db.entries[j].attempt in db.attempts
  {
    exists j :: 0 <= j < |db.entries| && db.entries[j].attempt == id && Scanned(db, clock, db.entries[j])
      && Eligible(db.attempts[id], asOf, minAge)
  }

  lemma JournaledIsExact(db: Snapshot, clock: Clock, asOf: int, minAge: int)
    requires forall j :: 0 <= j < |db.entries| ==> db.entries[j].attempt in db.attempts
    ensures NoRepeats(Journaled(db, clock, asOf, minAge))
    ensures forall id :: id in Journaled(db, clock, asOf, minAge) <==> HasEligibleEntry(db, clock, asOf, minAge, id)
  {
    hide Scan, StateOf, Eligible;
    var one := Scan(db, PaymentUncertain, clock.uncertain, asOf, minAge, 0, []);
    var two := Scan(db, PaymentPending, clock.pending, asOf, minAge, 0, one);
    ScanIsExact(db, PaymentUncertain, clock.uncertain, asOf, minAge, 0, []);
    ScanIsExact(db, PaymentPending, clock.pending, asOf, minAge, 0, one);
    ScanIsExact(db, DeliveryStarted, clock.started, asOf, minAge, 0, two);
    forall id ensures HasEligibleEntry(db, clock, asOf, minAge, id) <==>
        || WantedFrom(db, PaymentUncertain, clock.uncertain, asOf, minAge, 0, id)
        || WantedFrom(db, PaymentPending, clock.pending, asOf, minAge, 0, id)
        || WantedFrom(db, DeliveryStarted, clock.started, asOf, minAge, 0, id)
    {
      ScansCover(db, clock, asOf, minAge, id);
    }
  }

  lemma ScansCover(db: Snapshot, clock: Clock, asOf: int, minAge: int, id: Id)
    requires forall j :: 0 <= j < |db.entries| ==> db.entries[j].attempt in db.attempts
    ensures HasEligibleEntry(db, clock, asOf, minAge, id) <==>
            || WantedFrom(db, PaymentUncertain, clock.uncertain, asOf, minAge, 0, id)
            || WantedFrom(db, PaymentPending, clock.pending, asOf, minAge, 0, id)
            || WantedFrom(db, DeliveryStarted, clock.started, asOf, minAge, 0, id)
  {
    hide StateOf, Eligible;
    if HasEligibleEntry(db, clock, asOf, minAge, id) {
      var j :| 0 <= j < |db.entries| && db.entries[j].attempt == id && Scanned(db, clock, db.entries[j])
        && Eligible(db.attempts[id], asOf, minAge);
      var e := db.entries[j];
      assert Wanted(db, e, PaymentUncertain, clock.uncertain, asOf, minAge)
        || Wanted(db, e, PaymentPending, clock.pending, asOf, minAge)
        || Wanted(db, e, DeliveryStarted, clock.started, asOf, minAge);
    }
    WantedMeansEntry(db, clock, PaymentUncertain, clock.uncertain, asOf, minAge, id);
    WantedMeansEntry(db, clock, PaymentPending, clock.pending, asOf, minAge, id);
    WantedMeansEntry(db, clock, DeliveryStarted, clock.started, asOf, minAge, id);
  }

  lemma WantedMeansEntry(db: Snapshot, clock: Clock, state: DerivedState, now: int, asOf: int, minAge: int, id: Id)
    requires forall j :: 0 <= j < |db.entries| ==> db.entries[j].attempt in db.attempts
    requires (state, now) in {(PaymentUncertain, clock.uncertain), (PaymentPending, clock.pending), (DeliveryStarted, clock.started)}
    ensures WantedFrom(db, state, now, asOf, minAge, 0, id) ==> HasEligibleEntry(db, clock, asOf, minAge, id)
  {
    hide StateOf, Eligible;
    if WantedFrom(db, state, now, asOf, minAge, 0, id) {
      var j :| 0 <= j < |db.entries| && db.entries[j].attempt == id && Wanted(db, db.entries[j], state, now, asOf, minAge);
      assert Scanned(db, clock, db.entries[j]);
    }
  }

  ghost predicate HasEntry(db: Snapshot, id: Id) {
    exists j :: 0 <= j < |db.entries| && db.entries[j].attempt == id
  }

  /** The journaled attempts are exactly the eligible ones, each once, while the clock stands still. */
  lemma JournaledIsComplete(db: Snapshot, now: int, asOf: int, minAge: int)
    requires forall j :: 0 <= j < |db.entries| ==> db.entries[j].attempt in db.attempts
    ensures var r := Journaled(db, Clock(now, now, now), asOf, minAge);
            && NoRepeats(r)
            && forall id :: id in r <==> HasEntry(db, id) && Eligible(db.attempts[id], asOf, minAge)
  {
    hide Journaled;
    var clock := Clock(now, now, now);
    JournaledIsExact(db, clock, asOf, minAge);
    forall j | 0 <= j < |db.entries| && Eligible(db.attempts[db.entries[j].attempt], asOf, minAge)
      ensures Scanned(db, clock, db.entries[j])
    {
      ScannedStates(FactsOf(db, db.entries[j]), Some(now));
    }
  }

  /**
   * Over a moving clock an eligible entry is missed exactly when its payment is
   * reserved and its backend deadline passes between the last two scans.
   */
  lemma MissedOnlyAcrossDeadline(db: Snapshot, clock: Clock, e: Entry, asOf: int, minAge: int)
    requires clock.uncertain <= clock.pending <= clock.started && e.attempt in db.attempts
    requires Eligible(db.attempts[e.attempt], asOf, minAge)
    ensures !Scanned(db, clock, e) <==>
            var facts := FactsOf(db, e);
            && facts.payment.Reserved?
            && Waiting(facts, Some(clock.pending)) && facts.backend.value.status.None?
            && !Waiting(facts, Some(clock.started))
  {
    ScanMissesOnlyAcrossDeadline(FactsOf(db, e), clock.uncertain, clock.pending, clock.started);
  }

  const LATE: Id := [0x61]

  /** A reserved payment whose backend call was dispatched with a deadline at 10. */
  const LATE_ENTRY := Entry(1, LATE, Some(Backend(Some(10), None)), false, DeliveryStarted)
  const LATE_ATTEMPT := Attempt(PaymentStatus.Reserved, false, Some(0), true)
  const LATE_STORE := Snapshot([LATE_ENTRY], map[LATE := LATE_ATTEMPT], [])

  /** With the last two scans at 5 and 15 a run misses that payment, though it is eligible throughout. */
  lemma LateEntryIsMissed(asOf: int, minAge: int)
    requires asOf >= minAge
    ensures Consistent(LATE_STORE) && HasEntry(LATE_STORE, LATE) && Eligible(LATE_ATTEMPT, asOf, minAge)
    ensures All(LATE_STORE, Clock(5, 5, 15), asOf, minAge) == []
    ensures LATE in All(LATE_STORE, Clock(5, 5, 5), asOf, minAge)
  {
    hide All, Journaled, Eligible;
    assert Eligible(LATE_ATTEMPT, asOf, minAge) by { LateIsEligible(asOf, minAge); }
    var e := LATE_ENTRY;
    assert Derive(FactsOf(LATE_STORE, e), Some(5)) == e.cached;
    assert LATE_STORE.entries[0].attempt == LATE;
    var clock := Clock(5, 5, 15);
    MissedOnlyAcrossDeadline(LATE_STORE, clock, e, asOf, minAge);
    JournaledIsExact(LATE_STORE, clock, asOf, minAge);
    assert forall id :: !HasEligibleEntry(LATE_STORE, clock, asOf, minAge, id);
    assert forall id :: id !in Journaled(LATE_STORE, clock, asOf, minAge);
    EmptyOrSome(Journaled(LATE_STORE, clock, asOf, minAge));
    LegacyNone(clock, asOf, minAge);
    JournaledIsComplete(LATE_STORE, 5, asOf, minAge);
    LegacyNone(Clock(5, 5, 5), asOf, minAge);
  }

  lemma EmptyOrSome(s: seq<Id>)
    ensures s == [] || exists id :: id in s
  {
    if s != [] { assert s[0] in s; }
  }

  lemma LateIsEligible(asOf: int, minAge: int)
    requires asOf >= minAge
    ensures Eligible(LATE_ATTEMPT, asOf, minAge)
  {
  }

  lemma LegacyNone(clock: Clock, asOf: int, minAge: int)
    ensures All(LATE_STORE, clock, asOf, minAge) == Journaled(LATE_STORE, clock, asOf, minAge)
  {
    hide Journaled;
  }

  lemma {:induction false} LegacyIsExact(db: Snapshot, asOf: int, minAge: int, k: nat, found: seq<Id>)
    requires k <= |db.legacy| && forall j :: 0 <= j < |db.legacy| ==> db.legacy[j] in db.attempts
    ensures var r := AddLegacy(db, asOf, minAge, k, found);
            && (NoRepeats(found) ==> NoRepeats(r))
            && forall id :: id in r <==> id in found || LegacyFrom(db, asOf, minAge, k, id)
    decreases |db.legacy| - k
  {
    hide Eligible, Add, NoRepeats, LegacyFrom;
    if k == |db.legacy| {
      forall id ensures !LegacyFrom(db, asOf, minAge, k, id) { NothingLegacy(db, asOf, minAge, id); }
    } else {
      var id0 := db.legacy[k];
      var wanted := !db.attempts[id0].journaled && Eligible(db.attempts[id0], asOf, minAge);
      var next := if wanted then Add(found, id0) else found;
      LegacyIsExact(db, asOf, minAge, k + 1, next);
      forall id ensures id in next <==> id in found || (id == id0 && wanted) { AddFinds(found, id0, id); }
      forall id ensures LegacyFrom(db, asOf, minAge, k, id) <==> (id == id0 && wanted) || LegacyFrom(db, asOf, minAge, k + 1, id) {
        LegacyFromNext(db, asOf, minAge, k, id);
      }
      AddFinds(found, id0, id0);
    }
  }

  lemma NothingLegacy(db: Snapshot, asOf: int, minAge: int, id: Id)
    requires forall j :: 0 <= j < |db.legacy| ==> db.legacy[j] in db.attempts
    ensures !LegacyFrom(db, asOf, minAge, |db.legacy|, id)
  {
  }

  ghost predicate LegacyFrom(db: Snapshot, asOf: int, minAge: int, k: nat, id: Id)
    requires forall j :: 0 <= j < |db.legacy| ==> db.legacy[j] in db.attempts
  {
    exists j :: k <= j < |db.legacy| && db.legacy[j] == id && !db.attempts[id].journaled && Eligible(db.attempts[id], asOf, minAge)
  }

  // ---- The loops ----

  function Take(s: seq<Id>, limit: Option<nat>): seq<Id> {
    if limit.None? || |s| <= limit.value then s else s[..limit.value]
  }

  predicate Full(found: seq<Id>, limit: Option<nat>) {
    limit.Some? && |found| >= limit.value
  }

  /** The rows a listing reads: the cached state, or one that time may have changed. */
  predicate Prefiltered(e: Entry, state: DerivedState) {
    e.cached == state || (e.backend.Some? && !e.completed)
  }

  function Keep(state: DerivedState): Entry -> bool {
    e => Prefiltered(e, state)
  }

  lemma PrefilterKeeps(db: Snapshot, e: Entry, state: DerivedState, now: int)
    requires CachedSound(db, e) && StateOf(db, e, now) == state
    ensures Prefiltered(e, state)
  {
    var at: Time :| Derive(FactsOf(db, e), at) == e.cached;
    PrefilterLosesNothing(FactsOf(db, e), at, Some(now), state);
  }

  /** Rows no listing reads add nothing. */
  lemma {:induction false} SkipRows(db: Snapshot, state: DerivedState, now: int, asOf: int, minAge: int, i: nat, n: nat, found: seq<Id>)
    requires i <= n <= |db.entries| && Consistent(db)
    requires forall j :: 0 <= j < |db.entries| ==> db.entries[j].attempt in db.attempts
    requires forall j :: i <= j < n ==> !Prefiltered(db.entries[j], state)
    ensures Scan(db, state, now, asOf, minAge, i, found) == Scan(db, state, now, asOf, minAge, n, found)
    decreases n - i
  {
    hide Prefiltered, Eligible, Add;
    if i < n {
      assert StateOf(db, db.entries[i], now) != state by {
        assert CachedSound(db, db.entries[i]);
        if StateOf(db, db.entries[i], now) == state { PrefilterKeeps(db, db.entries[i], state, now); }
      }
      SkipRows(db, state, now, asOf, minAge, i + 1, n, found);
    }
  }

  /** The loop over one page; `full` when the limit stopped it. */
  method ScanPage(
      db: Snapshot, state: DerivedState, now: int, asOf: int, minAge: int, limit: Option<nat>,
      page: seq<nat>, ghost scanned: nat, before: seq<Id>)
      returns (found: seq<Id>, full: bool)
    requires Consistent(db) && scanned <= |db.entries|
    requires forall j :: 0 <= j < |db.entries| ==> db.entries[j].attempt in db.attempts
    requires Covers(db.entries, Keep(state), page, scanned) && |page| <= PAGE
    requires limit.Some? ==> |before| <= limit.value
    ensures var all := Scan(db, state, now, asOf, minAge, scanned, before);
            if full then limit.Some? && |found| == limit.value && found <= all
            else
              && (limit.Some? ==> |found| <= limit.value)
              && all == Scan(db, state, now, asOf, minAge,
                             if |page| == PAGE then page[|page| - 1] + 1 else |db.entries|, found)
  {
    hide Consistent, Prefiltered, Eligible, Scan, StateOf, Wanted;
    found, full := before, false;
    ghost var at: nat := scanned;
    for k := 0 to |page|
      invariant at == if k == 0 then scanned else page[k - 1] + 1
      invariant at <= |db.entries|
      invariant limit.Some? ==> |found| <= limit.value
      invariant Scan(db, state, now, asOf, minAge, at, found) == Scan(db, state, now, asOf, minAge, scanned, before)
    {
      var i := page[k];
      NothingBetween(db, state, page, scanned, k);
      SkipRows(db, state, now, asOf, minAge, at, i, found);
      var e := db.entries[i];
      if StateOf(db, e, now) == state {
        if Full(found, limit) {
          ScanExtends(db, state, now, asOf, minAge, i, found);
          full := true;
          return;
        }
        ScanRow(db, state, now, asOf, minAge, i, found);
        if Wanted(db, e, state, now, asOf, minAge) { found := Add(found, e.attempt); }
      } else {
        ScanRow(db, state, now, asOf, minAge, i, found);
        NotWanted(db, e, state, now, asOf, minAge);
      }
      at := i + 1;
    }
    if |page| < PAGE {
      NothingAfter(db, state, page, scanned);
      SkipRows(db, state, now, asOf, minAge, at, |db.entries|, found);
    }
  }

  lemma NotWanted(db: Snapshot, e: Entry, state: DerivedState, now: int, asOf: int, minAge: int)
    requires e.attempt in db.attempts && StateOf(db, e, now) != state
    ensures !Wanted(db, e, state, now, asOf, minAge)
  {
  }

  lemma ScanRow(db: Snapshot, state: DerivedState, now: int, asOf: int, minAge: int, i: nat, found: seq<Id>)
    requires i < |db.entries| && forall j :: 0 <= j < |db.entries| ==> db.entries[j].attempt in db.attempts
    ensures Scan(db, state, now, asOf, minAge, i, found) ==
            Scan(db, state, now, asOf, minAge, i + 1,
                 if Wanted(db, db.entries[i], state, now, asOf, minAge) then Add(found, db.entries[i].attempt) else found)
  {
    hide Wanted, Add;
  }

  lemma ScanExtends(db: Snapshot, state: DerivedState, now: int, asOf: int, minAge: int, i: nat, found: seq<Id>)
    requires i <= |db.entries| && forall j :: 0 <= j < |db.entries| ==> db.entries[j].attempt in db.attempts
    ensures found <= Scan(db, state, now, asOf, minAge, i, found)
  {
  }

  lemma NothingBetween(db: Snapshot, state: DerivedState, page: seq<nat>, scanned: nat, k: nat)
    requires Covers(db.entries, Keep(state), page, scanned) && k < |page|
    ensures page[k] < |db.entries|
    ensures var at := if k == 0 then scanned else page[k - 1] + 1;
            at <= page[k] && forall j :: at <= j < page[k] ==> !Prefiltered(db.entries[j], state)
  {
    hide Prefiltered;
    var at := if k == 0 then scanned else page[k - 1] + 1;
    assert forall l :: 0 <= l < |page| ==> !(at <= page[l] < page[k]) by {
      forall l | 0 <= l < |page| ensures !(at <= page[l] < page[k]) {
        assert if l < k then l == k - 1 || page[l] < page[k - 1] else l == k || page[k] < page[l];
      }
    }
    forall j | at <= j < page[k] ensures !Prefiltered(db.entries[j], state) {
      assert k == |page| - 1 || page[k] < page[|page| - 1];
      assert PageReaches(page, PAGE, j) && j !in page;
    }
  }

  lemma NothingAfter(db: Snapshot, state: DerivedState, page: seq<nat>, scanned: nat)
    requires Covers(db.entries, Keep(state), page, scanned) && |page| < PAGE && scanned <= |db.entries|
    ensures var at := if page == [] then scanned else page[|page| - 1] + 1;
            at <= |db.entries| && forall j :: at <= j < |db.entries| ==> !Prefiltered(db.entries[j], state)
  {
    hide Prefiltered;
    var at := if page == [] then scanned else page[|page| - 1] + 1;
    assert forall l :: 0 <= l < |page| ==> page[l] < at by {
      forall l | 0 <= l < |page| ensures page[l] < at {
        assert l == |page| - 1 || page[l] < page[|page| - 1];
      }
    }
    forall j | at <= j < |db.entries| ensures !Prefiltered(db.entries[j], state) {
      assert PageReaches(page, PAGE, j) && j !in page;
    }
  }

  /** The paged scan of one state. */
  method ScanState(
      db: Snapshot, state: DerivedState, now: int, asOf: int, minAge: int, limit: Option<nat>, before: seq<Id>)
      returns (found: seq<Id>, full: bool)
    requires Consistent(db)
    requires forall j :: 0 <= j < |db.entries| ==> db.entries[j].attempt in db.attempts
    requires limit.Some? ==> |before| <= limit.value
    ensures var all := Scan(db, state, now, asOf, minAge, 0, before);
            if full then limit.Some? && |found| == limit.value && found <= all
            else found == all && (limit.Some? ==> |found| <= limit.value)
  {
    hide Consistent, Keep, Eligible, Scan, StateOf, Wanted, PageFrom;
    found, full := before, false;
    var cursor: Option<nat> := None;
    ghost var scanned: nat := 0;
    while true
      invariant scanned <= |db.entries|
      invariant if scanned == 0 then cursor.None? else cursor == Some(NumberOf(db.entries[scanned - 1]))
      invariant limit.Some? ==> |found| <= limit.value
      invariant Scan(db, state, now, asOf, minAge, scanned, found) == Scan(db, state, now, asOf, minAge, 0, before)
      decreases |db.entries| - scanned
    {
      var page := PageFrom(db.entries, Keep(state), NumberOf, cursor, PAGE, 0);
      PageFromCursor(db.entries, Keep(state), NumberOf, cursor, scanned) by { InNumberOrder(db); }
      found, full := ScanPage(db, state, now, asOf, minAge, limit, page, scanned, found);
      if full { return; }
      if |page| < PAGE { break; }
      scanned := page[|page| - 1] + 1;
      cursor := Some(NumberOf(db.entries[page[|page| - 1]]));
    }
    ScanEnds(db, state, now, asOf, minAge, found);
  }

  lemma InNumberOrder(db: Snapshot)
    requires Consistent(db)
    ensures NewestFirst(db.entries, NumberOf)
  {
  }

  lemma ScanEnds(db: Snapshot, state: DerivedState, now: int, asOf: int, minAge: int, found: seq<Id>)
    requires forall j :: 0 <= j < |db.entries| ==> db.entries[j].attempt in db.attempts
    ensures Scan(db, state, now, asOf, minAge, |db.entries|, found) == found
  {
  }

  /** `collectCandidates`: with a limit, a prefix of the unlimited result. */
  method CollectCandidates(db: Snapshot, clock: Clock, asOf: int, minAge: int, limit: Option<nat>) returns (found: seq<Id>)
    requires Consistent(db)
    requires forall j :: 0 <= j < |db.entries| ==> db.entries[j].attempt in db.attempts
    requires forall j :: 0 <= j < |db.legacy| ==> db.legacy[j] in db.attempts
    ensures found == Take(All(db, clock, asOf, minAge), limit)
  {
    hide Consistent, Scan, AddLegacy, Eligible;
    var full;
    var one, two := ScansOf(db, clock, asOf, minAge);
    found, full := ScanState(db, PaymentUncertain, clock.uncertain, asOf, minAge, limit, []);
    if full { FullIsTaken(db, clock, asOf, minAge, limit, found); return; }
    found, full := ScanState(db, PaymentPending, clock.pending, asOf, minAge, limit, found);
    if full { FullIsTaken(db, clock, asOf, minAge, limit, found); return; }
    found, full := ScanState(db, DeliveryStarted, clock.started, asOf, minAge, limit, found);
    if full { FullIsTaken(db, clock, asOf, minAge, limit, found); return; }
    ghost var journaled := found;
    for k := 0 to |db.legacy|
      invariant limit.Some? ==> |found| <= limit.value
      invariant AddLegacy(db, asOf, minAge, k, found) == AddLegacy(db, asOf, minAge, 0, journaled)
    {
      if Full(found, limit) {
        LegacyExtends(db, asOf, minAge, k, found);
        return;
      }
      LegacyRow(db, asOf, minAge, k, found);
      var a := db.attempts[db.legacy[k]];
      if !a.journaled && Eligible(a, asOf, minAge) { found := Add(found, db.legacy[k]); }
    }
    LegacyEnds(db, asOf, minAge, found);
  }

  /** Each scan starts from what the one before it found. */
  lemma ScansOf(db: Snapshot, clock: Clock, asOf: int, minAge: int) returns (one: seq<Id>, two: seq<Id>)
    requires forall j :: 0 <= j < |db.entries| ==> db.entries[j].attempt in db.attempts
    requires forall j :: 0 <= j < |db.legacy| ==> db.legacy[j] in db.attempts
    ensures one == Scan(db, PaymentUncertain, clock.uncertain, asOf, minAge, 0, [])
    ensures two == Scan(db, PaymentPending, clock.pending, asOf, minAge, 0, one)
    ensures one <= two <= Journaled(db, clock, asOf, minAge) <= All(db, clock, asOf, minAge)
    ensures Journaled(db, clock, asOf, minAge) == Scan(db, DeliveryStarted, clock.started, asOf, minAge, 0, two)
  {
    hide Wanted, Eligible, Add;
    one := Scan(db, PaymentUncertain, clock.uncertain, asOf, minAge, 0, []);
    two := Scan(db, PaymentPending, clock.pending, asOf, minAge, 0, one);
  }

  lemma FullIsTaken(db: Snapshot, clock: Clock, asOf: int, minAge: int, limit: Option<nat>, found: seq<Id>)
    requires forall j :: 0 <= j < |db.entries| ==> db.entries[j].attempt in db.attempts
    requires forall j :: 0 <= j < |db.legacy| ==> db.legacy[j] in db.attempts
    requires limit.Some? && |found| == limit.value && found <= All(db, clock, asOf, minAge)
    ensures found == Take(All(db, clock, asOf, minAge), limit)
  {
    hide All;
  }

  lemma LegacyRow(db: Snapshot, asOf: int, minAge: int, k: nat, found: seq<Id>)
    requires k < |db.legacy| && forall j :: 0 <= j < |db.legacy| ==> db.legacy[j] in db.attempts
    ensures var a := db.attempts[db.legacy[k]];
            AddLegacy(db, asOf, minAge, k, found) ==
            AddLegacy(db, asOf, minAge, k + 1, if !a.journaled && Eligible(a, asOf, minAge) then Add(found, db.legacy[k]) else found)
  {
    hide Eligible, Add;
  }

  lemma LegacyExtends(db: Snapshot, asOf: int, minAge: int, k: nat, found: seq<Id>)
    requires k <= |db.legacy| && forall j :: 0 <= j < |db.legacy| ==> db.legacy[j] in db.attempts
    ensures found <= AddLegacy(db, asOf, minAge, k, found)
  {
  }

  lemma LegacyEnds(db: Snapshot, asOf: int, minAge: int, found: seq<Id>)
    requires forall j :: 0 <= j < |db.legacy| ==> db.legacy[j] in db.attempts
    ensures AddLegacy(db, asOf, minAge, |db.legacy|, found) == found
  {
  }

  /** Every candidate, journaled or not, is eligible and listed once. */
  lemma CandidatesAreExact(db: Snapshot, now: int, asOf: int, minAge: int)
    requires forall j :: 0 <= j < |db.entries| ==> db.entries[j].attempt in db.attempts
    requires forall j :: 0 <= j < |db.legacy| ==> db.legacy[j] in db.attempts
    ensures var r := All(db, Clock(now, now, now), asOf, minAge);
            && NoRepeats(r)
            && forall id :: id in r <==>
                 || (HasEntry(db, id) && Eligible(db.attempts[id], asOf, minAge))
                 || LegacyFrom(db, asOf, minAge, 0, id)
  {
    hide Journaled, AddLegacy, Eligible, NoRepeats;
    JournaledIsComplete(db, now, asOf, minAge);
    LegacyIsExact(db, asOf, minAge, 0, Journaled(db, Clock(now, now, now), asOf, minAge));
  }
}
