/** A reconcile run from its candidate scan to its hold scan, over the shared store. */
module WholeRun {
  import opened Options
  import opened TransactionState
  import opened Protocol
  import opened Reconcile
  import opened HoldProvider
  import A = HoldAlignment
  import C = Candidates
  import H = HoldTable
  import O = OrphanHolds

  // ---- Hold passes are steps of the protocol ----

  /** The books list transactions of the store as they stand. */
  ghost predicate Describes(b: A.Books, s: State) {
    && b.rows == s.holds
    && (forall i :: 0 <= i < |b.txns| ==> Lists(b.txns[i], s))
    && forall i, j :: 0 <= i < j < |b.txns| ==> b.txns[i].id != b.txns[j].id
  }

  predicate Lists(t: A.Journaled, s: State) {
    && t.id in s.txns
    && t.request == s.txns[t.id].request && t.reference == s.txns[t.id].reference && t.hold == s.txns[t.id].hold
    && s.txns[t.id].attempt in s.attempts
    && t.status == s.attempts[s.txns[t.id].attempt].status
  }

  function Through(s: State, steps: seq<Step>): State
    decreases |steps|
  {
    if steps == [] then s else Through(Next(s, steps[0]), steps[1..])
  }

  /** The store calls one hold update makes, with what can go wrong. */
  function StepsOf(b: A.Books, i: nat, fault: A.Fault, enabled: set<Id>): seq<Step>
    requires i < |b.txns|
  {
    var t := b.txns[i];
    if !A.Due(t, enabled) || fault.CallThrows? then []
    else
      var to := A.HoldTarget(t).value;
      [FinalizeHold(t.id, to, !fault.AnswerLost?)]
      + if A.Accepts(b.rows, t, enabled) && fault.NoFault? then [RecordHold(t.id, to)] else []
  }

  lemma ThroughOne(s: State, a: Step)
    ensures Through(s, [a]) == Next(s, a)
  {
    assert [a][1..] == [];
  }

  lemma ThroughTwo(s: State, a: Step, b: Step)
    ensures Through(s, [a] + [b]) == Next(Next(s, a), b)
  {
    hide Next;
    assert ([a] + [b])[1..] == [b];
    ThroughOne(Next(s, a), b);
  }

  /** Only the holds changed. */
  predicate OnlyHolds(s: State, s': State) {
    s' == s.(holds := s'.holds, txns := s'.txns, confirmed := s'.confirmed)
  }

  lemma CallDescribes(b: A.Books, s: State, i: nat, to: Hold, answered: bool)
    requires Describes(b, s) && i < |b.txns| && b.txns[i].reference.Some? && !to.Reserved?
    ensures var t := b.txns[i];
            var s' := Next(s, FinalizeHold(t.id, to, answered));
            && Describes(b.(rows := H.Move(b.rows, t.reference.value, to, Some(t.request))), s') && OnlyHolds(s, s')
            && (answered && H.Applied(b.rows, t.reference.value, to, Some(t.request)) ==> (t.id, to) in s'.confirmed)
  {
    hide H.Move, H.Applied;
    var t := b.txns[i];
    assert Lists(t, s);
    FinalizeMeans(s, t.id, to, answered);
    forall j | 0 <= j < |b.txns| ensures Lists(b.txns[j], Next(s, FinalizeHold(t.id, to, answered))) {
      assert Lists(b.txns[j], s);
    }
  }

  lemma FinalizeMeans(s: State, t: Id, to: Hold, answered: bool)
    requires t in s.txns && s.txns[t].reference.Some? && !to.Reserved?
    ensures var s' := Next(s, FinalizeHold(t, to, answered));
            && s'.holds == H.Move(s.holds, s.txns[t].reference.value, to, Some(s.txns[t].request))
            && s'.txns == s.txns && s'.attempts == s.attempts && OnlyHolds(s, s')
            && (answered && H.Applied(s.holds, s.txns[t].reference.value, to, Some(s.txns[t].request)) ==> (t, to) in s'.confirmed)
  {
    hide H.Move, H.Applied;
  }

  lemma RecordDescribes(b: A.Books, s: State, i: nat, to: Hold)
    requires Describes(b, s) && i < |b.txns| && (b.txns[i].id, to) in s.confirmed
    ensures var t := b.txns[i];
            var s' := Next(s, RecordHold(t.id, to));
            Describes(b.(txns := b.txns[i := t.(hold := to)]), s') && OnlyHolds(s, s')
  {
    var t := b.txns[i];
    assert Lists(t, s);
    forall j | 0 <= j < |b.txns| && j != i ensures b.txns[j].id != t.id && Lists(b.txns[j], s) {
      assert j < i || i < j;
    }
  }

  /** One update of the books is those steps on the store, which touch nothing else. */
  lemma AlignIsSteps(b: A.Books, s: State, i: nat, fault: A.Fault, enabled: set<Id>)
    requires Describes(b, s) && i < |b.txns|
    ensures var s' := Through(s, StepsOf(b, i, fault, enabled));
            Describes(A.Align(b, i, fault, enabled), s') && OnlyHolds(s, s')
  {
    hide H.Move, H.Applied, Next, Describes, Through;
    var t := b.txns[i];
    NoStep(s);
    if A.Due(t, enabled) && !fault.CallThrows? {
      var to := A.HoldTarget(t).value;
      var call, record := FinalizeHold(t.id, to, !fault.AnswerLost?), RecordHold(t.id, to);
      ThroughOne(s, call);
      ThroughTwo(s, call, record);
      assert [call] + [] == [call];
      CallDescribes(b, s, i, to, !fault.AnswerLost?);
      if A.Accepts(b.rows, t, enabled) && fault.NoFault? {
        RecordDescribes(b.(rows := H.Move(b.rows, t.reference.value, to, Some(t.request))), Next(s, call), i, to);
      }
    }
  }

  lemma NoStep(s: State)
    ensures Through(s, []) == s
  {
  }

  lemma {:induction false} ThroughConcat(s: State, a: seq<Step>, b: seq<Step>)
    ensures Through(s, a + b) == Through(Through(s, a), b)
    decreases |a|
  {
    hide Next;
    if a == [] {
      assert a + b == b;
    } else {
      assert (a + b)[1..] == a[1..] + b;
      ThroughConcat(Next(s, a[0]), a[1..], b);
    }
  }

  /** The steps of a whole history of passes. */
  function StepsOfHistory(b: A.Books, history: seq<A.Update>, enabled: set<Id>): seq<Step>
    decreases |history|
  {
    if history == [] then []
    else if history[0].txn < |b.txns| then
      StepsOf(b, history[0].txn, history[0].fault, enabled)
      + StepsOfHistory(A.Align(b, history[0].txn, history[0].fault, enabled), history[1..], enabled)
    else StepsOfHistory(b, history[1..], enabled)
  }

  predicate IsHoldStep(step: Step) {
    step.FinalizeHold? || step.RecordHold?
  }

  /** Every history of passes is a stretch of hold calls on the store. */
  lemma {:induction false} HistoryIsSteps(b: A.Books, s: State, history: seq<A.Update>, enabled: set<Id>)
    requires Describes(b, s)
    ensures var steps := StepsOfHistory(b, history, enabled);
            && Describes(A.RunUpdates(b, history, enabled), Through(s, steps))
            && forall i :: 0 <= i < |steps| ==> IsHoldStep(steps[i])
    decreases |history|
  {
    hide A.Align, StepsOf, Describes;
    if history != [] {
      var u := history[0];
      if u.txn < |b.txns| {
        AlignIsSteps(b, s, u.txn, u.fault, enabled);
        OnlyHoldSteps(b, u.txn, u.fault, enabled);
        var b', s' := A.Align(b, u.txn, u.fault, enabled), Through(s, StepsOf(b, u.txn, u.fault, enabled));
        HistoryIsSteps(b', s', history[1..], enabled);
        ThroughConcat(s, StepsOf(b, u.txn, u.fault, enabled), StepsOfHistory(b', history[1..], enabled));
      } else {
        HistoryIsSteps(b, s, history[1..], enabled);
      }
    }
  }

  lemma OnlyHoldSteps(b: A.Books, i: nat, fault: A.Fault, enabled: set<Id>)
    requires i < |b.txns|
    ensures forall k :: 0 <= k < |StepsOf(b, i, fault, enabled)| ==> IsHoldStep(StepsOf(b, i, fault, enabled)[k])
  {
  }

  /** Hold calls are always allowed, so they continue any run. */
  lemma {:induction false} HoldStepsRun(run: seq<Step>, steps: seq<Step>)
    requires Run(run) && forall i :: 0 <= i < |steps| ==> IsHoldStep(steps[i])
    ensures Run(run + steps) && After(run + steps, |run + steps|) == Through(After(run, |run|), steps)
    decreases |steps|
  {
    hide Next, Allowed, After, Run;
    if steps == [] {
      assert run + steps == run;
    } else {
      AnyHoldStepIsAllowed(After(run, |run|), steps[0]);
      RunExtends(run, steps[0]);
      assert run + steps == run + [steps[0]] + steps[1..];
      HoldStepsRun(run + [steps[0]], steps[1..]);
    }
  }

  /**
   * After any history of hold passes, whatever failed or crashed in them, from
   * any reachable store: every hold the books list as consumed or released is
   * justified by the provider's row for it.
   */
  lemma PassesNeverRunAhead(run: seq<Step>, b: A.Books, history: seq<A.Update>, enabled: set<Id>, i: nat)
    requires Run(run) && Describes(b, After(run, |run|)) && i < |A.RunUpdates(b, history, enabled).txns|
    ensures var b' := A.RunUpdates(b, history, enabled);
            var t := b'.txns[i];
            t.reference.Some? ==>
              && (t.hold.Consumed? ==>
                    && t.reference.value in b'.rows
                    && b'.rows[t.reference.value].state.Consumed? && b'.rows[t.reference.value].request == t.request)
              && (t.hold.Released? ==>
                    && t.reference.value in b'.rows
                    && (b'.rows[t.reference.value].state.Released? || b'.rows[t.reference.value].request != t.request))
  {
    hide After, Run, A.RunUpdates, StepsOfHistory, Through;
    var steps := StepsOfHistory(b, history, enabled);
    HistoryIsSteps(b, After(run, |run|), history, enabled);
    HoldStepsRun(run, steps);
    JournalNeverAhead(run + steps, |run + steps|, A.RunUpdates(b, history, enabled).txns[i].id);
  }

  // ---- Orphan releases are steps of the protocol ----

  /** The same table, seen by the scan for orphans. */
  ghost predicate Shows(rows: O.HoldRows, s: State) {
    && rows.Keys == s.holds.Keys
    && forall r :: r in rows ==> rows[r].request == s.holds[r].request && rows[r].state == s.holds[r].state
  }

  /** A release that reaches the provider is one step, allowed in every state. */
  lemma ReleaseIsAStep(rows: O.HoldRows, s: State, reference: Id, request: Id, now: int)
    requires Shows(rows, s)
    ensures var step := MoveHold(reference, H.Released, Some(request));
            Allowed(s, step) && Shows(O.AfterRelease(rows, reference, request, now), Next(s, step))
  {
  }

  // ---- The candidate scan and its writes ----

  /** The scan saw the attempts as they stand, and an entry for every transaction. */
  ghost predicate Sees(db: C.Snapshot, s: State) {
    && C.Consistent(db)
    && (forall id :: id in db.attempts ==> id in s.attempts && SameAttempt(db.attempts[id], s.attempts[id]))
    && forall t :: t in s.txns ==> C.HasEntry(db, s.txns[t].attempt)
  }

  predicate SameAttempt(seen: C.Attempt, a: Attempt) {
    seen.status == a.status && seen.resolved == a.resolution.Some? && seen.createdAt == a.createdAt
  }

  /** One name for each candidate's call, none of them used before. */
  ghost predicate FreshNames(s: State, name: nat -> Id) {
    && (forall i: nat, j: nat :: i < j ==> name(i) != name(j))
    && forall i: nat :: IsFresh(s, name(i))
  }

  predicate IsFresh(s: State, me: Id) {
    me !in s.readings && me !in s.decisions && Unwritten(s, me)
  }

  function NamesUpTo(name: nat -> Id, n: nat): (callers: seq<Id>)
    ensures |callers| == n && forall i :: 0 <= i < n ==> callers[i] == name(i)
  {
    seq(n, i requires 0 <= i < n => name(i))
  }

  /** Every candidate is eligible, whatever the clock did. */
  lemma CandidatesAreEligible(db: C.Snapshot, clock: C.Clock, asOf: int, minAge: int, limit: Option<nat>)
    requires C.Consistent(db)
    requires forall j :: 0 <= j < |db.entries| ==> db.entries[j].attempt in db.attempts
    requires forall j :: 0 <= j < |db.legacy| ==> db.legacy[j] in db.attempts
    ensures forall id :: id in C.Take(C.All(db, clock, asOf, minAge), limit) ==>
              id in db.attempts && C.Eligible(db.attempts[id], asOf, minAge)
  {
    hide C.Eligible, C.Journaled, C.AddLegacy, C.Consistent;
    C.JournaledIsExact(db, clock, asOf, minAge);
    C.LegacyIsExact(db, asOf, minAge, 0, C.Journaled(db, clock, asOf, minAge));
    forall id | id in C.Take(C.All(db, clock, asOf, minAge), limit)
      ensures id in db.attempts && C.Eligible(db.attempts[id], asOf, minAge)
    {
      assert id in C.All(db, clock, asOf, minAge);
      assert C.HasEligibleEntry(db, clock, asOf, minAge, id) || C.LegacyFrom(db, asOf, minAge, 0, id);
    }
  }

  /** The run's reading of one candidate. */
  method ReadCandidate(w: World, me: Id, id: Id, asOf: int, minAge: int)
    requires w.Valid() && id in w.state.attempts && IsFresh(w.state, me)
    requires Eligible(w.state.attempts[id], asOf, minAge) && asOf <= w.state.now
    modifies w
    ensures w.Valid() && old(w.steps) <= w.steps
    ensures w.state == old(w.state).(readings := old(w.state).readings[me := Reading(id, old(w.state).attempts[id])])
    ensures me in w.state.readings && Prepared(w.state, me, asOf, minAge)
  {
    hide Next, Allowed, After, Run, Eligible, Unwritten;
    ReadIsAllowed(w.state, me, id);
    SameAttemptsSameWriters(w.state, w.state.(readings := w.state.readings[me := Reading(id, w.state.attempts[id])]), me);
    w.Do(Read(me, id));
  }

  /** What is true of the names not used yet while candidates are read. */
  ghost predicate ReadSoFar(s: State, s': State, name: nat -> Id, found: seq<Id>, n: nat, asOf: int, minAge: int)
    requires n <= |found|
  {
    && s' == s.(readings := s'.readings)
    && (forall i: nat :: i >= n ==> IsFresh(s', name(i)))
    && forall i :: 0 <= i < n ==> name(i) in s'.readings && s'.readings[name(i)].id == found[i] && Prepared(s', name(i), asOf, minAge)
  }

  lemma ReadsOneMore(s: State, before: State, after: State, name: nat -> Id, found: seq<Id>, n: nat, asOf: int, minAge: int)
    requires n < |found| && ReadSoFar(s, before, name, found, n, asOf, minAge) && FreshNames(s, name)
    requires name(n) in after.readings && after.readings[name(n)].id == found[n] && Prepared(after, name(n), asOf, minAge)
    requires after == before.(readings := before.readings[name(n) := after.readings[name(n)]])
    ensures ReadSoFar(s, after, name, found, n + 1, asOf, minAge)
  {
    hide Unwritten, Eligible;
    forall i: nat | i != n ensures name(i) != name(n) {
      assert i < n || n < i;
    }
    forall i: nat ensures Unwritten(after, name(i)) == Unwritten(before, name(i)) {
      assert after.attempts == before.attempts && after.told == before.told;
      UnwrittenDependsOn(before, after, name(i));
    }
  }

  lemma UnwrittenDependsOn(s: State, s': State, me: Id)
    requires s'.attempts == s.attempts && s'.told == s.told
    ensures Unwritten(s', me) <==> Unwritten(s, me)
  {
  }

  /**
   * From the candidate scan to the last conditional write, one call name per
   * candidate: the report has one entry for each candidate, in order, and each
   * says what became of that candidate's own write.
   */
  method CheckCandidates(
      w: World, db: C.Snapshot, clock: C.Clock, asOf: int, minAge: int, limit: Option<nat>,
      name: nat -> Id, replies: Id -> Reply, faults: Id -> CallFault, dryRun: bool)
      returns (found: seq<Id>, entries: seq<Reconcile.Entry>)
    requires w.Valid() && Sees(db, w.state) && FreshNames(w.state, name) && asOf <= w.state.now
    requires forall j :: 0 <= j < |db.entries| ==> db.entries[j].attempt in db.attempts
    requires forall j :: 0 <= j < |db.legacy| ==> db.legacy[j] in db.attempts
    modifies w
    ensures w.Valid() && old(w.steps) <= w.steps
    ensures found == C.Take(C.All(db, clock, asOf, minAge), limit)
    ensures |entries| == |found|
    ensures forall i :: 0 <= i < |found| ==>
              && entries[i].id == found[i] && entries[i].outcome == Ask(replies(found[i]))
              && (entries[i].storageError <==>
                    !dryRun && !entries[i].outcome.ChainUnknown? && !faults(found[i]).NoFault?)
              && EntryIsTrue(w.state, name(i), entries[i], dryRun)
  {
    hide Next, Allowed, After, Run, Prepared, IsFresh, EntryIsTrue, Sees, FreshNames, ReadSoFar, C.Consistent, C.All, C.Eligible, Eligible;
    var s := w.state;
    assert C.Consistent(db) by { SeenIsConsistent(db, s); }
    found := C.CollectCandidates(db, clock, asOf, minAge, limit);
    SeenAreEligible(db, s, clock, asOf, minAge, limit);
    NothingRead(s, name, found, asOf, minAge);
    for i := 0 to |found|
      invariant w.Valid() && old(w.steps) <= w.steps
      invariant ReadSoFar(s, w.state, name, found, i, asOf, minAge)
    {
      var before := w.state;
      NextIsFresh(s, before, name, found, i, asOf, minAge);
      ReadCandidate(w, name(i), found[i], asOf, minAge);
      ReadsOneMore(s, before, w.state, name, found, i, asOf, minAge);
    }
    var callers := NamesUpTo(name, |found|);
    AllRead(s, w.state, name, found, asOf, minAge);
    entries := SettleCandidates(w, callers, asOf, minAge,
      seq(|found|, i requires 0 <= i < |found| => replies(found[i])),
      seq(|found|, i requires 0 <= i < |found| => faults(found[i])), dryRun);
  }

  lemma SeenIsConsistent(db: C.Snapshot, s: State)
    requires Sees(db, s)
    ensures C.Consistent(db)
  {
  }

  lemma SeenAreEligible(db: C.Snapshot, s: State, clock: C.Clock, asOf: int, minAge: int, limit: Option<nat>)
    requires Sees(db, s)
    requires forall j :: 0 <= j < |db.entries| ==> db.entries[j].attempt in db.attempts
    requires forall j :: 0 <= j < |db.legacy| ==> db.legacy[j] in db.attempts
    ensures forall id :: id in C.Take(C.All(db, clock, asOf, minAge), limit) ==>
              id in s.attempts && Eligible(s.attempts[id], asOf, minAge)
  {
    hide C.All, C.Consistent;
    CandidatesAreEligible(db, clock, asOf, minAge, limit);
  }

  lemma NothingRead(s: State, name: nat -> Id, found: seq<Id>, asOf: int, minAge: int)
    requires FreshNames(s, name)
    ensures ReadSoFar(s, s, name, found, 0, asOf, minAge)
  {
    hide IsFresh;
  }

  lemma NextIsFresh(s: State, s': State, name: nat -> Id, found: seq<Id>, n: nat, asOf: int, minAge: int)
    requires n < |found| && ReadSoFar(s, s', name, found, n, asOf, minAge)
    ensures IsFresh(s', name(n)) && s'.attempts == s.attempts && s'.now == s.now
  {
    hide IsFresh;
  }

  lemma AllRead(s: State, s': State, name: nat -> Id, found: seq<Id>, asOf: int, minAge: int)
    requires ReadSoFar(s, s', name, found, |found|, asOf, minAge) && FreshNames(s, name)
    ensures forall i, j :: 0 <= i < j < |found| ==> name(i) != name(j)
    ensures forall i :: 0 <= i < |found| ==>
              name(i) in s'.readings && s'.readings[name(i)].id == found[i] && Prepared(s', name(i), asOf, minAge)
  {
    hide Prepared, IsFresh;
  }

  /** While the clock stands still, an unlimited scan finds the attempt of every transaction that may be checked. */
  lemma EveryEligibleIsFound(db: C.Snapshot, s: State, now: int, asOf: int, minAge: int, t: Id)
    requires Sees(db, s) && t in s.txns && s.txns[t].attempt in s.attempts
    requires forall j :: 0 <= j < |db.entries| ==> db.entries[j].attempt in db.attempts
    requires forall j :: 0 <= j < |db.legacy| ==> db.legacy[j] in db.attempts
    ensures Eligible(s.attempts[s.txns[t].attempt], asOf, minAge) ==>
              s.txns[t].attempt in C.All(db, C.Clock(now, now, now), asOf, minAge)
  {
    hide C.All, C.Consistent;
    C.CandidatesAreExact(db, now, asOf, minAge);
    assert C.HasEntry(db, s.txns[t].attempt);
  }

  // ---- The hold scan ----

  /** The hold update transaction `t` is due. */
  function TargetOf(s: State, t: Id): Option<Hold>
    requires t in s.txns
  {
    var txn := s.txns[t];
    if txn.attempt !in s.attempts then None
    else HoldTarget(txn.reference.Some?, txn.hold, s.attempts[txn.attempt].status)
  }

  function DueHolds(s: State): set<Id> {
    set t | t in s.txns && TargetOf(s, t).Some?
  }

  /** One hold of the report; a dry run has no outcome. */
  datatype HoldReport = HoldReport(target: Hold, outcome: Option<HoldEntry>)

  /** What the report says of a hold, in the store the scan leaves. */
  ghost predicate ReportIsTrue(listing: State, s: State, t: Id, report: HoldReport, dryRun: bool)
    requires t in listing.txns
  {
    && TargetOf(listing, t) == Some(report.target)
    && (report.outcome.None? <==> dryRun)
    && (report.outcome == Some(Aligned) || report.outcome == Some(JournalError) ==> (t, report.target) in s.confirmed)
  }

  ghost predicate AllTrue(listing: State, s: State, holds: map<Id, HoldReport>, dryRun: bool) {
    forall t :: t in holds ==> t in listing.txns && ReportIsTrue(listing, s, t, holds[t], dryRun)
  }

  /**
   * `alignPendingHolds` among other processes: without a limit every hold due
   * in the listing is reported, and each report says what its calls did.
   */
  method ScanHolds(
      w: World, mine: set<Id>, limit: Option<nat>, enabled: Id -> bool,
      calls: Id -> CallFault, journalFails: Id -> bool, dryRun: bool)
      returns (holds: map<Id, HoldReport>)
    requires w.Valid()
    modifies w
    ensures w.Valid() && old(w.steps) <= w.steps
    ensures AllUntouched(old(w.state), w.state, mine)
    ensures holds.Keys <= DueHolds(old(w.state)) && (limit.None? ==> holds.Keys == DueHolds(old(w.state)))
    ensures limit.Some? ==> |holds| <= limit.value
    ensures AllTrue(old(w.state), w.state, holds, dryRun)
    ensures dryRun ==> w.state == old(w.state)
  {
    hide Next, Allowed, After, Run, AllUntouched, TargetOf, AllTrue, ReportIsTrue, DueHolds;
    ghost var listing := w.state;
    var targets := map t | t in w.state.txns && TargetOf(w.state, t).Some? :: TargetOf(w.state, t).value;
    assert targets.Keys == DueHolds(listing) by { DueMeans(listing); }
    var due := targets.Keys;
    holds := map[];
    AllUntouchedIsReflexive(w.state, mine);
    NoReports(listing, dryRun);
    while due != {} && (limit.None? || |holds| < limit.value)
      invariant w.Valid() && old(w.steps) <= w.steps
      invariant AllUntouched(listing, w.state, mine)
      invariant due <= targets.Keys && holds.Keys == targets.Keys - due
      invariant limit.Some? ==> |holds| <= limit.value
      invariant AllTrue(listing, w.state, holds, dryRun)
      invariant dryRun ==> w.state == listing
      decreases due
    {
      var t :| t in due;
      ghost var before := w.state;
      var report := ReportHold(w, mine, listing, t, targets[t], enabled(t), calls(t), journalFails(t), dryRun);
      AddReport(listing, before, w.state, holds, t, report, dryRun);
      holds, due := holds[t := report], due - {t};
    }
  }

  lemma AddReport(listing: State, s: State, s': State, holds: map<Id, HoldReport>, t: Id, report: HoldReport, dryRun: bool)
    requires AllTrue(listing, s, holds, dryRun) && s.confirmed <= s'.confirmed
    requires t in listing.txns && ReportIsTrue(listing, s', t, report, dryRun)
    ensures AllTrue(listing, s', holds[t := report], dryRun)
  {
    hide ReportIsTrue;
    forall other | other in holds ensures ReportIsTrue(listing, s', other, holds[other], dryRun) {
      ReportStaysTrue(listing, s, s', other, holds[other], dryRun);
    }
  }

  lemma NoReports(s: State, dryRun: bool)
    ensures AllTrue(s, s, map[], dryRun)
  {
  }

  lemma DueMeans(s: State)
    ensures forall t :: t in DueHolds(s) <==> t in s.txns && TargetOf(s, t).Some?
  {
  }

  /** One hold of the listing. */
  method ReportHold(
      w: World, mine: set<Id>, ghost listing: State, t: Id, target: Hold, enabled: bool, call: CallFault, journalFails: bool, dryRun: bool)
      returns (report: HoldReport)
    requires w.Valid() && AllUntouched(listing, w.state, mine)
    requires t in listing.txns && TargetOf(listing, t) == Some(target)
    modifies w
    ensures w.Valid() && old(w.steps) <= w.steps
    ensures AllUntouched(listing, w.state, mine) && old(w.state).confirmed <= w.state.confirmed
    ensures ReportIsTrue(listing, w.state, t, report, dryRun)
    ensures dryRun ==> w.state == old(w.state)
  {
    hide Next, Allowed, After, Run, AllUntouched, TargetOf, ReportIsTrue, Backed;
    report := HoldReport(target, None);
    if !dryRun {
      var before := w.state;
      TransactionsStay(listing, before, mine);
      TargetIsFinal(listing, t);
      var entry := AlignHold(w, mine, t, target, enabled, call, journalFails);
      report := HoldReport(target, Some(entry));
      TransactionsStay(before, w.state, mine);
      AllUntouchedIsTransitive(listing, before, w.state, mine);
    }
    NewReportIsTrue(listing, w.state, t, report, dryRun);
  }

  lemma NewReportIsTrue(listing: State, s: State, t: Id, report: HoldReport, dryRun: bool)
    requires t in listing.txns && TargetOf(listing, t) == Some(report.target)
    requires report.outcome.None? <==> dryRun
    requires report.outcome == Some(Aligned) || report.outcome == Some(JournalError) ==> (t, report.target) in s.confirmed
    ensures ReportIsTrue(listing, s, t, report, dryRun)
  {
    hide TargetOf;
  }

  lemma ReportStaysTrue(listing: State, s: State, s': State, t: Id, report: HoldReport, dryRun: bool)
    requires t in listing.txns && ReportIsTrue(listing, s, t, report, dryRun) && s.confirmed <= s'.confirmed
    ensures ReportIsTrue(listing, s', t, report, dryRun)
  {
    hide TargetOf;
  }

  lemma TargetIsFinal(s: State, t: Id)
    requires t in s.txns && TargetOf(s, t).Some?
    ensures TargetOf(s, t).value.Consumed? || TargetOf(s, t).value.Released?
  {
  }

  // ---- The run ----

  /** What the report says of every candidate, in the store the run leaves. */
  ghost predicate EntriesTrue(s: State, name: nat -> Id, entries: seq<Reconcile.Entry>, dryRun: bool) {
    forall i :: 0 <= i < |entries| ==> EntryIsTrue(s, name(i), entries[i], dryRun)
  }

  /** The hold a verdict asks for. */
  function Asked(settled: bool): Hold {
    if settled then H.Consumed else H.Released
  }

  /** Each open hold of an attempt this run resolved is in the report, with the verdict's target. */
  ghost predicate WrittenHoldsReported(listing: State, entries: seq<Reconcile.Entry>, holds: map<Id, HoldReport>) {
    forall i, t :: 0 <= i < |entries| && entries[i].written && t in listing.txns && HoldsOpen(listing.txns[t], entries[i].id) ==>
      t in holds && holds[t].target == Asked(entries[i].outcome.ChainSettled?)
  }

  predicate HoldsOpen(t: Txn, attempt: Id) {
    t.attempt == attempt && t.reference.Some? && t.hold.Open()
  }

  /** The hold scan of a run whose candidates are settled. */
  method AlignPendingHolds(
      w: World, mine: set<Id>, name: nat -> Id, entries: seq<Reconcile.Entry>, limit: Option<nat>,
      enabled: Id -> bool, calls: Id -> CallFault, journalFails: Id -> bool, dryRun: bool)
      returns (holds: map<Id, HoldReport>, ghost listedAt: nat)
    requires w.Valid() && EntriesTrue(w.state, name, entries, dryRun)
    requires forall i :: 0 <= i < |entries| ==> name(i) in mine
    modifies w
    ensures w.Valid() && old(w.steps) <= w.steps && |old(w.steps)| <= listedAt <= |w.steps|
    ensures EntriesTrue(w.state, name, entries, dryRun)
    ensures AllTrue(After(w.steps, listedAt), w.state, holds, dryRun)
    ensures limit.Some? ==> |holds| <= limit.value
    ensures limit.None? ==>
              && holds.Keys == DueHolds(After(w.steps, listedAt))
              && WrittenHoldsReported(After(w.steps, listedAt), entries, holds)
  {
    hide Next, Allowed, After, Run, AllUntouched, EntriesTrue, AllTrue, DueHolds, WrittenHoldsReported;
    ghost var settled := w.state;
    w.Await(mine);
    EntriesStayTrue(settled, w.state, name, mine, entries, dryRun);
    ghost var listing, before := w.state, w.steps;
    listedAt := |before|;
    holds := ScanHolds(w, mine, limit, enabled, calls, journalFails, dryRun);
    EntriesStayTrue(listing, w.state, name, mine, entries, dryRun);
    AfterPrefix(before, w.steps, listedAt);
    if limit.None? { WrittenAreDue(before, listing, w.state, name, entries, holds, dryRun); }
  }

  /**
   * `runReconcile` up to its orphan scan, among other processes that may act
   * at every await. Each entry of the report says what became of that
   * candidate's own write; each hold report says what its calls did; and the
   * hold scan of the same run asks, for every open hold of an attempt the run
   * resolved, for the state its verdict calls for. `listedAt` is the point of
   * the run at which the holds were listed.
   */
  method RunReconcile(
      w: World, db: C.Snapshot, clock: C.Clock, asOf: int, minAge: int, limit: Option<nat>,
      name: nat -> Id, replies: Id -> Reply, faults: Id -> CallFault,
      scansHolds: bool, enabled: Id -> bool, calls: Id -> CallFault, journalFails: Id -> bool, dryRun: bool)
      returns (entries: seq<Reconcile.Entry>, holds: map<Id, HoldReport>, ghost listedAt: nat)
    requires w.Valid() && Sees(db, w.state) && FreshNames(w.state, name) && asOf <= w.state.now
    requires forall j :: 0 <= j < |db.entries| ==> db.entries[j].attempt in db.attempts
    requires forall j :: 0 <= j < |db.legacy| ==> db.legacy[j] in db.attempts
    modifies w
    ensures w.Valid() && old(w.steps) <= w.steps && |old(w.steps)| <= listedAt <= |w.steps|
    ensures var found := C.Take(C.All(db, clock, asOf, minAge), limit);
            && |entries| == |found|
            && forall i :: 0 <= i < |found| ==> entries[i].id == found[i] && entries[i].outcome == Ask(replies(found[i]))
    ensures EntriesTrue(w.state, name, entries, dryRun)
    ensures AllTrue(After(w.steps, listedAt), w.state, holds, dryRun)
    ensures limit.Some? ==> |holds| <= limit.value
    ensures !scansHolds ==> holds == map[]
    ensures limit.None? && scansHolds ==>
              && holds.Keys == DueHolds(After(w.steps, listedAt))
              && WrittenHoldsReported(After(w.steps, listedAt), entries, holds)
  {
    hide Next, Allowed, After, Run, AllUntouched, EntriesTrue, AllTrue, DueHolds, WrittenHoldsReported, Sees, FreshNames,
      C.Consistent, C.All, EntryIsTrue;
    var found;
    found, entries := CheckCandidates(w, db, clock, asOf, minAge, limit, name, replies, faults, dryRun);
    var mine := set i | 0 <= i < |entries| :: name(i);
    Gathered(w.state, name, entries, dryRun);
    if scansHolds {
      holds, listedAt := AlignPendingHolds(w, mine, name, entries, limit, enabled, calls, journalFails, dryRun);
    } else {
      holds, listedAt := map[], |w.steps|;
      NoReports(w.state, dryRun);
    }
  }

  lemma Gathered(s: State, name: nat -> Id, entries: seq<Reconcile.Entry>, dryRun: bool)
    requires forall i :: 0 <= i < |entries| ==> EntryIsTrue(s, name(i), entries[i], dryRun)
    ensures EntriesTrue(s, name, entries, dryRun)
  {
    hide EntryIsTrue;
  }

  lemma EntriesStayTrue(s: State, s': State, name: nat -> Id, mine: set<Id>, entries: seq<Reconcile.Entry>, dryRun: bool)
    requires EntriesTrue(s, name, entries, dryRun) && AllUntouched(s, s', mine)
    requires forall i :: 0 <= i < |entries| ==> name(i) in mine
    ensures EntriesTrue(s', name, entries, dryRun)
  {
    hide EntryIsTrue, Untouched;
    forall i | 0 <= i < |entries| ensures EntryIsTrue(s', name(i), entries[i], dryRun) {
      EntryStaysTrue(s, s', name(i), entries[i], dryRun);
    }
  }

  /** A written verdict makes the open holds of its attempt due. */
  lemma WrittenAreDue(steps: seq<Step>, listing: State, s: State, name: nat -> Id, entries: seq<Reconcile.Entry>,
                      holds: map<Id, HoldReport>, dryRun: bool)
    requires Run(steps) && listing == After(steps, |steps|) && EntriesTrue(listing, name, entries, dryRun)
    requires holds.Keys == DueHolds(listing) && AllTrue(listing, s, holds, dryRun)
    ensures WrittenHoldsReported(listing, entries, holds)
  {
    hide EntryIsTrue, SoundStore, SoundProcesses, SoundWriters, DueHolds, After, Run;
    DueMeans(listing);
    ResolutionsInvariantHolds(steps, |steps|);
    forall i, t | 0 <= i < |entries| && entries[i].written && t in listing.txns && HoldsOpen(listing.txns[t], entries[i].id)
      ensures t in holds && holds[t].target == Asked(entries[i].outcome.ChainSettled?)
    {
      assert EntryIsTrue(listing, name(i), entries[i], dryRun);
      WrittenStatus(listing, name(i), entries[i], dryRun);
    }
  }

  lemma WrittenStatus(s: State, me: Id, entry: Reconcile.Entry, dryRun: bool)
    requires EntryIsTrue(s, me, entry, dryRun) && entry.written && SoundStore(s)
    ensures entry.id in s.attempts
    ensures s.attempts[entry.id].status == if entry.outcome.ChainSettled? then PaymentStatus.Settled else Rejected
  {
    assert SoundAttempt(s, s.attempts[entry.id]);
  }
}
