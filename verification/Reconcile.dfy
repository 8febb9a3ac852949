/**
 * Reconcile runs and manual verdicts as the processes execute them, with other
 * processes free to act at every await.
 */
module Reconcile {
  import opened Options
  import opened TransactionState
  import opened Protocol
  import H = HoldTable
  import opened HoldProvider

  /** The shared store and hold table. */
  class World {
    var state: State
    var others: seq<seq<Step>> // what other processes do at each await to come
    ghost var steps: seq<Step>

    ghost predicate Valid()
      reads this
    {
      Run(steps) && state == After(steps, |steps|)
    }

    constructor (others: seq<seq<Step>>)
      ensures Valid() && state == START
    {
      state := START;
      this.others := others;
      steps := [];
    }

    /** One atomic store call. */
    method Do(step: Step)
      requires Valid() && Allowed(state, step)
      modifies this`state, this`steps
      ensures Valid() && state == Next(old(state), step) && steps == old(steps) + [step]
    {
      hide Next, Allowed, Run, After;
      RunExtends(steps, step);
      state := Next(state, step);
      steps := steps + [step];
    }

    /** Other processes run; they never use the caller's names. */
    method Await(mine: set<Id>)
      requires Valid()
      modifies this
      ensures Valid() && old(steps) <= steps
      ensures AllUntouched(old(state), state, mine)
    {
      hide Next, Allowed, AllUntouched, Foreign, After, Run, SoundProcesses, SoundStore, SoundWriters;
      AllUntouchedIsReflexive(state, mine);
      if others == [] { return; }
      var batch := others[0];
      others := others[1..];
      for i := 0 to |batch|
        invariant Valid() && old(steps) <= steps
        invariant AllUntouched(old(state), state, mine)
      {
        if (forall me :: me in mine ==> Foreign(batch[i], me)) && Allowed(state, batch[i]) {
          ResolutionsInvariantHolds(steps, |steps|);
          StepLeavesAllUntouched(state, batch[i], mine);
          AllUntouchedIsTransitive(old(state), state, Next(state, batch[i]), mine);
          Do(batch[i]);
        }
      }
    }

    /** The same for one call of its own. */
    method AwaitAs(me: Id)
      requires Valid()
      modifies this
      ensures Valid() && old(steps) <= steps
      ensures Untouched(old(state), state, me)
    {
      hide Next, Allowed, Untouched, After, Run;
      Await({me});
    }
  }

  lemma {:induction false} AfterExtends(steps: seq<Step>, step: Step, n: nat)
    requires n <= |steps|
    ensures After(steps + [step], n) == After(steps, n)
  {
    hide Next;
    if n > 0 { AfterExtends(steps, step, n - 1); }
  }

  lemma RunExtends(steps: seq<Step>, step: Step)
    requires Run(steps) && Allowed(After(steps, |steps|), step)
    ensures Run(steps + [step])
    ensures After(steps + [step], |steps| + 1) == Next(After(steps, |steps|), step)
  {
    hide Next, Allowed;
    forall i | 0 <= i <= |steps| ensures After(steps + [step], i) == After(steps, i) {
      AfterExtends(steps, step, i);
    }
    Continues(steps + [step], |steps|);
  }

  // ---- What other processes cannot change ----

  predicate Foreign(step: Step, me: Id) {
    match step
    case Read(caller, _) => caller != me
    case Answer(caller, _, _, _, _) => caller != me
    case Judge(caller, _, _, _) => caller != me
    case Resolve(caller, _) => caller != me
    case _ => true
  }

  /** The store only grew. */
  ghost predicate Grown(s: State, s': State) {
    Extends(s, s') && s.confirmed <= s'.confirmed
  }

  /** `me` has read what it read and written nothing more. */
  ghost predicate Untouched(s: State, s': State, me: Id) {
    && Grown(s, s')
    && SameOwn(s, s', me)
    && NoNewWrites(s, s', me)
  }

  ghost predicate AllUntouched(s: State, s': State, mine: set<Id>) {
    Grown(s, s') && forall me :: me in mine ==> Untouched(s, s', me)
  }

  predicate SameOwn(s: State, s': State, me: Id) {
    && (me in s.readings <==> me in s'.readings) && (me in s.readings ==> s'.readings[me] == s.readings[me])
    && (me in s.decisions <==> me in s'.decisions) && (me in s.decisions ==> s'.decisions[me] == s.decisions[me])
    && (me in s.told <==> me in s'.told)
  }

  ghost predicate NoNewWrites(s: State, s': State, me: Id) {
    forall a :: WrittenBy(s', a, me) ==> WrittenBy(s, a, me)
  }

  lemma UntouchedIsReflexive(s: State, me: Id)
    ensures Untouched(s, s, me)
  {
  }

  lemma UntouchedIsTransitive(a: State, b: State, c: State, me: Id)
    requires Untouched(a, b, me) && Untouched(b, c, me)
    ensures Untouched(a, c, me)
  {
    hide WrittenBy, Extends;
    ExtendsIsTransitive(a, b, c);
  }

  lemma ExtendsIsTransitive(a: State, b: State, c: State)
    requires Extends(a, b) && Extends(b, c)
    ensures Extends(a, c)
  {
  }

  lemma StepLeavesUntouched(s: State, step: Step, me: Id)
    requires Allowed(s, step) && Foreign(step, me) && SoundProcesses(s) && SoundStore(s)
    ensures Untouched(s, Next(s, step), me)
  {
    hide Next, Allowed, SoundProcesses, SoundStore, Extends, SameOwn, NoNewWrites;
    StepExtends(s, step);
    StepKeepsOwn(s, step, me);
    NobodyElseWrites(s, step, me);
    ConfirmedGrows(s, step);
  }

  lemma AllUntouchedIsReflexive(s: State, mine: set<Id>)
    ensures AllUntouched(s, s, mine)
  {
    hide Untouched;
    forall me | me in mine ensures Untouched(s, s, me) { UntouchedIsReflexive(s, me); }
  }

  lemma AllUntouchedIsTransitive(a: State, b: State, c: State, mine: set<Id>)
    requires AllUntouched(a, b, mine) && AllUntouched(b, c, mine)
    ensures AllUntouched(a, c, mine)
  {
    hide Untouched, Extends;
    ExtendsIsTransitive(a, b, c);
    forall me | me in mine ensures Untouched(a, c, me) { UntouchedIsTransitive(a, b, c, me); }
  }

  lemma StepLeavesAllUntouched(s: State, step: Step, mine: set<Id>)
    requires Allowed(s, step) && SoundProcesses(s) && SoundStore(s)
    requires forall me :: me in mine ==> Foreign(step, me)
    ensures AllUntouched(s, Next(s, step), mine)
  {
    hide Next, Allowed, Untouched, SoundProcesses, SoundStore, Extends, Foreign;
    StepExtends(s, step);
    ConfirmedGrows(s, step);
    forall me | me in mine ensures Untouched(s, Next(s, step), me) { StepLeavesUntouched(s, step, me); }
  }

  lemma StepKeepsOwn(s: State, step: Step, me: Id)
    requires Allowed(s, step) && Foreign(step, me)
    ensures SameOwn(s, Next(s, step), me)
  {
    hide GrantHold, Finalize, Record, InsertAttempt, Update, DecideFromChain, DecideFromOperator, Write;
    match step
    case Answer(caller, asOf, minAge, settled, found) => ChainDecisionFrame(s, caller, asOf, minAge, settled, found);
    case Judge(caller, asOf, verdict, confirmExpired) => OperatorDecisionFrame(s, caller, asOf, verdict, confirmExpired);
    case ReserveAttempt(_, _, _, _, _, _, _) => PaymentStepsFrame(s, step); PaymentStepsKeepOthers(s, step, me);
    case UpdateAttempt(_, _) => PaymentStepsFrame(s, step); PaymentStepsKeepOthers(s, step, me);
    case Resolve(_, _) => PaymentStepsFrame(s, step); PaymentStepsKeepOthers(s, step, me);
    case Read(_, _) =>
    case _ => HoldStepsKeepPayments(s, step);
  }

  lemma PaymentStepsKeepOthers(s: State, step: Step, me: Id)
    requires step.ReserveAttempt? || step.UpdateAttempt? || (step.Resolve? && step.caller != me)
    ensures var s' := Next(s, step);
            && (me in s.decisions ==> me in s'.decisions)
            && (me in s'.told <==> me in s.told)
  {
    hide CanReserveAttempt, Writes, WrittenAttempts;
  }

  lemma ConfirmedGrows(s: State, step: Step)
    ensures s.confirmed <= Next(s, step).confirmed
  {
    hide H.Move, H.Reserve, H.Applied, H.CanReserve, Eligible, Refuses, Writes, WrittenAttempts, CanReserveAttempt, ExpiryOf;
  }

  lemma NobodyElseWrites(s: State, step: Step, me: Id)
    requires Allowed(s, step) && Foreign(step, me) && SoundProcesses(s)
    ensures NoNewWrites(s, Next(s, step), me)
  {
    hide Next, Allowed, SoundProcesses, WrittenBy;
    forall id ensures WrittenBy(Next(s, step), id, me) ==> WrittenBy(s, id, me) {
      if step.Resolve? {
        NextResolves(s, step.caller, step.heard);
        if step.caller in s.decisions && step.caller !in s.told { WhoWrites(s, step.caller, step.heard, id, me); }
        else { NothingToWrite(s, step.caller, step.heard); }
      } else {
        OnlyResolveWrites(s, step, id, me);
      }
    }
  }

  /** What `Untouched` tells a caller about itself. */
  lemma UntouchedMe(s: State, s': State, me: Id)
    requires Untouched(s, s', me)
    ensures s.now <= s'.now && SameOwn(s, s', me)
    ensures Unwritten(s, me) ==> Unwritten(s', me)
    ensures s.attempts.Keys <= s'.attempts.Keys
  {
    if Unwritten(s, me) {
      forall id | id in s'.attempts && s'.attempts[id].resolution.Some? ensures s'.attempts[id].resolution.value.writer != me {
        assert !WrittenBy(s, id, me);
        assert !WrittenBy(s', id, me);
      }
    }
  }

  // ---- alignHold ----

  datatype HoldEntry = Aligned | ProviderNotEnabled | ProviderError | JournalError

  /**
   * The provider first, the journal after it; either call may fail, the
   * provider's also after it took effect.
   */
  method AlignHold(w: World, mine: set<Id>, transaction: Id, to: Hold, enabled: bool, provider: CallFault, journalFails: bool)
      returns (entry: HoldEntry)
    requires w.Valid() && transaction in w.state.txns && (to.Consumed? || to.Released?)
    modifies w
    ensures w.Valid() && old(w.steps) <= w.steps
    ensures AllUntouched(old(w.state), w.state, mine)
    ensures transaction in w.state.txns
    ensures entry.Aligned? ==>
              && transaction in w.state.txns && w.state.txns[transaction].hold == to
              && Backed(w.state.holds, w.state.txns[transaction], to)
    ensures entry.Aligned? || entry.JournalError? ==> (transaction, to) in w.state.confirmed
    ensures entry.ProviderNotEnabled? ==> w.state == old(w.state)
  {
    hide Next, Allowed, Untouched, AllUntouched, After, Run, Backed, SoundProcesses, SoundStore, SoundWriters;
    AllUntouchedIsReflexive(w.state, mine);
    if !enabled || w.state.txns[transaction].reference.None? { return ProviderNotEnabled; }
    w.Await(mine);
    TransactionsStay(old(w.state), w.state, mine);
    if provider.CallThrows? { return ProviderError; }
    var before := w.state;
    var t := before.txns[transaction];
    var applied := t.reference.Some? && H.Applied(before.holds, t.reference.value, to, Some(t.request));
    ResolutionsInvariantHolds(w.steps, |w.steps|);
    HoldStepIsAllowed(before, FinalizeHold(transaction, to, provider.NoFault?), mine);
    w.Do(FinalizeHold(transaction, to, provider.NoFault?));
    TransactionsStay(before, w.state, mine);
    AllUntouchedIsTransitive(old(w.state), before, w.state, mine);
    if provider.AnswerLost? || !applied { return ProviderError; }
    FinalizeConfirms(before, transaction, to);
    var called := w.state;
    w.Await(mine);
    TransactionsStay(called, w.state, mine);
    AllUntouchedIsTransitive(old(w.state), called, w.state, mine);
    if journalFails { return JournalError; }
    var ready := w.state;
    ResolutionsInvariantHolds(w.steps, |w.steps|);
    HoldStepIsAllowed(ready, RecordHold(transaction, to), mine);
    HoldsInvariantHolds(w.steps, |w.steps|);
    ConfirmedIsRecorded(ready, transaction, to);
    w.Do(RecordHold(transaction, to));
    TransactionsStay(ready, w.state, mine);
    AllUntouchedIsTransitive(old(w.state), ready, w.state, mine);
    return Aligned;
  }

  lemma TransactionsStay(s: State, s': State, mine: set<Id>)
    requires AllUntouched(s, s', mine)
    ensures s.txns.Keys <= s'.txns.Keys && s.confirmed <= s'.confirmed
  {
  }

  lemma HoldStepIsAllowed(s: State, step: Step, mine: set<Id>)
    requires (step.FinalizeHold? || step.RecordHold?) && SoundProcesses(s) && SoundStore(s)
    ensures Allowed(s, step) && AllUntouched(s, Next(s, step), mine)
  {
    hide Next, AllUntouched, SoundProcesses, SoundStore;
    AnyHoldStepIsAllowed(s, step);
    StepLeavesAllUntouched(s, step, mine);
  }

  lemma AnyHoldStepIsAllowed(s: State, step: Step)
    requires step.FinalizeHold? || step.RecordHold?
    ensures Allowed(s, step)
  {
  }

  lemma FinalizeConfirms(s: State, transaction: Id, to: Hold)
    requires transaction in s.txns && s.txns[transaction].reference.Some? && !to.Reserved?
    requires H.Applied(s.holds, s.txns[transaction].reference.value, to, Some(s.txns[transaction].request))
    ensures (transaction, to) in Next(s, FinalizeHold(transaction, to, true)).confirmed
  {
    hide H.Move, H.Applied;
  }

  lemma ConfirmedIsRecorded(s: State, transaction: Id, to: Hold)
    requires HoldsInvariant(s) && (transaction, to) in s.confirmed
    ensures var s' := Next(s, RecordHold(transaction, to));
            && transaction in s'.txns && s'.txns[transaction].hold == to
            && Backed(s'.holds, s'.txns[transaction], to)
  {
    hide Backed;
    assert (transaction, to).0 in s.txns;
    RecordingKeepsBacking(s.holds, s.txns[transaction], to);
  }

  // ---- resolveManually ----

  datatype ManualResult = UnknownAttempt | RefusedVerdict(why: Refusal) | Resolved

  /**
   * The attempt as read at some point `n` of the call was settled or rejected,
   * or by a later point `m` another status or another holder of its key had
   * come in between.
   */
  ghost predicate NotResolvableSince(steps: seq<Step>, from: nat, id: Id) {
    exists n: nat, m: nat :: from <= n <= m <= |steps| && OvertakenBy(steps, n, m, id)
  }

  ghost predicate OvertakenBy(steps: seq<Step>, n: nat, m: nat, id: Id)
    requires n <= |steps| && m <= |steps|
  {
    var read, later := After(steps, n), After(steps, m);
    && id in read.attempts && id in later.attempts
    && (|| !Unresolved(read.attempts[id].status)
        || !IsCurrent(later, id)
        || later.attempts[id].status != read.attempts[id].status)
  }

  /**
   * The conditional write and, when it finds no row, the read that tells why.
   * `readAt` is the run up to the read the verdict rests on, `from` the point
   * where the call began.
   */
  method WriteVerdict(w: World, me: Id, ghost from: nat, ghost readAt: seq<Step>) returns (r: ManualResult)
    requires w.Valid() && me in w.state.decisions && Unwritten(w.state, me)
    requires from <= |readAt| && readAt <= w.steps
    requires var d := w.state.decisions[me];
             var read := After(readAt, |readAt|);
             d.id in read.attempts && d.expected == read.attempts[d.id].status
    modifies w
    ensures w.Valid() && old(w.steps) <= w.steps
    ensures r.Resolved? <==> exists a :: WrittenBy(w.state, a, me)
    ensures var d := old(w.state).decisions[me];
            r.Resolved? ==>
              && WrittenBy(w.state, d.id, me)
              && w.state.attempts[d.id].resolution.value.verdict == d.resolution.verdict
              && Justified(w.state.attempts[d.id].resolution.value)
    ensures !r.Resolved? ==> r == RefusedVerdict(AlreadyResolved) || r == RefusedVerdict(NotResolvable)
    ensures var id := old(w.state).decisions[me].id;
            && (r == RefusedVerdict(AlreadyResolved) ==> id in w.state.attempts && w.state.attempts[id].resolution.Some?)
            && (r == RefusedVerdict(NotResolvable) ==> NotResolvableSince(w.steps, from, id))
  {
    hide Next, Allowed, Untouched, After, Run, Unwritten, SoundDecision, SoundAttempt, WrittenBy, SoundWriters, SoundStore,
      NotResolvableSince, Writes, Justified, SoundProcesses;
    var decided := w.state;
    var id := decided.decisions[me].id;
    w.AwaitAs(me);
    UntouchedMe(decided, w.state, me);
    var last := w.state;
    var written := Writes(last, last.decisions[me]);
    ResolutionsInvariantHolds(w.steps, |w.steps|);
    ResolveWrites(last, me, true);
    w.Do(Resolve(me, true));
    var wrote := w.state;
    ghost var wroteAt := w.steps;
    w.AwaitAs(me);
    WritesOrNot(wrote, w.state, me, id);
    if written { return Resolved; }
    var current := w.state.attempts[id];
    if current.resolution.None? { WriteSaysWhy(readAt, last, wroteAt, w.steps, from, me, id); }
    return RefusedVerdict(if current.resolution.Some? then AlreadyResolved else NotResolvable);
  }

  /**
   * `resolveManually` up to the hold update. `me` names this call. The caller
   * is told `resolved` exactly when its own write applied.
   */
  method ResolveManually(w: World, me: Id, id: Id, verdict: Verdict, confirmExpired: bool) returns (r: ManualResult)
    requires w.Valid()
    requires me !in w.state.readings && me !in w.state.decisions && Unwritten(w.state, me)
    modifies w
    ensures w.Valid() && old(w.steps) <= w.steps
    ensures r.Resolved? <==> exists a :: WrittenBy(w.state, a, me)
    ensures r.Resolved? ==>
              && WrittenBy(w.state, id, me)
              && w.state.attempts[id].resolution.value.verdict == verdict
              && Justified(w.state.attempts[id].resolution.value)
    ensures r.UnknownAttempt? ==> id !in old(w.state).attempts
    ensures r.RefusedVerdict? && r.why.TooRecent? ==>
              && id in w.state.attempts
              && !OldEnough(w.state.attempts[id].createdAt, old(w.state).now, DEFAULT_MIN_AGE)
    ensures r.RefusedVerdict? && r.why.NotResolvable? ==> NotResolvableSince(w.steps, |old(w.steps)|, id)
    ensures r.RefusedVerdict? && r.why.AlreadyResolved? ==>
              id in w.state.attempts && w.state.attempts[id].resolution.Some?
    ensures r.RefusedVerdict? && r.why.NotExpired? ==>
              && verdict.RejectedVerdict? && id in w.state.attempts
              && ExpiryOf(w.state, w.state.attempts[id]).Some?
              && ExpiryOf(w.state, w.state.attempts[id]).value > old(w.state).now
    ensures r.RefusedVerdict? && r.why.ExpiryUnknown? ==>
              && verdict.RejectedVerdict? && !confirmExpired && id in w.state.attempts
              && ExpiryOf(w.state, w.state.attempts[id]).None?
  {
    hide Next, Allowed, Untouched, After, Run, Unwritten, SoundDecision, SoundAttempt, WrittenBy, SoundWriters, SoundStore, Refuses,
      NotResolvableSince, Writes, ExpiryOf, Justified, Unresolved, SoundProcesses;
    w.AwaitAs(me);
    UntouchedMe(old(w.state), w.state, me);
    if id !in w.state.attempts {
      NobodyWrote(w.state, me);
      return UnknownAttempt;
    }
    var read := w.state;
    ghost var readAt := w.steps;
    var attempt := read.attempts[id];
    ReadIsAllowed(read, me, id);
    w.Do(Read(me, id));
    SameAttemptsSameWriters(read, w.state, me);
    var asOf := w.state.now;
    var early := Refuses(attempt, asOf, SettledVerdict, None, asOf, true);
    RefusalMeans(attempt, asOf, SettledVerdict, None, asOf, true);
    if early.Some? {
      NobodyWrote(w.state, me);
      if early.value.NotResolvable? { ReadSaysWhy(readAt, w.steps, |old(w.steps)|, id); }
      return RefusedVerdict(early.value);
    }
    var called := w.state;
    w.AwaitAs(me);
    UntouchedMe(called, w.state, me);
    var ready := w.state;
    var refusal := Refuses(attempt, asOf, verdict, ExpiryOf(ready, attempt), ready.now, confirmExpired);
    RefusalMeans(attempt, asOf, verdict, ExpiryOf(ready, attempt), ready.now, confirmExpired);
    ReadingStaysTrue(called, ready, me, id, attempt);
    if refusal.Some? {
      NobodyWrote(w.state, me);
      return RefusedVerdict(refusal.value);
    }
    JudgeDecides(ready, me, asOf, verdict, confirmExpired);
    w.Do(Judge(me, asOf, verdict, confirmExpired));
    SameAttemptsSameWriters(ready, w.state, me);
    r := WriteVerdict(w, me, |old(w.steps)|, readAt);
  }

  /** What a caller wrote, or did not, survives interference, and so does any resolution. */
  lemma WritesOrNot(s: State, s': State, me: Id, id: Id)
    requires Untouched(s, s', me) && id in s.attempts
    ensures forall a :: WrittenBy(s', a, me) <==> WrittenBy(s, a, me)
    ensures id in s'.attempts && (s.attempts[id].resolution.Some? ==> s'.attempts[id] == s.attempts[id])
  {
  }

  /**
   * The whole of `resolveManually`: after its own write applied, the call
   * tries to bring the attempt's pending hold in line; whatever becomes of
   * that, the verdict stands.
   */
  method ResolveAndAlign(
      w: World, me: Id, id: Id, verdict: Verdict, confirmExpired: bool, enabled: bool, provider: CallFault, journalFails: bool)
      returns (r: ManualResult, hold: Option<HoldEntry>)
    requires w.Valid()
    requires me !in w.state.readings && me !in w.state.decisions && Unwritten(w.state, me)
    modifies w
    ensures w.Valid() && old(w.steps) <= w.steps
    ensures r.Resolved? <==> exists a :: WrittenBy(w.state, a, me)
    ensures r.Resolved? ==>
              WrittenBy(w.state, id, me) && w.state.attempts[id].resolution.value.verdict == verdict
    ensures hold.Some? ==> r.Resolved?
    ensures hold == Some(Aligned) ==>
              var t := w.state.attempts[id].transaction;
              && t.Some? && t.value in w.state.txns
              && w.state.txns[t.value].hold == (if verdict.SettledVerdict? then H.Consumed else H.Released)
              && Backed(w.state.holds, w.state.txns[t.value], w.state.txns[t.value].hold)
  {
    hide Next, Allowed, Untouched, After, Run, Unwritten, WrittenBy, Backed, Justified;
    hold := None;
    r := ResolveManually(w, me, id, verdict, confirmExpired);
    if !r.Resolved? { return; }
    var resolved := w.state;
    w.AwaitAs(me);
    WritesStay(resolved, w.state, me, id);
    var transaction := w.state.attempts[id].transaction;
    if transaction.None? || transaction.value !in w.state.txns { return; }
    var t := w.state.txns[transaction.value];
    var target := HoldTarget(t.reference.Some?, t.hold, verdict.Status());
    if target.Some? {
      var before := w.state;
      var entry := AlignHold(w, {me}, transaction.value, target.value, enabled, provider, journalFails);
      WritesStay(before, w.state, me, id);
      hold := Some(entry);
    }
  }

  lemma WritesStay(s: State, s': State, me: Id, id: Id)
    requires Untouched(s, s', me) && WrittenBy(s, id, me)
    ensures WrittenBy(s', id, me) && s'.attempts[id] == s.attempts[id]
  {
  }

  // ---- runReconcile: asking and writing ----

  /** What a candidate's payment provider does. */
  datatype Reply = ProviderMissing | CannotReconcile | Threw | Malformed | Replied(outcome: Outcome, found: Option<Id>)

  datatype Outcome = ChainSettled | ChainNotSettled | ChainUnknown

  /** `ask`: anything but a definite answer is `unknown`. */
  function Ask(reply: Reply): Outcome {
    if reply.Replied? then reply.outcome else ChainUnknown
  }

  /** The transaction a reply found, if any. */
  function Found(reply: Reply): Option<Id> {
    if reply.Replied? then reply.found else None
  }

  datatype Entry = Entry(id: Id, outcome: Outcome, written: bool, storageError: bool)

  /** Callers that have read an eligible attempt and written nothing. */
  ghost predicate Prepared(s: State, caller: Id, asOf: int, minAge: int) {
    && caller in s.readings && caller !in s.decisions && Unwritten(s, caller)
    && Eligible(s.readings[caller].attempt, asOf, minAge)
    && asOf <= s.now
  }

  ghost predicate EntryIsTrue(s: State, caller: Id, entry: Entry, dryRun: bool) {
    && (entry.written ==>
          && !dryRun && !entry.outcome.ChainUnknown?
          && WrittenBy(s, entry.id, caller)
          && s.attempts[entry.id].resolution.value.verdict ==
             (if entry.outcome.ChainSettled? then SettledVerdict else RejectedVerdict))
    && (dryRun || entry.outcome.ChainUnknown? ==> !entry.storageError && forall a :: !WrittenBy(s, a, caller))
    && (!entry.written && !entry.storageError ==> forall a :: !WrittenBy(s, a, caller))
    && (forall a :: WrittenBy(s, a, caller) ==>
          && a == entry.id
          && s.attempts[a].resolution.value.verdict == (if entry.outcome.ChainSettled? then SettledVerdict else RejectedVerdict))
  }

  /**
   * The candidate loop of `runReconcile`, one caller name per candidate. A
   * candidate's entry says `written` exactly when its own write applied, unless
   * the write failed, before or after it took effect; whatever a candidate
   * wrote is the verdict its entry reports, and every other entry wrote nothing.
   */
  method SettleCandidates(
      w: World, callers: seq<Id>, asOf: int, minAge: int, replies: seq<Reply>, faults: seq<CallFault>, dryRun: bool)
      returns (entries: seq<Entry>)
    requires w.Valid() && |replies| == |callers| == |faults|
    requires forall i, j :: 0 <= i < j < |callers| ==> callers[i] != callers[j]
    requires forall i :: 0 <= i < |callers| ==> callers[i] in w.state.readings && Prepared(w.state, callers[i], asOf, minAge)
    modifies w
    ensures w.Valid() && old(w.steps) <= w.steps
    ensures |entries| == |callers|
    ensures forall i :: 0 <= i < |callers| ==>
              && entries[i].id == old(w.state).readings[callers[i]].id
              && entries[i].outcome == Ask(replies[i])
              && (entries[i].storageError <==> !dryRun && !entries[i].outcome.ChainUnknown? && !faults[i].NoFault?)
              && EntryIsTrue(w.state, callers[i], entries[i], dryRun)
  {
    hide Next, Allowed, Untouched, After, Run, Prepared, EntryIsTrue, SoundWriters, SoundStore, SoundProcesses, WrittenBy;
    entries := [];
    for i := 0 to |callers|
      invariant w.Valid() && old(w.steps) <= w.steps
      invariant |entries| == i
      invariant forall j :: i <= j < |callers| ==>
                  && Prepared(w.state, callers[j], asOf, minAge)
                  && callers[j] in w.state.readings
                  && w.state.readings[callers[j]].id == old(w.state).readings[callers[j]].id
      invariant forall j :: 0 <= j < i ==>
                  && entries[j].id == old(w.state).readings[callers[j]].id
                  && entries[j].outcome == Ask(replies[j])
                  && (entries[j].storageError <==> !dryRun && !entries[j].outcome.ChainUnknown? && !faults[j].NoFault?)
                  && EntryIsTrue(w.state, callers[j], entries[j], dryRun)
    {
      var all := set c | c in callers;
      var before := w.state;
      w.Await(all);
      forall j | i <= j < |callers|
        ensures Prepared(w.state, callers[j], asOf, minAge) && callers[j] in w.state.readings
        ensures w.state.readings[callers[j]] == before.readings[callers[j]]
      {
        StaysPrepared(before, w.state, callers[j], asOf, minAge);
      }
      forall j | 0 <= j < i ensures EntryIsTrue(w.state, callers[j], entries[j], dryRun) {
        EntryStaysTrue(before, w.state, callers[j], entries[j], dryRun);
      }
      var me, outcome := callers[i], Ask(replies[i]);
      var id := w.state.readings[me].id;
      var entry := Entry(id, outcome, false, false);
      if dryRun || outcome.ChainUnknown? {
        SilentEntryIsTrue(w.state, me, entry, dryRun, asOf, minAge);
      } else {
        var asked := w.state;
        var answer := WriteAnswer(w, me, all, asOf, minAge, outcome.ChainSettled?, Found(replies[i]), faults[i]);
        entry := Entry(id, outcome, answer.Some? && answer.value, answer.None?);
        forall j | i < j < |callers|
          ensures Prepared(w.state, callers[j], asOf, minAge) && callers[j] in w.state.readings
          ensures w.state.readings[callers[j]] == asked.readings[callers[j]]
        {
          StaysPrepared(asked, w.state, callers[j], asOf, minAge);
        }
        forall j | 0 <= j < i ensures EntryIsTrue(w.state, callers[j], entries[j], dryRun) {
          EntryStaysTrue(asked, w.state, callers[j], entries[j], dryRun);
        }
        WrittenEntryIsTrue(w.state, me, entry, dryRun);
      }
      entries := entries + [entry];
    }
  }

  lemma WrittenEntryIsTrue(s: State, me: Id, entry: Entry, dryRun: bool)
    requires !dryRun && !entry.outcome.ChainUnknown?
    requires entry.written ==>
               && WrittenBy(s, entry.id, me)
               && s.attempts[entry.id].resolution.value.verdict == (if entry.outcome.ChainSettled? then SettledVerdict else RejectedVerdict)
    requires !entry.written && !entry.storageError ==> forall a :: !WrittenBy(s, a, me)
    requires forall a :: WrittenBy(s, a, me) ==>
               && a == entry.id
               && s.attempts[a].resolution.value.verdict == (if entry.outcome.ChainSettled? then SettledVerdict else RejectedVerdict)
    ensures EntryIsTrue(s, me, entry, dryRun)
  {
  }

  /** One definite answer, turned into a conditional write. */
  method WriteAnswer(w: World, me: Id, mine: set<Id>, asOf: int, minAge: int, settled: bool, found: Option<Id>, fault: CallFault)
      returns (answer: Option<bool>)
    requires w.Valid() && me in mine && Prepared(w.state, me, asOf, minAge)
    modifies w
    ensures w.Valid() && old(w.steps) <= w.steps
    ensures forall c :: c in mine && c != me ==> Untouched(old(w.state), w.state, c)
    ensures answer.None? <==> !fault.NoFault?
    ensures forall a :: WrittenBy(w.state, a, me) ==>
              && a == old(w.state).readings[me].id
              && w.state.attempts[a].resolution.value.verdict == if settled then SettledVerdict else RejectedVerdict
    ensures answer.Some? && answer.value ==>
              var id := old(w.state).readings[me].id;
              && WrittenBy(w.state, id, me)
              && w.state.attempts[id].resolution.value.verdict == if settled then SettledVerdict else RejectedVerdict
    ensures answer.Some? && !answer.value ==> forall a :: !WrittenBy(w.state, a, me)
  {
    hide Next, Allowed, Untouched, After, Run, Unwritten, SoundProcesses, SoundStore, SoundWriters, WrittenBy, Eligible;
    var asked := w.state;
    ResolutionsInvariantHolds(w.steps, |w.steps|);
    AnswerDecides(asked, me, asOf, minAge, settled, found);
    OthersUntouched(asked, Answer(me, asOf, minAge, settled, found), me, mine);
    w.Do(Answer(me, asOf, minAge, settled, found));
    SameAttemptsSameWriters(asked, w.state, me);
    var decided := w.state;
    w.Await(mine);
    UntouchedMe(decided, w.state, me);
    AllTransitive(asked, decided, w.state, me, mine);
    var last := w.state;
    if fault.CallThrows? {
      NobodyWrote(last, me);
      return None;
    }
    ResolutionsInvariantHolds(w.steps, |w.steps|);
    var written := Writes(last, last.decisions[me]);
    ResolveWrites(last, me, fault.NoFault?);
    OthersUntouched(last, Resolve(me, fault.NoFault?), me, mine);
    w.Do(Resolve(me, fault.NoFault?));
    AllTransitive(asked, last, w.state, me, mine);
    return if fault.AnswerLost? then None else Some(written);
  }

  lemma AnswerDecides(s: State, me: Id, asOf: int, minAge: int, settled: bool, found: Option<Id>)
    requires Prepared(s, me, asOf, minAge)
    ensures Allowed(s, Answer(me, asOf, minAge, settled, found))
    ensures var s' := Next(s, Answer(me, asOf, minAge, settled, found));
            && me in s'.decisions && s'.decisions[me].id == s.readings[me].id
            && s'.decisions[me].resolution.verdict == (if settled then SettledVerdict else RejectedVerdict)
            && s' == s.(decisions := s'.decisions)
  {
    hide Unwritten, Eligible;
  }

  lemma OthersUntouched(s: State, step: Step, me: Id, mine: set<Id>)
    requires Allowed(s, step) && (step.Answer? || step.Resolve?) && step.caller == me && SoundProcesses(s) && SoundStore(s)
    ensures forall c :: c in mine && c != me ==> Untouched(s, Next(s, step), c)
  {
    hide Next, Allowed, Untouched, SoundProcesses, SoundStore;
    forall c | c in mine && c != me ensures Untouched(s, Next(s, step), c) {
      StepLeavesUntouched(s, step, c);
    }
  }

  lemma AllTransitive(a: State, b: State, c: State, me: Id, mine: set<Id>)
    requires forall x :: x in mine && x != me ==> Untouched(a, b, x) && Untouched(b, c, x)
    ensures forall x :: x in mine && x != me ==> Untouched(a, c, x)
  {
    hide Untouched;
    forall x | x in mine && x != me ensures Untouched(a, c, x) {
      UntouchedIsTransitive(a, b, c, x);
    }
  }

  lemma StaysPrepared(s: State, s': State, caller: Id, asOf: int, minAge: int)
    requires Prepared(s, caller, asOf, minAge) && Untouched(s, s', caller)
    ensures Prepared(s', caller, asOf, minAge) && caller in s.readings && caller in s'.readings && s'.readings[caller] == s.readings[caller]
  {
    hide Unwritten, Eligible, Untouched;
    UntouchedMe(s, s', caller);
  }

  lemma EntryStaysTrue(s: State, s': State, caller: Id, entry: Entry, dryRun: bool)
    requires EntryIsTrue(s, caller, entry, dryRun) && Untouched(s, s', caller)
    ensures EntryIsTrue(s', caller, entry, dryRun)
  {
    if entry.written { assert s'.attempts[entry.id] == s.attempts[entry.id]; }
  }

  lemma SilentEntryIsTrue(s: State, me: Id, entry: Entry, dryRun: bool, asOf: int, minAge: int)
    requires Prepared(s, me, asOf, minAge) && !entry.written && !entry.storageError
    ensures EntryIsTrue(s, me, entry, dryRun)
  {
    NobodyWrote(s, me);
  }

  // ---- One caller's view of its own steps ----

  /** What each refusal says; the first three depend on the attempt and its age alone. */
  lemma RefusalMeans(a: Attempt, asOf: int, verdict: Verdict, expiry: Time, now: int, confirmExpired: bool)
    ensures var why := Refuses(a, asOf, verdict, expiry, now, confirmExpired);
            var early := Refuses(a, asOf, SettledVerdict, None, asOf, true);
            && (why == Some(TooRecent) <==> early == Some(TooRecent))
            && (why == Some(TooRecent) ==> !OldEnough(a.createdAt, asOf, DEFAULT_MIN_AGE))
            && (why == Some(AlreadyResolved) <==> a.resolution.Some?)
            && (why == Some(NotResolvable) <==> early == Some(NotResolvable))
            && (why == Some(NotResolvable) ==> !Unresolved(a.status))
            && (why == Some(NotExpired) ==> verdict.RejectedVerdict? && expiry.Some? && expiry.value > now)
            && (why == Some(ExpiryUnknown) ==> verdict.RejectedVerdict? && expiry.None? && !confirmExpired)
            && (early.None? || early == Some(AlreadyResolved) || early == Some(NotResolvable) || early == Some(TooRecent))
  {
  }

  lemma ReadSaysWhy(readAt: seq<Step>, steps: seq<Step>, from: nat, id: Id)
    requires from <= |readAt| && readAt <= steps
    requires var read := After(readAt, |readAt|);
             id in read.attempts && !Unresolved(read.attempts[id].status)
    ensures NotResolvableSince(steps, from, id)
  {
    hide After;
    AfterPrefix(readAt, steps, |readAt|);
    assert OvertakenBy(steps, |readAt|, |readAt|, id);
  }

  /** The conditional write found no row, though nothing had resolved the attempt. */
  lemma WriteSaysWhy(
      readAt: seq<Step>, before: State, wroteAt: seq<Step>, steps: seq<Step>, from: nat, me: Id, id: Id)
    requires from <= |readAt| && readAt <= wroteAt <= steps
    requires me in before.decisions && !Writes(before, before.decisions[me]) && before.decisions[me].id == id
    requires After(wroteAt, |wroteAt|) == Next(before, Resolve(me, true)) && me !in before.told
    requires var read := After(readAt, |readAt|);
             id in read.attempts && before.decisions[me].expected == read.attempts[id].status
    requires id in After(wroteAt, |wroteAt|).attempts && After(wroteAt, |wroteAt|).attempts[id].resolution.None?
    ensures NotResolvableSince(steps, from, id)
  {
    hide After, Unresolved;
    NextResolves(before, me, true);
    AfterPrefix(readAt, steps, |readAt|);
    AfterPrefix(wroteAt, steps, |wroteAt|);
    assert Write(before, me, true).attempts == before.attempts && Write(before, me, true).current == before.current;
    assert OvertakenBy(steps, |readAt|, |wroteAt|, id);
  }

  /** What was read of an attempt still tells its transaction and any resolution it had. */
  lemma ReadingStaysTrue(s: State, s': State, me: Id, id: Id, a: Attempt)
    requires Untouched(s, s', me) && id in s.attempts && s.attempts[id] == a
    ensures id in s'.attempts && ExpiryOf(s', s'.attempts[id]) == ExpiryOf(s', a)
    ensures a.resolution.Some? ==> s'.attempts[id].resolution.Some?
  {
  }

  lemma NobodyWrote(s: State, me: Id)
    requires Unwritten(s, me)
    ensures !exists a :: WrittenBy(s, a, me)
  {
  }

  lemma ReadIsAllowed(s: State, me: Id, id: Id)
    requires me !in s.readings && id in s.attempts
    ensures Allowed(s, Read(me, id))
    ensures Next(s, Read(me, id)) == s.(readings := s.readings[me := Reading(id, s.attempts[id])])
  {
  }

  lemma JudgeDecides(s: State, me: Id, asOf: int, verdict: Verdict, confirmExpired: bool)
    requires me in s.readings && me !in s.decisions && Unwritten(s, me) && asOf <= s.now
    requires var a := s.readings[me].attempt;
             Refuses(a, asOf, verdict, ExpiryOf(s, a), s.now, confirmExpired).None?
    ensures Allowed(s, Judge(me, asOf, verdict, confirmExpired))
    ensures var s' := Next(s, Judge(me, asOf, verdict, confirmExpired));
            && me in s'.decisions && s'.decisions[me].id == s.readings[me].id
            && s'.decisions[me].resolution.verdict == verdict
            && s'.decisions[me].expected == s.readings[me].attempt.status
            && s' == s.(decisions := s'.decisions)
  {
    hide Unwritten, Refuses;
  }

  lemma SameAttemptsSameWriters(s: State, s': State, me: Id)
    requires s'.attempts == s.attempts && s'.told == s.told && Unwritten(s, me)
    ensures Unwritten(s', me)
  {
  }

  /** The write and its answer. */
  lemma ResolveWrites(s: State, me: Id, heard: bool)
    requires SoundProcesses(s) && me in s.decisions && Unwritten(s, me)
    ensures Allowed(s, Resolve(me, heard))
    ensures var s' := Next(s, Resolve(me, heard));
            var d := s.decisions[me];
            && d.id in s'.attempts && s'.attempts.Keys == s.attempts.Keys
            && (if Writes(s, d) then
                  && WrittenBy(s', d.id, me) && s'.attempts[d.id].resolution == Some(d.resolution)
                  && Justified(d.resolution)
                else true)
            && forall a :: WrittenBy(s', a, me) <==> Writes(s, d) && a == d.id
  {
    hide Writes, Justified, WrittenBy;
    var d := s.decisions[me];
    assert SoundDecision(s, me, d);
    NobodyWrote(s, me);
    NextResolves(s, me, heard);
    forall a ensures WrittenBy(Write(s, me, heard), a, me) <==> WrittenBy(s, a, me) || (Writes(s, d) && a == d.id) {
      WhoWrites(s, me, heard, a, me);
    }
    assert Writes(s, d) ==> Write(s, me, heard).attempts[d.id].resolution == Some(d.resolution) by { WriteSets(s, me, heard); }
    assert Write(s, me, heard).attempts.Keys == s.attempts.Keys by { WriteSets(s, me, heard); }
  }

  lemma WriteSets(s: State, me: Id, heard: bool)
    requires me in s.decisions && me !in s.told && s.decisions[me].id in s.attempts
    ensures var s' := Write(s, me, heard);
            var d := s.decisions[me];
            && s'.attempts.Keys == s.attempts.Keys
            && (Writes(s, d) ==> s'.attempts[d.id].resolution == Some(d.resolution))
  {
  }
}
