/**
 * Gateway requests, reconcile runs and operators sharing one receipt store and
 * one hold table. Every store call is one step; a process that crashes simply
 * takes no further step, so a run may stop between any two of its calls.
 */
module Protocol {
  import opened Text
  import opened Options
  import opened TransactionState
  import H = HoldTable
  import HoldProvider

  type Id = H.Id

  type Hold = H.HoldState

  /** 15 minutes. */
  const DEFAULT_MIN_AGE := 15 * 60 * 1000

  datatype Verdict = SettledVerdict | RejectedVerdict {
    function Status(): PaymentStatus {
      if SettledVerdict? then PaymentStatus.Settled else Rejected
    }
  }

  /** What a resolution rests on. */
  datatype Basis =
    | ChainAnswer(settled: bool, found: Option<Id>)
    | OperatorVerdict(expiry: Time, confirmedExpired: bool, judgedAt: int)

  /** `external_reference` and `rejection_reason`. */
  datatype Evidence = Evidence(reference: Option<Id>, reason: Option<Id>) {
    /** `COALESCE`: what is supplied replaces what is stored, and nothing clears it. */
    function Over(stored: Evidence): Evidence {
      Evidence(if reference.Some? then reference else stored.reference, if reason.Some? then reason else stored.reason)
    }
  }

  const NO_EVIDENCE := Evidence(None, None)
  const NOT_SETTLED: Id := U("not_settled")

  datatype Resolution = Resolution(verdict: Verdict, basis: Basis, writer: Id) {
    /** What the conditional write puts in the attempt's own columns; an operator's reference stays in the resolution. */
    function Supplies(): Evidence {
      Evidence(if basis.ChainAnswer? then basis.found else None, if verdict.RejectedVerdict? then Some(NOT_SETTLED) else None)
    }
  }

  datatype Attempt = Attempt(
    key: Id, provider: Id, request: Id, transaction: Option<Id>, createdAt: Time,
    status: PaymentStatus, evidence: Evidence, resolution: Option<Resolution>)

  datatype Txn = Txn(request: Id, attempt: Id, expiry: Time, reference: Option<Id>, hold: Hold)

  /** An attempt as some process read it. */
  datatype Reading = Reading(id: Id, attempt: Attempt)

  /** A conditional write some process is about to make. */
  datatype Decision = Decision(id: Id, expected: PaymentStatus, resolution: Resolution, asOf: int, minAge: int)

  datatype State = State(
    now: int,
    holds: H.Rows,
    attempts: map<Id, Attempt>,       // current ones and the archive
    current: map<Id, Id>,             // replay key to attempt
    txns: map<Id, Txn>,
    confirmed: set<(Id, Hold)>,       // provider updates a process was told applied
    readings: map<Id, Reading>,       // by caller
    decisions: map<Id, Decision>,
    told: map<Id, bool>               // what each conditional write answered
  )

  const START := State(0, map[], map[], map[], map[], {}, map[], map[], map[])

  /** What a gateway's own update carries. */
  datatype Change = Change(status: PaymentStatus, evidence: Evidence) {
    function On(a: Attempt): Attempt {
      a.(status := status, evidence := evidence.Over(a.evidence))
    }
  }

  datatype NewTxn = NewTxn(id: Id, expiry: Time, reference: Option<Id>)

  datatype Step =
    | Tick(elapsed: nat)
    | ReserveHold(reference: Id, checkout: Id, request: Id)
    | MoveHold(reference: Id, to: Hold, holder: Option<Id>)
    | FinalizeHold(transaction: Id, to: Hold, answered: bool)
    | RecordHold(transaction: Id, to: Hold)
    | ReserveAttempt(id: Id, key: Id, provider: Id, request: Id, created: Time, reclaim: bool, txn: Option<NewTxn>)
    | UpdateAttempt(sender: Id, change: Change) // by the process that reserved attempt `sender`
    | Read(caller: Id, id: Id)
    | Answer(caller: Id, asOf: int, minAge: int, settled: bool, found: Option<Id>)
    | Judge(caller: Id, asOf: int, verdict: Verdict, confirmExpired: bool)
    | Resolve(caller: Id, heard: bool)

  // ---- Single steps ----

  predicate Eligible(a: Attempt, asOf: int, minAge: int) {
    Resolvable(a.status, a.resolution.Some?, a.createdAt, asOf, minAge)
  }

  /** The recorded expiry of the authorization an attempt spends. */
  function ExpiryOf(s: State, a: Attempt): Time {
    if a.transaction.Some? && a.transaction.value in s.txns then s.txns[a.transaction.value].expiry else None
  }

  datatype Refusal = AlreadyResolved | NotResolvable | TooRecent | NotExpired | ExpiryUnknown

  /** Why a verdict is refused, in the order it is checked. */
  function Refuses(a: Attempt, asOf: int, verdict: Verdict, expiry: Time, now: int, confirmExpired: bool): Option<Refusal> {
    if a.resolution.Some? then Some(AlreadyResolved)
    else if !Unresolved(a.status) then Some(NotResolvable)
    else if a.status.Reserved? && !OldEnough(a.createdAt, asOf, DEFAULT_MIN_AGE) then Some(TooRecent)
    else if verdict.RejectedVerdict? && expiry.Some? && expiry.value > now then Some(NotExpired)
    else if verdict.RejectedVerdict? && expiry.None? && !confirmExpired then Some(ExpiryUnknown)
    else None
  }

  predicate IsCurrent(s: State, id: Id) {
    id in s.attempts && s.attempts[id].key in s.current && s.current[s.attempts[id].key] == id
  }

  /** `resolvePaymentAttempt` finds a row to update. */
  predicate Writes(s: State, d: Decision) {
    && IsCurrent(s, d.id)
    && s.attempts[d.id].status == d.expected
    && s.attempts[d.id].resolution.None?
  }

  /** The key is free, or its rejected attempt may be reclaimed. */
  predicate CanReserveAttempt(s: State, key: Id, provider: Id, reclaim: bool) {
    key in s.current ==>
      && reclaim && s.current[key] in s.attempts
      && s.attempts[s.current[key]].status.Rejected?
      && s.attempts[s.current[key]].provider == provider
  }

  function GrantHold(s: State, reference: Id, checkout: Id, request: Id): State {
    if !H.CanReserve(s.holds, reference, checkout) then s
    else s.(holds := H.Reserve(true, s.holds, reference, checkout, request))
  }

  /** One provider call for a transaction; `answered` when its caller lives to see the answer. */
  function Finalize(s: State, transaction: Id, to: Hold, answered: bool): State {
    if to.Reserved? || transaction !in s.txns || s.txns[transaction].reference.None? then s
    else
      var t := s.txns[transaction];
      var applied := H.Applied(s.holds, t.reference.value, to, Some(t.request));
      s.(holds := H.Move(s.holds, t.reference.value, to, Some(t.request)),
         confirmed := if applied && answered then s.confirmed + {(transaction, to)} else s.confirmed)
  }

  /** A journal hold write, made only by a process that saw the provider call succeed. */
  function Record(s: State, transaction: Id, to: Hold): State {
    if (transaction, to) !in s.confirmed || transaction !in s.txns then s
    else s.(txns := s.txns[transaction := s.txns[transaction].(hold := to)])
  }

  function InsertAttempt(s: State, id: Id, key: Id, provider: Id, request: Id, created: Time, reclaim: bool, txn: Option<NewTxn>): State {
    if !CanReserveAttempt(s, key, provider, reclaim) then s
    else
      var a := Attempt(key, provider, request, if txn.Some? then Some(txn.value.id) else None, created, PaymentStatus.Reserved, NO_EVIDENCE, None);
      s.(attempts := s.attempts[id := a],
         current := s.current[key := id],
         txns := if txn.None? then s.txns
                 else s.txns[txn.value.id := Txn(request, id, txn.value.expiry, txn.value.reference, H.Reserved)])
  }

  /**
   * The gateway's own update. The process that reserved attempt `sender` sends
   * that attempt's replay key and nothing else, so the store writes whichever
   * attempt holds the key, unless it is resolved.
   */
  function Update(s: State, sender: Id, change: Change): State {
    if sender !in s.attempts then s
    else
      var key := s.attempts[sender].key;
      if key !in s.current || s.current[key] !in s.attempts || s.attempts[s.current[key]].resolution.Some? then s
      else s.(attempts := s.attempts[s.current[key] := change.On(s.attempts[s.current[key]])])
  }

  /** A definite provider answer for an eligible attempt becomes a write to make. */
  function DecideFromChain(s: State, caller: Id, asOf: int, minAge: int, settled: bool, found: Option<Id>): State {
    if caller !in s.readings || asOf > s.now || !Eligible(s.readings[caller].attempt, asOf, minAge) then s
    else
      var r := s.readings[caller];
      var resolution := Resolution(if settled then SettledVerdict else RejectedVerdict, ChainAnswer(settled, found), caller);
      s.(decisions := s.decisions[caller := Decision(r.id, r.attempt.status, resolution, asOf, minAge)])
  }

  /** An operator's verdict that is not refused becomes a write to make. */
  function DecideFromOperator(s: State, caller: Id, asOf: int, verdict: Verdict, confirmExpired: bool): State {
    if caller !in s.readings || asOf > s.now then s
    else
      var r := s.readings[caller];
      var expiry := ExpiryOf(s, r.attempt);
      if Refuses(r.attempt, asOf, verdict, expiry, s.now, confirmExpired).Some? then s
      else
        var resolution := Resolution(verdict, OperatorVerdict(expiry, confirmExpired, s.now), caller);
        s.(decisions := s.decisions[caller := Decision(r.id, r.attempt.status, resolution, asOf, DEFAULT_MIN_AGE)])
  }

  function Resolved(a: Attempt, r: Resolution): Attempt {
    a.(status := r.verdict.Status(), evidence := r.Supplies().Over(a.evidence), resolution := Some(r))
  }

  /** The attempts after a conditional write. */
  function WrittenAttempts(s: State, d: Decision): map<Id, Attempt> {
    if Writes(s, d) then
      s.attempts[d.id := Resolved(s.attempts[d.id], d.resolution)]
    else s.attempts
  }

  /** The compare-and-set; `heard` when its caller lives to see the answer. */
  function Write(s: State, caller: Id, heard: bool): State {
    if caller !in s.decisions || caller in s.told then s
    else
      var d := s.decisions[caller];
      s.(attempts := WrittenAttempts(s, d),
         decisions := s.decisions - {caller},
         told := if heard then s.told[caller := Writes(s, d)] else s.told)
  }

  function Next(s: State, step: Step): State {
    match step
    case Tick(elapsed) => s.(now := s.now + elapsed)
    case ReserveHold(reference, checkout, request) => GrantHold(s, reference, checkout, request)
    case MoveHold(reference, to, holder) =>
      if to.Reserved? then s else s.(holds := H.Move(s.holds, reference, to, holder))
    case FinalizeHold(transaction, to, answered) => Finalize(s, transaction, to, answered)
    case RecordHold(transaction, to) => Record(s, transaction, to)
    case ReserveAttempt(id, key, provider, request, created, reclaim, txn) =>
      InsertAttempt(s, id, key, provider, request, created, reclaim, txn)
    case UpdateAttempt(sender, change) => Update(s, sender, change)
    case Read(caller, id) =>
      if id !in s.attempts then s else s.(readings := s.readings[caller := Reading(id, s.attempts[id])])
    case Answer(caller, asOf, minAge, settled, found) => DecideFromChain(s, caller, asOf, minAge, settled, found)
    case Judge(caller, asOf, verdict, confirmExpired) => DecideFromOperator(s, caller, asOf, verdict, confirmExpired)
    case Resolve(caller, heard) => Write(s, caller, heard)
  }

  predicate Owns(t: Txn, reference: Id, request: Id) {
    t.request == request && t.reference == Some(reference)
  }

  /** The journal calls a hold of this request on this reference `released`. */
  predicate JournaledRelease(s: State, reference: Id, request: Id) {
    exists t :: t in s.txns && Owns(s.txns[t], reference, request) && s.txns[t].hold.Released?
  }

  /** A process was told so, and may still journal it. */
  predicate ConfirmedRelease(s: State, reference: Id, request: Id) {
    exists t :: t in s.txns && Owns(s.txns[t], reference, request) && (t, H.Released) in s.confirmed
  }

  /**
   * What the processes promise: identifiers are fresh, a caller makes one
   * conditional write, and no request is granted a reference again once a
   * release of its own hold on it was journaled or confirmed.
   */
  predicate Allowed(s: State, step: Step) {
    match step
    case ReserveHold(reference, _, request) =>
      !JournaledRelease(s, reference, request) && !ConfirmedRelease(s, reference, request)
    case ReserveAttempt(id, _, _, _, _, _, txn) => id !in s.attempts && (txn.Some? ==> txn.value.id !in s.txns)
    case Read(caller, _) => caller !in s.readings
    case Answer(caller, _, _, _, _) => caller !in s.decisions && Unwritten(s, caller)
    case Judge(caller, _, _, _) => caller !in s.decisions && Unwritten(s, caller)
    case _ => true
  }

  /** The caller has made no conditional write yet. */
  predicate Unwritten(s: State, caller: Id) {
    && caller !in s.told
    && forall id :: id in s.attempts && s.attempts[id].resolution.Some? ==> s.attempts[id].resolution.value.writer != caller
  }

  function After(steps: seq<Step>, n: nat): State
    requires n <= |steps|
  {
    if n == 0 then START else Next(After(steps, n - 1), steps[n - 1])
  }

  ghost predicate Run(steps: seq<Step>) {
    forall i :: 0 <= i < |steps| ==> Allowed(After(steps, i), steps[i])
  }

  // ---- The journal never runs ahead of the provider ----

  /** The provider's row justifies this journal hold. */
  predicate Backed(holds: H.Rows, t: Txn, hold: Hold) {
    t.reference.Some? ==>
      && (hold.Consumed? || hold.Released? ==> t.reference.value in holds)
      && (hold.Consumed? ==>
            holds[t.reference.value].state.Consumed? && holds[t.reference.value].request == t.request)
      && (hold.Released? ==>
            holds[t.reference.value].state.Released? || holds[t.reference.value].request != t.request)
  }

  ghost predicate NotAhead(s: State) {
    forall t :: t in s.txns ==> Backed(s.holds, s.txns[t], s.txns[t].hold)
  }

  ghost predicate HoldsInvariant(s: State) {
    && NotAhead(s)
    && (forall c :: c in s.confirmed ==> c.0 in s.txns && s.txns[c.0].reference.Some? && Backed(s.holds, s.txns[c.0], c.1))
  }

  /** Backing survives every provider update. */
  lemma BackingSurvivesMove(holds: H.Rows, reference: Id, to: Hold, holder: Option<Id>, t: Txn, hold: Hold)
    requires Backed(holds, t, hold) && !to.Reserved?
    ensures Backed(H.Move(holds, reference, to, holder), t, hold)
  {
  }

  /** A grant takes the backing from exactly one kind of hold: the same request's release of the same reference. */
  lemma GrantTakesBacking(holds: H.Rows, reference: Id, checkout: Id, request: Id, t: Txn, hold: Hold)
    requires Backed(holds, t, hold) && H.CanReserve(holds, reference, checkout)
    ensures Backed(H.Reserve(true, holds, reference, checkout, request), t, hold) <==>
            !(Owns(t, reference, request) && hold.Released?)
  {
  }

  lemma AppliedIsBacked(holds: H.Rows, t: Txn, to: Hold)
    requires t.reference.Some? && !to.Reserved? && H.Applied(holds, t.reference.value, to, Some(t.request))
    ensures Backed(H.Move(holds, t.reference.value, to, Some(t.request)), t, to)
  {
    HoldProvider.ReturnMeansConfirmed(holds, t.reference.value, to, t.request);
  }

  /** A grant keeps the journal behind the provider exactly when it does not revive a hold journaled as released. */
  lemma GrantKeepsJournalExactly(s: State, reference: Id, checkout: Id, request: Id)
    requires NotAhead(s) && H.CanReserve(s.holds, reference, checkout)
    ensures NotAhead(Next(s, ReserveHold(reference, checkout, request))) <==> !JournaledRelease(s, reference, request)
  {
    hide Backed, H.Reserve, H.CanReserve, Owns;
    var s' := Next(s, ReserveHold(reference, checkout, request));
    forall t | t in s.txns
      ensures Backed(s'.holds, s.txns[t], s.txns[t].hold) <==> !(Owns(s.txns[t], reference, request) && s.txns[t].hold.Released?)
    {
      GrantTakesBacking(s.holds, reference, checkout, request, s.txns[t], s.txns[t].hold);
    }
    if NotAhead(s') {
      forall t | t in s.txns && Owns(s.txns[t], reference, request) ensures !s.txns[t].hold.Released? {
        assert Backed(s'.holds, s'.txns[t], s'.txns[t].hold);
      }
    }
  }

  /** The same for what processes were told and may still journal. */
  lemma GrantKeepsHoldsExactly(s: State, reference: Id, checkout: Id, request: Id)
    requires HoldsInvariant(s) && H.CanReserve(s.holds, reference, checkout)
    ensures HoldsInvariant(Next(s, ReserveHold(reference, checkout, request))) <==>
            !JournaledRelease(s, reference, request) && !ConfirmedRelease(s, reference, request)
  {
    hide Backed, H.Reserve, H.CanReserve, Owns, NotAhead;
    var s' := Next(s, ReserveHold(reference, checkout, request));
    GrantKeepsJournalExactly(s, reference, checkout, request);
    forall c | c in s.confirmed
      ensures Backed(s'.holds, s.txns[c.0], c.1) <==> !(Owns(s.txns[c.0], reference, request) && c.1.Released?)
    {
      GrantTakesBacking(s.holds, reference, checkout, request, s.txns[c.0], c.1);
    }
    if HoldsInvariant(s') {
      forall c | c in s.confirmed ensures !(Owns(s.txns[c.0], reference, request) && c.1.Released?) {
        assert c in s'.confirmed;
      }
    }
  }

  lemma ReserveKeepsHolds(s: State, reference: Id, checkout: Id, request: Id)
    requires HoldsInvariant(s) && Allowed(s, ReserveHold(reference, checkout, request))
    ensures HoldsInvariant(Next(s, ReserveHold(reference, checkout, request)))
  {
    hide HoldsInvariant, JournaledRelease, ConfirmedRelease, H.CanReserve;
    if H.CanReserve(s.holds, reference, checkout) { GrantKeepsHoldsExactly(s, reference, checkout, request); }
  }

  lemma MoveKeepsHolds(s: State, s': State, reference: Id, to: Hold, holder: Option<Id>)
    requires HoldsInvariant(s) && !to.Reserved?
    requires s'.holds == H.Move(s.holds, reference, to, holder)
    requires s'.txns == s.txns
    requires forall c :: c in s'.confirmed ==>
               c in s.confirmed || (c.0 in s.txns && s.txns[c.0].reference.Some? && Backed(s'.holds, s.txns[c.0], c.1))
    ensures HoldsInvariant(s')
  {
    hide Backed, H.Move;
    EveryBackingSurvives(s, reference, to, holder);
  }

  lemma FinalizeKeepsHolds(s: State, transaction: Id, to: Hold, answered: bool)
    requires HoldsInvariant(s)
    ensures HoldsInvariant(Next(s, FinalizeHold(transaction, to, answered)))
  {
    hide Backed, H.Move, H.Applied, HoldsInvariant;
    var s' := Next(s, FinalizeHold(transaction, to, answered));
    if !to.Reserved? && transaction in s.txns && s.txns[transaction].reference.Some? {
      var t := s.txns[transaction];
      if H.Applied(s.holds, t.reference.value, to, Some(t.request)) { AppliedIsBacked(s.holds, t, to); }
      MoveKeepsHolds(s, s', t.reference.value, to, Some(t.request));
    }
  }

  lemma RecordKeepsHolds(s: State, transaction: Id, to: Hold)
    requires HoldsInvariant(s)
    ensures HoldsInvariant(Next(s, RecordHold(transaction, to)))
  {
    hide Backed;
    if (transaction, to) in s.confirmed {
      RecordingKeepsBacking(s.holds, s.txns[transaction], to);
    }
  }

  lemma NewAttemptKeepsHolds(s: State, step: Step)
    requires HoldsInvariant(s) && step.ReserveAttempt? && Allowed(s, step)
    ensures HoldsInvariant(Next(s, step))
  {
    hide Backed;
    if step.txn.Some? {
      ReservedIsBacked(s.holds, Txn(step.request, step.id, step.txn.value.expiry, step.txn.value.reference, H.Reserved));
    }
  }

  lemma StepKeepsHolds(s: State, step: Step)
    requires HoldsInvariant(s) && Allowed(s, step)
    ensures HoldsInvariant(Next(s, step))
  {
    hide Backed, H.Move, HoldsInvariant, GrantHold, Finalize, Record, InsertAttempt, Update, DecideFromChain, DecideFromOperator, Write;
    match step
    case ReserveHold(reference, checkout, request) => ReserveKeepsHolds(s, reference, checkout, request);
    case MoveHold(reference, to, holder) =>
      if !to.Reserved? { MoveKeepsHolds(s, Next(s, step), reference, to, holder); }
    case FinalizeHold(transaction, to, answered) => FinalizeKeepsHolds(s, transaction, to, answered);
    case RecordHold(transaction, to) => RecordKeepsHolds(s, transaction, to);
    case ReserveAttempt(_, _, _, _, _, _, _) => NewAttemptKeepsHolds(s, step);
    case _ => OtherStepsKeepRows(s, step); HoldsFrame(s, Next(s, step));
  }

  /** These steps leave the provider's rows and the journal's transactions alone. */
  lemma OtherStepsKeepRows(s: State, step: Step)
    requires step.Tick? || step.UpdateAttempt? || step.Read? || step.Answer? || step.Judge? || step.Resolve?
    ensures var s' := Next(s, step);
            s'.holds == s.holds && s'.txns == s.txns && s'.confirmed == s.confirmed
  {
    hide Writes, Eligible, Refuses, WrittenAttempts, ExpiryOf;
  }

  lemma HoldsFrame(s: State, s': State)
    requires HoldsInvariant(s)
    requires s'.holds == s.holds && s'.txns == s.txns && s'.confirmed == s.confirmed
    ensures HoldsInvariant(s')
  {
    hide Backed;
  }

  lemma EveryBackingSurvives(s: State, reference: Id, to: Hold, holder: Option<Id>)
    requires !to.Reserved?
    ensures forall t, hold :: t in s.txns && Backed(s.holds, s.txns[t], hold) ==>
              Backed(H.Move(s.holds, reference, to, holder), s.txns[t], hold)
  {
    forall t, hold | t in s.txns && Backed(s.holds, s.txns[t], hold)
      ensures Backed(H.Move(s.holds, reference, to, holder), s.txns[t], hold)
    {
      BackingSurvivesMove(s.holds, reference, to, holder, s.txns[t], hold);
    }
  }

  lemma RecordingKeepsBacking(holds: H.Rows, t: Txn, to: Hold)
    ensures forall hold :: Backed(holds, t.(hold := to), hold) <==> Backed(holds, t, hold)
  {
  }

  lemma ReservedIsBacked(holds: H.Rows, t: Txn)
    ensures Backed(holds, t, H.Reserved)
  {
  }

  lemma {:induction false} HoldsInvariantHolds(steps: seq<Step>, n: nat)
    requires Run(steps) && n <= |steps|
    ensures HoldsInvariant(After(steps, n))
  {
    if n > 0 {
      HoldsInvariantHolds(steps, n - 1);
      StepKeepsHolds(After(steps, n - 1), steps[n - 1]);
    }
  }

  /**
   * Over every interleaving and every crash, a journal hold `consumed` means
   * the provider's row is consumed under that transaction's request, and
   * `released` that the row is released or held by a different request.
   */
  lemma JournalNeverAhead(steps: seq<Step>, n: nat, t: Id)
    requires Run(steps) && n <= |steps| && t in After(steps, n).txns
    ensures var s := After(steps, n);
            Backed(s.holds, s.txns[t], s.txns[t].hold)
  {
    HoldsInvariantHolds(steps, n);
  }

  // ---- Resolutions are unique, final and justified ----

  /** An answer that rules the payment out, or a verdict whose expiry has passed. */
  predicate JustifiesRejection(basis: Basis) {
    match basis
    case ChainAnswer(settled, _) => !settled
    case OperatorVerdict(expiry, confirmedExpired, judgedAt) =>
      if expiry.Some? then expiry.value <= judgedAt else confirmedExpired
  }

  predicate JustifiesSettlement(basis: Basis) {
    basis.ChainAnswer? ==> basis.settled
  }

  predicate Justified(r: Resolution) {
    if r.verdict.RejectedVerdict? then JustifiesRejection(r.basis) else JustifiesSettlement(r.basis)
  }

  predicate SoundDecision(s: State, caller: Id, d: Decision) {
    && d.resolution.writer == caller
    && Justified(d.resolution)
    && Unresolved(d.expected)
    && d.id in s.attempts
    && d.asOf <= s.now
    && (d.expected.Reserved? ==> OldEnough(s.attempts[d.id].createdAt, d.asOf, d.minAge))
    && (d.resolution.basis.OperatorVerdict? ==>
          && d.minAge == DEFAULT_MIN_AGE
          && d.resolution.basis.judgedAt <= s.now
          && d.resolution.basis.expiry == ExpiryOf(s, s.attempts[d.id]))
  }

  /** The stored resolution rests on what the store still records. */
  predicate SoundAttempt(s: State, a: Attempt) {
    a.resolution.Some? ==>
      && Justified(a.resolution.value)
      && a.status == a.resolution.value.verdict.Status()
      && (a.resolution.value.basis.OperatorVerdict? ==>
            && a.resolution.value.basis.expiry == ExpiryOf(s, a)
            && a.resolution.value.basis.judgedAt <= s.now)
  }

  /** The parts of an attempt no update touches. */
  predicate SameIdentity(a: Attempt, b: Attempt) {
    a.key == b.key && a.provider == b.provider && a.request == b.request && a.transaction == b.transaction && a.createdAt == b.createdAt
  }

  ghost predicate WrittenBy(s: State, id: Id, caller: Id) {
    id in s.attempts && s.attempts[id].resolution.Some? && s.attempts[id].resolution.value.writer == caller
  }

  ghost predicate SoundStore(s: State) {
    && (forall k :: k in s.current ==> s.current[k] in s.attempts && s.attempts[s.current[k]].key == k)
    && (forall id :: id in s.attempts ==> SoundAttempt(s, s.attempts[id]))
    && (forall id :: id in s.attempts && s.attempts[id].transaction.Some? ==> s.attempts[id].transaction.value in s.txns)
  }

  ghost predicate SoundProcesses(s: State) {
    && (forall c :: c in s.readings ==>
          s.readings[c].id in s.attempts && SameIdentity(s.readings[c].attempt, s.attempts[s.readings[c].id]))
    && (forall c :: c in s.decisions ==> SoundDecision(s, c, s.decisions[c]))
  }

  /** Each caller wrote at most one resolution, and was told so only if it did. */
  ghost predicate SoundWriters(s: State) {
    && (forall c, id :: WrittenBy(s, id, c) ==> c !in s.decisions)
    && (forall c :: c in s.told ==> c !in s.decisions && (s.told[c] <==> exists id :: WrittenBy(s, id, c)))
    && (forall c, a, b :: WrittenBy(s, a, c) && WrittenBy(s, b, c) ==> a == b)
  }

  /** Attempts keep their identity, and transactions their expiry. */
  ghost predicate Extends(s: State, s': State) {
    && s.now <= s'.now
    && (forall id :: id in s.attempts ==>
          && id in s'.attempts && SameIdentity(s.attempts[id], s'.attempts[id])
          && (s.attempts[id].resolution.Some? ==> s'.attempts[id] == s.attempts[id]))
    && (forall t :: t in s.txns ==> t in s'.txns && s'.txns[t].expiry == s.txns[t].expiry)
  }

  /** Only these steps touch attempts, readings, decisions or answers. */
  ghost predicate SamePayments(s: State, s': State) {
    && s.now <= s'.now
    && s'.attempts == s.attempts && s'.current == s.current && s'.readings == s.readings
    && s'.decisions == s.decisions && s'.told == s.told
    && s'.txns.Keys == s.txns.Keys
    && forall t :: t in s.txns ==> s'.txns[t].expiry == s.txns[t].expiry
  }

  lemma HoldStepsKeepPayments(s: State, step: Step)
    requires step.Tick? || step.ReserveHold? || step.MoveHold? || step.FinalizeHold? || step.RecordHold?
    ensures SamePayments(s, Next(s, step))
  {
    hide GrantHold, Finalize, Record, H.Move;
    match step
    case ReserveHold(reference, checkout, request) => GrantKeepsPayments(s, reference, checkout, request);
    case FinalizeHold(transaction, to, answered) => FinalizeKeepsPayments(s, transaction, to, answered);
    case RecordHold(transaction, to) => RecordKeepsPayments(s, transaction, to);
    case Tick(_) =>
    case MoveHold(_, _, _) =>
  }

  lemma GrantKeepsPayments(s: State, reference: Id, checkout: Id, request: Id)
    ensures SamePayments(s, GrantHold(s, reference, checkout, request))
  {
    hide H.Reserve, H.CanReserve;
  }

  lemma FinalizeKeepsPayments(s: State, transaction: Id, to: Hold, answered: bool)
    ensures SamePayments(s, Finalize(s, transaction, to, answered))
  {
    hide H.Move, H.Applied;
  }

  lemma RecordKeepsPayments(s: State, transaction: Id, to: Hold)
    ensures SamePayments(s, Record(s, transaction, to))
  {
  }

  /** A resolved attempt never changes again, not even when its key is reclaimed. */
  lemma StepExtends(s: State, step: Step)
    requires Allowed(s, step) && SoundStore(s)
    ensures Extends(s, Next(s, step))
  {
    hide GrantHold, Finalize, Record, InsertAttempt, Update, Write, Eligible, Refuses, SoundAttempt;
    match step
    case ReserveAttempt(id, key, provider, request, created, reclaim, txn) =>
      InsertExtends(s, id, key, provider, request, created, reclaim, txn);
    case UpdateAttempt(sender, change) => UpdateExtends(s, sender, change);
    case Resolve(caller, heard) => WriteExtends(s, caller, heard);
    case Tick(_) => HoldStepsKeepPayments(s, step);
    case ReserveHold(_, _, _) => HoldStepsKeepPayments(s, step);
    case MoveHold(_, _, _) => HoldStepsKeepPayments(s, step);
    case FinalizeHold(_, _, _) => HoldStepsKeepPayments(s, step);
    case RecordHold(_, _) => HoldStepsKeepPayments(s, step);
    case _ =>
  }

  lemma InsertExtends(s: State, id: Id, key: Id, provider: Id, request: Id, created: Time, reclaim: bool, txn: Option<NewTxn>)
    requires id !in s.attempts && (txn.Some? ==> txn.value.id !in s.txns)
    ensures Extends(s, InsertAttempt(s, id, key, provider, request, created, reclaim, txn))
  {
    hide CanReserveAttempt;
  }

  lemma UpdateExtends(s: State, sender: Id, change: Change)
    ensures Extends(s, Update(s, sender, change))
  {
  }

  lemma WrittenIs(s: State, d: Decision)
    ensures WrittenAttempts(s, d).Keys == s.attempts.Keys
    ensures Writes(s, d) ==> d.id in s.attempts && s.attempts[d.id].resolution.None?
    ensures forall i :: i in s.attempts ==>
              WrittenAttempts(s, d)[i] ==
              if Writes(s, d) && i == d.id
              then Resolved(s.attempts[i], d.resolution) else s.attempts[i]
  {
  }

  lemma WriteExtends(s: State, caller: Id, heard: bool)
    ensures Extends(s, Write(s, caller, heard))
  {
    hide WrittenAttempts, Writes;
    if caller in s.decisions { WrittenIs(s, s.decisions[caller]); }
  }

  lemma SoundAttemptExtends(s: State, s': State, a: Attempt)
    requires Extends(s, s') && SoundAttempt(s, a) && (a.transaction.Some? ==> a.transaction.value in s.txns)
    ensures SoundAttempt(s', a) && ExpiryOf(s', a) == ExpiryOf(s, a)
  {
  }

  lemma SoundDecisionExtends(s: State, s': State, c: Id, d: Decision)
    requires Extends(s, s') && SoundDecision(s, c, d)
    requires d.id in s.attempts ==> (s.attempts[d.id].transaction.Some? ==> s.attempts[d.id].transaction.value in s.txns)
    ensures SoundDecision(s', c, d)
  {
  }

  // Each step against the store's part of the invariant.

  lemma InsertStaysSound(s: State, id: Id, key: Id, provider: Id, request: Id, created: Time, reclaim: bool, txn: Option<NewTxn>)
    requires SoundStore(s) && id !in s.attempts && (txn.Some? ==> txn.value.id !in s.txns)
    ensures SoundStore(InsertAttempt(s, id, key, provider, request, created, reclaim, txn))
  {
    hide SoundAttempt, InsertAttempt, Extends, ExpiryOf;
    var s' := InsertAttempt(s, id, key, provider, request, created, reclaim, txn);
    InsertExtends(s, id, key, provider, request, created, reclaim, txn);
    InsertKeepsIndex(s, id, key, provider, request, created, reclaim, txn);
    forall i | i in s'.attempts ensures SoundAttempt(s', s'.attempts[i]) {
      if i in s.attempts { SoundAttemptExtends(s, s', s.attempts[i]); } else { UnresolvedIsSound(s', s'.attempts[i]); }
    }
  }

  lemma InsertKeepsIndex(s: State, id: Id, key: Id, provider: Id, request: Id, created: Time, reclaim: bool, txn: Option<NewTxn>)
    requires SoundStore(s) && id !in s.attempts && (txn.Some? ==> txn.value.id !in s.txns)
    ensures var s' := InsertAttempt(s, id, key, provider, request, created, reclaim, txn);
            && (forall k :: k in s'.current ==> s'.current[k] in s'.attempts && s'.attempts[s'.current[k]].key == k)
            && (forall i :: i in s'.attempts && s'.attempts[i].transaction.Some? ==> s'.attempts[i].transaction.value in s'.txns)
            && (forall i :: i in s'.attempts ==> if i in s.attempts then s'.attempts[i] == s.attempts[i] else s'.attempts[i].resolution.None?)
  {
    hide SoundAttempt, CanReserveAttempt;
    var s' := InsertAttempt(s, id, key, provider, request, created, reclaim, txn);
    if CanReserveAttempt(s, key, provider, reclaim) {
      assert s'.attempts.Keys == s.attempts.Keys + {id};
      assert s.txns.Keys <= s'.txns.Keys;
      forall i | i in s'.attempts ensures if i == id then s'.attempts[i].resolution.None? else s'.attempts[i] == s.attempts[i] {
      }
      forall k | k in s'.current ensures s'.current[k] in s'.attempts && s'.attempts[s'.current[k]].key == k {
        if k != key { assert s'.current[k] == s.current[k] && s.current[k] in s.attempts; }
      }
    } else {
      assert s' == s;
    }
  }

  lemma UnresolvedIsSound(s: State, a: Attempt)
    requires a.resolution.None?
    ensures SoundAttempt(s, a)
  {
  }

  lemma UpdateStaysSound(s: State, sender: Id, change: Change)
    requires SoundStore(s)
    ensures SoundStore(Update(s, sender, change))
  {
    hide SoundAttempt, Extends;
    var s' := Update(s, sender, change);
    UpdateExtends(s, sender, change);
    forall i | i in s'.attempts ensures SoundAttempt(s', s'.attempts[i]) {
      if s'.attempts[i] == s.attempts[i] { SoundAttemptExtends(s, s', s.attempts[i]); } else { UnresolvedIsSound(s', s'.attempts[i]); }
    }
  }

  lemma WriteStaysSound(s: State, caller: Id, heard: bool)
    requires SoundStore(s) && SoundProcesses(s)
    ensures SoundStore(Write(s, caller, heard))
  {
    hide SoundAttempt, SoundDecision, Extends, Write, SoundProcesses;
    var s' := Write(s, caller, heard);
    WriteExtends(s, caller, heard);
    WriteKeepsIndex(s, caller, heard);
    forall i | i in s'.attempts ensures SoundAttempt(s', s'.attempts[i]) {
      assert i in s.attempts by { WriteTargets(s, caller, heard, i); }
      if s'.attempts[i] == s.attempts[i] {
        SoundAttemptExtends(s, s', s.attempts[i]);
      } else {
        WrittenIsSound(s, caller, heard, i);
      }
    }
  }

  lemma WriteKeepsIndex(s: State, caller: Id, heard: bool)
    requires SoundStore(s)
    ensures var s' := Write(s, caller, heard);
            && (forall k :: k in s'.current ==> s'.current[k] in s'.attempts && s'.attempts[s'.current[k]].key == k)
            && (forall i :: i in s'.attempts && s'.attempts[i].transaction.Some? ==> s'.attempts[i].transaction.value in s'.txns)
  {
    hide SoundAttempt, WrittenAttempts, Writes;
    if caller in s.decisions {
      WrittenIs(s, s.decisions[caller]);
    } else {
      assert Write(s, caller, heard) == s;
    }
  }

  lemma WriteTargets(s: State, caller: Id, heard: bool, i: Id)
    requires i in Write(s, caller, heard).attempts
    ensures i in s.attempts
    ensures Write(s, caller, heard).attempts[i] != s.attempts[i] ==>
              caller in s.decisions && s.decisions[caller].id == i
  {
    hide WrittenAttempts, Writes;
    if caller in s.decisions { WrittenIs(s, s.decisions[caller]); }
  }

  lemma WrittenIsSound(s: State, caller: Id, heard: bool, i: Id)
    requires SoundStore(s) && SoundProcesses(s) && i in s.attempts
    requires i in Write(s, caller, heard).attempts && Write(s, caller, heard).attempts[i] != s.attempts[i]
    ensures SoundAttempt(Write(s, caller, heard), Write(s, caller, heard).attempts[i])
  {
    hide Justified, WrittenAttempts, Writes, SoundStore;
    WriteTargets(s, caller, heard, i);
    var d := s.decisions[caller];
    WrittenIs(s, d);
    assert SoundDecision(s, caller, d);
  }

  lemma SamePaymentsStaySound(s: State, s': State)
    requires SamePayments(s, s') && SoundStore(s)
    ensures SoundStore(s') && Extends(s, s')
  {
    hide SoundAttempt;
    forall i | i in s'.attempts ensures SoundAttempt(s', s'.attempts[i]) {
      SoundAttemptExtends(s, s', s.attempts[i]);
    }
  }

  lemma StoreStaysSound(s: State, step: Step)
    requires Allowed(s, step) && SoundStore(s) && SoundProcesses(s)
    ensures SoundStore(Next(s, step))
  {
    hide GrantHold, Finalize, Record, InsertAttempt, Update, Write, Eligible, Refuses, SoundStore, SoundProcesses;
    match step
    case ReserveAttempt(id, key, provider, request, created, reclaim, txn) =>
      InsertStaysSound(s, id, key, provider, request, created, reclaim, txn);
    case UpdateAttempt(sender, change) => UpdateStaysSound(s, sender, change);
    case Resolve(caller, heard) => WriteStaysSound(s, caller, heard);
    case Read(_, _) => SameAttemptsStaySound(s, Next(s, step));
    case Answer(_, _, _, _, _) => SameAttemptsStaySound(s, Next(s, step));
    case Judge(_, _, _, _) => SameAttemptsStaySound(s, Next(s, step));
    case _ => HoldStepsKeepPayments(s, step); SamePaymentsStaySound(s, Next(s, step));
  }

  lemma SameAttemptsStaySound(s: State, s': State)
    requires SoundStore(s) && s'.attempts == s.attempts && s'.current == s.current && s'.txns == s.txns && s'.now == s.now
    ensures SoundStore(s')
  {
    hide SoundAttempt;
    forall i | i in s'.attempts ensures SoundAttempt(s', s'.attempts[i]) {
      SameExpiry(s, s', s.attempts[i]);
    }
  }

  lemma SameExpiry(s: State, s': State, a: Attempt)
    requires s'.txns == s.txns && s'.now == s.now && SoundAttempt(s, a)
    ensures SoundAttempt(s', a)
  {
  }

  // Each step against what the processes hold.

  lemma OldProcessesStaySound(s: State, s': State)
    requires SoundStore(s) && SoundProcesses(s) && Extends(s, s')
    ensures forall c :: c in s.readings ==>
              s.readings[c].id in s'.attempts && SameIdentity(s.readings[c].attempt, s'.attempts[s.readings[c].id])
    ensures forall c :: c in s.decisions ==> SoundDecision(s', c, s.decisions[c])
  {
    hide SoundAttempt, SoundDecision;
    forall c | c in s.decisions ensures SoundDecision(s', c, s.decisions[c]) {
      assert s.decisions[c].id in s.attempts by { DecisionTarget(s, c, s.decisions[c]); }
      SoundDecisionExtends(s, s', c, s.decisions[c]);
    }
  }

  lemma DecisionTarget(s: State, c: Id, d: Decision)
    requires SoundDecision(s, c, d)
    ensures d.id in s.attempts
  {
  }

  lemma ChainDecisionIsSound(s: State, caller: Id, asOf: int, minAge: int, settled: bool, found: Option<Id>)
    requires SoundProcesses(s)
    ensures var s' := DecideFromChain(s, caller, asOf, minAge, settled, found);
            s' != s ==> caller in s'.decisions && SoundDecision(s', caller, s'.decisions[caller])
  {
  }

  lemma OperatorDecisionIsSound(s: State, caller: Id, asOf: int, verdict: Verdict, confirmExpired: bool)
    requires SoundProcesses(s)
    ensures var s' := DecideFromOperator(s, caller, asOf, verdict, confirmExpired);
            s' != s ==> caller in s'.decisions && SoundDecision(s', caller, s'.decisions[caller])
  {
  }

  lemma DecidingStaysSound(s: State, s': State, caller: Id)
    requires SoundStore(s) && SoundProcesses(s)
    requires s' == s || (caller in s'.decisions && s' == s.(decisions := s.decisions[caller := s'.decisions[caller]])
                         && SoundDecision(s', caller, s'.decisions[caller]))
    ensures SoundProcesses(s')
  {
    hide SoundAttempt, SoundDecision;
    OldProcessesStaySound(s, s') by { Reflexive(s, s'); }
  }

  lemma Reflexive(s: State, s': State)
    requires s'.attempts == s.attempts && s'.txns == s.txns && s'.now == s.now
    ensures Extends(s, s')
  {
  }

  lemma ProcessesStaySound(s: State, step: Step)
    requires Allowed(s, step) && SoundStore(s) && SoundProcesses(s)
    ensures SoundProcesses(Next(s, step))
  {
    hide GrantHold, Finalize, Record, InsertAttempt, Update, Write, DecideFromChain, DecideFromOperator, SoundStore, SoundAttempt,
         SoundDecision, Extends;
    var s' := Next(s, step);
    StepExtends(s, step);
    OldProcessesStaySound(s, s');
    match step
    case Answer(caller, asOf, minAge, settled, found) =>
      ChainDecisionIsSound(s, caller, asOf, minAge, settled, found);
      ChainDecisionFrame(s, caller, asOf, minAge, settled, found);
      DecidingStaysSound(s, s', caller);
    case Judge(caller, asOf, verdict, confirmExpired) =>
      OperatorDecisionIsSound(s, caller, asOf, verdict, confirmExpired);
      OperatorDecisionFrame(s, caller, asOf, verdict, confirmExpired);
      DecidingStaysSound(s, s', caller);
    case ReserveAttempt(_, _, _, _, _, _, _) => PaymentStepsFrame(s, step);
    case UpdateAttempt(_, _) => PaymentStepsFrame(s, step);
    case Resolve(_, _) => PaymentStepsFrame(s, step);
    case Read(caller, id) =>
    case _ => HoldStepsKeepPayments(s, step);
  }

  lemma ChainDecisionFrame(s: State, caller: Id, asOf: int, minAge: int, settled: bool, found: Option<Id>)
    ensures var s' := DecideFromChain(s, caller, asOf, minAge, settled, found);
            s' == s || (caller in s'.decisions && s' == s.(decisions := s.decisions[caller := s'.decisions[caller]]))
  {
    hide Eligible;
  }

  lemma OperatorDecisionFrame(s: State, caller: Id, asOf: int, verdict: Verdict, confirmExpired: bool)
    ensures var s' := DecideFromOperator(s, caller, asOf, verdict, confirmExpired);
            s' == s || (caller in s'.decisions && s' == s.(decisions := s.decisions[caller := s'.decisions[caller]]))
  {
    hide Refuses;
  }

  lemma PaymentStepsFrame(s: State, step: Step)
    requires step.ReserveAttempt? || step.UpdateAttempt? || step.Resolve?
    ensures var s' := Next(s, step);
            && s'.readings == s.readings
            && (forall c :: c in s'.decisions ==> c in s.decisions && s'.decisions[c] == s.decisions[c])
  {
    hide CanReserveAttempt, Writes, WrittenAttempts;
  }

  // Each step against the record of who wrote what.

  lemma OnlyResolveWrites(s: State, step: Step, id: Id, c: Id)
    requires Allowed(s, step) && !step.Resolve?
    ensures WrittenBy(Next(s, step), id, c) <==> WrittenBy(s, id, c)
  {
    hide GrantHold, Finalize, Record, DecideFromChain, DecideFromOperator, CanReserveAttempt;
    match step
    case Answer(caller, asOf, minAge, settled, found) => ChainDecisionFrame(s, caller, asOf, minAge, settled, found);
    case Judge(caller, asOf, verdict, confirmExpired) => OperatorDecisionFrame(s, caller, asOf, verdict, confirmExpired);
    case ReserveAttempt(_, _, _, _, _, _, _) =>
    case UpdateAttempt(_, _) =>
    case Read(_, _) =>
    case _ => HoldStepsKeepPayments(s, step);
  }

  lemma OtherStepsKeepTold(s: State, step: Step, c: Id)
    requires Allowed(s, step) && !step.Resolve? && SoundWriters(s)
    ensures Next(s, step).told == s.told
    ensures c in Next(s, step).decisions ==> c in s.decisions || (c !in s.told && forall id :: !WrittenBy(s, id, c))
  {
    hide GrantHold, Finalize, Record, DecideFromChain, DecideFromOperator, CanReserveAttempt, SoundWriters;
    match step
    case Answer(caller, asOf, minAge, settled, found) => ChainDecisionFrame(s, caller, asOf, minAge, settled, found);
    case Judge(caller, asOf, verdict, confirmExpired) => OperatorDecisionFrame(s, caller, asOf, verdict, confirmExpired);
    case ReserveAttempt(_, _, _, _, _, _, _) =>
    case UpdateAttempt(_, _) =>
    case Read(_, _) =>
    case _ => HoldStepsKeepPayments(s, step);
  }

  lemma WritersStaySound(s: State, step: Step)
    requires Allowed(s, step) && SoundProcesses(s) && SoundWriters(s)
    ensures SoundWriters(Next(s, step))
  {
    hide Next, Allowed, WrittenBy, SoundProcesses;
    if step.Resolve? {
      NextResolves(s, step.caller, step.heard);
      ResolveKeepsWriters(s, step.caller, step.heard);
    } else {
      var s' := Next(s, step);
      forall c, id ensures WrittenBy(s', id, c) <==> WrittenBy(s, id, c) { OnlyResolveWrites(s, step, id, c); }
      forall c ensures s'.told == s.told && (c in s'.decisions ==> c in s.decisions || (c !in s.told && forall id :: !WrittenBy(s, id, c))) {
        OtherStepsKeepTold(s, step, c);
      }
      SameWritersStaySound(s, s');
    }
  }

  lemma NextResolves(s: State, caller: Id, heard: bool)
    ensures Next(s, Resolve(caller, heard)) == Write(s, caller, heard)
  {
  }

  lemma SameWritersStaySound(s: State, s': State)
    requires SoundWriters(s) && s'.told == s.told
    requires forall c, id :: WrittenBy(s', id, c) <==> WrittenBy(s, id, c)
    requires forall c :: c in s'.decisions ==> c in s.decisions || (c !in s.told && forall id :: !WrittenBy(s, id, c))
    ensures SoundWriters(s')
  {
    hide WrittenBy;
  }

  lemma WhoWrites(s: State, caller: Id, heard: bool, id: Id, c: Id)
    requires SoundProcesses(s) && caller in s.decisions && caller !in s.told
    ensures WrittenBy(Write(s, caller, heard), id, c) <==>
            WrittenBy(s, id, c) || (Writes(s, s.decisions[caller]) && id == s.decisions[caller].id && c == caller)
  {
    hide WrittenAttempts, Writes, Justified;
    WrittenIs(s, s.decisions[caller]);
    assert SoundDecision(s, caller, s.decisions[caller]);
  }

  lemma ResolveKeepsWriters(s: State, caller: Id, heard: bool)
    requires SoundProcesses(s) && SoundWriters(s)
    ensures SoundWriters(Write(s, caller, heard))
  {
    hide WrittenBy, SoundProcesses, Writes, SoundDecision, Write, SoundWriters;
    var s' := Write(s, caller, heard);
    if caller in s.decisions && caller !in s.told {
      var d := s.decisions[caller];
      var wrote := Writes(s, d);
      forall c, id ensures WrittenBy(s', id, c) <==> WrittenBy(s, id, c) || (wrote && id == d.id && c == caller) {
        WhoWrites(s, caller, heard, id, c);
      }
      WriteAnswers(s, caller, heard);
      AddedWriterIsSound(s, s', caller, wrote, d.id);
    } else {
      NothingToWrite(s, caller, heard);
    }
  }

  lemma NothingToWrite(s: State, caller: Id, heard: bool)
    requires caller !in s.decisions || caller in s.told
    ensures Write(s, caller, heard) == s
  {
  }

  lemma WriteAnswers(s: State, caller: Id, heard: bool)
    requires caller in s.decisions && caller !in s.told
    ensures var s' := Write(s, caller, heard);
            && s'.decisions == s.decisions - {caller}
            && s'.told == if heard then s.told[caller := Writes(s, s.decisions[caller])] else s.told
  {
    hide Writes, WrittenAttempts;
  }

  lemma AddedWriterIsSound(s: State, s': State, caller: Id, wrote: bool, target: Id)
    requires SoundWriters(s) && caller in s.decisions && caller !in s.told
    requires forall c, id :: WrittenBy(s', id, c) <==> WrittenBy(s, id, c) || (wrote && id == target && c == caller)
    requires s'.decisions == s.decisions - {caller}
    requires s'.told == s.told || s'.told == s.told[caller := wrote]
    ensures SoundWriters(s')
  {
    hide WrittenBy;
    assert forall id :: !WrittenBy(s, id, caller);
    if wrote { assert WrittenBy(s', target, caller); }
    forall c | c in s'.told ensures c !in s'.decisions && (s'.told[c] <==> exists id :: WrittenBy(s', id, c)) {
      if c != caller {
        assert c in s.told && s'.told[c] == s.told[c];
        assert forall id :: WrittenBy(s', id, c) <==> WrittenBy(s, id, c);
      }
    }
  }

  lemma {:induction false} ResolutionsInvariantHolds(steps: seq<Step>, n: nat)
    requires Run(steps) && n <= |steps|
    ensures SoundStore(After(steps, n)) && SoundProcesses(After(steps, n)) && SoundWriters(After(steps, n))
  {
    hide SoundAttempt, SoundDecision, Next, Allowed;
    if n > 0 {
      var s := After(steps, n - 1);
      ResolutionsInvariantHolds(steps, n - 1);
      StoreStaysSound(s, steps[n - 1]);
      ProcessesStaySound(s, steps[n - 1]);
      WritersStaySound(s, steps[n - 1]);
    }
  }

  /** Once resolved, an attempt is the same at every later point of the run. */
  lemma {:induction false} ResolutionIsFinal(steps: seq<Step>, n: nat, m: nat, id: Id)
    requires Run(steps) && n <= m <= |steps|
    requires id in After(steps, n).attempts && After(steps, n).attempts[id].resolution.Some?
    ensures id in After(steps, m).attempts && After(steps, m).attempts[id] == After(steps, n).attempts[id]
    decreases m
  {
    hide Next, Allowed, SoundStore;
    if n < m {
      ResolutionIsFinal(steps, n, m - 1, id);
      ResolutionsInvariantHolds(steps, m - 1);
      StepExtends(After(steps, m - 1), steps[m - 1]);
    }
  }

  /** At any two points an attempt has at most one resolution. */
  lemma ResolutionIsUnique(steps: seq<Step>, n: nat, m: nat, id: Id)
    requires Run(steps) && n <= |steps| && m <= |steps|
    requires id in After(steps, n).attempts && After(steps, n).attempts[id].resolution.Some?
    requires id in After(steps, m).attempts && After(steps, m).attempts[id].resolution.Some?
    ensures After(steps, n).attempts[id].resolution == After(steps, m).attempts[id].resolution
  {
    if n <= m { ResolutionIsFinal(steps, n, m, id); } else { ResolutionIsFinal(steps, m, n, id); }
  }

  /** A caller is told its write applied exactly when one attempt, and only one, carries it. */
  lemma ToldMeansWritten(steps: seq<Step>, n: nat, caller: Id)
    requires Run(steps) && n <= |steps| && caller in After(steps, n).told
    ensures var s := After(steps, n);
            && (s.told[caller] <==> exists id :: WrittenBy(s, id, caller))
            && forall a, b :: WrittenBy(s, a, caller) && WrittenBy(s, b, caller) ==> a == b
  {
    hide Next, Allowed;
    ResolutionsInvariantHolds(steps, n);
  }

  /**
   * A rejection rests on a `not-settled` answer, or on an operator's verdict
   * whose recorded expiry had passed or was unreadable and confirmed passed; a
   * settlement on a `settled` answer or a verdict.
   */
  lemma ResolutionsAreJustified(steps: seq<Step>, n: nat, id: Id)
    requires Run(steps) && n <= |steps|
    requires id in After(steps, n).attempts && After(steps, n).attempts[id].resolution.Some?
    ensures var s := After(steps, n);
            var a := s.attempts[id];
            var r := a.resolution.value;
            && a.status == r.verdict.Status()
            && (r.verdict.RejectedVerdict? ==> JustifiesRejection(r.basis))
            && (r.verdict.SettledVerdict? ==> JustifiesSettlement(r.basis))
            && (r.basis.OperatorVerdict? ==> r.basis.expiry == ExpiryOf(s, a) && r.basis.judgedAt <= s.now)
  {
    hide Next, Allowed;
    ResolutionsInvariantHolds(steps, n);
    assert SoundAttempt(After(steps, n), After(steps, n).attempts[id]);
  }

  /** No write resolves a reserved attempt younger than the threshold its caller applied. */
  lemma YoungReservedIsNeverResolved(steps: seq<Step>, n: nat, id: Id)
    requires Run(steps) && n < |steps|
    requires id in After(steps, n).attempts
    requires After(steps, n).attempts[id].status.Reserved? && After(steps, n).attempts[id].resolution.None?
    requires id in After(steps, n + 1).attempts && After(steps, n + 1).attempts[id].resolution.Some?
    ensures var s := After(steps, n);
            && steps[n].Resolve? && steps[n].caller in s.decisions
            && OldEnough(s.attempts[id].createdAt, s.now, s.decisions[steps[n].caller].minAge)
            && (After(steps, n + 1).attempts[id].resolution.value.basis.OperatorVerdict? ==>
                 s.decisions[steps[n].caller].minAge == DEFAULT_MIN_AGE)
  {
    hide Next, Allowed, SoundAttempt, SoundDecision;
    ResolutionsInvariantHolds(steps, n);
    var s := After(steps, n);
    assert After(steps, n + 1) == Next(s, steps[n]);
    if !steps[n].Resolve? {
      NothingElseResolves(s, steps[n], id);
    } else {
      NextResolves(s, steps[n].caller, steps[n].heard);
      WriteIsOldEnough(s, steps[n].caller, steps[n].heard, id);
    }
  }

  lemma WriteIsOldEnough(s: State, caller: Id, heard: bool, id: Id)
    requires SoundProcesses(s) && id in s.attempts && s.attempts[id].status.Reserved? && s.attempts[id].resolution.None?
    requires id in Write(s, caller, heard).attempts && Write(s, caller, heard).attempts[id].resolution.Some?
    ensures caller in s.decisions && OldEnough(s.attempts[id].createdAt, s.now, s.decisions[caller].minAge)
    ensures Write(s, caller, heard).attempts[id].resolution.value.basis.OperatorVerdict? ==>
              s.decisions[caller].minAge == DEFAULT_MIN_AGE
  {
    hide WrittenAttempts, Justified;
    assert caller in s.decisions;
    WrittenIs(s, s.decisions[caller]);
    assert SoundDecision(s, caller, s.decisions[caller]);
  }

  lemma NothingElseResolves(s: State, step: Step, id: Id)
    requires Allowed(s, step) && !step.Resolve? && id in s.attempts && s.attempts[id].resolution.None?
    ensures id in Next(s, step).attempts ==> Next(s, step).attempts[id].resolution.None?
  {
    hide Next, Allowed;
    if id in Next(s, step).attempts && Next(s, step).attempts[id].resolution.Some? {
      OnlyResolveWrites(s, step, id, Next(s, step).attempts[id].resolution.value.writer);
    }
  }

  // ---- Where a gateway's own update lands ----

  /** An update changes an attempt it writes in its status, or in a reference or reason it supplies. */
  lemma ChangeMeans(a: Attempt, change: Change)
    ensures change.On(a) != a <==>
            || change.status != a.status
            || (change.evidence.reference.Some? && change.evidence.reference != a.evidence.reference)
            || (change.evidence.reason.Some? && change.evidence.reason != a.evidence.reason)
  {
  }

  /** An update changes only the attempt that holds the sender's key, and only while it is unresolved. */
  lemma UpdateHitsKeyHolder(s: State, sender: Id, change: Change, id: Id)
    requires SoundStore(s) && sender in s.attempts && id in s.attempts
    ensures Update(s, sender, change).attempts.Keys == s.attempts.Keys
    ensures Update(s, sender, change).attempts[id] != s.attempts[id] <==>
            && IsCurrent(s, id) && s.attempts[id].key == s.attempts[sender].key
            && s.attempts[id].resolution.None? && change.On(s.attempts[id]) != s.attempts[id]
  {
    hide SoundAttempt, Change.On;
    var key := s.attempts[sender].key;
    if key in s.current {
      var holder := s.current[key];
      assert holder in s.attempts && s.attempts[holder].key == key;
      assert IsCurrent(s, id) && s.attempts[id].key == key <==> id == holder;
    }
  }

  /** The step changes an attempt that another request reserved. */
  ghost predicate ChangesForeign(s: State, s': State, sender: Id)
    requires sender in s.attempts
  {
    exists id :: id in s.attempts && id in s'.attempts && s'.attempts[id] != s.attempts[id]
      && s.attempts[id].request != s.attempts[sender].request
  }

  /** In any state: an update changes another request's attempt exactly when one holds the key, unresolved. */
  lemma UpdateIsForeignExactly(s: State, sender: Id, change: Change)
    requires SoundStore(s) && sender in s.attempts
    ensures ChangesForeign(s, Update(s, sender, change), sender) <==>
            var key := s.attempts[sender].key;
            && key in s.current
            && var holder := s.attempts[s.current[key]];
               holder.resolution.None? && change.On(holder) != holder && holder.request != s.attempts[sender].request
  {
    hide SoundAttempt, Update;
    var s', key := Update(s, sender, change), s.attempts[sender].key;
    forall id | id in s.attempts
      ensures id in s'.attempts
      ensures s'.attempts[id] != s.attempts[id] <==>
              && IsCurrent(s, id) && s.attempts[id].key == key
              && s.attempts[id].resolution.None? && change.On(s.attempts[id]) != s.attempts[id]
    {
      UpdateHitsKeyHolder(s, sender, change, id);
    }
    if key in s.current {
      var c := s.current[key];
      assert c in s.attempts && s.attempts[c].key == key && IsCurrent(s, c);
    }
  }

  /** Step `step` replaces the rejected attempt `a` under its key. */
  ghost predicate Reclaims(s: State, step: Step, a: Id) {
    && IsCurrent(s, a) && s.attempts[a].status.Rejected?
    && step.ReserveAttempt? && step.reclaim
    && step.key == s.attempts[a].key && step.provider == s.attempts[a].provider
  }

  ghost predicate Reclaimed(steps: seq<Step>, n: nat, a: Id)
    requires n <= |steps|
  {
    exists j :: 0 <= j < n && Reclaims(After(steps, j), steps[j], a)
  }

  ghost predicate SameIndex(s: State, s': State) {
    && s'.current == s.current && s'.attempts.Keys == s.attempts.Keys
    && forall i :: i in s.attempts ==> s'.attempts[i].key == s.attempts[i].key
  }

  lemma UpdateKeepsIndex(s: State, sender: Id, change: Change)
    ensures SameIndex(s, Update(s, sender, change))
  {
  }

  lemma ResolveKeepsIndex(s: State, caller: Id, heard: bool)
    ensures SameIndex(s, Write(s, caller, heard))
  {
    hide Writes, WrittenAttempts;
    if caller in s.decisions { WrittenIs(s, s.decisions[caller]); }
  }

  /** Only a new attempt changes who holds a key. */
  lemma OtherStepsKeepIndex(s: State, step: Step)
    requires !step.ReserveAttempt?
    ensures SameIndex(s, Next(s, step))
  {
    hide GrantHold, Finalize, Record, DecideFromChain, DecideFromOperator, Update, Write;
    match step
    case Answer(caller, asOf, minAge, settled, found) => ChainDecisionFrame(s, caller, asOf, minAge, settled, found);
    case Judge(caller, asOf, verdict, confirmExpired) => OperatorDecisionFrame(s, caller, asOf, verdict, confirmExpired);
    case UpdateAttempt(sender, change) => UpdateKeepsIndex(s, sender, change);
    case Read(_, _) =>
    case Resolve(caller, heard) => ResolveKeepsIndex(s, caller, heard);
    case _ => HoldStepsKeepPayments(s, step);
  }

  /** One step: an attempt loses its key exactly by a reclaim, and never gets it back. */
  lemma KeyLostByReclaim(s: State, step: Step, a: Id)
    requires Allowed(s, step) && SoundStore(s) && a in s.attempts && s.attempts[a].key in s.current
    ensures var s' := Next(s, step);
            && a in s'.attempts && s'.attempts[a].key in s'.current
            && (IsCurrent(s', a) <==> IsCurrent(s, a) && !Reclaims(s, step, a))
  {
    hide SoundAttempt;
    if step.ReserveAttempt? {
    } else {
      hide Next, Allowed;
      OtherStepsKeepIndex(s, step);
    }
  }

  /** A new attempt holds its key. */
  lemma NewAttemptIsCurrent(s: State, step: Step, a: Id)
    requires Allowed(s, step) && a !in s.attempts && a in Next(s, step).attempts
    ensures IsCurrent(Next(s, step), a)
  {
    if step.ReserveAttempt? {
    } else {
      hide Next, Allowed;
      OtherStepsKeepIndex(s, step);
    }
  }

  lemma {:induction false} AttemptsStay(steps: seq<Step>, j: nat, n: nat, a: Id)
    requires Run(steps) && j <= n <= |steps| && a in After(steps, j).attempts
    ensures a in After(steps, n).attempts
    decreases n
  {
    hide Next, Allowed, SoundStore;
    if j < n {
      AttemptsStay(steps, j, n - 1, a);
      ResolutionsInvariantHolds(steps, n - 1);
      StepExtends(After(steps, n - 1), steps[n - 1]);
    }
  }

  /** Over every run an attempt holds its key exactly until it is rejected and its key reclaimed. */
  lemma {:induction false} CurrentUnlessReclaimed(steps: seq<Step>, n: nat, a: Id)
    requires Run(steps) && n <= |steps| && a in After(steps, n).attempts
    ensures var s := After(steps, n);
            && s.attempts[a].key in s.current
            && (IsCurrent(s, a) <==> !Reclaimed(steps, n, a))
  {
    hide Next, Allowed, SoundStore, IsCurrent, Reclaims;
    if n > 0 {
      var s, step := After(steps, n - 1), steps[n - 1];
      ResolutionsInvariantHolds(steps, n - 1);
      if a in s.attempts {
        CurrentUnlessReclaimed(steps, n - 1, a);
        KeyLostByReclaim(s, step, a);
        assert Reclaimed(steps, n, a) <==> Reclaimed(steps, n - 1, a) || Reclaims(s, step, a);
      } else {
        NewAttemptIsCurrent(s, step, a);
        CurrentMeansStored(After(steps, n), a);
        forall j | 0 <= j < n ensures !Reclaims(After(steps, j), steps[j], a) {
          if a in After(steps, j).attempts { AttemptsStay(steps, j, n - 1, a); assert false; }
          ReclaimedIsStored(After(steps, j), steps[j], a);
        }
      }
    }
  }

  lemma CurrentMeansStored(s: State, a: Id)
    requires IsCurrent(s, a)
    ensures a in s.attempts && s.attempts[a].key in s.current
  {
  }

  lemma ReclaimedIsStored(s: State, step: Step, a: Id)
    ensures Reclaims(s, step, a) ==> a in s.attempts
  {
  }

  /**
   * Over every run: a gateway's update reaches its own attempt exactly while
   * that attempt is unresolved and its key was never reclaimed, and changes
   * another request's attempt exactly when the sender's was rejected, its key
   * reclaimed, and the unresolved attempt now under the key is another
   * request's.
   */
  lemma UpdateLandsExactly(steps: seq<Step>, n: nat)
    requires Run(steps) && n < |steps| && steps[n].UpdateAttempt?
    requires steps[n].sender in After(steps, n).attempts
    ensures var s, s', sender, change := After(steps, n), After(steps, n + 1), steps[n].sender, steps[n].change;
            var own := s.attempts[sender];
            && own.key in s.current && s.current[own.key] in s.attempts
            && sender in s'.attempts
            && (s'.attempts[sender] != own <==>
                 !Reclaimed(steps, n, sender) && own.resolution.None? && change.On(own) != own)
            && (ChangesForeign(s, s', sender) <==>
                 && Reclaimed(steps, n, sender)
                 && var holder := s.attempts[s.current[own.key]];
                    holder.request != own.request && holder.resolution.None? && change.On(holder) != holder)
  {
    hide Next, Allowed, After, Update, Reclaimed, ChangesForeign, SoundAttempt;
    var s, sender, change := After(steps, n), steps[n].sender, steps[n].change;
    ResolutionsInvariantHolds(steps, n);
    CurrentUnlessReclaimed(steps, n, sender);
    Continues(steps, n);
    NextUpdates(s, sender, change);
    UpdateHitsKeyHolder(s, sender, change, sender);
    UpdateIsForeignExactly(s, sender, change);
  }

  lemma Continues(steps: seq<Step>, n: nat)
    requires n < |steps|
    ensures After(steps, n + 1) == Next(After(steps, n), steps[n])
  {
  }

  lemma NextUpdates(s: State, sender: Id, change: Change)
    ensures Next(s, UpdateAttempt(sender, change)) == Update(s, sender, change)
  {
  }

  // ---- Why the promises are needed ----

  const A: Id := [0x61]
  const B: Id := [0x62]

  /** One request is granted the same reference twice, with its old release journaled in between. */
  const GRANTED_TWICE: seq<Step> := [
    ReserveHold(A, A, A),
    ReserveAttempt(A, A, A, A, Some(0), false, Some(NewTxn(A, None, Some(A)))),
    FinalizeHold(A, H.Released, true),
    RecordHold(A, H.Released),
    ReserveHold(A, A, A)
  ]

  // The states of that run.
  const TXN_A := Txn(A, A, None, Some(A), H.Reserved)
  const ROW_A := H.Row(A, A, H.Reserved)
  const HELD := START.(holds := map[A := ROW_A])
  const BOUGHT := HELD.(
    attempts := map[A := Attempt(A, A, A, Some(A), Some(0), PaymentStatus.Reserved, NO_EVIDENCE, None)],
    current := map[A := A], txns := map[A := TXN_A])
  const LET_GO := BOUGHT.(holds := map[A := ROW_A.(state := H.Released)], confirmed := {(A, H.Released)})
  const NOTED := LET_GO.(txns := map[A := TXN_A.(hold := H.Released)])

  lemma GrantThenBuy()
    ensures Next(START, GRANTED_TWICE[0]) == HELD && Next(HELD, GRANTED_TWICE[1]) == BOUGHT
  {
    assert map[][A := ROW_A] == map[A := ROW_A];
  }

  lemma LetGoThenNote()
    ensures Next(BOUGHT, GRANTED_TWICE[2]) == LET_GO && Next(LET_GO, GRANTED_TWICE[3]) == NOTED
  {
    assert map[A := ROW_A][A := ROW_A.(state := H.Released)] == map[A := ROW_A.(state := H.Released)];
    assert {} + {(A, H.Released)} == {(A, H.Released)};
    assert map[A := TXN_A][A := TXN_A.(hold := H.Released)] == map[A := TXN_A.(hold := H.Released)];
  }

  lemma GrantAgain()
    ensures Next(NOTED, GRANTED_TWICE[4]).holds == map[A := ROW_A] && Next(NOTED, GRANTED_TWICE[4]).txns == NOTED.txns
  {
    assert H.CanReserve(NOTED.holds, A, A);
  }

  /** Then the journal says `released` while the provider holds the row for that request. */
  lemma SecondGrantPutsJournalAhead()
    ensures var s := After(GRANTED_TWICE, 5);
            A in s.txns && !Backed(s.holds, s.txns[A], s.txns[A].hold)
    ensures forall i :: 0 <= i < 4 ==> Allowed(After(GRANTED_TWICE, i), GRANTED_TWICE[i])
    ensures !Allowed(After(GRANTED_TWICE, 4), GRANTED_TWICE[4])
  {
    hide Next;
    GrantThenBuy();
    LetGoThenNote();
    GrantAgain();
    assert After(GRANTED_TWICE, 0) == START;
    assert After(GRANTED_TWICE, 1) == HELD;
    assert After(GRANTED_TWICE, 2) == BOUGHT;
    assert After(GRANTED_TWICE, 3) == LET_GO;
    assert After(GRANTED_TWICE, 4) == NOTED;
    assert After(GRANTED_TWICE, 5) == Next(NOTED, GRANTED_TWICE[4]);
  }

  /**
   * A gateway still settling when its attempt is rejected by reconciliation and
   * the key reclaimed: its late update, made by replay key, lands on the other
   * request's attempt. No step of this run is out of the ordinary.
   */
  const SETTLED_BY_A := Change(PaymentStatus.Settled, Evidence(Some(A), None))
  const SETTLED_BY_B := Change(PaymentStatus.Settled, Evidence(Some(B), None))

  const LATE_UPDATE: seq<Step> := [
    ReserveAttempt(A, A, A, A, Some(0), false, None),
    Tick(DEFAULT_MIN_AGE),
    Read(A, A),
    Answer(A, DEFAULT_MIN_AGE, DEFAULT_MIN_AGE, false, None),
    Resolve(A, true),
    ReserveAttempt(B, A, A, B, Some(DEFAULT_MIN_AGE), true, None),
    UpdateAttempt(A, SETTLED_BY_A)
  ]

  const RESERVED_B := Attempt(A, A, B, None, Some(DEFAULT_MIN_AGE), PaymentStatus.Reserved, NO_EVIDENCE, None)
  const RESERVED_A := Attempt(A, A, A, None, Some(0), PaymentStatus.Reserved, NO_EVIDENCE, None)
  const RESOLUTION_A := Resolution(RejectedVerdict, ChainAnswer(false, None), A)
  const AGED := START.(now := DEFAULT_MIN_AGE, attempts := map[A := RESERVED_A], current := map[A := A])
  const READ := AGED.(readings := map[A := Reading(A, RESERVED_A)])
  const DECIDED :=
    READ.(decisions := map[A := Decision(A, PaymentStatus.Reserved, RESOLUTION_A, DEFAULT_MIN_AGE, DEFAULT_MIN_AGE)])
  const REJECTED :=
    READ.(attempts := map[A := Resolved(RESERVED_A, RESOLUTION_A)], told := map[A := true])

  lemma UntilDecided()
    ensures After(LATE_UPDATE, 4) == DECIDED
    ensures forall i :: 0 <= i < 4 ==> Allowed(After(LATE_UPDATE, i), LATE_UPDATE[i])
  {
    var one := After(LATE_UPDATE, 1);
    assert After(LATE_UPDATE, 0) == START && one == Next(START, LATE_UPDATE[0]);
    assert one == START.(attempts := map[A := RESERVED_A], current := map[A := A]);
    assert After(LATE_UPDATE, 2) == Next(one, LATE_UPDATE[1]) == AGED;
    assert After(LATE_UPDATE, 3) == Next(AGED, LATE_UPDATE[2]) == READ;
    assert After(LATE_UPDATE, 4) == Next(READ, LATE_UPDATE[3]) == DECIDED;
  }

  lemma ThenRejected()
    ensures Next(DECIDED, Resolve(A, true)) == REJECTED
  {
    assert Writes(DECIDED, DECIDED.decisions[A]);
    assert map[A := Decision(A, PaymentStatus.Reserved, RESOLUTION_A, DEFAULT_MIN_AGE, DEFAULT_MIN_AGE)] - {A} == map[];
  }

  lemma ThenReclaimed()
    ensures var s := Next(REJECTED, LATE_UPDATE[5]);
            && Allowed(REJECTED, LATE_UPDATE[5])
            && s.current == map[A := B] && A != B
            && s.attempts == REJECTED.attempts[B := RESERVED_B]
  {
    assert A != B;
    assert CanReserveAttempt(REJECTED, A, A, true);
  }

  lemma UntilReclaimed()
    ensures After(LATE_UPDATE, 6) == Next(REJECTED, LATE_UPDATE[5])
    ensures forall i :: 0 <= i < 7 ==> Allowed(After(LATE_UPDATE, i), LATE_UPDATE[i])
  {
    hide Next, After;
    UntilDecided();
    ThenRejected();
    ThenReclaimed();
    Continues(LATE_UPDATE, 4);
    Continues(LATE_UPDATE, 5);
    assert LATE_UPDATE[4] == Resolve(A, true) && LATE_UPDATE[6] == UpdateAttempt(A, SETTLED_BY_A);
    assert Allowed(DECIDED, LATE_UPDATE[4]) && Allowed(After(LATE_UPDATE, 6), LATE_UPDATE[6]);
  }

  /**
   * The update of the process behind attempt `A` settles the attempt of request
   * `B`, under the transaction hash of `A`.
   */
  lemma LateUpdateHitsReclaimedKey()
    ensures Run(LATE_UPDATE)
    ensures var s, s' := After(LATE_UPDATE, 6), After(LATE_UPDATE, 7);
            && A in s.attempts && s.attempts[A].status.Rejected? && s.attempts[A].request == A
            && LATE_UPDATE[6].sender == A && Reclaimed(LATE_UPDATE, 6, A) && ChangesForeign(s, s', A)
            && B in s.attempts && s.attempts[B].request == B && s.attempts[B].status.Reserved?
            && B in s'.attempts && s'.attempts[B].status.Settled? && s'.attempts[B].evidence.reference == Some(A)
  {
    hide Next, After, Allowed, Reclaimed, ChangesForeign;
    UntilReclaimed();
    ThenReclaimed();
    Continues(LATE_UPDATE, 6);
    var six := After(LATE_UPDATE, 6);
    assert LATE_UPDATE[6] == UpdateAttempt(A, SETTLED_BY_A);
    NextUpdates(six, A, SETTLED_BY_A);
    UpdateLandsExactly(LATE_UPDATE, 6);
    assert six.attempts[A] == REJECTED.attempts[A];
    assert ChangesForeign(six, After(LATE_UPDATE, 7), A) by { SettlesB(six, SETTLED_BY_A); }
    SettlesB(six, SETTLED_BY_A);
  }

  /** The attempt of `B` holds the key; any update by `A` is written to it. */
  lemma SettlesB(s: State, change: Change)
    requires A in s.attempts && B in s.attempts && A != B
    requires s.current == map[A := B] && s.attempts[A].key == A && s.attempts[A].request == A
    requires s.attempts[B].request == B && s.attempts[B].resolution.None?
    ensures Update(s, A, change) == s.(attempts := s.attempts[B := change.On(s.attempts[B])])
    ensures change.On(s.attempts[B]) != s.attempts[B] ==> ChangesForeign(s, Update(s, A, change), A)
  {
    assert Update(s, A, change).attempts[B] == change.On(s.attempts[B]);
  }

  /** The same, but `B` has settled its own payment before the update of `A` arrives. */
  const OVERWRITTEN: seq<Step> := LATE_UPDATE[..6] + [UpdateAttempt(B, SETTLED_BY_B), UpdateAttempt(A, SETTLED_BY_A)]

  lemma {:induction false} AfterPrefix(a: seq<Step>, b: seq<Step>, n: nat)
    requires n <= |a| && a <= b
    ensures After(b, n) == After(a, n)
  {
    hide Next;
    if n > 0 { AfterPrefix(a, b, n - 1); }
  }

  /** In one and the same status the hash of `B`'s payment gives way to that of `A`. */
  lemma LateUpdateOverwritesReference()
    ensures Run(OVERWRITTEN)
    ensures var s, s' := After(OVERWRITTEN, 7), After(OVERWRITTEN, 8);
            && Reclaimed(OVERWRITTEN, 7, A) && A in s.attempts && ChangesForeign(s, s', A)
            && B in s.attempts && s.attempts[B].status.Settled? && s.attempts[B].evidence.reference == Some(B)
            && B in s'.attempts && s'.attempts[B].status.Settled? && s'.attempts[B].evidence.reference == Some(A)
  {
    hide Next, After, Allowed, Reclaimed, ChangesForeign, Run, SoundStore, SoundWriters, SoundProcesses;
    OverwrittenRuns();
    ThenReclaimed();
    UntilReclaimed();
    var six, seven := After(OVERWRITTEN, 6), After(OVERWRITTEN, 7);
    Continues(OVERWRITTEN, 6);
    Continues(OVERWRITTEN, 7);
    NextUpdates(six, B, SETTLED_BY_B);
    OwnUpdate(six);
    NextUpdates(seven, A, SETTLED_BY_A);
    assert six.attempts[A] == REJECTED.attempts[A];
    SettlesB(seven, SETTLED_BY_A);
    UpdateLandsExactly(OVERWRITTEN, 7);
  }

  lemma OwnUpdate(s: State)
    requires B in s.attempts && s.current == map[A := B] && s.attempts[B] == RESERVED_B
    ensures Update(s, B, SETTLED_BY_B) == s.(attempts := s.attempts[B := SETTLED_BY_B.On(RESERVED_B)])
  {
  }

  lemma OverwrittenRuns()
    ensures Run(OVERWRITTEN) && After(OVERWRITTEN, 6) == Next(REJECTED, LATE_UPDATE[5])
    ensures OVERWRITTEN[6] == UpdateAttempt(B, SETTLED_BY_B) && OVERWRITTEN[7] == UpdateAttempt(A, SETTLED_BY_A)
  {
    hide Next, After, Allowed;
    UntilReclaimed();
    var six := LATE_UPDATE[..6];
    forall i | 0 <= i < |OVERWRITTEN| ensures Allowed(After(OVERWRITTEN, i), OVERWRITTEN[i]) {
      if i < 6 {
        AfterPrefix(six, LATE_UPDATE, i);
        AfterPrefix(six, OVERWRITTEN, i);
        assert OVERWRITTEN[i] == LATE_UPDATE[i];
      } else {
        AnyUpdateIsAllowed(After(OVERWRITTEN, i), OVERWRITTEN[i]);
      }
    }
    AfterPrefix(six, LATE_UPDATE, 6);
    AfterPrefix(six, OVERWRITTEN, 6);
  }

  lemma AnyUpdateIsAllowed(s: State, step: Step)
    requires step.UpdateAttempt?
    ensures Allowed(s, step)
  {
  }
}
