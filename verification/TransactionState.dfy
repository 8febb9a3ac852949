/** The state derived from a transaction's payment, backend call and completion. */
module TransactionState {
  import opened Options

  /** Milliseconds; `None` where a timestamp does not parse. */
  type Time = Option<int>

  datatype PaymentStatus = Reserved | Settled | Rejected | SettlementUncertain | Failed

  datatype Backend = Backend(deadline: Time, status: Option<nat>)

  datatype Facts = Facts(payment: PaymentStatus, backend: Option<Backend>, completed: bool)

  datatype DerivedState =
    | PaymentPending | PaymentFailed | PaymentUncertain
    | SettledUndelivered | DeliveryStarted | DeliveryUnknown | Delivered

  predicate IsSuccess(status: nat) {
    200 <= status <= 299
  }

  /** A timestamp that does not parse compares false. */
  predicate Earlier(a: Time, b: Time) {
    a.Some? && b.Some? && a.value < b.value
  }

  predicate Waiting(facts: Facts, now: Time) {
    facts.backend.Some? && !facts.completed && Earlier(now, facts.backend.value.deadline)
  }

  /** `transactionState`. */
  function Derive(facts: Facts, now: Time): DerivedState {
    if facts.payment.SettlementUncertain? || facts.payment.Failed? then PaymentUncertain
    else if facts.payment.Rejected? then PaymentFailed
    else if !facts.payment.Settled? then
      if Waiting(facts, now) && facts.backend.value.status.None? then DeliveryStarted else PaymentPending
    else if facts.backend.None? then SettledUndelivered
    else
      var status := facts.backend.value.status;
      if status.Some? && status.value != 0 && !IsSuccess(status.value) then SettledUndelivered
      else if status.Some? && IsSuccess(status.value) && facts.completed then Delivered
      else if status != Some(0) && Waiting(facts, now) then DeliveryStarted
      else DeliveryUnknown
  }

  predicate Unresolved(p: PaymentStatus) {
    p.Reserved? || p.SettlementUncertain? || p.Failed?
  }

  predicate OldEnough(createdAt: Time, asOf: int, minAge: int) {
    createdAt.Some? && asOf - createdAt.value >= minAge
  }

  /** What a reconcile run may resolve. */
  predicate Resolvable(status: PaymentStatus, resolved: bool, createdAt: Time, asOf: int, minAge: int) {
    !resolved && Unresolved(status) && (status.Reserved? ==> OldEnough(createdAt, asOf, minAge))
  }

  /** The states the candidate scan lists, in its order. */
  const SCANNED := [PaymentUncertain, PaymentPending, DeliveryStarted]

  /** An unresolved payment derives a scanned state at every time; so does only a settled one in delivery. */
  lemma ScannedStates(facts: Facts, now: Time)
    ensures Derive(facts, now) in SCANNED <==>
            Unresolved(facts.payment) || (facts.payment.Settled? && Derive(facts, now).DeliveryStarted?)
  {
  }

  /** Rows whose derived state can change without a write. */
  predicate TimeDependent(facts: Facts) {
    facts.backend.Some? && !facts.completed
  }

  /** A row selected by cached state or time dependence is every row in that state now. */
  lemma PrefilterLosesNothing(facts: Facts, cachedAt: Time, now: Time, wanted: DerivedState)
    ensures Derive(facts, now) == wanted ==> Derive(facts, cachedAt) == wanted || TimeDependent(facts)
  {
  }

  /**
   * Time only ends waiting: a delivery that stopped waiting never starts again,
   * and its outcome is then unknown, or its payment pending, but never
   * delivered or undelivered.
   */
  lemma WaitingEnds(facts: Facts, earlier: int, later: int)
    requires earlier <= later
    ensures Derive(facts, Some(later)).DeliveryStarted? ==> Derive(facts, Some(earlier)).DeliveryStarted?
    ensures Derive(facts, Some(earlier)) != Derive(facts, Some(later)) ==>
              && Derive(facts, Some(earlier)).DeliveryStarted?
              && Derive(facts, Some(later)) == (if facts.payment.Settled? then DeliveryUnknown else PaymentPending)
              && facts.backend.Some? && facts.backend.value.deadline.Some?
              && earlier < facts.backend.value.deadline.value <= later
  {
  }

  /**
   * Three scans at times `t0 <= t1 <= t2` miss an unresolved payment exactly
   * when its backend deadline passes between the second and the third.
   */
  lemma ScanMissesOnlyAcrossDeadline(facts: Facts, t0: int, t1: int, t2: int)
    requires t0 <= t1 <= t2 && Unresolved(facts.payment)
    ensures (Derive(facts, Some(t0)) != PaymentUncertain
             && Derive(facts, Some(t1)) != PaymentPending
             && Derive(facts, Some(t2)) != DeliveryStarted) <==>
            && facts.payment.Reserved?
            && Waiting(facts, Some(t1)) && facts.backend.value.status.None?
            && !Waiting(facts, Some(t2))
  {
  }
}
