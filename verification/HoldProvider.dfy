/** What a normal return from the authorization provider means. */
module HoldProvider {
  import opened Options
  import opened HoldTable
  import TransactionState

  datatype Action = Consume | Release | MarkUncertain

  function Target(action: Action): HoldState {
    match action
    case Consume => Consumed
    case Release => Released
    case MarkUncertain => Uncertain
  }

  /** `holdTarget`: the state a resolved payment wants of a hold that is still open. */
  function HoldTarget(held: bool, hold: HoldState, status: TransactionState.PaymentStatus): Option<HoldState> {
    if !held || !hold.Open() then None
    else if status.Settled? then Some(Consumed)
    else if status.Rejected? then Some(Released)
    else None
  }

  /** A call may fail before it takes effect, or after. */
  datatype CallFault = NoFault | CallThrows | AnswerLost

  datatype Outcome = Done | Unavailable | AlreadyHeld(state: HoldState)

  class Provider {
    const store: Store

    constructor (store: Store)
      ensures this.store == store
    {
      this.store := store;
    }

    /** The reserving part of `verifyAndReserve`, for a verified mandate. */
    method VerifyAndReserve(reference: Id, checkout: Id, request: Id, fault: CallFault) returns (r: Outcome)
      modifies store`rows
      ensures store.rows ==
              if fault.CallThrows? then old(store.rows)
              else Reserve(store.rebinds, old(store.rows), reference, checkout, request)
      ensures r.Done? <==> fault.NoFault? && CanReserve(old(store.rows), reference, checkout)
      ensures r.Done? ==>
                && reference in store.rows
                && store.rows[reference].state.Reserved? && store.rows[reference].request == request
      ensures r.AlreadyHeld? ==> store.rows == old(store.rows) && !r.state.Released?
    {
      if fault.CallThrows? { return Unavailable; }
      var answer := store.ReserveTx(reference, checkout, request);
      if fault.AnswerLost? { return Unavailable; }
      if answer.Replayed? { return AlreadyHeld(answer.state); }
      return Done;
    }

    /** `finalize`: only an explicit refusal or a failed write throws. */
    method Finalize(action: Action, reference: Id, request: Id, fault: CallFault) returns (r: Outcome)
      modifies store`rows
      ensures store.rows ==
              if fault.CallThrows? then old(store.rows)
              else Move(old(store.rows), reference, Target(action), Some(request))
      ensures r.Done? <==> fault.NoFault? && Applied(old(store.rows), reference, Target(action), Some(request))
      ensures r.Done? ==> Confirmed(store.rows, reference, Target(action), request)
      ensures !r.AlreadyHeld?
    {
      if fault.CallThrows? { return Unavailable; }
      var applied := store.MoveTo(reference, Target(action), Some(request));
      if fault.AnswerLost? { return Unavailable; }
      if !applied { return Unavailable; }
      ReturnMeansConfirmed(old(store.rows), reference, Target(action), request);
      return Done;
    }
  }

  /** The row is in the requested state for this request, or was released to someone else. */
  predicate Confirmed(rows: Rows, reference: Id, to: HoldState, request: Id) {
    && reference in rows
    && if to.Released? then rows[reference].request != request || rows[reference].state.Released?
       else rows[reference].request == request && rows[reference].state == to
  }

  /** An applied transition leaves the confirmed state, and repeating it changes nothing more. */
  lemma ReturnMeansConfirmed(rows: Rows, reference: Id, to: HoldState, request: Id)
    requires !to.Reserved?
    ensures var after := Move(rows, reference, to, Some(request));
            && (Applied(rows, reference, to, Some(request)) <==> Confirmed(after, reference, to, request))
            && (Confirmed(after, reference, to, request) ==>
                 && Applied(after, reference, to, Some(request))
                 && Move(after, reference, to, Some(request)) == after)
  {
  }
}
