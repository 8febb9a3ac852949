/** The table of mandate reservations and its state machine. */
module HoldTable {
  import opened Text
  import opened Options

  type Id = Text

  datatype HoldState = Reserved | Uncertain | Consumed | Released {
    predicate Open() {
      Reserved? || Uncertain?
    }
  }

  datatype Row = Row(checkout: Id, request: Id, state: HoldState)

  type Rows = map<Id, Row>

  datatype Answer = Granted | Replayed(state: HoldState) | Told(applied: bool)

  // ---- reserve ----

  /** Another reference with this checkout that is not released. */
  predicate LiveElsewhere(rows: Rows, reference: Id, checkout: Id) {
    exists r :: r in rows && r != reference && rows[r].checkout == checkout && !rows[r].state.Released?
  }

  predicate CanReserve(rows: Rows, reference: Id, checkout: Id) {
    && (reference in rows ==> rows[reference].state.Released?)
    && !LiveElsewhere(rows, reference, checkout)
  }

  /**
   * Reserving a released row again: the receipt store binds it to the new
   * checkout (`rebinds`), the replay store keeps the checkout it had.
   */
  function Reserve(rebinds: bool, rows: Rows, reference: Id, checkout: Id, request: Id): Rows {
    if !CanReserve(rows, reference, checkout) then rows
    else if reference in rows && !rebinds then rows[reference := Row(rows[reference].checkout, request, Reserved)]
    else rows[reference := Row(checkout, request, Reserved)]
  }

  // ---- consume, release, markUncertain ----

  /** The update finds the row: it is open, and the request holds it if one is given. */
  predicate Moves(rows: Rows, reference: Id, request: Option<Id>) {
    && reference in rows && rows[reference].state.Open()
    && (request.None? || rows[reference].request == request.value)
  }

  function Move(rows: Rows, reference: Id, to: HoldState, request: Option<Id>): Rows {
    if Moves(rows, reference, request) then rows[reference := rows[reference].(state := to)] else rows
  }

  /** The answer: applied now or before; an old holder's release is acknowledged. */
  predicate Applied(rows: Rows, reference: Id, to: HoldState, request: Option<Id>) {
    || Moves(rows, reference, request)
    || (reference in rows &&
        if request.Some? && rows[reference].request != request.value then to.Released?
        else rows[reference].state == to)
  }

  /** The table a store keeps; each statement updates one row in place. */
  class Store {
    const rebinds: bool
    var rows: Rows

    constructor (rebinds: bool)
      ensures this.rebinds == rebinds && rows == map[]
    {
      this.rebinds := rebinds;
      rows := map[];
    }

    /** `reserveTx`. */
    method ReserveTx(reference: Id, checkout: Id, request: Id) returns (answer: Answer)
      modifies this`rows
      ensures rows == Reserve(rebinds, old(rows), reference, checkout, request)
      ensures answer.Granted? <==> CanReserve(old(rows), reference, checkout)
      ensures answer.Granted? ==>
                rows[reference].state.Reserved? && rows[reference].request == request
      ensures answer.Replayed? ==>
                if reference in rows && !rows[reference].state.Released? then answer.state == rows[reference].state
                else (exists r :: r in rows && r != reference && rows[r].checkout == checkout
                                  && !rows[r].state.Released? && rows[r].state == answer.state)
      ensures !answer.Told?
    {
      if reference in rows && !rows[reference].state.Released? {
        return Replayed(rows[reference].state);
      }
      if r :| r in rows && r != reference && rows[r].checkout == checkout && !rows[r].state.Released? {
        return Replayed(rows[r].state);
      }
      if reference in rows {
        var row := rows[reference];
        rows := rows[reference := Row(if rebinds then checkout else row.checkout, request, Reserved)];
      } else {
        rows := rows[reference := Row(checkout, request, Reserved)];
      }
      answer := Granted;
    }

    /** `move`: one guarded update, then a look at who holds the row. */
    method MoveTo(reference: Id, to: HoldState, request: Option<Id>) returns (applied: bool)
      modifies this`rows
      ensures rows == Move(old(rows), reference, to, request)
      ensures applied == Applied(old(rows), reference, to, request)
    {
      var changes := 0;
      if reference in rows && rows[reference].state.Open()
         && (request.None? || rows[reference].request == request.value) {
        rows := rows[reference := rows[reference].(state := to)];
        changes := 1;
      }
      if changes > 0 { return true; }
      if reference !in rows { return false; }
      var row := rows[reference];
      if request.Some? && row.request != request.value { return to.Released?; }
      return row.state == to;
    }
  }

  // ---- Runs ----

  datatype Op =
    | Claim(reference: Id, checkout: Id, request: Id)
    | Finish(reference: Id, to: HoldState, holder: Option<Id>)

  function Next(rebinds: bool, rows: Rows, op: Op): Rows {
    match op
    case Claim(reference, checkout, request) => Reserve(rebinds, rows, reference, checkout, request)
    case Finish(reference, to, holder) => if to.Reserved? then rows else Move(rows, reference, to, holder)
  }

  /** The table after the first `n` calls. */
  function After(rebinds: bool, ops: seq<Op>, n: nat): Rows
    requires n <= |ops|
  {
    if n == 0 then map[] else Next(rebinds, After(rebinds, ops, n - 1), ops[n - 1])
  }

  /** Call `i` was a consume that `request` was told applied. */
  ghost predicate ToldConsumed(rebinds: bool, ops: seq<Op>, i: nat, reference: Id, request: Id) {
    && i < |ops|
    && ops[i] == Finish(reference, Consumed, Some(request))
    && Applied(After(rebinds, ops, i), reference, Consumed, Some(request))
  }

  /** A consumed row never changes again. */
  lemma {:induction false} ConsumedIsForever(rebinds: bool, ops: seq<Op>, i: nat, j: nat, reference: Id)
    requires i <= j <= |ops|
    requires reference in After(rebinds, ops, i) && After(rebinds, ops, i)[reference].state.Consumed?
    ensures reference in After(rebinds, ops, j)
    ensures After(rebinds, ops, j)[reference] == After(rebinds, ops, i)[reference]
    decreases j
  {
    if i < j { ConsumedIsForever(rebinds, ops, i, j - 1, reference); }
  }

  /** At most one request is ever told that its consume of a reference applied. */
  lemma OneConsumer(rebinds: bool, ops: seq<Op>, i: nat, j: nat, reference: Id, a: Id, b: Id)
    requires ToldConsumed(rebinds, ops, i, reference, a) && ToldConsumed(rebinds, ops, j, reference, b)
    ensures a == b
  {
    var first, last := if i <= j then i else j, if i <= j then j else i;
    ConsumedAfter(rebinds, ops, first, reference, if i <= j then a else b);
    if first < last {
      ConsumedIsForever(rebinds, ops, first + 1, last, reference);
    }
    ConsumedAfter(rebinds, ops, last, reference, if i <= j then b else a);
    ConsumedIsForever(rebinds, ops, first + 1, last + 1, reference);
  }

  lemma ConsumedAfter(rebinds: bool, ops: seq<Op>, i: nat, reference: Id, request: Id)
    requires ToldConsumed(rebinds, ops, i, reference, request)
    ensures var rows := After(rebinds, ops, i + 1);
            reference in rows && rows[reference].state.Consumed? && rows[reference].request == request
  {
  }

  // ---- One live reservation per checkout ----

  ghost predicate OneLivePerCheckout(rows: Rows) {
    forall a, b :: a in rows && b in rows && a != b && rows[a].checkout == rows[b].checkout ==>
      rows[a].state.Released? || rows[b].state.Released?
  }

  /** A granted claim revives a row whose old checkout someone else holds by now. */
  ghost predicate RevivesTakenCheckout(rebinds: bool, rows: Rows, op: Op) {
    && op.Claim? && !rebinds
    && CanReserve(rows, op.reference, op.checkout)
    && op.reference in rows
    && LiveElsewhere(rows, op.reference, rows[op.reference].checkout)
  }

  /** Exactly what breaks the rule: nothing else does. */
  lemma StepKeepsOneLive(rebinds: bool, rows: Rows, op: Op)
    requires OneLivePerCheckout(rows)
    ensures OneLivePerCheckout(Next(rebinds, rows, op)) <==> !RevivesTakenCheckout(rebinds, rows, op)
  {
    var after := Next(rebinds, rows, op);
    if RevivesTakenCheckout(rebinds, rows, op) {
      var r :| r in rows && r != op.reference && rows[r].checkout == rows[op.reference].checkout
        && !rows[r].state.Released?;
      assert after[r] == rows[r];
      assert after[op.reference].checkout == after[r].checkout;
    }
  }

  /** The mandate verifier's promise: a reference determines its checkout. */
  ghost predicate ReferenceFixesCheckout(ops: seq<Op>) {
    forall i, j ::
      (0 <= i < |ops| && 0 <= j < |ops| && ops[i].Claim? && ops[j].Claim? && ops[i].reference == ops[j].reference) ==>
        ops[i].checkout == ops[j].checkout
  }

  /** Every stored checkout was claimed with its reference. */
  ghost predicate Claimed(ops: seq<Op>, n: nat, rows: Rows)
    requires n <= |ops|
  {
    forall r :: r in rows ==> exists i :: 0 <= i < n && ops[i].Claim? && ops[i].reference == r && ops[i].checkout == rows[r].checkout
  }

  lemma {:induction false} RowsWereClaimed(rebinds: bool, ops: seq<Op>, n: nat)
    requires n <= |ops|
    ensures Claimed(ops, n, After(rebinds, ops, n))
  {
    if n > 0 {
      RowsWereClaimed(rebinds, ops, n - 1);
      var before, after := After(rebinds, ops, n - 1), After(rebinds, ops, n);
      forall r | r in after
        ensures exists i :: 0 <= i < n && ops[i].Claim? && ops[i].reference == r && ops[i].checkout == after[r].checkout
      {
        if r in before && after[r].checkout == before[r].checkout {
          var i :| 0 <= i < n - 1 && ops[i].Claim? && ops[i].reference == r && ops[i].checkout == before[r].checkout;
        } else {
          assert ops[n - 1].Claim? && ops[n - 1].reference == r && ops[n - 1].checkout == after[r].checkout;
        }
      }
    }
  }

  /** Over every run, no two live rows share a checkout, so it is spent at most once. */
  lemma {:induction false} OneLiveReservation(rebinds: bool, ops: seq<Op>, n: nat)
    requires n <= |ops|
    requires rebinds || ReferenceFixesCheckout(ops)
    ensures OneLivePerCheckout(After(rebinds, ops, n))
  {
    if n > 0 {
      OneLiveReservation(rebinds, ops, n - 1);
      var rows, op := After(rebinds, ops, n - 1), ops[n - 1];
      StepKeepsOneLive(rebinds, rows, op);
      RowsWereClaimed(rebinds, ops, n - 1);
      if !rebinds { StoredCheckoutIsCurrent(ops, n - 1, rows); }
    }
  }

  lemma StoredCheckoutIsCurrent(ops: seq<Op>, n: nat, rows: Rows)
    requires n < |ops| && Claimed(ops, n, rows) && ReferenceFixesCheckout(ops)
    ensures ops[n].Claim? && ops[n].reference in rows ==> rows[ops[n].reference].checkout == ops[n].checkout
  {
  }

  /** At most one mandate per checkout is ever consumed. */
  lemma CheckoutSpentOnce(rebinds: bool, ops: seq<Op>, i: nat, j: nat, a: Id, b: Id)
    requires i <= |ops| && j <= |ops| && (rebinds || ReferenceFixesCheckout(ops))
    requires a in After(rebinds, ops, i) && b in After(rebinds, ops, j)
    requires var x, y := After(rebinds, ops, i)[a], After(rebinds, ops, j)[b];
             x.state.Consumed? && y.state.Consumed? && x.checkout == y.checkout
    ensures a == b
  {
    ConsumedIsForever(rebinds, ops, i, |ops|, a);
    ConsumedIsForever(rebinds, ops, j, |ops|, b);
    OneLiveReservation(rebinds, ops, |ops|);
  }

  const A: Id := [0x61]
  const B: Id := [0x62]

  /**
   * Without the verifier's promise the replay store lets one checkout be spent
   * twice: mandate A is released, B takes its checkout, and A comes back under
   * another checkout while its row still names the first.
   */
  const STALE_CHECKOUT: seq<Op> := [
    Claim(A, A, A), Finish(A, Released, Some(A)), Claim(B, A, B), Claim(A, B, B),
    Finish(A, Consumed, Some(B)), Finish(B, Consumed, Some(B))
  ]

  lemma StaleCheckoutSpendsTwice()
    ensures var rows := After(false, STALE_CHECKOUT, 6);
            && A in rows && B in rows && A != B
            && rows[A].checkout == rows[B].checkout
            && rows[A].state.Consumed? && rows[B].state.Consumed?
    ensures OneLivePerCheckout(After(true, STALE_CHECKOUT, 6))
  {
    assert A != B;
    assert After(false, STALE_CHECKOUT, 1) == map[A := Row(A, A, Reserved)];
    assert After(false, STALE_CHECKOUT, 2) == map[A := Row(A, A, Released)];
    assert After(false, STALE_CHECKOUT, 3) == map[A := Row(A, A, Released), B := Row(A, B, Reserved)];
    assert After(false, STALE_CHECKOUT, 4) == map[A := Row(A, B, Reserved), B := Row(A, B, Reserved)];
    assert After(false, STALE_CHECKOUT, 5) == map[A := Row(A, B, Consumed), B := Row(A, B, Reserved)];
    OneLiveReservation(true, STALE_CHECKOUT, 6);
  }
}
