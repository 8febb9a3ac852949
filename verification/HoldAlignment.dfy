/** Bringing pending holds in line with resolved payments: passes, crashes and convergence. */
module HoldAlignment {
  import opened Options
  import opened TransactionState
  import opened H = HoldTable
  import opened Pages
  import HoldProvider

  /** A transaction as the journal lists it, newest first by `number`. */
  datatype Journaled = Journaled(
    number: nat, id: Id, request: Id, reference: Option<Id>, provider: Id, status: PaymentStatus, hold: HoldState)

  datatype Books = Books(rows: Rows, txns: seq<Journaled>)

  predicate Pending(t: Journaled) {
    t.reference.Some? && t.hold.Open()
  }

  function HoldTarget(t: Journaled): Option<HoldState> {
    HoldProvider.HoldTarget(t.reference.Some?, t.hold, t.status)
  }

  /** The hold update to make, if the provider is enabled. */
  predicate Due(t: Journaled, enabled: set<Id>) {
    HoldTarget(t).Some? && t.provider in enabled
  }

  predicate Accepts(rows: Rows, t: Journaled, enabled: set<Id>) {
    Due(t, enabled) && Applied(rows, t.reference.value, HoldTarget(t).value, Some(t.request))
  }

  /** Each request holds a reference through one transaction. */
  ghost predicate DistinctHolders(b: Books) {
    forall i, j :: 0 <= i < j < |b.txns| && b.txns[i].reference.Some? && b.txns[i].reference == b.txns[j].reference ==>
      b.txns[i].request != b.txns[j].request
  }

  ghost predicate InOrder(b: Books) {
    NewestFirst(b.txns, NumberOf)
  }

  // ---- One update, with what can go wrong ----

  datatype Fault = NoFault | CallThrows | AnswerLost | JournalFails

  /** `alignHold` on transaction `i`. */
  function Align(b: Books, i: nat, fault: Fault, enabled: set<Id>): Books
    requires i < |b.txns|
  {
    var t := b.txns[i];
    if !Due(t, enabled) || fault.CallThrows? then b
    else
      var to := HoldTarget(t).value;
      Books(Move(b.rows, t.reference.value, to, Some(t.request)),
            if Accepts(b.rows, t, enabled) && fault.NoFault? then b.txns[i := t.(hold := to)] else b.txns)
  }

  // ---- Where every pass is heading ----

  /** Transaction `i` is due and the provider's row for `reference` is its own and open. */
  ghost predicate MovesRow(b: Books, enabled: set<Id>, i: nat, reference: Id) {
    && i < |b.txns| && Due(b.txns[i], enabled)
    && b.txns[i].reference.value == reference
    && Moves(b.rows, reference, Some(b.txns[i].request))
  }

  ghost function AlignedRow(b: Books, enabled: set<Id>, reference: Id): Row
    requires reference in b.rows
  {
    if i: nat :| MovesRow(b, enabled, i, reference) then b.rows[reference].(state := HoldTarget(b.txns[i]).value)
    else b.rows[reference]
  }

  function AlignedTxn(rows: Rows, t: Journaled, enabled: set<Id>): Journaled {
    if Accepts(rows, t, enabled) then t.(hold := HoldTarget(t).value) else t
  }

  ghost function Aligned(b: Books, enabled: set<Id>): Books {
    Books(map r | r in b.rows :: AlignedRow(b, enabled, r),
          seq(|b.txns|, i requires 0 <= i < |b.txns| => AlignedTxn(b.rows, b.txns[i], enabled)))
  }

  /** Only one transaction can move a row. */
  lemma MoverIsUnique(b: Books, enabled: set<Id>, i: nat, j: nat, reference: Id)
    requires DistinctHolders(b) && MovesRow(b, enabled, i, reference) && MovesRow(b, enabled, j, reference)
    ensures i == j
  {
  }

  lemma AlignedRowIs(b: Books, enabled: set<Id>, reference: Id, i: nat)
    requires DistinctHolders(b) && reference in b.rows && MovesRow(b, enabled, i, reference)
    ensures AlignedRow(b, enabled, reference) == b.rows[reference].(state := HoldTarget(b.txns[i]).value)
  {
    forall j: nat | MovesRow(b, enabled, j, reference) ensures j == i { MoverIsUnique(b, enabled, i, j, reference); }
  }

  lemma UnmovedRow(b: Books, enabled: set<Id>, reference: Id)
    requires reference in b.rows && forall i: nat :: !MovesRow(b, enabled, i, reference)
    ensures AlignedRow(b, enabled, reference) == b.rows[reference]
  {
  }

  lemma AlignKeepsBooks(b: Books, i: nat, fault: Fault, enabled: set<Id>)
    requires i < |b.txns|
    ensures var b' := Align(b, i, fault, enabled);
            && |b'.txns| == |b.txns|
            && b'.rows.Keys == b.rows.Keys
            && (forall j :: 0 <= j < |b.txns| && j != i ==> b'.txns[j] == b.txns[j])
            && b'.txns[i] == b.txns[i].(hold := b'.txns[i].hold)
            && (DistinctHolders(b) ==> DistinctHolders(b'))
            && (InOrder(b) ==> InOrder(b'))
  {
    hide Applied;
  }

  /** Another transaction's update does not change what the provider would answer this one. */
  lemma OthersKeepAnswer(b: Books, i: nat, j: nat, fault: Fault, enabled: set<Id>)
    requires DistinctHolders(b) && i < |b.txns| && j < |b.txns| && i != j
    ensures var b' := Align(b, i, fault, enabled);
            && (Accepts(b'.rows, b.txns[j], enabled) <==> Accepts(b.rows, b.txns[j], enabled))
            && (forall r :: MovesRow(b', enabled, j, r) <==> MovesRow(b, enabled, j, r))
  {
    AlignKeepsBooks(b, i, fault, enabled);
  }

  /** After its own update a transaction has nothing more to move, and the same answer. */
  lemma OwnUpdateIsDone(b: Books, i: nat, fault: Fault, enabled: set<Id>)
    requires i < |b.txns| && !fault.CallThrows?
    ensures var b' := Align(b, i, fault, enabled);
            && (forall r :: !MovesRow(b', enabled, i, r))
            && AlignedTxn(b'.rows, b'.txns[i], enabled) == AlignedTxn(b.rows, b.txns[i], enabled)
            && (fault.NoFault? ==> AlignedTxn(b'.rows, b'.txns[i], enabled) == b'.txns[i])
  {
  }

  lemma AlignKeepsTxns(b: Books, i: nat, fault: Fault, enabled: set<Id>)
    requires DistinctHolders(b) && i < |b.txns|
    ensures Aligned(Align(b, i, fault, enabled), enabled).txns == Aligned(b, enabled).txns
  {
    hide AlignedTxn, Accepts, Align;
    var b' := Align(b, i, fault, enabled);
    AlignKeepsBooks(b, i, fault, enabled);
    forall j | 0 <= j < |b.txns|
      ensures AlignedTxn(b'.rows, b'.txns[j], enabled) == AlignedTxn(b.rows, b.txns[j], enabled)
    {
      if j != i {
        OthersKeepAnswer(b, i, j, fault, enabled);
        SameAnswer(b.rows, b'.rows, b.txns[j], enabled);
      } else if fault.CallThrows? {
        ThrowChangesNothing(b, i, enabled);
      } else {
        OwnUpdateIsDone(b, i, fault, enabled);
      }
    }
  }

  lemma SameAnswer(rows: Rows, rows': Rows, t: Journaled, enabled: set<Id>)
    requires Accepts(rows, t, enabled) <==> Accepts(rows', t, enabled)
    ensures AlignedTxn(rows, t, enabled) == AlignedTxn(rows', t, enabled)
  {
  }

  lemma ThrowChangesNothing(b: Books, i: nat, enabled: set<Id>)
    requires i < |b.txns|
    ensures Align(b, i, CallThrows, enabled) == b
  {
  }

  lemma AlignMovesOneRow(b: Books, i: nat, fault: Fault, enabled: set<Id>, r: Id)
    requires i < |b.txns| && r in b.rows && !fault.CallThrows?
    ensures Align(b, i, fault, enabled).rows.Keys == b.rows.Keys
    ensures Align(b, i, fault, enabled).rows[r] ==
            if MovesRow(b, enabled, i, r) then b.rows[r].(state := HoldTarget(b.txns[i]).value) else b.rows[r]
  {
  }

  lemma AlignKeepsRow(b: Books, i: nat, fault: Fault, enabled: set<Id>, r: Id)
    requires DistinctHolders(b) && i < |b.txns| && r in b.rows && !fault.CallThrows?
    ensures r in Align(b, i, fault, enabled).rows
    ensures AlignedRow(Align(b, i, fault, enabled), enabled, r) == AlignedRow(b, enabled, r)
  {
    hide Align, MovesRow, AlignedRow;
    var b' := Align(b, i, fault, enabled);
    AlignMovesOneRow(b, i, fault, enabled, r);
    AlignKeepsBooks(b, i, fault, enabled);
    OwnUpdateIsDone(b, i, fault, enabled);
    forall j: nat | j != i ensures MovesRow(b', enabled, j, r) <==> MovesRow(b, enabled, j, r) {
      if j < |b.txns| { OthersKeepAnswer(b, i, j, fault, enabled); } else { OutOfRange(b, b', enabled, j, r); }
    }
    if MovesRow(b, enabled, i, r) {
      AlignedRowIs(b, enabled, r, i);
      forall j: nat ensures !MovesRow(b', enabled, j, r) {
        if j != i && MovesRow(b, enabled, j, r) { MoverIsUnique(b, enabled, i, j, r); }
      }
      UnmovedRow(b', enabled, r);
    } else if j: nat :| MovesRow(b, enabled, j, r) {
      AlignedRowIs(b, enabled, r, j);
      AlignedRowIs(b', enabled, r, j);
      InRange(b, enabled, j, r);
    } else {
      UnmovedRow(b, enabled, r);
      UnmovedRow(b', enabled, r);
    }
  }

  lemma OutOfRange(b: Books, b': Books, enabled: set<Id>, j: nat, r: Id)
    requires |b'.txns| == |b.txns| <= j
    ensures !MovesRow(b, enabled, j, r) && !MovesRow(b', enabled, j, r)
  {
  }

  lemma InRange(b: Books, enabled: set<Id>, j: nat, r: Id)
    requires MovesRow(b, enabled, j, r)
    ensures j < |b.txns|
  {
  }

  /** No update, whatever goes wrong with it, changes where passes are heading. */
  lemma AlignKeepsHeading(b: Books, i: nat, fault: Fault, enabled: set<Id>)
    requires DistinctHolders(b) && i < |b.txns|
    ensures Aligned(Align(b, i, fault, enabled), enabled) == Aligned(b, enabled)
  {
    hide Align, AlignedRow, AlignedTxn;
    if fault.CallThrows? {
      ThrowChangesNothing(b, i, enabled);
    } else {
      var b' := Align(b, i, fault, enabled);
      AlignKeepsTxns(b, i, fault, enabled);
      AlignKeepsBooks(b, i, fault, enabled);
      forall r | r in b.rows ensures r in b'.rows && AlignedRow(b', enabled, r) == AlignedRow(b, enabled, r) {
        AlignKeepsRow(b, i, fault, enabled, r);
      }
    }
  }

  // ---- Histories of passes ----

  datatype Update = Update(txn: nat, fault: Fault)

  function RunUpdates(b: Books, history: seq<Update>, enabled: set<Id>): Books
    decreases |history|
  {
    if history == [] then b
    else if history[0].txn < |b.txns| then RunUpdates(Align(b, history[0].txn, history[0].fault, enabled), history[1..], enabled)
    else RunUpdates(b, history[1..], enabled)
  }

  /**
   * Failed, crashed and partial passes, in any order, leave the end state
   * unchanged: a successful pass after them reaches the one it would have
   * reached at once.
   */
  lemma {:induction false} HistoriesConverge(b: Books, history: seq<Update>, enabled: set<Id>)
    requires DistinctHolders(b)
    ensures Aligned(RunUpdates(b, history, enabled), enabled) == Aligned(b, enabled)
    decreases |history|
  {
    hide Align, Aligned, DistinctHolders;
    if history != [] {
      var u := history[0];
      if u.txn < |b.txns| {
        AlignKeepsBooks(b, u.txn, u.fault, enabled);
        AlignKeepsHeading(b, u.txn, u.fault, enabled);
        HistoriesConverge(Align(b, u.txn, u.fault, enabled), history[1..], enabled);
      } else {
        HistoriesConverge(b, history[1..], enabled);
      }
    }
  }

  /** Nothing is left to do for transaction `i`. */
  ghost predicate Done(b: Books, i: nat, enabled: set<Id>)
    requires i < |b.txns|
  {
    && AlignedTxn(b.rows, b.txns[i], enabled) == b.txns[i]
    && forall r :: !MovesRow(b, enabled, i, r)
  }

  lemma AllDoneIsAligned(b: Books, enabled: set<Id>)
    requires forall i :: 0 <= i < |b.txns| ==> Done(b, i, enabled)
    ensures Aligned(b, enabled) == b
  {
    forall r | r in b.rows ensures AlignedRow(b, enabled, r) == b.rows[r] {
      forall i: nat ensures !MovesRow(b, enabled, i, r) {
        if i < |b.txns| { assert Done(b, i, enabled); }
      }
    }
    assert (map r | r in b.rows :: AlignedRow(b, enabled, r)) == b.rows;
    forall i | 0 <= i < |b.txns| ensures AlignedTxn(b.rows, b.txns[i], enabled) == b.txns[i] {
      assert Done(b, i, enabled);
    }
    assert Aligned(b, enabled).txns == b.txns;
  }

  lemma DoneStaysDone(b: Books, i: nat, j: nat, fault: Fault, enabled: set<Id>)
    requires DistinctHolders(b) && i < |b.txns| && j < |b.txns| && i != j && Done(b, j, enabled)
    ensures Done(Align(b, i, fault, enabled), j, enabled)
  {
    hide Align, MovesRow, AlignedTxn, Accepts;
    AlignKeepsBooks(b, i, fault, enabled);
    OthersKeepAnswer(b, i, j, fault, enabled);
    SameAnswer(b.rows, Align(b, i, fault, enabled).rows, b.txns[j], enabled);
  }

  lemma UpdatedIsDone(b: Books, i: nat, enabled: set<Id>)
    requires i < |b.txns|
    ensures Done(Align(b, i, NoFault, enabled), i, enabled)
  {
    hide MovesRow, AlignedTxn, Align;
    AlignKeepsBooks(b, i, NoFault, enabled);
    OwnUpdateIsDone(b, i, NoFault, enabled);
  }

  lemma NotDueIsDone(b: Books, i: nat, enabled: set<Id>)
    requires i < |b.txns| && HoldTarget(b.txns[i]).None?
    ensures Done(b, i, enabled)
  {
  }

  // ---- The paged pass ----

  function NumberOf(t: Journaled): nat {
    t.number
  }

  class Pass {
    var books: Books
    const enabled: set<Id>

    constructor (books: Books, enabled: set<Id>)
      ensures this.books == books && this.enabled == enabled
    {
      this.books := books;
      this.enabled := enabled;
    }

    /** One listed transaction: its update, unless this is a dry run. */
    method AlignListed(i: nat, dryRun: bool, fault: Fault)
      requires DistinctHolders(books) && InOrder(books) && i < |books.txns|
      modifies this`books
      ensures DistinctHolders(books) && InOrder(books) && |books.txns| == |old(books).txns|
      ensures Aligned(books, enabled) == Aligned(old(books), enabled)
      ensures dryRun || HoldTarget(old(books).txns[i]).None? ==> books == old(books)
      ensures forall j :: 0 <= j < |books.txns| ==> books.txns[j].number == old(books).txns[j].number
      ensures forall j :: 0 <= j < |books.txns| && j != i ==> books.txns[j] == old(books).txns[j]
      ensures forall j :: 0 <= j < |books.txns| && j != i && Done(old(books), j, enabled) ==> Done(books, j, enabled)
      ensures !dryRun && fault.NoFault? ==> Done(books, i, enabled)
    {
      hide Align, Aligned, Done, DistinctHolders, InOrder;
      var target := HoldTarget(books.txns[i]);
      if target.None? {
        NotDueIsDone(books, i, enabled);
      } else if !dryRun {
        AlignKeepsBooks(books, i, fault, enabled);
        AlignKeepsHeading(books, i, fault, enabled);
        forall j | 0 <= j < |books.txns| && j != i && Done(books, j, enabled)
          ensures Done(Align(books, i, fault, enabled), j, enabled)
        {
          DoneStaysDone(books, i, j, fault, enabled);
        }
        if fault.NoFault? { UpdatedIsDone(books, i, enabled); }
        books := Align(books, i, fault, enabled);
      }
    }

    /** The loop over one page; `stopped` when the limit was reached. */
    method AlignPage(page: seq<nat>, limit: Option<nat>, dryRun: bool, faults: Id -> Fault, before: seq<Id>)
        returns (entries: seq<Id>, stopped: bool)
      requires DistinctHolders(books) && InOrder(books)
      requires forall k :: 0 <= k < |page| ==> page[k] < |books.txns|
      requires limit.Some? ==> |before| <= limit.value
      modifies this`books
      ensures DistinctHolders(books) && InOrder(books) && |books.txns| == |old(books).txns|
      ensures Aligned(books, enabled) == Aligned(old(books), enabled)
      ensures dryRun ==> books == old(books)
      ensures limit.Some? ==> |entries| <= limit.value
      ensures limit.None? ==> !stopped
      ensures forall j :: 0 <= j < |books.txns| ==> books.txns[j].number == old(books).txns[j].number
      ensures forall j :: 0 <= j < |books.txns| && j !in page ==> books.txns[j] == old(books).txns[j]
      ensures forall j :: 0 <= j < |books.txns| && Done(old(books), j, enabled) && j !in page ==> Done(books, j, enabled)
      ensures !stopped && !dryRun && (forall t :: faults(t).NoFault?) ==>
                forall j :: 0 <= j < |books.txns| && j in page ==> Done(books, j, enabled)
    {
      hide Align, Aligned, Done, DistinctHolders, InOrder, HoldTarget;
      entries := before;
      stopped := false;
      ghost var clean := !dryRun && forall t :: faults(t).NoFault?;
      for k := 0 to |page|
        invariant DistinctHolders(books) && InOrder(books) && |books.txns| == |old(books).txns|
        invariant Aligned(books, enabled) == Aligned(old(books), enabled)
        invariant dryRun ==> books == old(books)
        invariant limit.Some? ==> |entries| <= limit.value
        invariant forall j :: 0 <= j < |books.txns| ==> books.txns[j].number == old(books).txns[j].number
        invariant forall j :: 0 <= j < |books.txns| && j !in page ==> books.txns[j] == old(books).txns[j]
        invariant forall j :: 0 <= j < |books.txns| && Done(old(books), j, enabled) && j !in page ==> Done(books, j, enabled)
        invariant clean ==> forall l :: 0 <= l < k ==> Done(books, page[l], enabled)
      {
        var i := page[k];
        if HoldTarget(books.txns[i]).Some? {
          if limit.Some? && |entries| >= limit.value {
            stopped := true;
            return;
          }
          entries := entries + [books.txns[i].id];
        }
        AlignListed(i, dryRun, faults(books.txns[i].id));
      }
    }

    /**
     * `alignPendingHolds`. Whatever fails, the pass only moves towards the
     * aligned books; without a limit or a fault it reaches them.
     */
    method AlignPendingHolds(limit: Option<nat>, dryRun: bool, faults: Id -> Fault) returns (entries: seq<Id>)
      requires DistinctHolders(books) && InOrder(books)
      modifies this`books
      ensures DistinctHolders(books) && InOrder(books)
      ensures Aligned(books, enabled) == Aligned(old(books), enabled)
      ensures dryRun ==> books == old(books)
      ensures limit.Some? ==> |entries| <= limit.value
      ensures limit.None? && !dryRun && (forall t :: faults(t).NoFault?) ==> books == Aligned(old(books), enabled)
    {
      hide Align, Aligned, Done, DistinctHolders, InOrder, PageFrom, Covers;
      entries := [];
      var cursor: Option<nat> := None;
      ghost var scanned: nat := 0;
      ghost var clean := !dryRun && forall t :: faults(t).NoFault?;
      while true
        invariant DistinctHolders(books) && InOrder(books)
        invariant Aligned(books, enabled) == Aligned(old(books), enabled)
        invariant dryRun ==> books == old(books)
        invariant limit.Some? ==> |entries| <= limit.value
        invariant scanned <= |books.txns|
        invariant if scanned == 0 then cursor.None? else cursor == Some(books.txns[scanned - 1].number)
        invariant clean ==> forall j :: 0 <= j < scanned ==> Done(books, j, enabled)
        decreases |books.txns| - scanned
      {
        var page := PageFrom(books.txns, Pending, NumberOf, cursor, PAGE, 0);
        ghost var listed := books.txns;
        PageFromCursor(books.txns, Pending, NumberOf, cursor, scanned) by { OrderMeans(books); }
        var stopped;
        entries, stopped := AlignPage(page, limit, dryRun, faults, entries);
        if stopped { return; }
        if clean { PageIsDone(books, listed, page, scanned, enabled); }
        if |page| < PAGE { break; }
        PageAdvances(listed, Pending, page, scanned);
        scanned := page[|page| - 1] + 1;
        cursor := Some(books.txns[page[|page| - 1]].number);
      }
      if clean { AllDoneIsAligned(books, enabled); }
    }
  }

  lemma OrderMeans(b: Books)
    requires InOrder(b)
    ensures NewestFirst(b.txns, NumberOf)
  {
  }

  lemma PageIsDone(b: Books, listed: seq<Journaled>, page: seq<nat>, scanned: nat, enabled: set<Id>)
    requires |b.txns| == |listed| && scanned <= |listed| && Covers(listed, Pending, page, scanned)
    requires forall j :: 0 <= j < |listed| && j !in page ==> b.txns[j] == listed[j]
    requires forall j :: 0 <= j < |listed| && (j < scanned || j in page) ==> Done(b, j, enabled)
    requires |page| <= PAGE
    ensures forall j :: 0 <= j < (if |page| == PAGE then page[|page| - 1] + 1 else |listed|) ==> Done(b, j, enabled)
  {
    hide Done;
    forall j | 0 <= j < (if |page| == PAGE then page[|page| - 1] + 1 else |listed|) ensures Done(b, j, enabled) {
      if scanned <= j && j !in page {
        assert PageReaches(page, PAGE, j);
        assert !Pending(listed[j]);
        NotDueIsDone(b, j, enabled);
      }
    }
  }

  // ---- What a pass leaves behind ----

  /** A resolved payment keeps its pending hold exactly when its provider is missing or refuses. */
  lemma StaysPendingExactly(b: Books, enabled: set<Id>, i: nat)
    requires i < |b.txns|
    ensures HoldTarget(Aligned(b, enabled).txns[i]).Some? <==>
            HoldTarget(b.txns[i]).Some? && !Accepts(b.rows, b.txns[i], enabled)
  {
  }

  /** Every due transaction's reservation is its own or already settled the same way. */
  ghost predicate MatchingReservations(b: Books, enabled: set<Id>) {
    forall i :: 0 <= i < |b.txns| && HoldTarget(b.txns[i]).Some? ==> Accepts(b.rows, b.txns[i], enabled)
  }

  /** With enabled providers and matching reservations, no resolved payment keeps a pending hold; a second pass changes nothing. */
  lemma FullPassLeavesNothing(b: Books, enabled: set<Id>)
    requires DistinctHolders(b)
    ensures MatchingReservations(b, enabled) ==>
              forall i :: 0 <= i < |b.txns| ==> HoldTarget(Aligned(b, enabled).txns[i]).None?
    ensures Aligned(Aligned(b, enabled), enabled) == Aligned(b, enabled)
  {
    hide Aligned, HoldTarget, AlignedTxn, Accepts;
    if MatchingReservations(b, enabled) {
      forall i | 0 <= i < |b.txns| ensures i < |Aligned(b, enabled).txns| && HoldTarget(Aligned(b, enabled).txns[i]).None? {
        AlignedLength(b, enabled);
        StaysPendingExactly(b, enabled, i);
      }
      AlignedLength(b, enabled);
    }
    var all := EveryUpdate(b, |b.txns|, enabled);
    UpdatesReachAligned(b, |b.txns|, enabled);
    HistoriesConverge(b, all, enabled);
  }

  lemma AlignedLength(b: Books, enabled: set<Id>)
    ensures |Aligned(b, enabled).txns| == |b.txns|
  {
  }

  /** One fault-free update of each of the first `n` transactions. */
  function EveryUpdate(b: Books, n: nat, enabled: set<Id>): (h: seq<Update>)
    ensures |h| == n && forall i :: 0 <= i < n ==> h[i] == Update(i, NoFault)
  {
    seq(n, i requires 0 <= i < n => Update(i, NoFault))
  }

  lemma {:induction false} UpdatesReachAligned(b: Books, n: nat, enabled: set<Id>)
    requires DistinctHolders(b) && n <= |b.txns|
    ensures n == |b.txns| ==> RunUpdates(b, EveryUpdate(b, n, enabled), enabled) == Aligned(b, enabled)
  {
    if n == |b.txns| {
      var h := EveryUpdate(b, n, enabled);
      UpdatesFinish(b, h, 0, enabled);
      HistoriesConverge(b, h, enabled);
      AllDoneIsAligned(RunUpdates(b, h, enabled), enabled);
    }
  }

  lemma {:induction false} UpdatesFinish(b: Books, h: seq<Update>, n: nat, enabled: set<Id>)
    requires DistinctHolders(b) && n + |h| == |b.txns|
    requires forall i :: 0 <= i < |h| ==> h[i] == Update(n + i, NoFault)
    requires forall j :: 0 <= j < n ==> Done(b, j, enabled)
    ensures var r := RunUpdates(b, h, enabled);
            |r.txns| == |b.txns| && forall j :: 0 <= j < |r.txns| ==> Done(r, j, enabled)
    decreases |h|
  {
    hide Align, Done, DistinctHolders;
    if h != [] {
      var b' := Align(b, n, NoFault, enabled);
      AlignKeepsBooks(b, n, NoFault, enabled);
      forall j | 0 <= j < n ensures Done(b', j, enabled) { DoneStaysDone(b, n, j, NoFault, enabled); }
      UpdatedIsDone(b, n, enabled);
      UpdatesFinish(b', h[1..], n + 1, enabled);
    }
  }
}
