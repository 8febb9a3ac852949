/** Cursor pages over a list kept newest first, as the receipt store serves them. */
module Pages {
  import opened Options

  const PAGE := 200

  predicate Below(number: nat, cursor: Option<nat>) {
    cursor.None? || number < cursor.value
  }

  predicate Listed<T>(row: T, keep: T -> bool, number: T -> nat, cursor: Option<nat>) {
    keep(row) && Below(number(row), cursor)
  }

  ghost predicate NewestFirst<T>(rows: seq<T>, number: T -> nat) {
    forall i, j :: 0 <= i < j < |rows| ==> number(rows[i]) > number(rows[j])
  }

  /** Indices of the rows kept below the cursor, from `i` on, at most `limit`. */
  function PageFrom<T>(rows: seq<T>, keep: T -> bool, number: T -> nat, cursor: Option<nat>, limit: nat, i: nat): (page: seq<nat>)
    requires i <= |rows|
    ensures |page| <= limit
    ensures forall k :: 0 <= k < |page| ==> i <= page[k] < |rows|
    decreases |rows| - i
  {
    if limit == 0 || i == |rows| then []
    else if Listed(rows[i], keep, number, cursor) then [i] + PageFrom(rows, keep, number, cursor, limit - 1, i + 1)
    else PageFrom(rows, keep, number, cursor, limit, i + 1)
  }

  lemma PageUnfolds<T>(rows: seq<T>, keep: T -> bool, number: T -> nat, cursor: Option<nat>, limit: nat, i: nat)
    requires limit != 0 && i < |rows|
    ensures PageFrom(rows, keep, number, cursor, limit, i) ==
            if Listed(rows[i], keep, number, cursor) then [i] + PageFrom(rows, keep, number, cursor, limit - 1, i + 1)
            else PageFrom(rows, keep, number, cursor, limit, i + 1)
  {
  }

  lemma {:induction false} PageIsListed<T>(rows: seq<T>, keep: T -> bool, number: T -> nat, cursor: Option<nat>, limit: nat, i: nat)
    requires i <= |rows|
    ensures var page := PageFrom(rows, keep, number, cursor, limit, i);
            && (forall k :: 0 <= k < |page| ==> Listed(rows[page[k]], keep, number, cursor))
            && (forall k, l :: 0 <= k < l < |page| ==> page[k] < page[l])
    decreases |rows| - i
  {
    if limit != 0 && i != |rows| {
      PageUnfolds(rows, keep, number, cursor, limit, i);
      PageIsListed(rows, keep, number, cursor, if Listed(rows[i], keep, number, cursor) then limit - 1 else limit, i + 1);
    }
  }

  /** The page ends short, or past `j`. */
  predicate PageReaches(page: seq<nat>, limit: nat, j: nat) {
    |page| < limit || (page != [] && j <= page[|page| - 1])
  }

  lemma ReachesRest(i: nat, rest: seq<nat>, limit: nat, j: nat)
    requires limit > 0 && i < j && PageReaches([i] + rest, limit, j)
    ensures PageReaches(rest, limit - 1, j)
  {
    if rest != [] { assert ([i] + rest)[|rest|] == rest[|rest| - 1]; }
  }

  lemma {:induction false} PageSkipsNothing<T>(
      rows: seq<T>, keep: T -> bool, number: T -> nat, cursor: Option<nat>, limit: nat, i: nat, j: nat)
    requires i <= j < |rows| && Listed(rows[j], keep, number, cursor)
    requires PageReaches(PageFrom(rows, keep, number, cursor, limit, i), limit, j)
    ensures j in PageFrom(rows, keep, number, cursor, limit, i)
    decreases |rows| - i
  {
    hide Listed, PageFrom, PageReaches;
    var page := PageFrom(rows, keep, number, cursor, limit, i);
    if limit == 0 {
      NothingReached(j);
    } else {
      PageUnfolds(rows, keep, number, cursor, limit, i);
      if !Listed(rows[i], keep, number, cursor) {
        PageSkipsNothing(rows, keep, number, cursor, limit, i + 1, j);
      } else if i != j {
        var rest := PageFrom(rows, keep, number, cursor, limit - 1, i + 1);
        ReachesRest(i, rest, limit, j);
        PageSkipsNothing(rows, keep, number, cursor, limit - 1, i + 1, j);
        assert page == [i] + rest && j in rest;
      } else {
        assert page[0] == i;
      }
    }
  }

  lemma NothingReached(j: nat)
    ensures !PageReaches([], 0, j)
  {
  }

  /** Everything kept from `scanned` on, until the page ends, is on the page. */
  ghost predicate Covers<T>(rows: seq<T>, keep: T -> bool, page: seq<nat>, scanned: nat) {
    && (forall k :: 0 <= k < |page| ==> scanned <= page[k] < |rows| && keep(rows[page[k]]))
    && (forall k, l :: 0 <= k < l < |page| ==> page[k] < page[l])
    && (forall j :: scanned <= j < |rows| && keep(rows[j]) && PageReaches(page, PAGE, j) ==> j in page)
  }

  /** A cursor taken from row `scanned - 1` hides exactly the rows before `scanned`. */
  lemma PageFromCursor<T>(rows: seq<T>, keep: T -> bool, number: T -> nat, cursor: Option<nat>, scanned: nat)
    requires NewestFirst(rows, number) && scanned <= |rows|
    requires if scanned == 0 then cursor.None? else cursor == Some(number(rows[scanned - 1]))
    ensures Covers(rows, keep, PageFrom(rows, keep, number, cursor, PAGE, 0), scanned)
  {
    hide PageFrom;
    PageIsListed(rows, keep, number, cursor, PAGE, 0);
    var page := PageFrom(rows, keep, number, cursor, PAGE, 0);
    forall j | scanned <= j < |rows| && keep(rows[j]) && PageReaches(page, PAGE, j) ensures j in page {
      assert Below(number(rows[j]), cursor);
      PageSkipsNothing(rows, keep, number, cursor, PAGE, 0, j);
    }
  }

  lemma PageAdvances<T>(rows: seq<T>, keep: T -> bool, page: seq<nat>, scanned: nat)
    requires Covers(rows, keep, page, scanned) && page != []
    ensures scanned <= page[|page| - 1] < |rows|
  {
  }
}
