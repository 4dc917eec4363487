/**
  The per-request session split: how one leave request becomes zero to
  three output rows.

  `Split` is the specification (the rows, built from three independent
  pieces); `SplitRequest` is the program's step-by-step form, which moves a
  working start and end while appending rows, and is proved to produce the
  same rows. The lemmas state the row rules and compare the rows with an
  independent reading of a request as a range of half-day slots.
 */
module SessionSplit {
  import opened LeaveTypes

  /** `row.get("Status", "Approved")`: the Status cell, or the default when
      the table has no Status column. */
  function StatusOf(header: seq<string>, r: Request): string
  {
    if STATUS_COLUMN in header then r.status else DEFAULT_STATUS
  }

  /** A row of `r` with the given span, sessions and day count; the other
      columns are carried over from the request. */
  function RowOf(header: seq<string>, r: Request, from: int, till: int, fromSession: string, toSession: string, days: real): Row
  {
    Row(r.employee, from, till, fromSession, toSession, days, r.appliedOn, r.remarks, StatusOf(header, r))
  }

  /** Pure full-day leave: a whole NumberOfDays from First to Second Session. */
  predicate IsFastPath(r: Request)
  {
    IsWhole(r.days) && r.fromSession == FIRST_SESSION && r.toSession == SECOND_SESSION
  }

  /** First day of the aggregated middle span. */
  function WorkingStart(r: Request): int
  {
    if r.fromSession == SECOND_SESSION then r.appliedFrom + 1 else r.appliedFrom
  }

  /** Last day of the aggregated middle span. */
  function WorkingEnd(r: Request): int
  {
    if r.toSession == FIRST_SESSION then r.appliedTill - 1 else r.appliedTill
  }

  function StartHalf(header: seq<string>, r: Request): seq<Row>
  {
    if r.fromSession == SECOND_SESSION
    then [RowOf(header, r, r.appliedFrom, r.appliedFrom, SECOND_SESSION, SECOND_SESSION, 0.5)]
    else []
  }

  function EndHalf(header: seq<string>, r: Request): seq<Row>
  {
    if r.toSession == FIRST_SESSION
    then [RowOf(header, r, r.appliedTill, r.appliedTill, FIRST_SESSION, FIRST_SESSION, 0.5)]
    else []
  }

  function Middle(header: seq<string>, r: Request): seq<Row>
  {
    var s, e := WorkingStart(r), WorkingEnd(r);
    if s <= e then [RowOf(header, r, s, e, FIRST_SESSION, SECOND_SESSION, (e - s + 1) as real)] else []
  }

  /** Sessions of an output row are always a matched pair. */
  predicate MatchedSessions(row: Row)
  {
    || (row.fromSession == FIRST_SESSION && row.toSession == FIRST_SESSION)
    || (row.fromSession == SECOND_SESSION && row.toSession == SECOND_SESSION)
    || (row.fromSession == FIRST_SESSION && row.toSession == SECOND_SESSION)
  }

  /** Employee, applied-on, remarks and status are copied from the request. */
  predicate CarriesOver(header: seq<string>, r: Request, row: Row)
  {
    && row.employee == r.employee
    && row.appliedOn == r.appliedOn
    && row.remarks == r.remarks
    && row.status == StatusOf(header, r)
  }

  /** The rows one request contributes, in the order they are appended. */
  function Split(header: seq<string>, r: Request): (rows: seq<Row>)
    ensures |rows| <= 3
    ensures IsFastPath(r) ==> |rows| == 1
    ensures forall row :: row in rows ==> CarriesOver(header, r, row) && MatchedSessions(row)
    ensures !IsFastPath(r) ==> forall row :: row in rows ==>
      row.days == 0.5 || (row.days >= 1.0 && row.days.Floor as real == row.days)
  {
    if IsFastPath(r)
    then [RowOf(header, r, r.appliedFrom, r.appliedTill, r.fromSession, r.toSession, r.days.value.Floor as real)]
    else StartHalf(header, r) + EndHalf(header, r) + Middle(header, r)
  }

  /** The loop body for one request, as the program runs it: append the
      start half-day, move the working start, append the end half-day, move
      the working end, then append the middle span if it is non-empty. */
  method SplitRequest(header: seq<string>, r: Request) returns (rows: seq<Row>)
    ensures rows == Split(header, r)
  {
    var status := if STATUS_COLUMN in header then r.status else DEFAULT_STATUS;
    rows := [];
    if r.days.Finite? && r.days.value.Floor as real == r.days.value
      && r.fromSession == FIRST_SESSION && r.toSession == SECOND_SESSION
    {
      rows := rows + [Row(r.employee, r.appliedFrom, r.appliedTill, r.fromSession, r.toSession,
                          r.days.value.Floor as real, r.appliedOn, r.remarks, status)];
      return;
    }
    var fullStart, fullEnd := r.appliedFrom, r.appliedTill;
    if r.fromSession == SECOND_SESSION {
      rows := rows + [Row(r.employee, r.appliedFrom, r.appliedFrom, SECOND_SESSION, SECOND_SESSION,
                          0.5, r.appliedOn, r.remarks, status)];
      fullStart := r.appliedFrom + 1;
    }
    if r.toSession == FIRST_SESSION {
      rows := rows + [Row(r.employee, r.appliedTill, r.appliedTill, FIRST_SESSION, FIRST_SESSION,
                          0.5, r.appliedOn, r.remarks, status)];
      fullEnd := r.appliedTill - 1;
    }
    if fullStart <= fullEnd {
      var fullDays := fullEnd - fullStart + 1;
      if fullDays > 0 {
        rows := rows + [Row(r.employee, fullStart, fullEnd, FIRST_SESSION, SECOND_SESSION,
                            fullDays as real, r.appliedOn, r.remarks, status)];
      }
    }
  }

  // ---------------------------------------------------------------------
  // The row rules
  // ---------------------------------------------------------------------

  /** Fast path: exactly one row, the request's own span and sessions, with
      `int(NumberOfDays)` as its count. */
  lemma FastPathRow(header: seq<string>, r: Request)
    requires IsFastPath(r)
    ensures Split(header, r) ==
      [Row(r.employee, r.appliedFrom, r.appliedTill, FIRST_SESSION, SECOND_SESSION,
           r.days.value, r.appliedOn, r.remarks, StatusOf(header, r))]
  {
  }

  /** Off the fast path, a Second/Second row appears iff the request starts
      in the Second Session; it is the first row and is the half day
      [from, from]. */
  lemma StartHalfRule(header: seq<string>, r: Request)
    requires !IsFastPath(r)
    ensures var rows := Split(header, r);
      (exists i :: 0 <= i < |rows| && rows[i].fromSession == SECOND_SESSION)
      <==> r.fromSession == SECOND_SESSION
    ensures var rows := Split(header, r);
      r.fromSession == SECOND_SESSION ==>
        && rows[0].appliedFrom == rows[0].appliedTill == r.appliedFrom
        && rows[0].fromSession == rows[0].toSession == SECOND_SESSION
        && rows[0].days == 0.5
        && WorkingStart(r) == r.appliedFrom + 1
  {
  }

  /** Off the fast path, a First/First row appears iff the request ends in
      the First Session; it follows the start half-day (if any) and is the
      half day [till, till]. */
  lemma EndHalfRule(header: seq<string>, r: Request)
    requires !IsFastPath(r)
    ensures var rows := Split(header, r);
      (exists i :: 0 <= i < |rows| && rows[i].toSession == FIRST_SESSION)
      <==> r.toSession == FIRST_SESSION
    ensures var rows := Split(header, r);
      var k := if r.fromSession == SECOND_SESSION then 1 else 0;
      r.toSession == FIRST_SESSION ==>
        && k < |rows|
        && rows[k].appliedFrom == rows[k].appliedTill == r.appliedTill
        && rows[k].fromSession == rows[k].toSession == FIRST_SESSION
        && rows[k].days == 0.5
        && WorkingEnd(r) == r.appliedTill - 1
  {
  }

  /** Off the fast path, a First/Second row appears iff the working start is
      not after the working end. It is the last row, spans exactly the
      working range (inside the request's range, clear of both half-day
      dates) and counts its days inclusively, so at least one. */
  lemma MiddleRule(header: seq<string>, r: Request)
    requires !IsFastPath(r)
    ensures var rows := Split(header, r);
      (exists i :: 0 <= i < |rows| && rows[i].fromSession == FIRST_SESSION && rows[i].toSession == SECOND_SESSION)
      <==> WorkingStart(r) <= WorkingEnd(r)
    ensures var rows := Split(header, r);
      WorkingStart(r) <= WorkingEnd(r) ==>
        var m := rows[|rows| - 1];
        && m.fromSession == FIRST_SESSION && m.toSession == SECOND_SESSION
        && m.appliedFrom == WorkingStart(r) && m.appliedTill == WorkingEnd(r)
        && r.appliedFrom <= m.appliedFrom <= m.appliedTill <= r.appliedTill
        && (r.fromSession == SECOND_SESSION ==> r.appliedFrom < m.appliedFrom)
        && (r.toSession == FIRST_SESSION ==> m.appliedTill < r.appliedTill)
        && m.days == (m.appliedTill - m.appliedFrom + 1) as real
        && m.days >= 1.0
  {
  }

  /** Off the fast path no row has a count of zero or less. */
  lemma NoNonPositiveRow(header: seq<string>, r: Request)
    requires !IsFastPath(r)
    ensures forall row :: row in Split(header, r) ==> row.days > 0.0
  {
  }

  // ---------------------------------------------------------------------
  // Span conservation: a request as a range of half-day slots
  // ---------------------------------------------------------------------

  /** Half-day slot numbering: day `d` has slots `2d` (First Session) and
      `2d + 1` (Second Session). A span starting in any session other than
      the Second starts with the morning; a span ending in any session other
      than the First ends with the afternoon. */
  function FirstSlot(day: int, session: string): int
  {
    2 * day + (if session == SECOND_SESSION then 1 else 0)
  }

  function LastSlot(day: int, session: string): int
  {
    2 * day + (if session == FIRST_SESSION then 0 else 1)
  }

  predicate RequestCovers(r: Request, k: int)
  {
    FirstSlot(r.appliedFrom, r.fromSession) <= k <= LastSlot(r.appliedTill, r.toSession)
  }

  predicate RowCovers(row: Row, k: int)
  {
    FirstSlot(row.appliedFrom, row.fromSession) <= k <= LastSlot(row.appliedTill, row.toSession)
  }

  /** Number of half-day slots a request spans (negative when empty). */
  function RequestSlots(r: Request): int
  {
    LastSlot(r.appliedTill, r.toSession) - FirstSlot(r.appliedFrom, r.fromSession) + 1
  }

  /** How many of `rows` cover slot `k`. */
  function Coverage(rows: seq<Row>, k: int): nat
  {
    if rows == [] then 0
    else (if RowCovers(rows[0], k) then 1 else 0) + Coverage(rows[1..], k)
  }

  /** Sum of the day counts of `rows`. */
  function Weight(rows: seq<Row>): real
  {
    if rows == [] then 0.0 else rows[0].days + Weight(rows[1..])
  }

  lemma {:induction false} CoverageAppend(a: seq<Row>, b: seq<Row>, k: int)
    ensures Coverage(a + b, k) == Coverage(a, k) + Coverage(b, k)
  {
    if a == [] {
      assert a + b == b;
    } else {
      assert (a + b)[0] == a[0];
      assert (a + b)[1..] == a[1..] + b;
      CoverageAppend(a[1..], b, k);
    }
  }

  lemma {:induction false} WeightAppend(a: seq<Row>, b: seq<Row>)
    ensures Weight(a + b) == Weight(a) + Weight(b)
  {
    if a == [] {
      assert a + b == b;
    } else {
      assert (a + b)[0] == a[0];
      assert (a + b)[1..] == a[1..] + b;
      WeightAppend(a[1..], b);
    }
  }

  /** The single-day request that starts in the Second and ends in the First
      Session is the one non-fast-path request with a non-empty day range
      whose slot range is empty. */
  predicate IsSingleDayReversed(r: Request)
  {
    r.appliedFrom == r.appliedTill && r.fromSession == SECOND_SESSION && r.toSession == FIRST_SESSION
  }

  /** Off the fast path every row's count is half the number of slots it
      spans. */
  lemma RowWeightMatchesSpan(header: seq<string>, r: Request)
    requires !IsFastPath(r)
    ensures forall row :: row in Split(header, r) ==>
      2.0 * row.days == (LastSlot(row.appliedTill, row.toSession) - FirstSlot(row.appliedFrom, row.fromSession) + 1) as real
  {
  }

  /** Span conservation: off the fast path, for a request whose day range is
      non-empty (other than the single-day Second-to-First one), every
      half-day slot of the request is covered by exactly one row and no row
      covers a slot outside it. */
  lemma Conservation(header: seq<string>, r: Request, k: int)
    requires !IsFastPath(r) && r.appliedFrom <= r.appliedTill && !IsSingleDayReversed(r)
    ensures Coverage(Split(header, r), k) == if RequestCovers(r, k) then 1 else 0
  {
    CoverageAppend(StartHalf(header, r), EndHalf(header, r), k);
    CoverageAppend(StartHalf(header, r) + EndHalf(header, r), Middle(header, r), k);
  }

  /** Total day weight of a request off the fast path: the inclusive day
      count, less half a day for a Second-Session start and half a day for a
      First-Session end; equivalently half its slot count. */
  lemma TotalWeight(header: seq<string>, r: Request)
    requires !IsFastPath(r) && r.appliedFrom <= r.appliedTill && !IsSingleDayReversed(r)
    ensures 2.0 * Weight(Split(header, r)) == RequestSlots(r) as real
    ensures Weight(Split(header, r)) ==
      (r.appliedTill - r.appliedFrom + 1) as real
      - (if r.fromSession == SECOND_SESSION then 0.5 else 0.0)
      - (if r.toSession == FIRST_SESSION then 0.5 else 0.0)
  {
    WeightAppend(StartHalf(header, r), EndHalf(header, r));
    WeightAppend(StartHalf(header, r) + EndHalf(header, r), Middle(header, r));
    assert Weight(StartHalf(header, r)) == if r.fromSession == SECOND_SESSION then 0.5 else 0.0;
    assert Weight(EndHalf(header, r)) == if r.toSession == FIRST_SESSION then 0.5 else 0.0;
  }

  /** The exception: a single-day request from the Second to the First
      Session yields two half-day rows on that day (one per session) and no
      middle row, a whole day in all, although its own slot range is empty. */
  lemma SingleDayReversed(header: seq<string>, r: Request)
    requires IsSingleDayReversed(r)
    ensures !IsFastPath(r)
    ensures var rows := Split(header, r);
      && |rows| == 2
      && rows[0].appliedFrom == rows[0].appliedTill == rows[1].appliedFrom == rows[1].appliedTill == r.appliedFrom
      && rows[0].fromSession == rows[0].toSession == SECOND_SESSION
      && rows[1].fromSession == rows[1].toSession == FIRST_SESSION
      && rows[0].days == 0.5 && rows[1].days == 0.5
      && Weight(rows) == 1.0
    ensures RequestSlots(r) == 0
  {
    var rows := Split(header, r);
    assert rows[1..][1..] == [];
    assert Weight(rows[1..][1..]) == 0.0;
    assert Weight(rows[1..]) == 0.5;
  }

  /** The program does not check the date order. A reversed range
      (from > till) covers no half-day slot, yet a Second-Session start
      still yields a 0.5 row on `from` and a First-Session end a 0.5 row on
      `till`, each covering a slot outside the request. */
  lemma ReversedRange(header: seq<string>, r: Request)
    requires !IsFastPath(r) && r.appliedFrom > r.appliedTill
    ensures forall k :: !RequestCovers(r, k)
    ensures r.fromSession == SECOND_SESSION ==>
      var row := Split(header, r)[0];
      && row.appliedFrom == r.appliedFrom && row.days == 0.5
      && RowCovers(row, 2 * r.appliedFrom + 1)
    ensures r.toSession == FIRST_SESSION ==>
      var rows := Split(header, r);
      var k := if r.fromSession == SECOND_SESSION then 1 else 0;
      && k < |rows|
      && rows[k].appliedFrom == r.appliedTill && rows[k].days == 0.5
      && RowCovers(rows[k], 2 * r.appliedTill)
    ensures Middle(header, r) == []
  {
  }
}
