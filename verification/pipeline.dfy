/**
  The whole pass over an uploaded table: the schema check, the loop that
  splits every request and appends its rows, and the final sort.
 */
module Pipeline {
  import opened LeaveTypes
  import opened Columns
  import opened SessionSplit
  import opened Ordering

  /** The rows of all requests, in input order, each request's rows in the
      order they are appended. */
  function AllRows(header: seq<string>, requests: seq<Request>): seq<Row>
  {
    if requests == [] then []
    else AllRows(header, requests[..|requests| - 1]) + Split(header, requests[|requests| - 1])
  }

  /** The normalisation loop: walks the requests in order and appends each
      one's rows to the output list. */
  method NormalizeAll(header: seq<string>, requests: seq<Request>) returns (rows: seq<Row>)
    ensures rows == AllRows(header, requests)
    ensures |rows| <= 3 * |requests|
  {
    rows := [];
    var i := 0;
    while i < |requests|
      invariant 0 <= i <= |requests|
      invariant rows == AllRows(header, requests[..i])
      invariant |rows| <= 3 * i
    {
      var more := SplitRequest(header, requests[i]);
      assert requests[..i + 1][..i] == requests[..i];
      rows := rows + more;
      i := i + 1;
    }
    assert requests[..|requests|] == requests;
  }

  /** Every output row comes from one request, carries that request's
      employee, applied-on date, remarks and status, and has matched
      sessions. */
  lemma {:induction false} RowsComeFromRequests(header: seq<string>, requests: seq<Request>, row: Row)
    requires row in AllRows(header, requests)
    ensures exists i :: (0 <= i < |requests| && row in Split(header, requests[i])
                         && CarriesOver(header, requests[i], row))
    ensures MatchedSessions(row)
  {
    var n := |requests| - 1;
    var init := requests[..n];
    if row in Split(header, requests[n]) {
      assert CarriesOver(header, requests[n], row);
    } else {
      assert row in AllRows(header, init);
      RowsComeFromRequests(header, init, row);
      var i :| 0 <= i < |init| && row in Split(header, init[i]) && CarriesOver(header, init[i], row);
      assert init[i] == requests[i];
    }
  }

  /** Without a Status column every output row has status "Approved". */
  lemma {:induction false} DefaultStatus(header: seq<string>, requests: seq<Request>)
    requires STATUS_COLUMN !in header
    ensures forall row :: row in AllRows(header, requests) ==> row.status == DEFAULT_STATUS
  {
    forall row | row in AllRows(header, requests) ensures row.status == DEFAULT_STATUS {
      RowsComeFromRequests(header, requests, row);
    }
  }

  /** The whole pass: a non-empty list of missing columns stops it before
      any row is looked at; otherwise the result is the normalised rows
      sorted by (EmployeeCode, AppliedFrom). */
  method Run(header: seq<string>, requests: seq<Request>) returns (outcome: Result<seq<Row>, seq<string>>)
    ensures outcome.Failure? <==> exists c :: c in REQUIRED_COLUMNS && c !in header
    ensures outcome.Failure? ==> outcome.error == MissingColumns(REQUIRED_COLUMNS, header)
    ensures outcome.Success? ==> Sorted(outcome.value)
    ensures outcome.Success? ==> multiset(outcome.value) == multiset(AllRows(header, requests))
  {
    var missing := MissingColumns(REQUIRED_COLUMNS, header);
    if missing != [] {
      assert missing[0] in missing;
      return Failure(missing);
    }
    var rows := NormalizeAll(header, requests);
    outcome := Success(SortRows(rows));
  }
}
