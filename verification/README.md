# Leave normalisation, modelled in Dafny

The Leave Normalization Tool takes an HR leave export. Each row is one leave
request: employee, start and end date, start and end session, NumberOfDays,
applied-on date, remarks and an optional status. The tool turns the export
into rows that payroll can use. A request either stays whole, or it is split
into half-day rows (0.5 day) and one aggregated full-day row.

This project models that pass in three steps:

- **Schema check** (`columns.dfy`, module `Columns`). It lists the required
  columns that are missing from the header, in the order they are required.
  If that list is non-empty, processing stops.
- **Per-request session split** (`split.dfy`, module `SessionSplit`).
  - `Split` states which rows one request produces.
  - `SplitRequest` is the loop body as the program runs it. It moves a working
    start and end while it appends rows, and it is proved to produce the same
    rows as `Split`.
  - Lemmas state each row rule.
  - They also check the rows against an independent reading of a request as
    a range of half-day slots. Day `d` has slot `2d` for the First Session and
    slot `2d+1` for the Second Session. Off the fast path, for a request with
    AppliedFrom ≤ AppliedTill, every slot of the request is covered by exactly
    one row, no row covers a slot outside the request, and the total day count
    is half the number of slots.
  - Among such requests the one exception is a single-day request from the
    Second Session to the First Session. It is proved separately: it yields
    two half-day rows on the same date, one whole day in all.
  - Requests with AppliedFrom > AppliedTill are described separately too
    (`ReversedRange`).
- **Batch loop and final ordering** (`pipeline.dfy`, `ordering.dfy`).
  - `NormalizeAll` walks the requests and appends each request's rows.
  - `Run` chains the schema check, the loop and the sort by
    (EmployeeCode, AppliedFrom).
  - The output is sorted by that key and is a permutation of the emitted
    rows. Employee codes compare as Python compares strings.

Representation:

- Dates are whole day numbers.
- NumberOfDays is `Finite(real)` or `NonFinite`, which stands for NaN (a blank
  cell) and infinity. "Whole" means `float.is_integer()`.
- Session labels and the pass-through columns are strings, compared exactly.
  So a label other than `"First Session"` or `"Second Session"` matches
  neither rule.

Behaviour of `app.py` worth knowing:

- `app.py` requires only eight columns. `LeaveType` and `Status` are not
  among them.
- When the table has no Status column, `app.py` gives every row the status
  `"Approved"`.
- On the fast path `app.py` takes the count from `int(NumberOfDays)`. It does
  not recompute it from the dates, so it may differ from the span and may even
  be zero or negative. `FastPathRow` states exactly this.
- `app.py` takes the fast path only when NumberOfDays is whole. It splits a
  First-to-Second request with a fractional or blank count like any other.
- `app.py` does not check that AppliedFrom ≤ AppliedTill. For a reversed range
  it emits no middle row, but a Second-Session start still yields a 0.5 row
  on AppliedFrom and a First-Session end a 0.5 row on AppliedTill. These
  rows lie outside any valid range.

## Model

| member | source | states |
|---|---|---|
| Columns.MissingColumns | app.py:45-56 | a column is reported iff it is required and absent from the header; the report keeps the required-list order (it is a subsequence of that list) and is no longer than it |
| Columns.NoneMissing | app.py:56-59 | the check passes (nothing missing) iff every required column is in the header |
| Columns.MissingDistinct | app.py:45-56 | when the required list has no repeats, each missing column is reported once |
| Columns.RequiredDistinct | app.py:45-56 | the program's required list has no repeats, and for any header the report for it names each missing column once |
| SessionSplit.Split | app.py:66-148 | one request gives at most 3 rows, exactly 1 on the fast path; every row carries the request's employee, applied-on, remarks and status and has a matched session pair; off the fast path every count is 0.5 or a whole number of at least 1 |
| SessionSplit.SplitRequest | app.py:66-148 | the program's step-by-step split (working start/end moved after each half-day row, middle row behind the redundant `full_days > 0` guard) yields exactly the rows of `Split` |
| SessionSplit.FastPathRow | app.py:80-96 | whole NumberOfDays with First→Second Session gives exactly one row: the original span and sessions, count `int(days)`, pass-through columns unchanged |
| SessionSplit.StartHalfRule | app.py:104-117 | off the fast path a Second/Second row appears iff the request starts in the Second Session; it is the first row, spans [from, from], counts 0.5, and the working start becomes from+1 |
| SessionSplit.EndHalfRule | app.py:119-132 | off the fast path a First/First row appears iff the request ends in the First Session; it comes right after the start half-day (if any), spans [till, till], counts 0.5, and the working end becomes till−1 |
| SessionSplit.MiddleRule | app.py:134-148 | off the fast path a First/Second row appears iff working start ≤ working end; it is the last row, has sessions First/Second, spans exactly the working range, lies within [from, till], avoids the date of every emitted half-day row, and its count is the inclusive day count (≥ 1) |
| SessionSplit.NoNonPositiveRow | app.py:101-148 | off the fast path no row has a count ≤ 0 |
| SessionSplit.RowWeightMatchesSpan | app.py:101-148 | off the fast path each row's count is half the number of half-day slots it spans |
| SessionSplit.Conservation | app.py:101-148 | off the fast path, for from ≤ till (except the single-day Second→First request), each half-day slot of the request is covered by exactly one row and no row covers any other slot |
| SessionSplit.TotalWeight | app.py:101-148 | under the same conditions the counts sum to (till−from+1) − 0.5·[starts Second] − 0.5·[ends First], i.e. half the request's slot count |
| SessionSplit.SingleDayReversed | app.py:101-148 | the exception: a single-day Second→First request yields exactly two rows on that date, a Second/Second row then a First/First row, each counting 0.5, and no middle row, total 1.0, although its own slot range is empty |
| SessionSplit.ReversedRange | app.py:101-148 | off the fast path with from > till the request covers no half-day slot and no middle row is emitted, yet a Second-Session start still yields a 0.5 row on `from` and a First-Session end a 0.5 row on `till`, each covering a slot outside the request |
| Ordering.Insert | app.py:166-168 | inserting a row yields the old rows plus that row, as a multiset |
| Ordering.InsertSorted | app.py:166-168 | inserting into a table sorted by (EmployeeCode, AppliedFrom) keeps it sorted |
| Ordering.SortRows | app.py:153-168 | the final table is sorted by (EmployeeCode, AppliedFrom) and is a permutation of the emitted rows |
| Ordering.KeyLeTransitive | app.py:166-168 | the (EmployeeCode, AppliedFrom) order, with code-point string comparison, is transitive |
| Ordering.KeyLeTotal | app.py:166-168 | any two rows are comparable under that order |
| Pipeline.NormalizeAll | app.py:64-148 | the loop's output list is the concatenation, in input order, of every request's rows, at most three per request |
| Pipeline.RowsComeFromRequests | app.py:67-75 | every output row comes from some request, carries that request's employee, applied-on, remarks and status, and has matched sessions |
| Pipeline.DefaultStatus | app.py:75 | without a Status column every output row has status "Approved" |
| Pipeline.Run | app.py:45-168 | processing stops with the missing-column list iff a required column is absent; otherwise the result is sorted by (EmployeeCode, AppliedFrom) and is a permutation of all emitted rows |

## Left out

- Page setup, the upload widget, data-frame display, error messages and the download button (`app.py:8-40`, `170-183`): user interface.
- Reading CSV/Excel files and writing the CSV result (`app.py:34-37`, `176`): file I/O through a library.
- Date parsing with `pd.to_datetime` and the `float(...)` conversion (`app.py:68-72`): the model takes parsed day numbers and an exact number instead. So it does not model times of day inside a date, or the float rounding of NumberOfDays.
- A blank date cell becomes NaT and is carried into the rows. That case is not modelled; a blank NumberOfDays cell (NaN) is modelled as `NonFinite`.
- An unparseable date or NumberOfDays text makes `pd.to_datetime` or `float(...)` raise, which stops the whole pass with no output. This exception is not modelled.
- Pipeline.Run: the table library's sort is modelled by an insertion sort. Only sortedness and permutation are stated, not the library's stability or tie order.
- Ordering.KeyLe: employee codes are modelled as text. A numeric EmployeeCode column would sort numerically.
- Month-name detection, filtering by approved status, and the payroll projection: none of them is in `app.py`.
