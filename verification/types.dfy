/**
  The values the leave-normalisation pass works on: one parsed input row
  (a leave request) and one output row of the normalised table.

  Dates are day numbers (the value `pd.to_datetime` would give, counted in
  whole days), so `timedelta(days=1)` is `+ 1` and `(b - a).days` is `b - a`.
  Session labels and the free-text columns are kept as strings and compared
  exactly, as the program compares them.
 */
module LeaveTypes {

  const FIRST_SESSION: string := "First Session"
  const SECOND_SESSION: string := "Second Session"

  /** The column whose absence makes every row's status the default. */
  const STATUS_COLUMN: string := "Status"
  const DEFAULT_STATUS: string := "Approved"

  datatype Result<T, E> = Success(value: T) | Failure(error: E)

  /** NumberOfDays after `float(...)`: a finite number, or NaN / infinity
      (a blank cell reads as NaN). Only a finite value can be whole. */
  datatype DayCount = Finite(value: real) | NonFinite

  /** Python's `float.is_integer()`. */
  predicate IsWhole(d: DayCount)
  {
    d.Finite? && d.value.Floor as real == d.value
  }

  /** One input row; `status` is the Status cell, meaningful only when the
      table has a Status column. */
  datatype Request = Request(
    employee: string,
    appliedFrom: int,
    appliedTill: int,
    fromSession: string,
    toSession: string,
    days: DayCount,
    appliedOn: string,
    remarks: string,
    status: string)

  /** One output row, in the column order of the normalised table. */
  datatype Row = Row(
    employee: string,
    appliedFrom: int,
    appliedTill: int,
    fromSession: string,
    toSession: string,
    days: real,
    appliedOn: string,
    remarks: string,
    status: string)
}
