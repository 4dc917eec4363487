/**
  The final ordering of the normalised table: rows sorted by
  (EmployeeCode, AppliedFrom). Employee codes are text and compare as
  Python compares strings: code point by code point, a proper prefix first.

  The table library's sort is modelled by an insertion sort; what is
  claimed of it is only that its result is sorted by the key and is a
  permutation of its input.
 */
module Ordering {
  import opened LeaveTypes

  /** Python's `a <= b` on strings. */
  predicate StrLe(a: string, b: string)
    decreases |a|
  {
    if a == [] then true
    else if b == [] then false
    else a[0] < b[0] || (a[0] == b[0] && StrLe(a[1..], b[1..]))
  }

  lemma {:induction false} StrLeTotal(a: string, b: string)
    ensures StrLe(a, b) || StrLe(b, a)
    decreases |a|
  {
    if a != [] && b != [] && a[0] == b[0] {
      StrLeTotal(a[1..], b[1..]);
    }
  }

  lemma {:induction false} StrLeAntisymmetric(a: string, b: string)
    requires StrLe(a, b) && StrLe(b, a)
    ensures a == b
    decreases |a|
  {
    if a != [] {
      StrLeAntisymmetric(a[1..], b[1..]);
      assert a == [a[0]] + a[1..] && b == [b[0]] + b[1..];
    }
  }

  lemma {:induction false} StrLeTransitive(a: string, b: string, c: string)
    requires StrLe(a, b) && StrLe(b, c)
    ensures StrLe(a, c)
    decreases |a|
  {
    if a != [] && a[0] == b[0] && b[0] == c[0] {
      StrLeTransitive(a[1..], b[1..], c[1..]);
    }
  }

  /** The sort key order: by employee code, then by start date. */
  predicate KeyLe(x: Row, y: Row)
  {
    || (StrLe(x.employee, y.employee) && x.employee != y.employee)
    || (x.employee == y.employee && x.appliedFrom <= y.appliedFrom)
  }

  lemma KeyLeTotal(x: Row, y: Row)
    ensures KeyLe(x, y) || KeyLe(y, x)
  {
    StrLeTotal(x.employee, y.employee);
  }

  lemma KeyLeTransitive(x: Row, y: Row, z: Row)
    requires KeyLe(x, y) && KeyLe(y, z)
    ensures KeyLe(x, z)
  {
    if x.employee != y.employee && y.employee != z.employee {
      StrLeTransitive(x.employee, y.employee, z.employee);
      if x.employee == z.employee {
        StrLeAntisymmetric(y.employee, z.employee);
      }
    }
  }

  predicate Sorted(rows: seq<Row>)
  {
    forall i, j :: 0 <= i < j < |rows| ==> KeyLe(rows[i], rows[j])
  }

  /** Inserts `x` after every leading row whose key is not greater than
      its own. */
  function Insert(x: Row, rows: seq<Row>): (r: seq<Row>)
    ensures multiset(r) == multiset(rows) + multiset{x}
  {
    if rows == [] then [x]
    else if KeyLe(rows[0], x) then
      assert rows == [rows[0]] + rows[1..];
      [rows[0]] + Insert(x, rows[1..])
    else [x] + rows
  }

  lemma SortedTail(rows: seq<Row>)
    requires Sorted(rows) && rows != []
    ensures Sorted(rows[1..])
    ensures forall j :: 1 <= j < |rows| ==> KeyLe(rows[0], rows[j])
  {
    forall i, j | 0 <= i < j < |rows[1..]| ensures KeyLe(rows[1..][i], rows[1..][j]) {
      assert rows[1..][i] == rows[i + 1] && rows[1..][j] == rows[j + 1];
    }
  }

  /** Prepending a row no greater than every row of a sorted sequence keeps
      it sorted. */
  lemma SortedCons(y: Row, rows: seq<Row>)
    requires Sorted(rows)
    requires forall j :: 0 <= j < |rows| ==> KeyLe(y, rows[j])
    ensures Sorted([y] + rows)
  {
    var r := [y] + rows;
    forall i, j | 0 <= i < j < |r| ensures KeyLe(r[i], r[j]) {
      if i == 0 {
        assert r[j] == rows[j - 1];
      } else {
        assert r[i] == rows[i - 1] && r[j] == rows[j - 1];
      }
    }
  }

  lemma {:induction false} InsertSorted(x: Row, rows: seq<Row>)
    requires Sorted(rows)
    ensures Sorted(Insert(x, rows))
  {
    if rows == [] {
    } else if KeyLe(rows[0], x) {
      var tail := rows[1..];
      SortedTail(rows);
      InsertSorted(x, tail);
      var rest := Insert(x, tail);
      forall j | 0 <= j < |rest| ensures KeyLe(rows[0], rest[j]) {
        assert rest[j] in multiset(rest);
        if rest[j] != x {
          assert rest[j] in multiset(tail);
          var k :| 0 <= k < |tail| && tail[k] == rest[j];
          assert rows[k + 1] == rest[j];
        }
      }
      SortedCons(rows[0], rest);
    } else {
      KeyLeTotal(rows[0], x);
      SortedTail(rows);
      forall j | 0 <= j < |rows| ensures KeyLe(x, rows[j]) {
        if j > 0 { KeyLeTransitive(x, rows[0], rows[j]); }
      }
      SortedCons(x, rows);
    }
  }

  /** The table sorted by (EmployeeCode, AppliedFrom). */
  function SortRows(rows: seq<Row>): (sorted: seq<Row>)
    ensures Sorted(sorted)
    ensures multiset(sorted) == multiset(rows)
  {
    if rows == [] then []
    else
      assert rows == [rows[0]] + rows[1..];
      InsertSorted(rows[0], SortRows(rows[1..]));
      Insert(rows[0], SortRows(rows[1..]))
  }
}
