/**
  The schema check that runs before any row is normalised: which of the
  required column names are absent from the uploaded table's header.
 */
module Columns {

  /** The required columns, in the order the program lists them. */
  const REQUIRED_COLUMNS: seq<string> := [
    "EmployeeCode",
    "AppliedFrom",
    "AppliedTill",
    "FromSession",
    "ToSession",
    "NumberOfDays",
    "AppliedOn",
    "ApplierRemarks"
  ]

  /** `sub` can be obtained from `s` by deleting elements (order is kept). */
  predicate IsSubsequence<T(==)>(sub: seq<T>, s: seq<T>)
  {
    if sub == [] then true
    else if s == [] then false
    else if sub[0] == s[0] then IsSubsequence(sub[1..], s[1..])
    else IsSubsequence(sub, s[1..])
  }

  /** The list comprehension over the required columns: every required name
      the header lacks, in the order of `required`. */
  function MissingColumns(required: seq<string>, header: seq<string>): (missing: seq<string>)
    ensures forall c :: c in missing <==> c in required && c !in header
    ensures IsSubsequence(missing, required)
    ensures |missing| <= |required|
  {
    if required == [] then []
    else if required[0] in header then MissingColumns(required[1..], header)
    else [required[0]] + MissingColumns(required[1..], header)
  }

  /** The check passes exactly when every required column is in the header. */
  lemma {:induction false} NoneMissing(required: seq<string>, header: seq<string>)
    ensures MissingColumns(required, header) == [] <==> forall c :: c in required ==> c in header
  {
    if MissingColumns(required, header) != [] {
      var c := MissingColumns(required, header)[0];
      assert c in MissingColumns(required, header);
    }
  }

  predicate Distinct(s: seq<string>)
  {
    forall i, j :: 0 <= i < j < |s| ==> s[i] != s[j]
  }

  /** A required list without repeats reports each missing column once. */
  lemma {:induction false} MissingDistinct(required: seq<string>, header: seq<string>)
    requires Distinct(required)
    ensures Distinct(MissingColumns(required, header))
  {
    if required != [] {
      assert Distinct(required[1..]) by {
        forall i, j | 0 <= i < j < |required[1..]| ensures required[1..][i] != required[1..][j] {
          assert required[1..][i] == required[i + 1] && required[1..][j] == required[j + 1];
        }
      }
      MissingDistinct(required[1..], header);
      var rest := MissingColumns(required[1..], header);
      assert required[0] !in required[1..] by {
        forall j | 0 <= j < |required[1..]| ensures required[1..][j] != required[0] {
          assert required[1..][j] == required[j + 1];
        }
      }
      assert required[0] !in rest;
      var m := MissingColumns(required, header);
      if required[0] !in header {
        assert m == [required[0]] + rest;
        forall i, j | 0 <= i < j < |m| ensures m[i] != m[j] {
          if i == 0 {
            assert m[j] == rest[j - 1];
            assert m[j] in rest;
          } else {
            assert m[i] == rest[i - 1] && m[j] == rest[j - 1];
          }
        }
      }
    }
  }

  /** The program's own required list has no repeats, so its report names
      each missing column once. */
  lemma RequiredDistinct(header: seq<string>)
    ensures Distinct(REQUIRED_COLUMNS)
    ensures Distinct(MissingColumns(REQUIRED_COLUMNS, header))
  {
    MissingDistinct(REQUIRED_COLUMNS, header);
  }
}
