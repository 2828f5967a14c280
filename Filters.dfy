/** What the store does with a query's WHERE clause over a table scanned as a sequence: keep the
    rows it accepts, or return the first one. */
module Filters {
  import opened Wrappers

  /** The rows that satisfy `f`, each as often as the table holds it and none other. The queries
      have no ORDER BY, so the order of the result is not part of what they promise. */
  function Filter<T(!new)>(rows: seq<T>, f: T -> bool): (r: seq<T>)
    ensures |r| <= |rows|
    ensures forall i :: 0 <= i < |r| ==> r[i] in rows && f(r[i])
    ensures forall i :: 0 <= i < |rows| && f(rows[i]) ==> rows[i] in r
    ensures forall x :: multiset(r)[x] == if f(x) then multiset(rows)[x] else 0
  {
    if rows == [] then []
    else
      assert rows == [rows[0]] + rows[1..];
      if f(rows[0]) then [rows[0]] + Filter(rows[1..], f)
      else Filter(rows[1..], f)
  }

  /** A filter that holds of every row returns the whole table. */
  lemma {:induction false} FilterKeepsAll<T(!new)>(rows: seq<T>, f: T -> bool)
    requires forall i :: 0 <= i < |rows| ==> f(rows[i])
    ensures Filter(rows, f) == rows
  {
    if rows != [] {
      assert f(rows[0]);
      FilterKeepsAll(rows[1..], f);
      assert [rows[0]] + rows[1..] == rows;
    }
  }

  /** The first row that satisfies `f`, or None when no row does. */
  function FindFirst<T>(rows: seq<T>, f: T -> bool): (r: Option<T>)
    ensures r.None? <==> forall i :: 0 <= i < |rows| ==> !f(rows[i])
    ensures r.Some? ==> exists i :: 0 <= i < |rows| && rows[i] == r.value && f(rows[i])
                                    && forall j :: 0 <= j < i ==> !f(rows[j])
  {
    if rows == [] then None
    else if f(rows[0]) then Some(rows[0])
    else
      var rest := FindFirst(rows[1..], f);
      assert forall j :: 1 <= j < |rows| ==> rows[j] == rows[1..][j - 1];
      rest
  }

  /** When at most one row satisfies `f`, FindFirst returns that row. */
  lemma FindFirstOfUnique<T>(rows: seq<T>, f: T -> bool, x: T)
    requires x in rows && f(x)
    requires forall i, j :: 0 <= i < |rows| && 0 <= j < |rows| && f(rows[i]) && f(rows[j]) ==> rows[i] == rows[j]
    ensures FindFirst(rows, f) == Some(x)
  {
  }
}
