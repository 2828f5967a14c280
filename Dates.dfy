/** Calendar dates (java.time.LocalDate) compared in (year, month, day) order. */
module Dates {

  datatype Date = Date(year: int, month: int, day: int)

  /** `a.isBefore(b)`: lexicographic on (year, month, day). */
  predicate Before(a: Date, b: Date) {
    a.year < b.year
    || (a.year == b.year && a.month < b.month)
    || (a.year == b.year && a.month == b.month && a.day < b.day)
  }

  /** `a <= b`, the bound test of SQL BETWEEN. */
  predicate NotAfter(a: Date, b: Date) {
    !Before(b, a)
  }

  /** Before is a strict total order, so NotAfter is its reflexive closure. */
  lemma BeforeIsStrictTotalOrder(a: Date, b: Date, c: Date)
    ensures !Before(a, a)
    ensures Before(a, b) && Before(b, c) ==> Before(a, c)
    ensures a != b ==> Before(a, b) || Before(b, a)
    ensures NotAfter(a, b) <==> Before(a, b) || a == b
  {
  }
}
