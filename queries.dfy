/** The aggregate queries of the table interface, each as the quantity it
    takes from one row: a query's answer is that quantity added up over the
    rows of the table. */
module Queries {
  import opened Common

  datatype Query =
    /** `SELECT SUM(col0)` */
    | KeySum
    /** `SELECT SUM(col0) WHERE col1 > t1 AND col2 < t2` */
    | MatchedKeySum(t1: int, t2: int)
    /** `SELECT SUM(col0) + ... + SUM(coln) WHERE col0 > t` */
    | FieldSumAbove(t: int)
    /** the rows `UPDATE (col3 = col3 + col2) WHERE col0 < t` counts */
    | CountBelow(t: int)

  /** What query `q` takes from `row`. */
  function Take(q: Query, row: seq<int>): int {
    match q
    case KeySum => if |row| > 0 then row[0] else 0
    case MatchedKeySum(t1, t2) => if |row| >= 3 && row[1] > t1 && row[2] < t2 then row[0] else 0
    case FieldSumAbove(t) => if |row| > 0 && row[0] > t then Sum(row) else 0
    case CountBelow(t) => if |row| > 0 && row[0] < t then 1 else 0
  }
}
