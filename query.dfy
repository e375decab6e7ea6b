/**
 * The query semantics the DAOs rely on: a WHERE clause over the stored rows,
 * with SQL's three-valued comparisons, followed by an ORDER BY.
 * A query returns the ids of the matching rows (an arena-style reference to each
 * entity the original returns as a detached object).
 */
module Query {
  import opened Wrappers
  import opened Ordering

  /** `column = :param`: a NULL on either side makes the comparison unknown, so the row is dropped. */
  predicate SqlEq<T(==)>(column: Option<T>, param: Option<T>)
  {
    column.Some? && param.Some? && column.value == param.value
  }

  /** `column != :param`, also dropped when either side is NULL. */
  predicate SqlNe<T(==)>(column: Option<T>, param: Option<T>)
  {
    column.Some? && param.Some? && column.value != param.value
  }

  /** `a < b` on nullable values. */
  predicate SqlLt(a: Option<int>, b: Option<int>)
  {
    a.Some? && b.Some? && a.value < b.value
  }

  /** `a <= b` on nullable values. */
  predicate SqlLe(a: Option<int>, b: Option<int>)
  {
    a.Some? && b.Some? && a.value <= b.value
  }

  /**
   * The ids of the rows satisfying `where` (which sees the id column and the row),
   * ordered by `orderBy`; rows with equal keys come in id order.
   */
  function Select<R>(rows: map<nat, R>, where: (nat, R) -> bool, orderBy: R -> seq<int>): (r: seq<nat>)
    ensures forall id :: id in r <==> id in rows && where(id, rows[id])
    ensures SortedBy(rows, r, orderBy) && Distinct(r)
  {
    var matching := AscendingIds(set id | id in rows && where(id, rows[id]));
    SortBy(rows, orderBy, matching)
  }

  /** The sort key of a query without ORDER BY: every row ties, so the store's order is kept. */
  function Unordered<R>(row: R): seq<int>
  {
    []
  }

  /** Number of rows of a query result that satisfy `p`. */
  function CountWhere<R>(rows: map<nat, R>, ids: seq<nat>, p: R -> bool): (n: nat)
    requires forall id :: id in ids ==> id in rows
    ensures n <= |ids|
  {
    if ids == [] then 0
    else CountWhere(rows, ids[..|ids| - 1], p) + (if p(rows[ids[|ids| - 1]]) then 1 else 0)
  }
}
