/**
 * The part of TypeORM's `SelectQueryBuilder` that the pagination code drives:
 * the WHERE conditions it accumulates, the ORDER BY list, and the
 * take/offset/limit settings, together with the meaning of a condition on a
 * row. Rows are maps from column name to integer value; a column missing
 * from the row, or a parameter that is `undefined`, behaves as SQL NULL, so
 * every comparison with it is not satisfied.
 */
module QueryBuilder {
  import opened Wrappers
  import SqlLike

  type Row = map<string, int>

  datatype Direction = Asc | Desc

  /** `<`, `>` and `=` between a column and a named parameter. */
  datatype Op = Lt | Gt | Eq

  /** `alias.column op :column`: the parameter has the column's own name. */
  datatype Comparison = Comparison(column: string, op: Op)

  /** Parameter values by name; `None` is a parameter bound to `undefined`. */
  type Params = map<string, Option<int>>

  datatype Condition =
    /** `(c AND c ...) OR (c AND c ...) OR ...` */
    | AnyOf(branches: seq<seq<Comparison>>, params: Params)
    /** `(alias.c1, alias.c2, ...) op (:c1, :c2, ...)`, a row-value comparison. */
    | RowValue(columns: seq<string>, op: Op, params: Params)
    /** `alias.column LIKE :pattern` */
    | Like(column: string, pattern: string)

  predicate OpHolds(x: int, op: Op, y: int)
  {
    match op
    case Lt => x < y
    case Gt => x > y
    case Eq => x == y
  }

  /** Both sides are present (not NULL). */
  predicate Bound(row: Row, column: string, params: Params)
  {
    column in row && column in params && params[column].Some?
  }

  predicate ComparisonHolds(row: Row, c: Comparison, params: Params)
  {
    Bound(row, c.column, params) && OpHolds(row[c.column], c.op, params[c.column].value)
  }

  predicate AllHold(row: Row, branch: seq<Comparison>, params: Params)
  {
    forall k :: 0 <= k < |branch| ==> ComparisonHolds(row, branch[k], params)
  }

  predicate AnyBranchHolds(row: Row, branches: seq<seq<Comparison>>, params: Params)
  {
    exists i :: 0 <= i < |branches| && AllHold(row, branches[i], params)
  }

  /**
   * SQL row-value comparison with a strict operator: the first column whose
   * values differ decides; an empty row value compares as not satisfied.
   */
  predicate RowValueHolds(row: Row, columns: seq<string>, op: Op, params: Params)
  {
    if columns == [] then op == Eq
    else
      var c := columns[0];
      Bound(row, c, params) &&
      (OpHolds(row[c], op, params[c].value) || (row[c] == params[c].value && RowValueHolds(row, columns[1..], op, params)))
  }

  predicate Holds(row: Row, cond: Condition, text: map<string, string>)
  {
    match cond
    case AnyOf(branches, params) => AnyBranchHolds(row, branches, params)
    case RowValue(columns, op, params) => RowValueHolds(row, columns, op, params)
    case Like(column, pattern) => column in text && SqlLike.Matches(pattern, text[column])
  }

  /** The query builder's state as the pagination code leaves it. */
  class SelectQuery {
    var conditions: seq<Condition>
    var ordering: seq<(string, Direction)>
    var take: Option<int>
    var offset: Option<int>
    var limit: Option<int>

    constructor ()
      ensures conditions == [] && ordering == [] && take == None && offset == None && limit == None
    {
      conditions := [];
      ordering := [];
      take := None;
      offset := None;
      limit := None;
    }

    /** `qb.where(...)` replaces every earlier condition. */
    method Where(c: Condition)
      modifies this
      ensures conditions == [c]
      ensures ordering == old(ordering) && take == old(take) && offset == old(offset) && limit == old(limit)
    {
      conditions := [c];
    }

    /** `qb.andWhere(...)` adds a condition that must hold as well. */
    method AndWhere(c: Condition)
      modifies this
      ensures conditions == old(conditions) + [c]
      ensures ordering == old(ordering) && take == old(take) && offset == old(offset) && limit == old(limit)
    {
      conditions := conditions + [c];
    }

    /** `qb.orderBy(...)` replaces the ordering. */
    method OrderBy(column: string, dir: Direction)
      modifies this
      ensures ordering == [(column, dir)]
      ensures conditions == old(conditions) && take == old(take) && offset == old(offset) && limit == old(limit)
    {
      ordering := [(column, dir)];
    }

    /** `qb.addOrderBy(...)` appends a tie-breaker. */
    method AddOrderBy(column: string, dir: Direction)
      modifies this
      ensures ordering == old(ordering) + [(column, dir)]
      ensures conditions == old(conditions) && take == old(take) && offset == old(offset) && limit == old(limit)
    {
      ordering := ordering + [(column, dir)];
    }

    method Take(n: int)
      modifies this
      ensures take == Some(n)
      ensures conditions == old(conditions) && ordering == old(ordering) && offset == old(offset) && limit == old(limit)
    {
      take := Some(n);
    }

    method Offset(n: int)
      modifies this
      ensures offset == Some(n)
      ensures conditions == old(conditions) && ordering == old(ordering) && take == old(take) && limit == old(limit)
    {
      offset := Some(n);
    }

    method Limit(n: int)
      modifies this
      ensures limit == Some(n)
      ensures conditions == old(conditions) && ordering == old(ordering) && take == old(take) && offset == old(offset)
    {
      limit := Some(n);
    }
  }
}
