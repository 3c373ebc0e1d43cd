/** Offset pagination as `CommonUtil.ApplyPagePaginationParamsToQb` sets it up. */
module CommonUtil {
  import opened Wrappers
  import QueryBuilder

  /** Rows skipped before page `page` when every page holds `limit` rows. */
  function PageOffset(page: int, limit: int): (r: int)
    ensures page >= 1 && limit >= 0 ==> r >= 0
  {
    (page - 1) * limit
  }

  /** Sets OFFSET and LIMIT and nothing else. */
  method ApplyPagePagination(qb: QueryBuilder.SelectQuery, page: int, limit: int)
    modifies qb
    ensures qb.offset == Option.Some(PageOffset(page, limit))
    ensures qb.limit == Option.Some(limit)
    ensures qb.conditions == old(qb.conditions) && qb.ordering == old(qb.ordering) && qb.take == old(qb.take)
  {
    qb.Offset(PageOffset(page, limit));
    qb.Limit(limit);
  }

  lemma MulMonotone(a: int, b: int, limit: int)
    requires a <= b && limit >= 0
    ensures a * limit <= b * limit
  {
  }

  /**
   * With a positive page size, pages 1, 2, ... cover every row position
   * exactly once: position `i` lies in the window of page `i / limit + 1`
   * and in the window of no other page.
   */
  lemma PagesTile(i: nat, limit: int, page: int)
    requires limit > 0 && page >= 1
    ensures PageOffset(page, limit) <= i < PageOffset(page, limit) + limit <==> page == i / limit + 1
  {
    var q, rem := i / limit, i % limit;
    assert i == q * limit + rem && 0 <= rem < limit;
    assert PageOffset(q + 1, limit) == q * limit;
    if page - 1 < q {
      // the window of `page` ends at or before the start of page q + 1
      MulMonotone(page, q, limit);
      assert (page - 1) * limit + limit == page * limit;
    } else if page - 1 > q {
      // the window of `page` starts after the end of page q + 1
      MulMonotone(q + 1, page - 1, limit);
      assert (q + 1) * limit == q * limit + limit;
    }
  }
}
