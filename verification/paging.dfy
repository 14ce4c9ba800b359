/**
 * The paged response envelope: the page's items, the total number of matching rows, the page
 * number and size it was cut with, and the page count and neighbour flags derived from them.
 */
module Paging {
  import opened SubsidyQuery
  import Catalog

  datatype PagedResult<T> = PagedResult(items: seq<T>, totalCount: int, page: int, pageSize: int)

  /** `Math.Ceiling(a / b)` for a positive divisor: the least whole number at or above `a / b`. */
  function CeilDiv(a: int, b: int): (n: int)
    requires b > 0
    ensures (n - 1) * b < a <= n * b
  {
    if a >= 0 then
      var q, m := a / b, a % b;
      assert a == q * b + m;
      if m == 0 then q
      else
        assert (q + 1) * b == q * b + b;
        q + 1
    else
      var q, m := (-a) / b, (-a) % b;
      assert -a == q * b + m;
      assert (-q - 1) * b == -(q * b) - b;
      assert -q * b == -(q * b);
      -q
  }

  /** `TotalPages`: how many pages of `PageSize` the matching rows fill, the last one possibly short. */
  function TotalPages<T>(p: PagedResult<T>): (n: int)
    requires p.pageSize > 0
    ensures (n - 1) * p.pageSize < p.totalCount <= n * p.pageSize
  {
    CeilDiv(p.totalCount, p.pageSize)
  }

  predicate HasPreviousPage<T>(p: PagedResult<T>) {
    p.page > 1
  }

  predicate HasNextPage<T>(p: PagedResult<T>)
    requires p.pageSize > 0
  {
    p.page < TotalPages(p)
  }

  /** No matching rows means no pages, so no page has a next one. */
  lemma NoRowsNoPages<T>(p: PagedResult<T>)
    requires p.pageSize > 0 && p.totalCount == 0 && p.page >= 0
    ensures TotalPages(p) == 0 && !HasNextPage(p)
  {
  }

  /** With `n` the ceiling of `count / size`, page `page` ends before the rows do exactly when it precedes page `n`. */
  lemma BeforeLastPage(page: int, n: int, size: int, count: int)
    requires size > 0 && (n - 1) * size < count <= n * size
    ensures page < n <==> page * size < count
  {
    if page < n {
      assert page * size <= (n - 1) * size;
    } else {
      assert n * size <= page * size;
    }
  }

  /** A first page as large as the whole count reports no next page. */
  lemma SinglePage<T>(p: PagedResult<T>)
    requires p.page == 1 && p.pageSize >= p.totalCount && p.pageSize > 0
    ensures !HasNextPage(p)
  {
    BeforeLastPage(p.page, TotalPages(p), p.pageSize, p.totalCount);
  }

  /**
   * The envelope of a listing tells the truth about the next page: it reports one exactly when
   * the listing's next page holds some row.
   */
  lemma NextPageIffMoreRows<T>(p: PagedResult<T>, t: Catalog.Table, f: SubsidyFilter, next: SubsidyFilter)
    requires f.pageSize > 0 && f.page >= 1
    requires p.totalCount == GetCount(t, f) && p.page == f.page && p.pageSize == f.pageSize
    requires next == f.(page := f.page + 1)
    ensures HasNextPage(p) <==> GetAll(t, next) != []
  {
    var n := TotalPages(p);
    BeforeLastPage(p.page, n, p.pageSize, p.totalCount);
    var ps, count := f.pageSize, GetCount(t, f);
    assert PageStart(next) == f.page * ps by {
      assert Offset(next) == f.page * ps;
    }
    assert GetCount(t, next) == count by {
      assert BuildQuery(t, next) == BuildQuery(t, f);
    }
    assert |GetAll(t, next)| == PageLength(count, next);
  }
}
