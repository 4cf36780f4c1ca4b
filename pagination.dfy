/**
 * The paginated inventory view: a fixed page size of 10 rows, the offset of a
 * page, the `LIMIT ? OFFSET ?` slice of the ordered table, and the number of
 * pages computed from the row count by ceiling division.
 */
module Pagination {

  import opened Stock

  /** Rows per page. */
  const PerPage: nat := 10

  function Min(a: int, b: int): int
  {
    if a <= b then a else b
  }

  /** Offset of a page: the pages before it, ten rows each. */
  function Offset(page: int): (r: nat)
    requires page >= 1
    ensures r % PerPage == 0 && r / PerPage == page - 1
  {
    (page - 1) * PerPage
  }

  /**
   * `LIMIT limit OFFSET offset`: the rows from position `offset`, at most `limit`
   * of them, and no fewer unless the table ends first.  An offset past the end
   * gives no rows.
   */
  function Slice<T>(rows: seq<T>, limit: nat, offset: nat): (r: seq<T>)
    ensures |r| <= limit
    ensures offset >= |rows| ==> r == []
    ensures offset < |rows| ==> offset + |r| <= |rows| && r == rows[offset..offset + |r|]
    ensures |r| == limit || offset + |r| >= |rows|
  {
    if offset >= |rows| then [] else rows[offset..offset + Min(limit, |rows| - offset)]
  }

  /** Page `page` (1-based) of the ordered table. */
  function Page<T>(rows: seq<T>, page: int): (r: seq<T>)
    requires page >= 1
    ensures |r| <= PerPage
    ensures forall i :: 0 <= i < |r| ==> Offset(page) + i < |rows| && r[i] == rows[Offset(page) + i]
    ensures Offset(page) < |rows| ==> |r| == Min(PerPage, |rows| - Offset(page))
  {
    Slice(rows, PerPage, Offset(page))
  }

  /** `total_items // per_page`, plus one when a partial page is left over. */
  function TotalPages(totalItems: nat): (r: nat)
    ensures totalItems == 0 ==> r == 0
    ensures totalItems <= r * PerPage
    ensures r == 0 || (r - 1) * PerPage < totalItems
  {
    totalItems / PerPage + (if totalItems % PerPage > 0 then 1 else 0)
  }

  /** The page count is the only count of full-size pages that just covers the rows. */
  lemma TotalPagesIsCeiling(totalItems: nat, n: nat)
    requires totalItems <= n * PerPage
    requires n == 0 || (n - 1) * PerPage < totalItems
    ensures n == TotalPages(totalItems)
  {
  }

  /** Pages 1 to n, one after the other. */
  function PagesUpTo<T>(rows: seq<T>, n: nat): seq<T>
  {
    if n == 0 then [] else PagesUpTo(rows, n - 1) + Page(rows, n)
  }

  /** The first n pages are the first n * PerPage rows, or the whole table if it is shorter. */
  lemma {:induction false} PagesUpToPrefix<T>(rows: seq<T>, n: nat)
    ensures PagesUpTo(rows, n) == rows[..Min(n * PerPage, |rows|)]
  {
    if n > 0 {
      PagesUpToPrefix(rows, n - 1);
      var before := Min((n - 1) * PerPage, |rows|);
      var after := Min(n * PerPage, |rows|);
      var p := Page(rows, n);
      if (n - 1) * PerPage < |rows| {
        assert p == rows[before..after];
      } else {
        assert p == [];
      }
      assert rows[..before] + rows[before..after] == rows[..after];
    }
  }

  /**
   * Walking pages 1 to TotalPages reproduces the table: every row once, in order.
   */
  lemma PagesCoverTable<T>(rows: seq<T>)
    ensures PagesUpTo(rows, TotalPages(|rows|)) == rows
  {
    PagesUpToPrefix(rows, TotalPages(|rows|));
  }

  /** A page past the last one is empty, not an error. */
  lemma PagePastEnd<T>(rows: seq<T>, page: int)
    requires page > TotalPages(|rows|)
    ensures Page(rows, page) == []
  {
    var t := TotalPages(|rows|);
    assert (page - 1) * PerPage >= t * PerPage;
  }

  /** Every page from 1 to TotalPages holds at least one row. */
  lemma PageWithinRange<T>(rows: seq<T>, page: int)
    requires 1 <= page <= TotalPages(|rows|)
    ensures Page(rows, page) != []
  {
    var t := TotalPages(|rows|);
    assert (page - 1) * PerPage <= (t - 1) * PerPage;
  }

  /** Row k is shown on exactly one page: page k / PerPage + 1, at position k % PerPage. */
  lemma RowOnPage<T>(rows: seq<T>, k: int, page: int)
    requires 0 <= k < |rows| && page >= 1
    ensures Offset(page) <= k < Offset(page) + |Page(rows, page)| <==> page == k / PerPage + 1
    ensures page == k / PerPage + 1 ==> Page(rows, page)[k % PerPage] == rows[k]
  {
    var p := Page(rows, page);
    if page == k / PerPage + 1 {
      assert (page - 1) * PerPage + k % PerPage == k;
      assert 0 <= k % PerPage < |p|;
    }
    if Offset(page) <= k < Offset(page) + |p| {
      assert k / PerPage == page - 1;
    }
  }

  /** What the paginated view renders: the rows of one page and the page count. */
  datatype PageView<T> = PageView(items: seq<T>, page: int, totalPages: nat)

  /**
   * The paginated view.  The `page` request argument defaults to 1 when absent.
   * An offset beyond the 64-bit range cannot be bound as the OFFSET parameter,
   * and the query fails.  Otherwise the items are that page of the table and
   * the page count comes from the row count.
   */
  function View<T>(rows: seq<T>, page: Option<int>): (v: Result<PageView<T>>)
    requires page.Some? ==> page.value >= 1
    ensures page.None? ==> v.Ok? && v.value.page == 1
    ensures page.Some? && Int64(Offset(page.value)) ==> v.Ok? && v.value.page == page.value
    ensures page.Some? && !Int64(Offset(page.value)) ==> v == Err(IntegerOverflow)
    ensures v.Ok? ==> v.value.page >= 1 && v.value.items == Page(rows, v.value.page)
    ensures v.Ok? ==> |rows| <= v.value.totalPages * PerPage
    ensures v.Ok? ==> v.value.totalPages == 0 || (v.value.totalPages - 1) * PerPage < |rows|
  {
    var p := if page.Some? then page.value else 1;
    if Int64(Offset(p)) then Ok(PageView(Page(rows, p), p, TotalPages(|rows|)))
    else Err(IntegerOverflow)
  }
}
