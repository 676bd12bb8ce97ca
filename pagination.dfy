/** Pagination bookkeeping of the dashboard's workday table: the page count
    `Math.ceil(total / limit)`, the count shown with a floor of one, and the
    conditions that disable the Previous and Next buttons. */
module Pagination {
  import opened JsValues

  /** The page size the dashboard starts with. */
  const DefaultLimit: int := 10

  /** The options of the Per Page select. */
  predicate IsPageSize(n: int)
  {
    n == 10 || n == 20 || n == 50
  }

  /** `Math.ceil(total / limit)`: the fewest pages of `limit` entries that hold
      `total` entries. */
  function TotalPages(total: nat, limit: int): (n: nat)
    requires limit > 0
    ensures total <= n * limit
    ensures n > 0 ==> (n - 1) * limit < total
  {
    CeilDiv(total, limit)
  }

  /** `Math.max(1, Math.ceil(total / limit))`, the count in "Page p of n". */
  function DisplayedPageCount(total: nat, limit: int): (n: int)
    requires limit > 0
    ensures n >= 1
    ensures total <= n * limit
    ensures total > 0 ==> (n - 1) * limit < total
    ensures total == 0 ==> n == 1
  {
    Max(1, TotalPages(total, limit))
  }

  /** The Previous button's `disabled` expression. */
  predicate PrevDisabled(page: int)
  {
    page <= 1
  }

  /** The Next button's `disabled` expression; it uses the raw page count. */
  predicate NextDisabled(page: int, total: nat, limit: int)
    requires limit > 0
  {
    page >= TotalPages(total, limit)
  }

  /** For a page of at least one, Next is disabled exactly on and after the
      last page shown, although the two use different counts. */
  lemma NextDisabledOnLastShownPage(page: int, total: nat, limit: int)
    requires limit > 0 && page >= 1
    ensures NextDisabled(page, total, limit) <==> page >= DisplayedPageCount(total, limit)
  {
  }

  /** Following an enabled Next lands on a page that holds at least one entry:
      the first entry of page `page + 1` exists. */
  lemma NextLeadsToNonEmptyPage(page: int, total: nat, limit: int)
    requires limit > 0 && page >= 1
    requires !NextDisabled(page, total, limit)
    ensures page * limit < total
    ensures page + 1 <= DisplayedPageCount(total, limit)
  {
    var n := TotalPages(total, limit);
    MulMonotone(page, n - 1, limit);
  }

  /** Next is disabled exactly when the pages up to this one already hold
      every entry. */
  lemma NextDisabledIffPageFull(page: int, total: nat, limit: int)
    requires limit > 0
    ensures NextDisabled(page, total, limit) <==> page * limit >= total
  {
    var n: int := TotalPages(total, limit);
    if page >= n {
      MulMonotone(n, page, limit);
    } else {
      MulMonotone(page, n - 1, limit);
    }
  }

  lemma MulMonotone(a: int, b: int, c: int)
    requires a <= b && c >= 0
    ensures a * c <= b * c
  {
    assert b * c - a * c == (b - a) * c;
  }

  /** Following an enabled Previous never leaves page one or above. This only
      restates the guard; that the page stays valid across clicks is carried
      by `Dashboard.DashboardState.PrevPage` keeping `Valid()`. */
  lemma PrevKeepsPagePositive(page: int)
    requires !PrevDisabled(page)
    ensures page - 1 >= 1
  {
  }

  /** With no entries the table shows "Page 1 of 1" and both buttons are
      disabled on page one. */
  lemma EmptyListSinglePage(limit: int)
    requires limit > 0
    ensures DisplayedPageCount(0, limit) == 1
    ensures PrevDisabled(1) && NextDisabled(1, 0, limit)
  {
  }

  /** 25 entries at 10 per page: three pages, Next disabled on page 3 and
      Previous disabled on page 1. */
  lemma TwentyFiveEntriesTenPerPage()
    ensures DisplayedPageCount(25, 10) == 3
    ensures NextDisabled(3, 25, 10) && !NextDisabled(2, 25, 10)
    ensures PrevDisabled(1) && !PrevDisabled(2)
  {
    assert TotalPages(25, 10) == 3;
  }
}
