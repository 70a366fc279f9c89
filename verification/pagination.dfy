/** The table's pagination footer. The caller owns the page: it passes the
    current page number, the page size and the total number of items, and
    supplies the rows of that page as the table's data. The table only shows
    "Showing <first> to <last> of <total> results" and asks the caller, through
    `onChange(page, pageSize)`, to move to the previous or the next page. */
module Pagination {

  datatype Pager = Pager(current: int, pageSize: int, total: int)

  /** A request passed to the caller's `onChange(page, pageSize)`. */
  datatype PageRequest = PageRequest(page: int, pageSize: int)

  /** The descriptor the footer is meant for: pages count from 1, a page
      holds at least one item, the total is not negative. */
  predicate Valid(p: Pager)
  {
    p.current >= 1 && p.pageSize > 0 && p.total >= 0
  }

  /** `(current - 1) * pageSize + 1`: the position of the page's first item. */
  function FirstShown(p: Pager): int
  {
    (p.current - 1) * p.pageSize + 1
  }

  /** `Math.min(current * pageSize, total)`: the position of its last item. */
  function LastShown(p: Pager): int
  {
    if p.current * p.pageSize < p.total then p.current * p.pageSize else p.total
  }

  predicate PrevDisabled(p: Pager)
  {
    p.current == 1
  }

  predicate NextDisabled(p: Pager)
  {
    p.current * p.pageSize >= p.total
  }

  function PrevRequest(p: Pager): PageRequest
  {
    PageRequest(p.current - 1, p.pageSize)
  }

  function NextRequest(p: Pager): PageRequest
  {
    PageRequest(p.current + 1, p.pageSize)
  }

  /** The descriptor the caller passes back after honouring a request. */
  function Follow(p: Pager, r: PageRequest): Pager
  {
    Pager(r.page, r.pageSize, p.total)
  }

  /** On a page that exists, the summary names at most one page's worth of
      items, all of them within the total. */
  lemma SummaryCoversOnePage(p: Pager)
    requires Valid(p) && FirstShown(p) <= p.total
    ensures 1 <= FirstShown(p) <= LastShown(p) <= p.total
    ensures LastShown(p) - FirstShown(p) < p.pageSize
  {
  }

  /** Next is enabled exactly when items remain after the last one shown. */
  lemma NextEnabledIffItemsRemain(p: Pager)
    ensures !NextDisabled(p) <==> LastShown(p) < p.total
  {
  }

  /** Following Next continues the count where the current page ended, and
      lands on a page that exists. */
  lemma NextContinuesSummary(p: Pager)
    requires Valid(p) && !NextDisabled(p)
    ensures var q := Follow(p, NextRequest(p));
      Valid(q) && FirstShown(q) == LastShown(p) + 1 && FirstShown(q) <= q.total
  {
    var q := Follow(p, NextRequest(p));
    assert FirstShown(q) == p.current * p.pageSize + 1;
  }

  /** Previous is only offered where it leads to a page numbered 1 or more,
      and it undoes Next. */
  lemma PrevUndoesNext(p: Pager)
    requires Valid(p)
    ensures !PrevDisabled(p) ==> Valid(Follow(p, PrevRequest(p)))
    ensures var q := Follow(p, NextRequest(p));
      !PrevDisabled(q) && Follow(q, PrevRequest(q)) == p
  {
  }

  /** The first page of three items, two per page, as the component's test
      renders it ("Showing 1 to 2 of 3 results"), and the second page of five
      items ("Showing 3 to 4 of 5 results"). */
  lemma SummaryExamples()
    ensures var p := Pager(1, 2, 3);
      FirstShown(p) == 1 && LastShown(p) == 2 && PrevDisabled(p) && !NextDisabled(p)
    ensures var p := Pager(2, 2, 5);
      FirstShown(p) == 3 && LastShown(p) == 4 && !PrevDisabled(p) && !NextDisabled(p)
  {
  }
}
