/**
 Page numbers of the table page: the component keeps a 1-based page number,
 the paginator reports a 0-based page index and is positioned by the offset
 of the page's first row.
 */
module Paging {

  /** Rows requested per page and shown per page. */
  const RowsPerPage: nat := 12

  /** The page number kept after the paginator reports page index
      `eventPage`. */
  function PageFromPaginator(eventPage: nat): (page: int)
    ensures page >= 1
    ensures page - 1 == eventPage
  {
    eventPage + 1
  }

  /** The offset of the first row of page `currentPage`, as handed to the
      paginator. It is a whole number of pages, and it is non-negative
      exactly when the page number is at least 1. */
  function PaginatorFirst(currentPage: int): (first: int)
    ensures first % RowsPerPage == 0
    ensures first / RowsPerPage == currentPage - 1
    ensures first >= 0 <==> currentPage >= 1
  {
    (currentPage - 1) * RowsPerPage
  }

  /** Reporting page index `e` and then positioning the paginator puts its
      first row at `e` whole pages. */
  lemma PaginatorRoundTrip(eventPage: nat)
    ensures PaginatorFirst(PageFromPaginator(eventPage)) == eventPage * RowsPerPage
  {
  }

  /** Positioning the paginator for page `p` and reading back the page index
      it is at gives `p` again. */
  lemma PageRoundTrip(page: int)
    requires page >= 1
    ensures PageFromPaginator(PaginatorFirst(page) / RowsPerPage) == page
  {
  }
}
