/** The data table's view state: the search term, the sort column and
    direction, and the current page, as the table's event handlers update
    them. */
module TableState {
  import opened Sequences
  import opened Records
  import opened TableView

  /** A click on the header of `column`: the current sort column flips its
      direction; any other column becomes the sort column, ascending. */
  function HeaderClick(sortColumn: string, dir: Direction, column: string): (r: (string, Direction))
    ensures r.0 == column
    ensures sortColumn == column ==> r.1 != dir
    ensures sortColumn != column ==> r.1 == Asc
  {
    if sortColumn == column then (column, if dir == Asc then Desc else Asc)
    else (column, Asc)
  }

  /** Two clicks on the same header leave the sort as it was when that
      column was already the sort column, and give descending otherwise. */
  lemma HeaderClickTwice(sortColumn: string, dir: Direction, column: string)
    ensures var once := HeaderClick(sortColumn, dir, column);
      var twice := HeaderClick(once.0, once.1, column);
      twice == if sortColumn == column then (sortColumn, dir) else (column, Desc)
  {
  }

  class ViewState {
    var searchTerm: string
    var sortColumn: string
    var sortDirection: Direction
    var currentPage: int

    ghost predicate Valid()
      reads this
    {
      currentPage >= 1
    }

    /** The initial state: no search, no sort column, ascending, page 1. */
    constructor ()
      ensures Valid()
      ensures searchTerm == "" && sortColumn == "" && sortDirection == Asc && currentPage == 1
    {
      searchTerm := "";
      sortColumn := "";
      sortDirection := Asc;
      currentPage := 1;
    }

    /** `sortedData` for the current state. */
    function Sorted(data: seq<Row>): seq<Row>
      reads this
    {
      SortRows(FilterRows(data, searchTerm), sortColumn, sortDirection)
    }

    /** `totalPages` for the current state. */
    function PageCount(data: seq<Row>): nat
      reads this
    {
      TotalPages(|Sorted(data)|)
    }

    /** `paginatedData`: the rows on the current page. */
    function Window(data: seq<Row>): (w: seq<Row>)
      reads this
      requires Valid()
      ensures |w| <= RowsPerPage
      ensures currentPage > PageCount(data) ==> w == []
      ensures multiset(w) <= multiset(FilterRows(data, searchTerm))
      ensures w == PageWindow(Sorted(data), currentPage)
    {
      var s := Sorted(data);
      PageWindowSubMultiset(s, currentPage);
      if currentPage > TotalPages(|s|) then
        PageBeyondLastIsEmpty(s, currentPage);
        PageWindow(s, currentPage)
      else
        PageWindow(s, currentPage)
    }

    /** Clicking a column header. */
    method ClickHeader(column: string)
      requires Valid()
      modifies this
      ensures Valid()
      ensures (sortColumn, sortDirection) == HeaderClick(old(sortColumn), old(sortDirection), column)
      ensures searchTerm == old(searchTerm) && currentPage == old(currentPage)
    {
      if sortColumn == column {
        sortDirection := if sortDirection == Asc then Desc else Asc;
      } else {
        sortColumn := column;
        sortDirection := Asc;
      }
    }

    /** Typing in the search box. The page is not reset, so it may now lie
        past the last page and show no rows. */
    method SetSearchTerm(term: string)
      requires Valid()
      modifies this
      ensures Valid()
      ensures searchTerm == term
      ensures sortColumn == old(sortColumn) && sortDirection == old(sortDirection) && currentPage == old(currentPage)
    {
      searchTerm := term;
    }

    /** Choosing a column in the sort selector: the direction is kept. */
    method SelectSortColumn(column: string)
      requires Valid()
      modifies this
      ensures Valid()
      ensures sortColumn == column
      ensures searchTerm == old(searchTerm) && sortDirection == old(sortDirection) && currentPage == old(currentPage)
    {
      sortColumn := column;
    }

    /** The Previous button, shown only when there is more than one page and
        disabled on page 1. */
    method PreviousPage(data: seq<Row>)
      requires Valid() && PageCount(data) > 1
      modifies this
      ensures Valid()
      ensures currentPage == if old(currentPage) == 1 then 1 else old(currentPage) - 1
      ensures old(currentPage) <= PageCount(data) ==> currentPage <= PageCount(data)
      ensures searchTerm == old(searchTerm) && sortColumn == old(sortColumn) && sortDirection == old(sortDirection)
    {
      if currentPage != 1 {
        currentPage := currentPage - 1;
      }
    }

    /** The Next button, shown only when there is more than one page and
        disabled exactly on the last page; from a page past the last one it
        still moves on. */
    method NextPage(data: seq<Row>)
      requires Valid() && PageCount(data) > 1
      modifies this
      ensures Valid()
      ensures currentPage == if old(currentPage) == PageCount(data) then old(currentPage) else old(currentPage) + 1
      ensures old(currentPage) <= PageCount(data) ==> currentPage <= PageCount(data)
      ensures searchTerm == old(searchTerm) && sortColumn == old(sortColumn) && sortDirection == old(sortDirection)
    {
      var total := PageCount(data);
      if currentPage != total {
        currentPage := currentPage + 1;
      }
    }

    /** The numbered buttons: pages 1 to min(5, totalPages), shown only when
        there is more than one page. */
    method GoToPage(data: seq<Row>, page: int)
      requires Valid() && PageCount(data) > 1
      requires 1 <= page <= 5 && page <= PageCount(data)
      modifies this
      ensures Valid()
      ensures currentPage == page
      ensures searchTerm == old(searchTerm) && sortColumn == old(sortColumn) && sortDirection == old(sortDirection)
    {
      currentPage := page;
    }
  }
}
