/**
 The table page component as a state machine. Its state is what the
 component keeps between renders; each method is one event handler, run to
 completion before the next one starts. The HTTP request is not part of the
 model: a successful fetch is the event `FetchSucceeded`, which receives the
 page of rows the remote catalog returned.
 */
module TablePageComponent {
  import opened Records
  import opened Bookkeeping
  import opened Paging

  /** The merge loop of a fetch: each row of the slice is added to a copy of
      the selection unless its id is already a key. */
  method MergeAutoSelected(selected: Selection, slice: seq<Record>) returns (newSelections: Selection)
    ensures newSelections == AddMissing(selected, slice)
  {
    newSelections := selected;
    for i := 0 to |slice|
      invariant newSelections == AddMissing(selected, slice[..i])
    {
      assert slice[..i + 1][..i] == slice[..i];
      if slice[i].id !in newSelections {
        newSelections := newSelections[slice[i].id := slice[i]];
      }
    }
    assert slice[..|slice|] == slice;
  }

  class TablePage {
    /** The rows of the page on display. */
    var data: seq<Record>
    /** The rows selected across all pages, by id. */
    var selectedRows: Selection
    /** The 1-based page number on display. */
    var currentPage: int
    /** The total row count the catalog reported. */
    var totalRecords: int
    /** The number typed into the auto-select popup. */
    var autoSelectCount: int
    /** Rows still to be auto-selected as further pages arrive. */
    var remainingAutoSelect: int
    /** Whether the auto-select popup is open. */
    var popupVisible: bool

    /** Every row fetched in this session or restored from storage. */
    ghost var seen: set<Record>
    /** The keys of the selection restored from storage. */
    ghost var restored: set<Id>

    /** Every selected row was fetched or restored, and so was every row on
        display: the selection never holds a row that never arrived. Every
        entry the component stored is stored under its own row's id; only an
        entry restored from storage may be keyed otherwise. */
    ghost predicate Valid()
      reads this
    {
      && selectedRows.Values <= seen
      && (forall r :: r in data ==> r in seen)
      && KeyedExcept(selectedRows, restored)
    }

    /** The component as first rendered: the selection and the page number
        restored from storage, no rows yet, the popup closed, no auto-select
        pending. */
    constructor (savedSelection: Selection, savedPage: int)
      ensures Valid()
      ensures data == [] && selectedRows == savedSelection && currentPage == savedPage
      ensures totalRecords == 0 && autoSelectCount == 0 && remainingAutoSelect == 0 && !popupVisible
      ensures seen == savedSelection.Values && restored == savedSelection.Keys
    {
      data := [];
      selectedRows := savedSelection;
      currentPage := savedPage;
      totalRecords := 0;
      autoSelectCount := 0;
      remainingAutoSelect := 0;
      popupVisible := false;
      seen := savedSelection.Values;
      restored := savedSelection.Keys;
    }

    /** A page of rows arrived: it goes on display, and while an auto-select
        is pending its leading rows are merged into the selection and charged
        to the counter. */
    method FetchSucceeded(fetched: seq<Record>, total: int)
      requires Valid()
      modifies this
      ensures Valid()
      ensures data == fetched && totalRecords == total
      ensures selectedRows == FetchMerge(old(selectedRows), fetched, old(remainingAutoSelect)).selection
      ensures remainingAutoSelect == FetchMerge(old(selectedRows), fetched, old(remainingAutoSelect)).remaining
      ensures currentPage == old(currentPage) && autoSelectCount == old(autoSelectCount)
      ensures popupVisible == old(popupVisible)
      ensures seen == old(seen) + RowSet(fetched) && restored == old(restored)
    {
      FetchMergeValues(selectedRows, fetched, remainingAutoSelect);
      FetchMergeKeyed(selectedRows, fetched, remainingAutoSelect, restored);
      data := fetched;
      totalRecords := total;
      seen := seen + RowSet(fetched);
      if remainingAutoSelect > 0 {
        var selectCount := Min(remainingAutoSelect, |fetched|);
        var slice := fetched[..selectCount];
        var newSelections := MergeAutoSelected(selectedRows, slice);
        remainingAutoSelect := Max(0, remainingAutoSelect - selectCount);
        selectedRows := newSelections;
      }
    }

    /** The table reported the rows now checked on the visible page: every
        row of the page is selected when checked and unselected otherwise;
        selections on other pages stay. */
    method SelectionChanged(checkedRows: seq<Record>)
      requires Valid()
      modifies this
      ensures Valid()
      ensures selectedRows == Reconcile(old(selectedRows), data, IdsOf(checkedRows))
      ensures data == old(data) && currentPage == old(currentPage) && totalRecords == old(totalRecords)
      ensures autoSelectCount == old(autoSelectCount) && remainingAutoSelect == old(remainingAutoSelect)
      ensures popupVisible == old(popupVisible)
      ensures seen == old(seen) && restored == old(restored)
    {
      var newSelectedRows := selectedRows;
      var checked := set r | r in checkedRows :: r.id;
      for i := 0 to |data|
        invariant newSelectedRows == Reconcile(selectedRows, data[..i], checked)
      {
        assert data[..i + 1][..i] == data[..i];
        var row := data[i];
        if row.id in checked {
          newSelectedRows := newSelectedRows[row.id := row];
        } else {
          newSelectedRows := newSelectedRows - {row.id};
        }
      }
      assert data[..|data|] == data;
      ReconcileValues(selectedRows, data, checked);
      ReconcileKeyedExcept(selectedRows, data, checked, restored);
      selectedRows := newSelectedRows;
    }

    /** The rows of the visible page shown as checked: exactly those whose
        id is selected, in page order. */
    function SelectedRowsForCurrentPage(): (rows: seq<Record>)
      reads this
      ensures forall r :: r in rows <==> r in data && r.id in selectedRows
      ensures IsSubsequence(rows, data)
      ensures forall r :: multiset(rows)[r] == if r.id in selectedRows then multiset(data)[r] else 0
    {
      SelectedOnPageInOrder(data, selectedRows);
      SelectedOnPage(data, selectedRows)
    }

    /** The user typed a number into the auto-select popup. */
    method AutoSelectCountChanged(count: int)
      modifies this`autoSelectCount
      ensures autoSelectCount == count
    {
      autoSelectCount := count;
    }

    /** The user clicked the button that opens and closes the popup. */
    method PopupToggled()
      modifies this`popupVisible
      ensures popupVisible == !old(popupVisible)
    {
      popupVisible := !popupVisible;
    }

    /** The user submitted the popup: the typed count becomes the pending
        auto-select counter, the input is cleared and the popup closes. The
        refetch of the current page that follows is the next
        `FetchSucceeded` event. */
    method AutoSelectSubmitted()
      requires Valid()
      modifies this
      ensures Valid()
      ensures remainingAutoSelect == old(autoSelectCount)
      ensures autoSelectCount == 0 && !popupVisible
      ensures data == old(data) && selectedRows == old(selectedRows)
      ensures currentPage == old(currentPage) && totalRecords == old(totalRecords)
      ensures seen == old(seen) && restored == old(restored)
    {
      remainingAutoSelect := autoSelectCount;
      popupVisible := false;
      autoSelectCount := 0;
    }

    /** The paginator reported page index `eventPage`: the page number
        becomes the 1-based number of that page. The fetch of that page
        that follows is the next `FetchSucceeded` event. */
    method PageChanged(eventPage: nat)
      modifies this`currentPage
      ensures currentPage == PageFromPaginator(eventPage)
      ensures PaginatorFirst(currentPage) == eventPage * RowsPerPage
    {
      currentPage := PageFromPaginator(eventPage);
      PaginatorRoundTrip(eventPage);
    }

    /** Where the paginator is positioned for the page on display. */
    function First(): (first: int)
      reads this
      ensures first % RowsPerPage == 0
      ensures first >= 0 <==> currentPage >= 1
    {
      PaginatorFirst(currentPage)
    }
  }
}
