/**
 * The dashboard's view state (`currentPage`, `recordsPerPage`,
 * `searchTerm`, `sortConfig`) and the event handlers that overwrite it.
 * The fetched records are taken as given when the object is built.
 */
module DashboardState {
  import opened Wrappers
  import opened Records
  import opened ViewPipeline

  /** The page sizes offered by the "Records per page" selector. */
  predicate PageSizeOption(n: int) {
    n == 10 || n == 50 || n == 100
  }

  class Dashboard {
    const records: seq<Record>
    var currentPage: int
    var recordsPerPage: nat
    var searchTerm: string
    var sortConfig: SortConfig

    /** What every handler keeps true: the page is at least 1, the page size is offered, the sort state is whole. */
    ghost predicate Valid()
      reads this
    {
      currentPage >= 1 && PageSizeOption(recordsPerPage) && WellFormed(sortConfig)
    }

    /** The initial `useState` values, once the records have been fetched. */
    constructor (fetched: seq<Record>)
      ensures Valid()
      ensures records == fetched
      ensures currentPage == 1 && recordsPerPage == 10 && searchTerm == "" && sortConfig == Unsorted
      ensures ShownTotalPages().Some?
    {
      records := fetched;
      currentPage := 1;
      recordsPerPage := 10;
      searchTerm := "";
      sortConfig := Unsorted;
      new;
      EmptyTermKeepsAll(fetched);
    }

    /**
     * `totalPages` of the current render, or `None` when the render threw
     * in the filter. When the table is shown it is the page count of the
     * matching records, 0 exactly when none match.
     */
    function ShownTotalPages(): (r: Option<nat>)
      reads this`searchTerm, this`recordsPerPage
      requires recordsPerPage > 0
      ensures r.None? <==> Filter(records, searchTerm).PhoneMissing?
      ensures r.Some? ==>
        var rows := Filter(records, searchTerm).rows;
        (r.value == 0 <==> rows == []) &&
        (r.value - 1) * recordsPerPage < |rows| <= r.value * recordsPerPage
    {
      match Filter(records, searchTerm)
      case Filtered(rows) => Some(TotalPages(|rows|, recordsPerPage))
      case PhoneMissing(_) => None
    }

    /** `requestSort(key)`: the header click; only `sortConfig` changes. */
    method RequestSort(key: SortKey)
      requires Valid() && ShownTotalPages().Some?
      modifies this
      ensures Valid()
      ensures sortConfig == NextSort(old(sortConfig), key)
      ensures currentPage == old(currentPage) && recordsPerPage == old(recordsPerPage)
      ensures searchTerm == old(searchTerm)
      ensures ShownTotalPages() == old(ShownTotalPages())
    {
      var direction: Option<Direction> := Some(Asc);
      var k: Option<SortKey> := Some(key);
      if sortConfig.key == Some(key) && sortConfig.direction == Some(Asc) {
        direction := Some(Desc);
      } else if sortConfig.key == Some(key) && sortConfig.direction == Some(Desc) {
        direction := None;
        k := None;
      }
      sortConfig := SortConfig(k, direction);
    }

    /** The search box's `onChange`: new term, back to page 1, nothing else changes. */
    method ChangeSearch(term: string)
      requires Valid() && ShownTotalPages().Some?
      modifies this
      ensures Valid()
      ensures searchTerm == term && currentPage == 1
      ensures recordsPerPage == old(recordsPerPage) && sortConfig == old(sortConfig)
    {
      searchTerm := term;
      currentPage := 1;
    }

    /** The page-size selector's `onChange`: new size, back to page 1, nothing else changes. */
    method ChangePageSize(n: nat)
      requires Valid() && ShownTotalPages().Some? && PageSizeOption(n)
      modifies this
      ensures Valid()
      ensures recordsPerPage == n && currentPage == 1
      ensures searchTerm == old(searchTerm) && sortConfig == old(sortConfig)
      ensures ShownTotalPages().Some?
    {
      recordsPerPage := n;
      currentPage := 1;
    }

    /** The Previous button is disabled exactly on page 1, where there is no earlier page. */
    function PreviousDisabled(): (r: bool)
      reads this
      ensures Valid() ==> (r <==> currentPage <= 1)
    {
      currentPage == 1
    }

    /**
     * The Next button is disabled only on the page equal to `totalPages`:
     * it stays enabled before the last page, past it, and on every page
     * when there are no pages at all.
     */
    function NextDisabled(totalPages: nat): (r: bool)
      reads this
      ensures currentPage < totalPages ==> !r
      ensures currentPage > totalPages ==> !r
      ensures currentPage == totalPages ==> r
    {
      currentPage == totalPages
    }

    /** A click on Previous: nothing when disabled, otherwise one page back; never below page 1. */
    method ClickPrevious()
      requires Valid() && ShownTotalPages().Some?
      modifies this
      ensures Valid()
      ensures old(PreviousDisabled()) ==> currentPage == old(currentPage)
      ensures !old(PreviousDisabled()) ==> currentPage == old(currentPage) - 1
      ensures recordsPerPage == old(recordsPerPage) && searchTerm == old(searchTerm)
      ensures sortConfig == old(sortConfig)
      ensures ShownTotalPages() == old(ShownTotalPages())
    {
      if !PreviousDisabled() {
        currentPage := currentPage - 1;
      }
    }

    /**
     * A click on Next in a render that showed the table with `totalPages`
     * pages: nothing when disabled, otherwise one page forward. With no
     * matching rows `totalPages` is 0, Next stays enabled and the page
     * still advances.
     */
    method ClickNext(totalPages: nat)
      requires Valid() && ShownTotalPages() == Some(totalPages)
      modifies this
      ensures Valid()
      ensures old(NextDisabled(totalPages)) ==> currentPage == old(currentPage)
      ensures !old(NextDisabled(totalPages)) ==> currentPage == old(currentPage) + 1
      ensures totalPages == 0 ==> currentPage == old(currentPage) + 1
      ensures recordsPerPage == old(recordsPerPage) && searchTerm == old(searchTerm)
      ensures sortConfig == old(sortConfig)
      ensures ShownTotalPages() == old(ShownTotalPages())
    {
      if !NextDisabled(totalPages) {
        currentPage := currentPage + 1;
      }
    }

    /**
     * A click on a page-number button. Every button carries a page of at
     * least 1 (see `PaginationRange`); the button of the current page is
     * disabled, and a click on it would set the same page anyway.
     */
    method ClickPage(page: int)
      requires Valid() && ShownTotalPages().Some? && page >= 1
      modifies this
      ensures Valid()
      ensures currentPage == page
      ensures recordsPerPage == old(recordsPerPage) && searchTerm == old(searchTerm)
      ensures sortConfig == old(sortConfig)
      ensures ShownTotalPages() == old(ShownTotalPages())
    {
      currentPage := page;
    }

    /**
     * The table as the current state renders it: the crash at the first
     * record whose missing phone the filter reads, or the sorted matching
     * records, the rows of the current page and its page buttons.
     */
    method Render() returns (v: View)
      requires Valid()
      ensures Filter(records, searchTerm).PhoneMissing? ==> v == Crashed(Filter(records, searchTerm).at)
      ensures v.Shown? <==> ShownTotalPages().Some?
      ensures v.Shown? ==>
        var filtered := Filter(records, searchTerm).rows;
        (sortConfig == Unsorted ==> v.sorted == filtered) &&
        (sortConfig.key.Some? ==>
          Sorted(v.sorted, sortConfig.key.value, sortConfig.direction.value) &&
          multiset(v.sorted) == multiset(filtered) &&
          Stable(v.sorted, filtered, sortConfig.key.value)) &&
        v.totalPages == ShownTotalPages().value &&
        v.rows == CurrentRecords(v.sorted, currentPage, recordsPerPage) &&
        |v.rows| <= recordsPerPage &&
        ButtonRange(v.pageButtons, currentPage, v.totalPages)
    {
      v := ComputeView(records, searchTerm, sortConfig, currentPage, recordsPerPage);
    }
  }
}
