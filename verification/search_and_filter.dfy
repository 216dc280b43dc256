/**
 * The search-and-filter panel (src/components/SearchAndFilter.tsx). It keeps a
 * pending category and sort that only reach the page when Apply or Clear is
 * pressed, while every keystroke in the search box reaches the page at once.
 * The callbacks it fires are recorded in `emitted`, oldest first.
 */
module SearchAndFilter {

  /** A call of one of the panel's two callbacks. */
  datatype Emit = OnSearch(query: string) | OnFilter(category: string, sortBy: string)

  /** The values of the sort dropdown: name order (the empty value) and the four keyed orders. */
  const SortOptions: seq<string> := ["", "price-low", "price-high", "newest", "oldest"]

  /** The category and sort of the last `onFilter` call, or the page's initial `('', '')`. */
  function LastFilter(log: seq<Emit>): (string, string)
  {
    if log == [] then ("", "")
    else if log[|log| - 1].OnFilter? then (log[|log| - 1].category, log[|log| - 1].sortBy)
    else LastFilter(log[..|log| - 1])
  }

  /** The query of the last `onSearch` call, or the page's initial `''`. */
  function LastSearch(log: seq<Emit>): string
  {
    if log == [] then ""
    else if log[|log| - 1].OnSearch? then log[|log| - 1].query
    else LastSearch(log[..|log| - 1])
  }

  /** A search call does not change the last applied filter, and a filter call does not change the last query. */
  lemma LastAfterEmit(log: seq<Emit>, e: Emit)
    ensures e.OnSearch? ==> LastFilter(log + [e]) == LastFilter(log) && LastSearch(log + [e]) == e.query
    ensures e.OnFilter? ==> LastFilter(log + [e]) == (e.category, e.sortBy) && LastSearch(log + [e]) == LastSearch(log)
  {
    assert (log + [e])[..|log + [e]| - 1] == log;
  }

  /** Every `onFilter` call carries a sort value offered by the dropdown. */
  ghost predicate SortsOffered(log: seq<Emit>)
  {
    forall e :: e in log && e.OnFilter? ==> e.sortBy in SortOptions
  }

  /** The sort keys the panel can emit: in any log it may produce, the last applied sort is a dropdown value. */
  lemma {:induction false} LastFilterSortOffered(log: seq<Emit>)
    requires SortsOffered(log)
    ensures LastFilter(log).1 in SortOptions
  {
    if log != [] && !log[|log| - 1].OnFilter? {
      assert forall e :: e in log[..|log| - 1] ==> e in log;
      LastFilterSortOffered(log[..|log| - 1]);
    }
  }

  class SearchPanel {
    var searchQuery: string
    var selectedCategory: string
    var sortBy: string
    var isFilterOpen: bool
    var emitted: seq<Emit>

    ghost predicate Valid()
      reads this
    {
      sortBy in SortOptions && SortsOffered(emitted)
    }

    /** The panel as first rendered: empty fields, closed filter section, nothing emitted. */
    constructor ()
      ensures Valid()
      ensures searchQuery == "" && selectedCategory == "" && sortBy == "" && !isFilterOpen
      ensures emitted == []
    {
      searchQuery := "";
      selectedCategory := "";
      sortBy := "";
      isFilterOpen := false;
      emitted := [];
    }

    /** Typing: the box takes the new text and `onSearch` fires with exactly that text. */
    method HandleSearch(query: string)
      requires Valid()
      modifies this
      ensures Valid()
      ensures searchQuery == query && emitted == old(emitted) + [OnSearch(query)]
      ensures selectedCategory == old(selectedCategory) && sortBy == old(sortBy) && isFilterOpen == old(isFilterOpen)
    {
      searchQuery := query;
      emitted := emitted + [OnSearch(query)];
    }

    /** Choosing in the category dropdown, whose options are `''` and the page's categories: nothing is emitted. */
    method SelectCategory(category: string, categories: seq<string>)
      requires Valid()
      requires category == "" || category in categories
      modifies this
      ensures Valid()
      ensures selectedCategory == category
      ensures searchQuery == old(searchQuery) && sortBy == old(sortBy) && isFilterOpen == old(isFilterOpen)
      ensures emitted == old(emitted)
    {
      selectedCategory := category;
    }

    /** Choosing in the sort dropdown: nothing is emitted. */
    method SelectSort(option: string)
      requires Valid()
      requires option in SortOptions
      modifies this
      ensures Valid()
      ensures sortBy == option
      ensures searchQuery == old(searchQuery) && selectedCategory == old(selectedCategory) && isFilterOpen == old(isFilterOpen)
      ensures emitted == old(emitted)
    {
      sortBy := option;
    }

    /** Apply: `onFilter` fires with the pending category and sort, which stay as they are. */
    method HandleFilter()
      requires Valid()
      modifies this
      ensures Valid()
      ensures emitted == old(emitted) + [OnFilter(selectedCategory, sortBy)]
      ensures searchQuery == old(searchQuery) && selectedCategory == old(selectedCategory)
      ensures sortBy == old(sortBy) && isFilterOpen == old(isFilterOpen)
    {
      emitted := emitted + [OnFilter(selectedCategory, sortBy)];
    }

    /** Clear: both pending values return to `''` and `onFilter('', '')` fires; the query stays. */
    method ClearFilters()
      requires Valid()
      modifies this
      ensures Valid()
      ensures selectedCategory == "" && sortBy == "" && !ShowsClear()
      ensures emitted == old(emitted) + [OnFilter("", "")]
      ensures searchQuery == old(searchQuery) && isFilterOpen == old(isFilterOpen)
    {
      selectedCategory := "";
      sortBy := "";
      emitted := emitted + [OnFilter("", "")];
    }

    /** The filter button opens or closes the filter section and changes nothing else. */
    method ToggleFilter()
      requires Valid()
      modifies this
      ensures Valid()
      ensures isFilterOpen == !old(isFilterOpen)
      ensures searchQuery == old(searchQuery) && selectedCategory == old(selectedCategory) && sortBy == old(sortBy)
      ensures emitted == old(emitted)
    {
      isFilterOpen := !isFilterOpen;
    }

    /** The Clear control is rendered iff a category or a sort is pending. */
    predicate ShowsClear()
      reads this
    {
      selectedCategory != "" || sortBy != ""
    }
  }
}
