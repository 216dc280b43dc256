/**
 * The products page with its search-and-filter panel wired in
 * (src/app/products/page.tsx passes `handleSearch` and `handleFilter` as the
 * panel's `onSearch` and `onFilter`). Every user action goes to the panel, and
 * whatever the panel emits goes on to the page's handler.
 */
module CatalogSession {
  import opened I18n
  import opened Types
  import opened Catalog
  import opened SearchAndFilter
  import PP = ProductsPage

  class CatalogSession {
    const page: PP.ProductsPage
    const panel: SearchPanel
    /** Whether a handler has re-derived the displayed list since the last load. */
    ghost var refreshed: bool

    /**
     * The page's stored query is the panel's text and its stored category and sort
     * are those of the last Apply or Clear; the displayed list is the derived view
     * once a handler has run, and the raw fetched list right after a load.
     */
    ghost predicate Valid()
      reads this, page, panel
    {
      && panel.Valid()
      && page.searchQuery == panel.searchQuery == LastSearch(panel.emitted)
      && (page.selectedCategory, page.sortBy) == LastFilter(panel.emitted)
      && (refreshed ==> page.ShowsStoredView())
      && (!refreshed ==> page.filteredProducts == page.products)
    }

    constructor (locale: Language, collate: (string, string) -> bool)
      ensures Valid() && fresh(page) && fresh(panel)
      ensures page.locale == locale && page.collate == collate
      ensures page.products == [] && page.filteredProducts == [] && page.loading && !refreshed
      ensures page.searchQuery == "" && page.selectedCategory == "" && page.sortBy == ""
      ensures panel.searchQuery == "" && panel.selectedCategory == "" && panel.sortBy == ""
      ensures !panel.isFilterOpen && panel.emitted == []
    {
      page := new PP.ProductsPage(locale, collate);
      panel := new SearchPanel();
      refreshed := false;
    }

    /** The stored sort is always one the dropdown offers. */
    lemma StoredSortOffered()
      requires Valid()
      ensures page.sortBy in SortOptions
    {
      LastFilterSortOffered(panel.emitted);
    }

    /** The fetch resolved: the page shows the fetched list as it came, whatever is typed or applied. */
    method Load(result: seq<Product>)
      requires Valid()
      modifies this, page
      ensures Valid() && !refreshed
      ensures page.products == result && page.filteredProducts == result && !page.loading
      ensures page.searchQuery == old(page.searchQuery)
      ensures page.selectedCategory == old(page.selectedCategory) && page.sortBy == old(page.sortBy)
    {
      page.LoadSucceeded(result);
      refreshed := false;
    }

    /** The fetch failed: only the loading flag changes. */
    method LoadFails()
      requires Valid()
      modifies page
      ensures Valid() && !page.loading
      ensures page.products == old(page.products) && page.filteredProducts == old(page.filteredProducts)
    {
      page.LoadFailed();
    }

    /** Typing in the search box re-derives the list with the new text at once. */
    method Type(text: string)
      requires Valid()
      modifies this, page, panel
      ensures Valid() && refreshed
      ensures page.searchQuery == text
      ensures page.selectedCategory == old(page.selectedCategory) && page.sortBy == old(page.sortBy)
      ensures page.products == old(page.products)
      ensures page.filteredProducts == View(page.products, page.locale, page.collate, text, page.selectedCategory, page.sortBy)
      ensures page.loading == old(page.loading)
      ensures panel.selectedCategory == old(panel.selectedCategory) && panel.sortBy == old(panel.sortBy)
      ensures panel.isFilterOpen == old(panel.isFilterOpen) && panel.emitted == old(panel.emitted) + [OnSearch(text)]
    {
      panel.HandleSearch(text);
      page.HandleSearch(text);
      LastAfterEmit(old(panel.emitted), OnSearch(text));
      refreshed := true;
    }

    /** Choosing a category in the dropdown changes only the panel's pending value. */
    method PickCategory(category: string)
      requires Valid()
      requires category == "" || category in page.Categories()
      modifies panel
      ensures Valid()
      ensures panel.selectedCategory == category
      ensures panel.searchQuery == old(panel.searchQuery) && panel.sortBy == old(panel.sortBy)
      ensures panel.isFilterOpen == old(panel.isFilterOpen) && panel.emitted == old(panel.emitted)
      ensures page.selectedCategory == old(page.selectedCategory) && page.filteredProducts == old(page.filteredProducts)
    {
      panel.SelectCategory(category, page.Categories());
    }

    /** Choosing a sort in the dropdown changes only the panel's pending value. */
    method PickSort(option: string)
      requires Valid()
      requires option in SortOptions
      modifies panel
      ensures Valid()
      ensures panel.sortBy == option
      ensures panel.searchQuery == old(panel.searchQuery) && panel.selectedCategory == old(panel.selectedCategory)
      ensures panel.isFilterOpen == old(panel.isFilterOpen) && panel.emitted == old(panel.emitted)
      ensures page.sortBy == old(page.sortBy) && page.filteredProducts == old(page.filteredProducts)
    {
      panel.SelectSort(option);
    }

    /** Apply: the page takes over the pending category and sort and re-derives with the stored query. */
    method Apply()
      requires Valid()
      modifies this, page, panel
      ensures Valid() && refreshed
      ensures page.selectedCategory == panel.selectedCategory == old(panel.selectedCategory)
      ensures page.sortBy == panel.sortBy == old(panel.sortBy)
      ensures page.searchQuery == old(page.searchQuery) && page.products == old(page.products)
      ensures page.filteredProducts == View(page.products, page.locale, page.collate, page.searchQuery, page.selectedCategory, page.sortBy)
      ensures page.loading == old(page.loading) && panel.searchQuery == old(panel.searchQuery)
      ensures panel.isFilterOpen == old(panel.isFilterOpen)
      ensures panel.emitted == old(panel.emitted) + [OnFilter(old(panel.selectedCategory), old(panel.sortBy))]
    {
      panel.HandleFilter();
      page.HandleFilter(panel.selectedCategory, panel.sortBy);
      LastAfterEmit(old(panel.emitted), OnFilter(panel.selectedCategory, panel.sortBy));
      refreshed := true;
    }

    /** Clear: panel and page go back to all categories in name order; the query stays. */
    method Clear()
      requires Valid()
      modifies this, page, panel
      ensures Valid() && refreshed
      ensures page.selectedCategory == "" && page.sortBy == "" && panel.selectedCategory == "" && panel.sortBy == ""
      ensures page.searchQuery == old(page.searchQuery) && page.products == old(page.products)
      ensures page.filteredProducts == View(page.products, page.locale, page.collate, page.searchQuery, "", "")
      ensures page.loading == old(page.loading) && panel.searchQuery == old(panel.searchQuery)
      ensures panel.isFilterOpen == old(panel.isFilterOpen) && panel.emitted == old(panel.emitted) + [OnFilter("", "")]
    {
      panel.ClearFilters();
      page.HandleFilter("", "");
      LastAfterEmit(old(panel.emitted), OnFilter("", ""));
      refreshed := true;
    }

    /** Opening or closing the filter section touches neither the page nor the pending values. */
    method Toggle()
      requires Valid()
      modifies panel
      ensures Valid()
      ensures panel.isFilterOpen == !old(panel.isFilterOpen)
      ensures panel.selectedCategory == old(panel.selectedCategory) && panel.sortBy == old(panel.sortBy)
      ensures panel.searchQuery == old(panel.searchQuery) && panel.emitted == old(panel.emitted)
    {
      panel.ToggleFilter();
    }
  }
}
