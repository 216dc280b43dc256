/**
 * The state of the products page (src/app/products/page.tsx): the fetched list,
 * the displayed list and the applied search, category and sort. The locale is
 * fixed for the page's lifetime (its setter is never called) and
 * `localeCompare` is the caller-supplied `collate`.
 */
module ProductsPage {
  import opened I18n
  import opened Types
  import opened Catalog
  import opened Sequences
  import opened StableSort

  class ProductsPage {
    const locale: Language
    const collate: (string, string) -> bool
    var products: seq<Product>
    var filteredProducts: seq<Product>
    var loading: bool
    var searchQuery: string
    var selectedCategory: string
    var sortBy: string

    /** The page as first rendered: nothing fetched, loading, no query, category or sort. */
    constructor (locale: Language, collate: (string, string) -> bool)
      ensures this.locale == locale && this.collate == collate
      ensures products == [] && filteredProducts == [] && loading
      ensures searchQuery == "" && selectedCategory == "" && sortBy == ""
    {
      this.locale := locale;
      this.collate := collate;
      products := [];
      filteredProducts := [];
      loading := true;
      searchQuery := "";
      selectedCategory := "";
      sortBy := "";
    }

    /** The fetch resolved: both lists become the fetched list, in fetch order, unsorted. */
    method LoadSucceeded(result: seq<Product>)
      modifies this
      ensures products == result && filteredProducts == result && !loading
      ensures searchQuery == old(searchQuery) && selectedCategory == old(selectedCategory) && sortBy == old(sortBy)
    {
      products := result;
      filteredProducts := result;
      loading := false;
    }

    /** The fetch failed: the error is logged (not modelled) and only the loading flag changes. */
    method LoadFailed()
      modifies this
      ensures !loading
      ensures products == old(products) && filteredProducts == old(filteredProducts)
      ensures searchQuery == old(searchQuery) && selectedCategory == old(selectedCategory) && sortBy == old(sortBy)
    {
      loading := false;
    }

    /** The facet list handed to the filter panel, always taken from the full fetched list. */
    function Categories(): (cs: seq<string>)
      reads this
      ensures forall c :: c in cs <==> exists p :: p in products && Localize(locale, p).category == c
      ensures NoDuplicates(cs)
    {
      CategoriesSpec(products, locale);
      Catalog.Categories(products, locale)
    }

    /**
     * `filterProducts`: start from a copy of the fetched list, drop what fails the
     * search and the category, sort the rest in place and display it.
     */
    method FilterProducts(search: string, category: string, sort: string)
      modifies this
      ensures filteredProducts == View(products, locale, collate, search, category, sort)
      ensures products == old(products) && loading == old(loading)
      ensures searchQuery == old(searchQuery) && selectedCategory == old(selectedCategory) && sortBy == old(sortBy)
    {
      var filtered := products;
      if search != "" {
        filtered := Keep(filtered, MatchesSearch(locale, search));
      }
      if category != "" {
        filtered := Keep(filtered, InCategory(locale, category));
      }
      assert filtered == Selected(products, locale, search, category);
      filteredProducts := SortedCopy(filtered, Order(ParseSortKey(sort), locale, collate));
    }

    /** `handleSearch`: store the query and re-derive with the stored category and sort. */
    method HandleSearch(query: string)
      modifies this
      ensures searchQuery == query
      ensures selectedCategory == old(selectedCategory) && sortBy == old(sortBy)
      ensures products == old(products) && loading == old(loading) && Categories() == old(Categories())
      ensures filteredProducts == View(products, locale, collate, query, selectedCategory, sortBy)
    {
      searchQuery := query;
      FilterProducts(query, selectedCategory, sortBy);
    }

    /** `handleFilter`: store the category and sort and re-derive with the stored query. */
    method HandleFilter(category: string, sort: string)
      modifies this
      ensures selectedCategory == category && sortBy == sort
      ensures searchQuery == old(searchQuery)
      ensures products == old(products) && loading == old(loading) && Categories() == old(Categories())
      ensures filteredProducts == View(products, locale, collate, searchQuery, category, sort)
    {
      selectedCategory := category;
      sortBy := sort;
      FilterProducts(searchQuery, category, sort);
    }

    /** The displayed list as the last handler left it, in terms of the stored parameters. */
    ghost predicate ShowsStoredView()
      reads this
    {
      filteredProducts == View(products, locale, collate, searchQuery, selectedCategory, sortBy)
    }
  }
}
