/**
 * The derivation behind the product catalog (src/app/products/page.tsx): the
 * search and category filters, the five orderings, the resulting displayed
 * list, and the distinct-category facet list. The page class in
 * products_page.dfy computes the same list step by step.
 */
module Catalog {
  import opened Wrappers
  import opened I18n
  import opened Text
  import opened Sequences
  import opened StableSort
  import opened Types

  /** The text of a product in the active locale. */
  datatype LocalText = LocalText(name: string, description: string, category: string)

  /** `locale === 'id' ? product.x : product.xEn` for the name, description and category. */
  function Localize(l: Language, p: Product): (t: LocalText)
    ensures l == Id ==> t == LocalText(p.name, p.description, p.category)
    ensures l == En ==> t == LocalText(p.nameEn, p.descriptionEn, p.categoryEn)
  {
    LocalText(Select(l, p.name, p.nameEn), Select(l, p.description, p.descriptionEn), Select(l, p.category, p.categoryEn))
  }

  /** `product.price || 0`: a missing price counts as 0. */
  function PriceOrZero(p: Product): int
  {
    p.price.GetOr(0)
  }

  /** The search predicate, given the already lower-cased query `needle`. */
  predicate SearchHit(l: Language, needle: string, p: Product)
  {
    Contains(Lower(Localize(l, p).name), needle) || Contains(Lower(Localize(l, p).description), needle)
  }

  function MatchesSearch(l: Language, search: string): Product -> bool
  {
    p => SearchHit(l, Lower(search), p)
  }

  function InCategory(l: Language, category: string): Product -> bool
  {
    p => Localize(l, p).category == category
  }

  /** The search step: skipped for the empty query (which is falsy). */
  function SearchFilter(ps: seq<Product>, l: Language, search: string): seq<Product>
  {
    if search == "" then ps else Keep(ps, MatchesSearch(l, search))
  }

  /** The category step: skipped for the empty category. */
  function CategoryFilter(ps: seq<Product>, l: Language, category: string): seq<Product>
  {
    if category == "" then ps else Keep(ps, InCategory(l, category))
  }

  /** `p` passes both filters: the search (unless empty) and the category (unless empty). */
  predicate Selects(l: Language, search: string, category: string, p: Product)
  {
    (search == "" || SearchHit(l, Lower(search), p)) && (category == "" || Localize(l, p).category == category)
  }

  /** The products that survive both filters, in fetch order (before sorting). */
  function Selected(ps: seq<Product>, l: Language, search: string, category: string): seq<Product>
  {
    CategoryFilter(SearchFilter(ps, l, search), l, category)
  }

  /** The branches of the `switch (sort)`. */
  datatype SortKey = PriceLow | PriceHigh | Newest | Oldest | ByName

  /** The `switch (sort)`: the four named keys, and name order for anything else. */
  function ParseSortKey(sort: string): (k: SortKey)
    ensures k == ByName <==> sort !in {"price-low", "price-high", "newest", "oldest"}
    ensures k == PriceLow <==> sort == "price-low"
    ensures k == PriceHigh <==> sort == "price-high"
    ensures k == Newest <==> sort == "newest"
    ensures k == Oldest <==> sort == "oldest"
  {
    if sort == "price-low" then PriceLow
    else if sort == "price-high" then PriceHigh
    else if sort == "newest" then Newest
    else if sort == "oldest" then Oldest
    else ByName
  }

  /**
   * The comparator of each branch, as "compare(a, b) <= 0". `collate(x, y)` stands
   * for `x.localeCompare(y) <= 0`.
   */
  function Order(key: SortKey, l: Language, collate: (string, string) -> bool): (Product, Product) -> bool
  {
    match key
    case PriceLow => (a: Product, b: Product) => PriceOrZero(a) <= PriceOrZero(b)
    case PriceHigh => (a: Product, b: Product) => PriceOrZero(b) <= PriceOrZero(a)
    case Newest => (a: Product, b: Product) => b.createdAt <= a.createdAt
    case Oldest => (a: Product, b: Product) => a.createdAt <= b.createdAt
    case ByName => (a: Product, b: Product) => collate(Localize(l, a).name, Localize(l, b).name)
  }

  /** What `filterProducts(search, category, sort)` stores as the displayed list. */
  function View(ps: seq<Product>, l: Language, collate: (string, string) -> bool,
                search: string, category: string, sort: string): seq<Product>
  {
    Sort(Selected(ps, l, search, category), Order(ParseSortKey(sort), l, collate))
  }

  /** Every comparator is a total preorder, the name one as soon as `localeCompare` is. */
  lemma OrderIsTotalPreorder(key: SortKey, l: Language, collate: (string, string) -> bool)
    requires key == ByName ==> TotalPreorder(collate)
    ensures TotalPreorder(Order(key, l, collate))
  {
    var le := Order(key, l, collate);
    if key == ByName {
      forall a, b, c | le(a, b) && le(b, c) ensures le(a, c) {
        assert collate(Localize(l, a).name, Localize(l, b).name);
        assert collate(Localize(l, b).name, Localize(l, c).name);
      }
      forall a, b ensures le(a, b) || le(b, a) {
        assert collate(Localize(l, a).name, Localize(l, b).name) || collate(Localize(l, b).name, Localize(l, a).name);
      }
    }
  }

  /**
   * The filters keep exactly the products that pass them, in fetch order: an empty
   * query or category keeps everything, otherwise a product stays iff the
   * lower-cased name or description in the active locale contains the lower-cased
   * query, and iff its category in the active locale is exactly the chosen one.
   */
  lemma {:induction false} SelectedSpec(ps: seq<Product>, l: Language, search: string, category: string)
    ensures IsSubseq(Selected(ps, l, search, category), ps)
    ensures forall p :: p in Selected(ps, l, search, category) <==>
      && p in ps
      && (search == "" || SearchHit(l, Lower(search), p))
      && (category == "" || Localize(l, p).category == category)
    ensures search == "" && category == "" ==> Selected(ps, l, search, category) == ps
    ensures forall p ::
      multiset(Selected(ps, l, search, category))[p] == if Selects(l, search, category, p) then multiset(ps)[p] else 0
  {
    SelectedCounts(ps, l, search, category);
    var afterSearch := SearchFilter(ps, l, search);
    if search == "" {
      SubseqReflexive(ps);
    } else {
      KeepIsSubseq(ps, MatchesSearch(l, search));
    }
    if category == "" {
      SubseqReflexive(afterSearch);
    } else {
      KeepIsSubseq(afterSearch, InCategory(l, category));
    }
    SubseqTransitive(Selected(ps, l, search, category), afterSearch, ps);
  }

  /** Every copy of a product that passes both filters survives them, and no copy of any other. */
  lemma SelectedCounts(ps: seq<Product>, l: Language, search: string, category: string)
    ensures forall p ::
      multiset(Selected(ps, l, search, category))[p] == if Selects(l, search, category, p) then multiset(ps)[p] else 0
  {
    var afterSearch := SearchFilter(ps, l, search);
    var sel := Selected(ps, l, search, category);
    forall p ensures multiset(sel)[p] == if Selects(l, search, category, p) then multiset(ps)[p] else 0 {
      assert multiset(afterSearch)[p] == if search == "" || SearchHit(l, Lower(search), p) then multiset(ps)[p] else 0;
      assert multiset(sel)[p] == if category == "" || Localize(l, p).category == category then multiset(afterSearch)[p] else 0;
    }
  }

  /**
   * The displayed list is a permutation of a subsequence of the fetched list:
   * nothing is added or duplicated, and with no query and no category it holds
   * every product.
   */
  lemma ViewIsReorderedSelection(ps: seq<Product>, l: Language, collate: (string, string) -> bool,
                                 search: string, category: string, sort: string)
    ensures multiset(View(ps, l, collate, search, category, sort)) == multiset(Selected(ps, l, search, category))
    ensures IsSubseq(Selected(ps, l, search, category), ps)
    ensures multiset(View(ps, l, collate, search, category, sort)) <= multiset(ps)
    ensures |View(ps, l, collate, search, category, sort)| <= |ps|
    ensures search == "" && category == "" ==> multiset(View(ps, l, collate, search, category, sort)) == multiset(ps)
    ensures forall p ::
      multiset(View(ps, l, collate, search, category, sort))[p] == if Selects(l, search, category, p) then multiset(ps)[p] else 0
  {
    var sel := Selected(ps, l, search, category);
    SortPermutes(sel, Order(ParseSortKey(sort), l, collate));
    SelectedSpec(ps, l, search, category);
    assert multiset(SearchFilter(ps, l, search)) <= multiset(ps);
    assert multiset(sel) <= multiset(SearchFilter(ps, l, search));
    assert |multiset(sel)| <= |multiset(ps)|;
  }

  /** A product is displayed iff it was fetched and passes both filters. */
  lemma ViewMembership(ps: seq<Product>, l: Language, collate: (string, string) -> bool,
                       search: string, category: string, sort: string, p: Product)
    ensures p in View(ps, l, collate, search, category, sort) <==>
      && p in ps
      && (search == "" || SearchHit(l, Lower(search), p))
      && (category == "" || Localize(l, p).category == category)
  {
    var sel := Selected(ps, l, search, category);
    SortPermutes(sel, Order(ParseSortKey(sort), l, collate));
    SelectedSpec(ps, l, search, category);
    assert p in View(ps, l, collate, search, category, sort) <==> p in multiset(sel);
  }

  /**
   * The displayed list is ordered by the chosen key: price ascending or descending
   * (missing price as 0), creation time descending or ascending, and for any other
   * key the localized name in `localeCompare` order.
   */
  lemma ViewOrdered(ps: seq<Product>, l: Language, collate: (string, string) -> bool,
                    search: string, category: string, sort: string)
    requires ParseSortKey(sort) == ByName ==> TotalPreorder(collate)
    ensures var v := View(ps, l, collate, search, category, sort);
      match ParseSortKey(sort)
      case PriceLow => forall i, j :: 0 <= i < j < |v| ==> PriceOrZero(v[i]) <= PriceOrZero(v[j])
      case PriceHigh => forall i, j :: 0 <= i < j < |v| ==> PriceOrZero(v[i]) >= PriceOrZero(v[j])
      case Newest => forall i, j :: 0 <= i < j < |v| ==> v[i].createdAt >= v[j].createdAt
      case Oldest => forall i, j :: 0 <= i < j < |v| ==> v[i].createdAt <= v[j].createdAt
      case ByName => forall i, j :: 0 <= i < j < |v| ==> collate(Localize(l, v[i]).name, Localize(l, v[j]).name)
  {
    var key := ParseSortKey(sort);
    OrderIsTotalPreorder(key, l, collate);
    SortSorted(Selected(ps, l, search, category), Order(key, l, collate));
  }

  /** Stability: products the comparator ties keep the order in which they were fetched. */
  lemma ViewStable(ps: seq<Product>, l: Language, collate: (string, string) -> bool,
                   search: string, category: string, sort: string, k: Product)
    requires ParseSortKey(sort) == ByName ==> TotalPreorder(collate)
    ensures var le := Order(ParseSortKey(sort), l, collate);
      Ties(View(ps, l, collate, search, category, sort), le, k) == Ties(Selected(ps, l, search, category), le, k)
  {
    var key := ParseSortKey(sort);
    OrderIsTotalPreorder(key, l, collate);
    SortStable(Selected(ps, l, search, category), Order(key, l, collate), k);
  }

  /** Re-running the derivation on its own output with the same parameters changes nothing. */
  lemma ViewIdempotent(ps: seq<Product>, l: Language, collate: (string, string) -> bool,
                       search: string, category: string, sort: string)
    requires ParseSortKey(sort) == ByName ==> TotalPreorder(collate)
    ensures var v := View(ps, l, collate, search, category, sort);
      View(v, l, collate, search, category, sort) == v
  {
    var key := ParseSortKey(sort);
    var le := Order(key, l, collate);
    var v := View(ps, l, collate, search, category, sort);
    forall p | p in v
      ensures (search == "" || SearchHit(l, Lower(search), p))
      ensures (category == "" || Localize(l, p).category == category)
    {
      ViewMembership(ps, l, collate, search, category, sort, p);
    }
    if search != "" {
      KeepAll(v, MatchesSearch(l, search));
    }
    assert SearchFilter(v, l, search) == v;
    if category != "" {
      KeepAll(v, InCategory(l, category));
    }
    assert Selected(v, l, search, category) == v;
    OrderIsTotalPreorder(key, l, collate);
    SortSorted(Selected(ps, l, search, category), le);
    SortOfSorted(v, le);
  }

  /** `products.map(p => locale === 'id' ? p.category : p.categoryEn)`. */
  function CategoryColumn(ps: seq<Product>, l: Language): (cs: seq<string>)
    ensures |cs| == |ps|
    ensures forall i :: 0 <= i < |ps| ==> cs[i] == Localize(l, ps[i]).category
  {
    seq(|ps|, i requires 0 <= i < |ps| => Localize(l, ps[i]).category)
  }

  /** `[...new Set(categories)]` over the full fetched list. */
  function Categories(ps: seq<Product>, l: Language): seq<string>
  {
    Distinct(CategoryColumn(ps, l))
  }

  /**
   * The facet list holds each localized category of a fetched product exactly once,
   * in the order in which it first occurs among the products.
   */
  lemma CategoriesSpec(ps: seq<Product>, l: Language)
    ensures forall c :: c in Categories(ps, l) <==> exists p :: p in ps && Localize(l, p).category == c
    ensures NoDuplicates(Categories(ps, l))
    ensures forall i, j :: 0 <= i < j < |Categories(ps, l)| ==>
      FirstIndex(CategoryColumn(ps, l), Categories(ps, l)[i]) < FirstIndex(CategoryColumn(ps, l), Categories(ps, l)[j])
  {
    var col := CategoryColumn(ps, l);
    DistinctFirstOccurrenceOrder(col);
    forall c ensures c in col <==> exists p :: p in ps && Localize(l, p).category == c {
      if c in col {
        var i :| 0 <= i < |col| && col[i] == c;
        assert ps[i] in ps;
      }
      if exists p :: p in ps && Localize(l, p).category == c {
        var p :| p in ps && Localize(l, p).category == c;
        var i :| 0 <= i < |ps| && ps[i] == p;
        assert col[i] == c;
      }
    }
  }
}
