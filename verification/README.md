# Catalogue and contact pages of the company website, in Dafny

This project models the client-side logic of a bilingual (Indonesian and
English) company website built with Next.js and a Sanity content store:

- the **products page**: the product list fetched once, the distinct
  category names offered to the visitor, and `filterProducts`, which keeps
  the products whose localized name or description contains the search text
  (case-insensitively), keeps those in the chosen category, and sorts the
  rest by price (ascending or descending), by creation date (newest or
  oldest first) or, by default, by localized name;
- the **search-and-filter panel**: its four pieces of state (query, chosen
  category, chosen sort key, whether the filter area is open) and the events
  it sends to the page (`onSearch` on every keystroke, `onFilter` when the
  visitor applies or clears the filters);
- the page and the panel **composed**, as the page wires them together;
- the **contact page**: the form's field updates, the submit cycle
  (`idle` → submitting → `success` with a cleared form, or `error` with the
  form kept), the locale-dependent name and position of a contact, and the
  rewrite of an image asset reference into a CDN file name;
- the **i18n helpers**: the two languages, their display names and the
  per-language translation lookup.

Modules:

| module | file | what it holds |
|---|---|---|
| `Wrappers` | `wrappers.dfy` | `Option` |
| `I18n` | `i18n.dfy` | `Language`, language codes, display names, translation lookup |
| `Text` | `text.dfy` | ASCII lower-casing, substring search, replace-first-occurrence |
| `Sequences` | `sequences.dfy` | `Keep` (array filter), subsequences, `Distinct` (de-duplication keeping first occurrences) |
| `StableSort` | `stable_sort.dfy` | stable sort as a function, and an in-place array insertion sort proved equal to it |
| `Types` | `types.dfy` | `Product`, `Contact` records |
| `Catalog` | `catalog.dfy` | the pure specification of filtering, sorting and the category list |
| `ProductsPage` | `products_page.dfy` | the products page state as a class |
| `SearchAndFilter` | `search_and_filter.dfy` | the panel state as a class, with the log of events it has sent |
| `CatalogSession` | `catalog_session.dfy` | a page and a panel composed, with the invariant linking them |
| `ContactPage` | `contact_page.dfy` | the form state as a class, contact display, asset-reference rewrite |

A JavaScript sort comparator `c` is modelled as the relation
`le(a, b) := c(a, b) <= 0`. `Array.prototype.sort` is stable, and a stable
sort by a total preorder has exactly one result, so the model's insertion
sort computes the same list. `localeCompare` is not something Dafny can
compute; the collation order is a parameter `collate` of the page, and the
ordering lemmas require only that it is a total preorder.

The model follows the code as written: there is no pagination on the products page; the category list is
computed from every product, so an empty category name appears in it when a
product has one; the list shown right after loading is the fetched list in
fetch order (newest first), not sorted by name, until the visitor first
searches or filters; and a completed load replaces the shown list with the
whole fetched list even if the visitor already typed a query.

## Model

| member | source | states |
|---|---|---|
| `I18n.ParseLanguage` | src/lib/i18n.ts:4-9 | only the codes "id" and "en" name a language, and the language read back has that code |
| `I18n.CodeRoundTrip` | src/lib/i18n.ts:4-9 | reading a language's code gives the language back, and distinct languages have distinct codes |
| `I18n.LanguageNameDistinguishes` | src/lib/i18n.ts:20-26 | Indonesian is named "Indonesia", English "English", and two languages share a name exactly when they are the same |
| `I18n.GetTranslation` | src/lib/i18n.ts:16-18 | the Indonesian locale gets the Indonesian table and the English locale the English table |
| `Text.Lower` | src/app/products/page.tsx:73 | lower-casing keeps the length of the text |
| `Text.LowerIdempotent` | src/app/products/page.tsx:73-78 | lower-casing twice is lower-casing once |
| `Text.LowerSlice` | src/app/products/page.tsx:73-78 | lower-casing commutes with taking a slice |
| `Text.ContainsLower` | src/app/products/page.tsx:77-78 | text that contains the needle still contains it after both are lower-cased, so an exact match is always a hit |
| `Text.ContainsEmpty` | src/app/products/page.tsx:72 | every text contains the empty needle |
| `Text.IndexOf` | src/app/contact/page.tsx:220 | the position found is the first occurrence of the pattern; no position means the pattern does not occur |
| `Text.ReplaceFirst` | src/app/contact/page.tsx:220 | a text without the pattern is unchanged; otherwise only the first occurrence is replaced |
| `Sequences.Keep` | src/app/products/page.tsx:74-87 | filtering keeps exactly the elements satisfying the predicate, every copy of each of them and no copy of any other, and never lengthens the list |
| `Sequences.KeepIsSubseq` | src/app/products/page.tsx:74-87 | filtering keeps the surviving elements in their original order |
| `Sequences.SubseqTransitive` | src/app/products/page.tsx:69-88 | order kept by two successive filters is kept by their composition |
| `Sequences.KeepAll` | src/app/products/page.tsx:72-88 | a filter every element passes returns the list unchanged |
| `Sequences.Distinct` | src/app/products/page.tsx:53-55 | de-duplication keeps exactly the values of the input and no value twice |
| `Sequences.DistinctFirstOccurrenceOrder` | src/app/products/page.tsx:53-55 | de-duplicated values appear in the order of their first occurrence in the input |
| `StableSort.SortPermutes` | src/app/products/page.tsx:91-111 | sorting returns a permutation of its input |
| `StableSort.SortSorted` | src/app/products/page.tsx:91-111 | under a total preorder the sorted list is ordered |
| `StableSort.SortStable` | src/app/products/page.tsx:91-111 | elements the comparator ties keep their input order |
| `StableSort.SortOfSorted` | src/app/products/page.tsx:91-111 | sorting an already ordered list leaves it unchanged |
| `StableSort.SortInPlace` | src/app/products/page.tsx:91-111 | the in-place insertion sort leaves the array holding the stable sort of its old contents |
| `StableSort.SortedCopy` | src/app/products/page.tsx:69-111 | copying the list into a fresh array and sorting it there yields the stable sort of the list |
| `StableSort.InsertAt` | src/app/products/page.tsx:91-111 | one insertion step places an element into the sorted prefix and leaves the rest of the array alone |
| `StableSort.ShiftGreater` | src/app/products/page.tsx:91-111 | the shifting loop moves the elements the new one must precede one place right and stops at the position insertion requires |
| `StableSort.InsertBehindGreater` | src/app/products/page.tsx:91-111 | inserting an element puts it right behind the last element it may follow, in front of the trailing run of elements it must precede |
| `Catalog.Localize` | src/app/products/page.tsx:75-85 | the Indonesian locale reads name, description and category, the English locale their English fields |
| `Catalog.ParseSortKey` | src/app/products/page.tsx:91-111 | each of the four sort keys selects its ordering, and every other string, the empty one included, selects ordering by name |
| `Catalog.OrderIsTotalPreorder` | src/app/products/page.tsx:92-110 | every ordering the page uses is a total preorder, the name ordering when the collation is one |
| `Catalog.SelectedSpec` | src/app/products/page.tsx:69-88 | a product survives filtering exactly when it matches the lower-cased search in localized name or description (or the search is empty) and has the chosen localized category (or none is chosen); every copy of a passing product survives and no copy of another; survivors keep their order; empty search and category keep every product |
| `Catalog.SelectedCounts` | src/app/products/page.tsx:69-88 | each product occurs in the filtered list as often as in the product list when it passes both filters, and not at all otherwise |
| `Catalog.ViewIsReorderedSelection` | src/app/products/page.tsx:68-114 | the shown list is a reordering of the filtered products, holding every copy of each passing product and no copy of another, never longer than the product list, and a permutation of all products when nothing is filtered |
| `Catalog.ViewMembership` | src/app/products/page.tsx:68-114 | a product is shown exactly when it is in the product list and passes both filters |
| `Catalog.ViewOrdered` | src/app/products/page.tsx:91-111 | the shown list is ordered by price ascending, price descending, creation time descending, creation time ascending, or localized name, as the sort key says |
| `Catalog.ViewStable` | src/app/products/page.tsx:91-111 | products that tie under the chosen ordering appear in the order of the product list |
| `Catalog.ViewIdempotent` | src/app/products/page.tsx:68-114 | filtering and sorting the shown list again with the same settings changes nothing |
| `Catalog.CategoryColumn` | src/app/products/page.tsx:53-54 | one localized category per product, in product order |
| `Catalog.CategoriesSpec` | src/app/products/page.tsx:53-55 | a category is offered exactly when some product has it in the current locale, never twice, in order of first appearance |
| `ProductsPage.ProductsPage.constructor` | src/app/products/page.tsx:11-17 | the page starts loading with no products and empty search, category and sort |
| `ProductsPage.ProductsPage.LoadSucceeded` | src/app/products/page.tsx:39-45 | a completed fetch stores the result as both the product list and the shown list and ends loading |
| `ProductsPage.ProductsPage.LoadFailed` | src/app/products/page.tsx:42-45 | a failed fetch only ends loading |
| `ProductsPage.ProductsPage.Categories` | src/app/products/page.tsx:53-55 | the offered categories are exactly the products' localized categories, without duplicates |
| `ProductsPage.ProductsPage.FilterProducts` | src/app/products/page.tsx:68-114 | the shown list becomes the filtered and sorted view of the product list; nothing else changes |
| `ProductsPage.ProductsPage.HandleSearch` | src/app/products/page.tsx:57-60 | the query is stored and the shown list is recomputed with it and the stored category and sort; the categories are unchanged |
| `ProductsPage.ProductsPage.HandleFilter` | src/app/products/page.tsx:62-66 | category and sort are stored and the shown list is recomputed with them and the stored query; the categories are unchanged |
| `SearchAndFilter.LastAfterEmit` | src/components/SearchAndFilter.tsx:19-32 | a search event changes only the last query sent and a filter event only the last category and sort sent |
| `SearchAndFilter.LastFilterSortOffered` | src/components/SearchAndFilter.tsx:101-105 | the sort key last sent is one of the five offered options |
| `SearchAndFilter.SearchPanel.constructor` | src/components/SearchAndFilter.tsx:14-17 | the panel starts with empty query, category and sort, closed, having sent nothing |
| `SearchAndFilter.SearchPanel.HandleSearch` | src/components/SearchAndFilter.tsx:19-22 | the query is stored and sent to the page; nothing else changes |
| `SearchAndFilter.SearchPanel.SelectCategory` | src/components/SearchAndFilter.tsx:79 | choosing a category stores it without sending anything |
| `SearchAndFilter.SearchPanel.SelectSort` | src/components/SearchAndFilter.tsx:98 | choosing a sort option stores it without sending anything |
| `SearchAndFilter.SearchPanel.HandleFilter` | src/components/SearchAndFilter.tsx:24-26 | the stored category and sort are sent to the page unchanged |
| `SearchAndFilter.SearchPanel.ClearFilters` | src/components/SearchAndFilter.tsx:28-32 | category and sort are reset, the page is told so, and the clear control is no longer offered |
| `SearchAndFilter.SearchPanel.ToggleFilter` | src/components/SearchAndFilter.tsx:51 | the filter area flips between open and closed; nothing else changes |
| `CatalogSession.CatalogSession.constructor` | src/app/products/page.tsx:11-17 | page and panel start consistent: the page loading with no products, query, category and sort empty in both, the filter area closed and no event sent |
| `CatalogSession.CatalogSession.StoredSortOffered` | src/components/SearchAndFilter.tsx:101-105 | the sort key the page holds is always one of the panel's options |
| `CatalogSession.CatalogSession.Load` | src/app/products/page.tsx:39-41 | a completed fetch shows the whole fetched list, whatever query, category and sort are stored |
| `CatalogSession.CatalogSession.LoadFails` | src/app/products/page.tsx:42-45 | a failed fetch leaves both lists as they were and ends loading |
| `CatalogSession.CatalogSession.Type` | src/components/SearchAndFilter.tsx:19-22 | typing stores the query in the page and shows the view for it with the page's category and sort, which the panel's unapplied choices do not affect; the panel sends one search event with the text, and loading and the open/closed state are unchanged |
| `CatalogSession.CatalogSession.PickCategory` | src/components/SearchAndFilter.tsx:79 | choosing a category in the panel stores it there and changes neither the panel's query and sort, its open/closed state, the events sent, the page's category nor the shown list |
| `CatalogSession.CatalogSession.PickSort` | src/components/SearchAndFilter.tsx:98 | choosing a sort option in the panel stores it there and changes neither the panel's query and category, its open/closed state, the events sent, the page's sort nor the shown list |
| `CatalogSession.CatalogSession.Apply` | src/components/SearchAndFilter.tsx:24-26 | applying makes the page hold the panel's category and sort and shows the view for them with the stored query; the panel sends one filter event with that category and sort, and loading, the panel's query and its open/closed state are unchanged |
| `CatalogSession.CatalogSession.Clear` | src/components/SearchAndFilter.tsx:28-32 | clearing resets category and sort in both and shows the search-only view; the panel sends one filter event with empty category and sort, and loading, the panel's query and its open/closed state are unchanged |
| `CatalogSession.CatalogSession.Toggle` | src/components/SearchAndFilter.tsx:51 | opening or closing the filter area changes no choice and sends no event |
| `ContactPage.FormData.With` | src/app/contact/page.tsx:50-56 | setting a field gives it the new value and keeps every other field |
| `ContactPage.ContactPage.constructor` | src/app/contact/page.tsx:10-20 | the page starts loading, with no contacts, an empty form, not submitting, status idle |
| `ContactPage.ContactPage.LoadSucceeded` | src/app/contact/page.tsx:38-43 | a completed fetch stores the contacts and ends loading; the form is untouched |
| `ContactPage.ContactPage.LoadFailed` | src/app/contact/page.tsx:40-43 | a failed fetch only ends loading |
| `ContactPage.ContactPage.HandleInputChange` | src/app/contact/page.tsx:50-56 | an edit changes exactly the named field of the form |
| `ContactPage.ContactPage.BeginSubmit` | src/app/contact/page.tsx:59-61 | submission starts with the status back at idle and the form kept |
| `ContactPage.ContactPage.CompleteSubmit` | src/app/contact/page.tsx:63-77 | success empties the form and sets success, failure keeps the form and sets error, and submission ends either way |
| `ContactPage.ContactPage.HandleSubmit` | src/app/contact/page.tsx:58-78 | after a submission the status is success exactly when it succeeded, never idle, the form is empty on success and unchanged on failure |
| `ContactPage.DisplayName` | src/app/contact/page.tsx:227 | the Indonesian locale shows the name, the English locale the English name |
| `ContactPage.DisplayPosition` | src/app/contact/page.tsx:230 | the Indonesian locale shows the position, the English locale the English position |
| `ContactPage.StripImagePrefix` | src/app/contact/page.tsx:220 | the first rewrite step removes the leading "image-" of a reference |
| `ContactPage.AsWrittenHandlesJpgAndPng` | src/app/contact/page.tsx:220 | a well-formed jpg or png reference becomes "id-dims.jpg" or "id-dims.png" |
| `ContactPage.DotFormatsListed` | src/app/contact/page.tsx:220 | a format in the list of rewritten formats gets its dot, and the steps for the other listed formats find nothing to replace |
| `ContactPage.DotFormatsUnlisted` | src/app/contact/page.tsx:220 | a format starting with none of the listed ones passes every step unchanged |
| `ContactPage.NoFormatAfterDot` | src/app/contact/page.tsx:220 | once the extension is dotted, no later step finds a dash pattern to replace |
| `ContactPage.AsWrittenMissesOtherFormats` | src/app/contact/page.tsx:220 | a reference whose format starts with neither "jpg" nor "png" keeps its final dash, so the rewrite differs from the intended file name |
| `ContactPage.AsWrittenWebpExample` | src/app/contact/page.tsx:220 | a webp reference such as "image-a1b2-640x480-webp" is rewritten to "a1b2-640x480-webp", while the corrected rewrite gives "a1b2-640x480.webp" |
| `ContactPage.FixedHandlesEveryFormat` | src/app/contact/page.tsx:220 | the corrected rewrite turns every well-formed reference into "id-dims.format" |
| `ContactPage.FixedAgreesOnJpgAndPng` | src/app/contact/page.tsx:220 | on jpg and png references the corrected rewrite gives what the written one gives |
| `ContactPage.ImageUrlOfJpgAndPng` | src/app/contact/page.tsx:220 | the photo URL of a jpg or png reference is the CDN folder of the project followed by "id-dims.jpg" or "id-dims.png" |
| `ContactPage.ImageUrlOfOtherFormats` | src/app/contact/page.tsx:220 | the photo URL of a reference of any other format is the CDN folder followed by "id-dims-format", with no extension dot |
| `ContactPage.ImageUrlFixedOfEveryFormat` | src/app/contact/page.tsx:220 | built on the corrected rewrite, the photo URL of every well-formed reference is the CDN folder followed by "id-dims.format" |

## Left out

- Fetching products and contacts from the content store is I/O; the fetched list, or the failure, is a parameter of the load methods.
- Types.Product: every text field is present, as src/types/index.ts:5-13 declares it; the content store's schema (src/sanity/schemaTypes/product.ts:8-11) lets description, descriptionEn, category and categoryEn be missing, and then the search filter throws on a product whose name does not match (src/app/products/page.tsx:77-78), leaving the query stored but the shown list unchanged, and the category list gets an `undefined` entry (lines 53-55); neither is modelled.
- Rendering (cards, icons, skeletons, empty-state messages, the result count) is not modelled; only the state it reads.
- The locale is fixed when a page is created; the pages never change it after the first render.
- The contents of the two translation tables are data files that are not part of this model; `I18n.GetTranslation` is generic over the table type.
- Text.Lower: lower-cases ASCII letters only, because Unicode case mapping is not available; for ASCII text it is `toLowerCase`.
- `localeCompare` is the `collate` parameter; the model does not compute any particular language's collation.
- Prices are integers rather than floating-point numbers; a missing price counts as 0, as in the code, but NaN and fractional prices are not modelled.
- Creation dates are integer timestamps; the code parses date strings with `Date`, and unparseable dates (which give NaN and an inconsistent comparator) are not modelled.
- The one-second simulated delay of the contact form is replaced by the `succeeded` parameter of `HandleSubmit`; the code's delay never fails, but the error branch is modelled as written.
- `HandleInputChange` takes a `Field`; an input whose name is none of the four fields would add a new key to the form in the code and is not modelled.
- The disabled state of the submit button while submitting is not a precondition of `HandleSubmit`, since the handler itself does not check it.
- React state updates are modelled as immediate assignments; the handlers pass the new values to `filterProducts` explicitly, so batching does not change their result.
- ImageUrl: the project id, read from an environment variable in the code, is a parameter; the URL is otherwise built exactly as written, with the rewrite as written.
- Product images and the product description modal are rendered by components that are not part of this model.

## Findings

| source | as written | input that shows it | evidently intended | confidence | as-written member | corrected member |
|---|---|---|---|---|---|---|
| src/app/contact/page.tsx:220 | the asset reference is rewritten by replacing "image-", then the first "-jpg" with ".jpg", then the first "-png" with ".png", so only jpg and png references get a dotted extension | the reference "image-a1b2-640x480-webp" becomes "a1b2-640x480-webp" | every reference "image-id-dims-format" becomes the CDN file name "id-dims.format", whatever the format | medium, not executed | `ContactPage.AsWrittenMissesOtherFormats` | `ContactPage.FixedHandlesEveryFormat` |
