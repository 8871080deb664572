/** The product listing page: a text search, a category choice and a price
    range select catalog products, and a sort mode orders them. */
module Listing {
  import Seqs
  import Text
  import StableSort
  import opened Catalog

  /** The page state the result depends on: the search box, the chosen
      category id (or "all"), the inclusive price range and the sort mode. */
  datatype ListingState = ListingState(
    searchQuery: string,
    activeCategory: string,
    minPrice: int,
    maxPrice: int,
    sortBy: string)

  /** The state the page opens with. */
  const InitialState := ListingState("", AllCategories, 0, 200000, "featured")

  const PriceAscending := "price-asc"
  const PriceDescending := "price-desc"

  // ---------------------------------------------------------------------
  // Filtering

  /** Case-insensitive search: the lower-cased query occurs in the
      lower-cased name or the lower-cased description. */
  predicate MatchesSearch(p: Product, query: string) {
    || Text.Includes(Text.Lower(p.name), Text.Lower(query))
    || Text.Includes(Text.Lower(p.description), Text.Lower(query))
  }

  predicate MatchesCategory(p: Product, activeCategory: string) {
    activeCategory == AllCategories || CategoryId(p.category) == activeCategory
  }

  predicate MatchesPrice(p: Product, minPrice: int, maxPrice: int) {
    p.price >= minPrice && p.price <= maxPrice
  }

  predicate Matches(st: ListingState, p: Product) {
    && MatchesSearch(p, st.searchQuery)
    && MatchesCategory(p, st.activeCategory)
    && MatchesPrice(p, st.minPrice, st.maxPrice)
  }

  function Matcher(st: ListingState): Product -> bool {
    (p: Product) => Matches(st, p)
  }

  // ---------------------------------------------------------------------
  // Sorting

  /** The comparator handed to `Array.prototype.sort`. */
  function Compare(sortBy: string, a: Product, b: Product): int {
    if sortBy == PriceAscending then a.price - b.price
    else if sortBy == PriceDescending then b.price - a.price
    else 0
  }

  /** The key the comparator compares: the comparator is the difference of
      keys, so sorting with it is sorting by this key. */
  function SortKey(sortBy: string): (key: Product -> int)
    ensures forall a, b :: Compare(sortBy, a, b) == key(a) - key(b)
  {
    if sortBy == PriceAscending then (p: Product) => p.price
    else if sortBy == PriceDescending then (p: Product) => -p.price
    else (p: Product) => 0
  }

  /** The memoised result of the page: filter the catalog, then sort
      stably with the comparator of the current mode. */
  function FilterAndSort(catalog: seq<Product>, st: ListingState): seq<Product> {
    StableSort.Sort(SortKey(st.sortBy), Seqs.Filter(Matcher(st), catalog))
  }

  /** What the page shows for a given state. */
  function VisibleProducts(st: ListingState): seq<Product> {
    FilterAndSort(Products, st)
  }

  // ---------------------------------------------------------------------
  // Properties

  /** Soundness and completeness of the filter: a product is shown exactly
      when it is in the catalog and meets the search, the category and the
      price condition; and it is shown as often as the catalog holds it. */
  lemma ShownIffMatches(catalog: seq<Product>, st: ListingState)
    ensures forall p :: p in FilterAndSort(catalog, st) <==> p in catalog && Matches(st, p)
    ensures forall p :: multiset(FilterAndSort(catalog, st))[p] ==
                        (if Matches(st, p) then multiset(catalog)[p] else 0)
  {
    Seqs.FilterSpec(Matcher(st), catalog);
    var r := FilterAndSort(catalog, st);
    forall p
      ensures p in r <==> p in catalog && Matches(st, p)
    {
      assert p in r <==> p in multiset(r);
      assert p in Seqs.Filter(Matcher(st), catalog) <==> p in multiset(Seqs.Filter(Matcher(st), catalog));
    }
  }

  /** The result is ordered by the page's comparator: it never answers
      "greater than" for a product and one shown after it. */
  lemma OrderedByComparator(catalog: seq<Product>, st: ListingState)
    ensures forall i, j :: 0 <= i < j < |FilterAndSort(catalog, st)| ==>
      Compare(st.sortBy, FilterAndSort(catalog, st)[i], FilterAndSort(catalog, st)[j]) <= 0
  {
  }

  /** "price-asc" shows prices in non-decreasing order. */
  lemma AscendingByPrice(catalog: seq<Product>, st: ListingState)
    requires st.sortBy == PriceAscending
    ensures forall i, j :: 0 <= i < j < |FilterAndSort(catalog, st)| ==>
      FilterAndSort(catalog, st)[i].price <= FilterAndSort(catalog, st)[j].price
  {
    OrderedByComparator(catalog, st);
  }

  /** "price-desc" shows prices in non-increasing order. */
  lemma DescendingByPrice(catalog: seq<Product>, st: ListingState)
    requires st.sortBy == PriceDescending
    ensures forall i, j :: 0 <= i < j < |FilterAndSort(catalog, st)| ==>
      FilterAndSort(catalog, st)[i].price >= FilterAndSort(catalog, st)[j].price
  {
    OrderedByComparator(catalog, st);
  }

  /** Every other mode, "featured" included, keeps catalog order. */
  lemma OtherModesKeepCatalogOrder(catalog: seq<Product>, st: ListingState)
    requires st.sortBy != PriceAscending && st.sortBy != PriceDescending
    ensures FilterAndSort(catalog, st) == Seqs.Filter(Matcher(st), catalog)
  {
    StableSort.SortConstantKey(SortKey(st.sortBy), Seqs.Filter(Matcher(st), catalog));
  }

  function PriceIs(v: int): Product -> bool {
    (p: Product) => p.price == v
  }

  /** The products with price `v`, in order. */
  function WithPrice(v: int, s: seq<Product>): seq<Product> {
    Seqs.Filter(PriceIs(v), s)
  }

  /** Sorting only reorders the filtered products, and products of equal
      price keep their catalog order. */
  lemma SortOnlyReorders(catalog: seq<Product>, st: ListingState)
    ensures multiset(FilterAndSort(catalog, st)) == multiset(Seqs.Filter(Matcher(st), catalog))
    ensures forall v :: WithPrice(v, FilterAndSort(catalog, st)) == WithPrice(v, Seqs.Filter(Matcher(st), catalog))
  {
    var key := SortKey(st.sortBy);
    var filtered := Seqs.Filter(Matcher(st), catalog);
    var r := FilterAndSort(catalog, st);
    StableSort.SortIsStable(key, filtered);
    forall v
      ensures WithPrice(v, r) == WithPrice(v, filtered)
    {
      if st.sortBy == PriceAscending || st.sortBy == PriceDescending {
        var k := if st.sortBy == PriceAscending then v else -v;
        assert StableSort.WithKey(key, k, r) == StableSort.WithKey(key, k, filtered);
        Seqs.FilterExt(StableSort.KeyIs(key, k), PriceIs(v), r);
        Seqs.FilterExt(StableSort.KeyIs(key, k), PriceIs(v), filtered);
      } else {
        OtherModesKeepCatalogOrder(catalog, st);
      }
    }
  }

  /** The result is the one stable sort of the filtered products: any
      arrangement that is ordered by the mode's key, is a permutation and
      keeps equal keys in catalog order equals it. */
  lemma ResultIsTheStableSort(catalog: seq<Product>, st: ListingState, r: seq<Product>)
    requires StableSort.IsStableSortOf(SortKey(st.sortBy), r, Seqs.Filter(Matcher(st), catalog))
    ensures r == FilterAndSort(catalog, st)
  {
    StableSort.StableSortUnique(SortKey(st.sortBy), r, Seqs.Filter(Matcher(st), catalog));
  }

  /** Switching back to "featured" restores catalog order, whatever the
      mode was before. */
  lemma FeaturedRestoresCatalogOrder(catalog: seq<Product>, st: ListingState)
    ensures FilterAndSort(catalog, st.(sortBy := "featured")) == Seqs.Filter(Matcher(st), catalog)
  {
    var st' := st.(sortBy := "featured");
    OtherModesKeepCatalogOrder(catalog, st');
    Seqs.FilterExt(Matcher(st'), Matcher(st), catalog);
  }

  /** An empty search box matches every product. */
  lemma EmptyQueryMatchesAll(p: Product)
    ensures MatchesSearch(p, "")
  {
    assert Text.Lower("") == "";
    Text.IncludesEmpty(Text.Lower(p.name));
  }

  /** Only the lower-cased query matters: searching for a query and for its
      lower-case form select the same products. */
  lemma SearchIgnoresQueryCase(p: Product, query: string)
    ensures MatchesSearch(p, query) <==> MatchesSearch(p, Text.Lower(query))
  {
    Text.LowerIdempotent(query);
  }

  /** All catalog prices lie within the initial price range. */
  lemma PricesWithinInitialRange()
    ensures forall p :: p in Products ==> 0 <= p.price <= 200000
  {
  }

  /** The page opens showing the whole catalog in catalog order. */
  lemma InitialStateShowsCatalog()
    ensures VisibleProducts(InitialState) == Products
  {
    PricesWithinInitialRange();
    forall i | 0 <= i < |Products|
      ensures Matcher(InitialState)(Products[i])
    {
      EmptyQueryMatchesAll(Products[i]);
    }
    Seqs.FilterAll(Matcher(InitialState), Products);
    OtherModesKeepCatalogOrder(Products, InitialState);
  }
}
