/** The static product catalog of the boutique and its three read-only
    queries: lookup by id, filter by category (with the "all" wildcard) and
    featured products only. */
module Catalog {
  import opened Wrappers
  import Seqs

  /** The closed set of occasions a lehenga is made for. */
  datatype Category = Bridal | Reception | Sangeet | Mehendi

  /** The string the storefront uses for each category. */
  function CategoryId(c: Category): string {
    match c
    case Bridal => "bridal"
    case Reception => "reception"
    case Sangeet => "sangeet"
    case Mehendi => "mehendi"
  }

  /** Reads a category id back; strings that name no category give None. */
  function ParseCategory(id: string): (r: Option<Category>)
    ensures r.Some? ==> CategoryId(r.value) == id
    ensures r.None? ==> forall c: Category :: CategoryId(c) != id
  {
    if id == "bridal" then Some(Bridal)
    else if id == "reception" then Some(Reception)
    else if id == "sangeet" then Some(Sangeet)
    else if id == "mehendi" then Some(Mehendi)
    else None
  }

  /** Category ids are distinct: reading an id back gives its category. */
  lemma CategoryIdRoundTrip(c: Category)
    ensures ParseCategory(CategoryId(c)) == Some(c)
  {
  }

  /** The wildcard the category filter accepts besides the four ids. */
  const AllCategories := "all"

  lemma AllIsNoCategory(c: Category)
    ensures CategoryId(c) != AllCategories
  {
  }

  datatype Product = Product(
    id: string,
    name: string,
    description: string,
    price: int,
    category: Category,
    image: string,
    specs: seq<string>,
    featured: bool,
    stock: int)

  const RoyalRedBridal := Product(
    id := "royal-red-bridal",
    name := "Royal Red Bridal Lehenga",
    description := "Exquisite handcrafted red bridal lehenga with intricate zardozi embroidery and heavy dupatta. Perfect for the traditional bride.",
    price := 85000,
    category := Bridal,
    image := "/products/bridal-1.jpg",
    specs := ["Pure Silk Fabric", "Zardozi Embroidery", "Custom Fitting", "Heavy Dupatta Included"],
    featured := true,
    stock := 3)

  const GoldenElegance := Product(
    id := "golden-elegance",
    name := "Golden Elegance Lehenga",
    description := "Stunning golden lehenga with delicate sequin work and traditional motifs. A timeless piece for the modern bride.",
    price := 95000,
    category := Bridal,
    image := "/products/bridal-2.jpg",
    specs := ["Banarasi Silk", "Hand Sequin Work", "Cancan Underlayer", "Matching Jewelry Set"],
    featured := true,
    stock := 2)

  const MaroonMaharani := Product(
    id := "maroon-maharani",
    name := "Maroon Maharani Collection",
    description := "Rich maroon velvet lehenga with kundan and pearl embellishments. Designed for the queen on her special day.",
    price := 120000,
    category := Bridal,
    image := "/products/bridal-3.jpg",
    specs := ["Premium Velvet", "Kundan Work", "Pearl Embellishments", "Royal Train"],
    featured := true,
    stock := 1)

  const PinkReception := Product(
    id := "pink-reception",
    name := "Blush Pink Reception Lehenga",
    description := "Elegant pastel pink lehenga with mirror work and thread embroidery. Perfect for your reception ceremony.",
    price := 65000,
    category := Reception,
    image := "/products/reception-1.jpg",
    specs := ["Georgette Fabric", "Mirror Work", "Lightweight Design", "Easy Movement"],
    featured := true,
    stock := 5)

  const ChampagneDreams := Product(
    id := "champagne-dreams",
    name := "Champagne Dreams Lehenga",
    description := "Sophisticated champagne colored lehenga with subtle gold embroidery. Modern elegance for your reception.",
    price := 72000,
    category := Reception,
    image := "/products/reception-2.jpg",
    specs := ["Organza Silk", "Gold Thread Work", "Flared Silhouette", "Matching Clutch"],
    featured := false,
    stock := 4)

  const PeachParadise := Product(
    id := "peach-paradise",
    name := "Peach Paradise Collection",
    description := "Dreamy peach lehenga with floral embroidery and crystal accents. Light and beautiful for evening receptions.",
    price := 58000,
    category := Reception,
    image := "/products/reception-3.jpg",
    specs := ["Net Fabric", "Floral Embroidery", "Crystal Accents", "Soft Dupatta"],
    featured := false,
    stock := 6)

  const YellowSunshine := Product(
    id := "yellow-sunshine",
    name := "Yellow Sunshine Lehenga",
    description := "Vibrant yellow lehenga with gotta patti work. Spread joy and happiness at your sangeet ceremony.",
    price := 45000,
    category := Sangeet,
    image := "/products/sangeet-1.jpg",
    specs := ["Cotton Silk", "Gotta Patti Work", "Comfortable Fit", "Dance Friendly"],
    featured := true,
    stock := 8)

  const TurquoiseTwirl := Product(
    id := "turquoise-twirl",
    name := "Turquoise Twirl Lehenga",
    description := "Eye-catching turquoise lehenga with silver threadwork. Perfect for dancing the night away.",
    price := 48000,
    category := Sangeet,
    image := "/products/sangeet-2.jpg",
    specs := ["Chanderi Silk", "Silver Threadwork", "Flared Cut", "Lightweight"],
    featured := false,
    stock := 7)

  const OrangeCelebration := Product(
    id := "orange-celebration",
    name := "Orange Celebration Lehenga",
    description := "Festive orange lehenga with multicolor embroidery. Celebrate with colors and joy.",
    price := 42000,
    category := Sangeet,
    image := "/products/sangeet-3.jpg",
    specs := ["Art Silk", "Multicolor Embroidery", "Easy Drape", "Festive Design"],
    featured := false,
    stock := 9)

  const GreenMehendi := Product(
    id := "green-mehendi",
    name := "Green Garden Lehenga",
    description := "Beautiful green lehenga with floral prints and light embroidery. Perfect for your mehendi ceremony.",
    price := 38000,
    category := Mehendi,
    image := "/products/mehendi-1.jpg",
    specs := ["Printed Silk", "Light Embroidery", "Comfortable Wear", "Easy to Carry"],
    featured := true,
    stock := 10)

  const MintFresh := Product(
    id := "mint-fresh",
    name := "Mint Fresh Collection",
    description := "Refreshing mint green lehenga with delicate threadwork. Stay cool and beautiful at your mehendi.",
    price := 35000,
    category := Mehendi,
    image := "/products/mehendi-2.jpg",
    specs := ["Chiffon Fabric", "Delicate Threadwork", "Breathable Material", "Day Wear Perfect"],
    featured := false,
    stock := 12)

  const LimeDelight := Product(
    id := "lime-delight",
    name := "Lime Delight Lehenga",
    description := "Playful lime green lehenga with pompom borders and mirror work. Fun and festive for mehendi.",
    price := 32000,
    category := Mehendi,
    image := "/products/mehendi-3.jpg",
    specs := ["Cotton Blend", "Pompom Borders", "Mirror Work", "Casual Elegance"],
    featured := false,
    stock := 15)

  /** The catalog, in display order. */
  const Products: seq<Product> := [
    RoyalRedBridal, GoldenElegance, MaroonMaharani,
    PinkReception, ChampagneDreams, PeachParadise,
    YellowSunshine, TurquoiseTwirl, OrangeCelebration,
    GreenMehendi, MintFresh, LimeDelight
  ]

  /** One entry of the category menu of the listing page. */
  datatype CategoryEntry = CategoryEntry(id: string, name: string, icon: string)

  const Categories: seq<CategoryEntry> := [
    CategoryEntry("all", "All Lehengas", "Sparkles"),
    CategoryEntry("bridal", "Bridal", "Crown"),
    CategoryEntry("reception", "Reception", "Heart"),
    CategoryEntry("sangeet", "Sangeet", "Music"),
    CategoryEntry("mehendi", "Mehendi", "Flower2")
  ]

  // ---------------------------------------------------------------------
  // Queries

  /** The predicate `product.id === id` the lookup searches with. */
  function HasId(id: string): Product -> bool {
    (p: Product) => p.id == id
  }

  /** The predicate `product.category === category` of the category filter. */
  function InCategory(category: string): Product -> bool {
    (p: Product) => CategoryId(p.category) == category
  }

  predicate IsFeatured(p: Product) {
    p.featured
  }

  /** `catalog.find(product => product.id === id)`: the first product with
      the given id, or None (`undefined`). Never fails. */
  function FindById(catalog: seq<Product>, id: string): (r: Option<Product>)
    ensures r.None? <==> forall j :: 0 <= j < |catalog| ==> catalog[j].id != id
    ensures r.Some? ==>
      exists i :: 0 <= i < |catalog| && catalog[i] == r.value && r.value.id == id &&
        forall j :: 0 <= j < i ==> catalog[j].id != id
  {
    Seqs.Find(HasId(id), catalog)
  }

  /** The whole catalog for "all"; otherwise the products whose category id
      equals the argument (what they are is stated by `FilterByCategorySpec`). */
  function FilterByCategory(catalog: seq<Product>, category: string): (r: seq<Product>)
    ensures category == AllCategories ==> r == catalog
    ensures |r| <= |catalog|
  {
    if category == AllCategories then catalog
    else Seqs.Filter(InCategory(category), catalog)
  }

  /** For any string other than "all", the category filter returns exactly
      the products of that category, each as often as the catalog holds it,
      in catalog order. */
  lemma FilterByCategorySpec(catalog: seq<Product>, category: string)
    requires category != AllCategories
    ensures forall p :: p in FilterByCategory(catalog, category) <==> p in catalog && CategoryId(p.category) == category
    ensures Seqs.IsSubseq(FilterByCategory(catalog, category), catalog)
    ensures forall p :: multiset(FilterByCategory(catalog, category))[p] ==
                        (if CategoryId(p.category) == category then multiset(catalog)[p] else 0)
  {
    Seqs.FilterSpec(InCategory(category), catalog);
  }

  /** The featured products (what they are is stated by `FeaturedOnlySpec`). */
  function FeaturedOnly(catalog: seq<Product>): (r: seq<Product>)
    ensures |r| <= |catalog|
  {
    Seqs.Filter(IsFeatured, catalog)
  }

  /** The featured products are exactly the products flagged `featured`,
      each as often as the catalog holds it, in catalog order. */
  lemma FeaturedOnlySpec(catalog: seq<Product>)
    ensures forall p :: p in FeaturedOnly(catalog) <==> p in catalog && p.featured
    ensures Seqs.IsSubseq(FeaturedOnly(catalog), catalog)
    ensures forall p :: multiset(FeaturedOnly(catalog))[p] == if p.featured then multiset(catalog)[p] else 0
  {
    Seqs.FilterSpec(IsFeatured, catalog);
  }

  /** `getProductById`, `getProductsByCategory` and `getFeaturedProducts`:
      the queries applied to the store's catalog. */
  function GetProductById(id: string): Option<Product> {
    FindById(Products, id)
  }

  function GetProductsByCategory(category: string): seq<Product> {
    FilterByCategory(Products, category)
  }

  function GetFeaturedProducts(): seq<Product> {
    FeaturedOnly(Products)
  }

  // ---------------------------------------------------------------------
  // Facts about the data

  /** Product ids are pairwise distinct. */
  lemma IdsDistinct()
    ensures forall i, j :: 0 <= i < j < |Products| ==> Products[i].id != Products[j].id
  {
  }

  /** Looking up a catalog product by its own id finds that product. */
  lemma GetProductByOwnId(p: Product)
    requires p in Products
    ensures GetProductById(p.id) == Some(p)
  {
    IdsDistinct();
    var k :| 0 <= k < |Products| && Products[k] == p;
    var r := GetProductById(p.id);
    assert r.Some?;
    var i :| 0 <= i < |Products| && Products[i] == r.value && r.value.id == p.id &&
      forall j :: 0 <= j < i ==> Products[j].id != p.id;
    assert i == k;
  }

  /** A category string other than the four ids and "all" selects nothing. */
  lemma UnknownCategoryIsEmpty(category: string)
    requires category != AllCategories
    requires ParseCategory(category).None?
    ensures GetProductsByCategory(category) == []
  {
    FilterByCategorySpec(Products, category);
  }

  /** Prices and stock counts are non-negative. */
  lemma PricesAndStockNonNegative()
    ensures forall p :: p in Products ==> p.price >= 0 && p.stock >= 0
  {
  }

  /** The ids of the menu entries after "all". */
  function MenuCategoryIds(): seq<string> {
    seq(|Categories| - 1, i requires 0 <= i < |Categories| - 1 => Categories[i + 1].id)
  }

  /** The menu holds "all" first, and its other ids are exactly the four
      category ids, in declaration order. */
  lemma CategoryMenuMatchesCategories()
    ensures Categories[0].id == AllCategories
    ensures MenuCategoryIds() == [CategoryId(Bridal), CategoryId(Reception), CategoryId(Sangeet), CategoryId(Mehendi)]
    ensures forall id :: id in MenuCategoryIds() <==> ParseCategory(id).Some?
  {
    assert MenuCategoryIds() == ["bridal", "reception", "sangeet", "mehendi"];
  }

  /** The catalog lists the bridal, reception, sangeet and mehendi
      products in blocks of three. */
  lemma CatalogBlocks()
    ensures Products ==
      CategoryBlock(Bridal) + CategoryBlock(Reception) +
      CategoryBlock(Sangeet) + CategoryBlock(Mehendi)
  {
  }

  /** Filters the four category blocks one at a time. */
  lemma FilterBlocks(f: Product -> bool)
    ensures Seqs.Filter(f, Products) ==
      Seqs.Filter(f, CategoryBlock(Bridal)) + Seqs.Filter(f, CategoryBlock(Reception)) +
      Seqs.Filter(f, CategoryBlock(Sangeet)) + Seqs.Filter(f, CategoryBlock(Mehendi))
  {
    var b1, b2, b3, b4 := CategoryBlock(Bridal), CategoryBlock(Reception), CategoryBlock(Sangeet), CategoryBlock(Mehendi);
    CatalogBlocks();
    Seqs.FilterAppend(f, b1 + b2 + b3, b4);
    Seqs.FilterAppend(f, b1 + b2, b3);
    Seqs.FilterAppend(f, b1, b2);
  }

  /** The three catalog products of a category, in catalog order. */
  function CategoryBlock(c: Category): seq<Product> {
    match c
    case Bridal => [RoyalRedBridal, GoldenElegance, MaroonMaharani]
    case Reception => [PinkReception, ChampagneDreams, PeachParadise]
    case Sangeet => [YellowSunshine, TurquoiseTwirl, OrangeCelebration]
    case Mehendi => [GreenMehendi, MintFresh, LimeDelight]
  }

  /** Each block holds products of its own category only. */
  lemma BlockCategories(c: Category)
    ensures forall i :: 0 <= i < |CategoryBlock(c)| ==> CategoryBlock(c)[i].category == c
  {
  }

  /** Block `b` when it is the block of `c`, nothing otherwise. */
  function Kept(c: Category, b: Category): seq<Product> {
    if b == c then CategoryBlock(b) else []
  }

  /** Filtering block `b` by the id of category `c` keeps the block when
      `b` is `c` and drops it otherwise. */
  lemma FilterBlock(c: Category, b: Category)
    ensures Seqs.Filter(InCategory(CategoryId(c)), CategoryBlock(b)) == Kept(c, b)
  {
    BlockCategories(b);
    if b == c {
      Seqs.FilterAll(InCategory(CategoryId(c)), CategoryBlock(b));
    } else {
      CategoryIdRoundTrip(b);
      CategoryIdRoundTrip(c);
      Seqs.FilterNone(InCategory(CategoryId(c)), CategoryBlock(b));
    }
  }

  /** Each category filter returns the three products of that category, in
      catalog order. */
  lemma ProductsOfCategory(c: Category)
    ensures GetProductsByCategory(CategoryId(c)) == CategoryBlock(c)
  {
    var f := InCategory(CategoryId(c));
    AllIsNoCategory(c);
    FilterBlocks(f);
    FilterBlock(c, Bridal);
    FilterBlock(c, Reception);
    FilterBlock(c, Sangeet);
    FilterBlock(c, Mehendi);
    OwnBlockOnly(c);
  }

  /** Keeping only the block of `c` among the four leaves that block. */
  lemma OwnBlockOnly(c: Category)
    ensures Kept(c, Bridal) + Kept(c, Reception) + Kept(c, Sangeet) + Kept(c, Mehendi) == CategoryBlock(c)
  {
    match c
    case Bridal =>
      assert Kept(c, Bridal) + [] + [] + [] == Kept(c, Bridal);
    case Reception =>
      assert [] + Kept(c, Reception) + [] + [] == Kept(c, Reception);
    case Sangeet =>
      assert [] + [] + Kept(c, Sangeet) + [] == Kept(c, Sangeet);
    case Mehendi =>
      assert [] + [] + [] + Kept(c, Mehendi) == Kept(c, Mehendi);
  }


  /** Six products are featured: all bridal ones and the first of each
      other category. */
  lemma FeaturedProductsAre()
    ensures GetFeaturedProducts() ==
      [RoyalRedBridal, GoldenElegance, MaroonMaharani, PinkReception, YellowSunshine, GreenMehendi]
  {
    FilterBlocks(IsFeatured);
    FeaturedInBlock(Bridal);
    FeaturedInBlock(Reception);
    FeaturedInBlock(Sangeet);
    FeaturedInBlock(Mehendi);
    BlockHeads();
  }

  /** The bridal block followed by the first product of every other block. */
  lemma BlockHeads()
    ensures CategoryBlock(Bridal) + CategoryBlock(Reception)[..1] +
      CategoryBlock(Sangeet)[..1] + CategoryBlock(Mehendi)[..1] ==
      [RoyalRedBridal, GoldenElegance, MaroonMaharani, PinkReception, YellowSunshine, GreenMehendi]
  {
    assert CategoryBlock(Reception)[..1] == [PinkReception];
    assert CategoryBlock(Sangeet)[..1] == [YellowSunshine];
    assert CategoryBlock(Mehendi)[..1] == [GreenMehendi];
  }

  /** Every bridal product is featured; every other block features only its
      first product. */
  lemma FeaturedInBlock(b: Category)
    ensures Seqs.Filter(IsFeatured, CategoryBlock(b)) ==
      if b == Bridal then CategoryBlock(b) else CategoryBlock(b)[..1]
  {
    var block := CategoryBlock(b);
    if b == Bridal {
      Seqs.FilterAll(IsFeatured, block);
    } else {
      assert block == [block[0]] + block[1..];
      Seqs.FilterCons(IsFeatured, block[0], block[1..]);
      Seqs.FilterNone(IsFeatured, block[1..]);
    }
  }


  /** The catalog holds twelve products, three in each category. */
  lemma CatalogShape()
    ensures |Products| == 12
    ensures forall c: Category :: |GetProductsByCategory(CategoryId(c))| == 3
  {
    forall c: Category
      ensures |GetProductsByCategory(CategoryId(c))| == 3
    {
      ProductsOfCategory(c);
    }
  }
}
