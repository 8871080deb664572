# Shoaib bridal boutique: catalog, listing and WhatsApp checkout in Dafny

This project models the pure logic of a small storefront that sells
handmade lehengas and takes orders over WhatsApp.

- **Catalog** (`catalog.dfy`). The static catalog holds twelve products in
  four categories. A category menu sits on top of it. There are three
  read-only queries: lookup by id, filter by category with the `"all"`
  wildcard, and featured products only.
- **Listing** (`listing.dfy`). This is the filter-and-sort step of the
  product listing page. A product is kept when it meets all of:
  - a case-insensitive text search over name or description;
  - a category choice;
  - an inclusive price range.

  The kept products are then sorted by one of three modes with a stable
  sort (`sorting.dfy`).
- **WhatsApp checkout** (`whatsapp.dfy`). The cart becomes either a
  detailed multi-line order message or a one-line quick message.
  `encodeURIComponent` percent-encodes the message into a `wa.me` deep
  link. `uri.dfy` models it and its inverse `decodeURIComponent`, over
  UTF-8 (section 19.2.6 of ECMA-262, section 2.1 of RFC 3986, section 3 of
  RFC 3629). Decoding accepts more spellings than the encoder writes
  (lower-case hex digits, escaped unreserved characters). The encoder's own
  spelling is singled out as the canonical one, and it is the only
  canonical text that decodes to a given message.

Support modules:
- `wrappers.dfy`: the `Option` type.
- `seqs.dfy`: `Array.prototype.filter` and `find`, and subsequences.
- `text.dfy`: the JavaScript string built-ins the code calls, with the
  reading-back partners used to state what they produce.
  - `toLowerCase` and `includes`, which the listing search calls;
  - integer `toString` and `toFixed(2)`, which the message formatters
    call. The parsers `ParseNat`, `ParseInt` and `ParseFixed2` are not
    called by the code; they read the amounts back out of a message;
  - `join`, which the formatters call. `split` is not called by the code;
    it is the inverse through which a message is read line by line.

Products, cart lines and order details are immutable datatypes. Every
operation is a pure function. Amounts are integers because every catalog
price is an integer.

## Model

| member | source | states |
|---|---|---|
| Catalog.ParseCategory | src/lib/products.ts:8 | reading an id back yields a category whose id it is; a string naming no category yields None |
| Catalog.CategoryId | src/lib/products.ts:8 | the id the storefront uses for each of the four categories; Catalog.CategoryIdRoundTrip states the ids are distinct and read back |
| Catalog.CategoryIdRoundTrip | src/lib/products.ts:8 | the four category ids are distinct and each reads back as its own category |
| Catalog.AllIsNoCategory | src/lib/products.ts:8 | the wildcard "all" is not the id of any category |
| Catalog.FindById | src/lib/products.ts:158-160 | lookup yields None exactly when no product has the id, and otherwise the first product with that id; it never fails |
| Catalog.GetProductById | src/lib/products.ts:158-160 | `getProductById` is the lookup over the store's catalog; Catalog.GetProductByOwnId shows it finds each product by its own id |
| Catalog.GetProductByOwnId | src/lib/products.ts:158-160 | looking up any catalog product by its own id finds exactly that product |
| Catalog.IdsDistinct | src/lib/products.ts:15-148 | product ids are pairwise distinct |
| Catalog.FilterByCategory | src/lib/products.ts:162-163 | the category "all" returns the catalog unchanged; no category returns more products than the catalog holds |
| Catalog.FilterByCategorySpec | src/lib/products.ts:162-165 | for any string other than "all": a product is returned iff it is in the catalog with that category id, as often as the catalog holds it, as a subsequence of the catalog |
| Catalog.UnknownCategoryIsEmpty | src/lib/products.ts:162-165 | a string that is neither "all" nor a category id selects no product |
| Catalog.GetProductsByCategory | src/lib/products.ts:162-165 | `getProductsByCategory` is the category filter over the store's catalog; Catalog.ProductsOfCategory and Catalog.UnknownCategoryIsEmpty give its results |
| Catalog.FeaturedOnly | src/lib/products.ts:168 | the featured filter returns no more products than it is given; which ones is stated by Catalog.FeaturedOnlySpec |
| Catalog.FeaturedOnlySpec | src/lib/products.ts:167-169 | a product is returned iff it is in the catalog and flagged featured, as often as the catalog holds it, in catalog order |
| Catalog.PricesAndStockNonNegative | src/lib/products.ts:15-148 | every price and every stock count is non-negative |
| Catalog.CategoryMenuMatchesCategories | src/lib/products.ts:150-156 | the menu starts with "all"; its other ids are the four category ids in declaration order, and an id is on the menu iff it names a category |
| Catalog.CatalogShape | src/lib/products.ts:15-148 | the catalog holds 12 products, 3 in each category |
| Catalog.ProductsOfCategory | src/lib/products.ts:15-165 | each category filter returns that category's three products in catalog order: bridal gives royal-red-bridal, golden-elegance, maroon-maharani; reception gives pink-reception, champagne-dreams, peach-paradise; sangeet gives yellow-sunshine, turquoise-twirl, orange-celebration; mehendi gives green-mehendi, mint-fresh, lime-delight |
| Catalog.FeaturedProductsAre | src/lib/products.ts:167-169 | the featured products are the three bridal ones, pink-reception, yellow-sunshine and green-mehendi, in catalog order |
| Catalog.GetFeaturedProducts | src/lib/products.ts:167-169 | `getFeaturedProducts` is the featured filter over the store's catalog; Catalog.FeaturedProductsAre gives its result |
| Seqs.Filter | src/lib/products.ts:164 | `filter` returns no more elements than it is given; which ones, how often and in what order is stated by Seqs.FilterSpec |
| Seqs.FilterSpec | src/lib/products.ts:164 | `filter` keeps an element iff the predicate holds, with its multiplicity, as a subsequence of the input |
| Seqs.FilterAppend | src/lib/products.ts:164 | filtering a concatenation concatenates the filtered parts |
| Seqs.FilterExt | src/app/products/page.tsx:26-36 | predicates that agree on every element filter a sequence identically |
| Seqs.Find | src/lib/products.ts:159 | `find` yields None iff no element matches; otherwise it yields the element at the first matching index |
| Seqs.FirstIndex | src/lib/products.ts:159 | the index found is the first at which the predicate holds; None iff it holds nowhere |
| Text.LowerChar | src/app/products/page.tsx:28-29 | lower-casing a character leaves no upper-case ASCII letter; the character is kept or shifted from A-Z to a-z |
| Text.Lower | src/app/products/page.tsx:28-29 | lower-casing keeps the length, maps character by character, and leaves no upper-case ASCII letter |
| Text.LowerIdempotent | src/app/products/page.tsx:28-29 | lower-casing twice equals lower-casing once |
| Text.Includes | src/app/products/page.tsx:28-29 | `includes` is true iff the query occurs at some position of the text |
| Text.IncludesEmpty | src/app/products/page.tsx:27-29 | every text includes the empty query |
| Text.Join | src/lib/whatsapp.ts:24 | `join` (also at src/lib/whatsapp.ts:77): the parts in order with the separator between neighbours; Text.SplitJoin states the parts come back when free of the separator, Text.JoinAppend how two joins combine |
| Text.NatToDecimal | src/lib/whatsapp.ts:22 | the decimal form of a number is non-empty digits with no leading zero (a lone 0 excepted), and the digits denote the number |
| Text.ParseNat | src/lib/whatsapp.ts:22 | the reading-back partner of the decimal form: a string parses iff it is a non-empty run of decimal digits, and a parsed numeral with no leading zero is exactly the decimal form of the number read |
| Text.DecimalOfDigits | src/lib/whatsapp.ts:22 | every numeral with no leading zero is the decimal form of its value, so the decimal form is the only such spelling of a number |
| Text.IntToString | src/lib/whatsapp.ts:22 | the decimal form of an integer is a minus sign iff the integer is negative, then digits with no leading zero (a lone 0 excepted), and parses back to the integer |
| Text.Fixed2 | src/lib/whatsapp.ts:21 | `toFixed(2)` of an integer is a minus sign iff it is negative, digits with no leading zero (a lone 0 excepted), then ".00", and parses back to the integer |
| Text.JoinAppend | src/lib/whatsapp.ts:24 | joining two non-empty lists puts exactly one separator between their joins |
| Text.Split | src/lib/whatsapp.ts:24 | splitting at a character gives pieces free of it that join back to the text |
| Text.SplitJoin | src/lib/whatsapp.ts:24 | splitting the join of pieces that do not contain the separator gives the pieces back |
| StableSort.Sort | src/app/products/page.tsx:37-41 | the sort returns a permutation of its input, ordered by the key |
| StableSort.SortIsStable | src/app/products/page.tsx:37-41 | the sort is stable: for every key value, the elements with that key keep their input order |
| StableSort.StableSortUnique | src/app/products/page.tsx:37-41 | any ordered permutation that keeps equal keys in input order equals the sort's result |
| StableSort.SortConstantKey | src/app/products/page.tsx:40 | with a comparator that always answers 0, the sort returns its input unchanged |
| Listing.MatchesSearch | src/app/products/page.tsx:27-29 | the lower-cased query occurs in the lower-cased name or description; Listing.EmptyQueryMatchesAll and Listing.SearchIgnoresQueryCase state its edge cases |
| Listing.MatchesCategory | src/app/products/page.tsx:30-31 | the active category is "all" or the product's category id; Listing.ShownIffMatches states the filter through it |
| Listing.MatchesPrice | src/app/products/page.tsx:32-33 | the price lies in the inclusive range; Listing.PricesWithinInitialRange states it for the initial range |
| Listing.Matches | src/app/products/page.tsx:26-35 | a product passes when search, category and price all match; Listing.ShownIffMatches states the shown list through it |
| Listing.Compare | src/app/products/page.tsx:37-41 | the comparator handed to `sort`; Listing.SortKey states it is a difference of keys |
| Listing.FilterAndSort | src/app/products/page.tsx:24-42 | the memoised filter then stable sort; Listing.ResultIsTheStableSort and Listing.SortOnlyReorders state its result |
| Listing.VisibleProducts | src/app/products/page.tsx:24-42 | what the page shows for a state, over the store's catalog; Listing.ShownIffMatches and Listing.InitialStateShowsCatalog state it |
| Listing.SortKey | src/app/products/page.tsx:37-41 | each mode's comparator is the difference of a key: price for "price-asc", minus price for "price-desc", 0 otherwise |
| Listing.ShownIffMatches | src/app/products/page.tsx:24-36 | a product is shown iff it is in the catalog and meets the search, category and price conditions, as often as the catalog holds it |
| Listing.OrderedByComparator | src/app/products/page.tsx:37-41 | the comparator never answers "greater" for a shown product and a later one |
| Listing.AscendingByPrice | src/app/products/page.tsx:38 | "price-asc" shows prices in non-decreasing order |
| Listing.DescendingByPrice | src/app/products/page.tsx:39 | "price-desc" shows prices in non-increasing order |
| Listing.OtherModesKeepCatalogOrder | src/app/products/page.tsx:40 | every other mode, "featured" included, shows the filtered products in catalog order |
| Listing.SortOnlyReorders | src/app/products/page.tsx:37-41 | sorting permutes the filtered products, and products of equal price keep their catalog order |
| Listing.ResultIsTheStableSort | src/app/products/page.tsx:24-42 | the shown list is the only ordered, stable permutation of the filtered products |
| Listing.FeaturedRestoresCatalogOrder | src/app/products/page.tsx:37-41 | switching back to "featured" restores catalog order, whatever the earlier mode |
| Listing.EmptyQueryMatchesAll | src/app/products/page.tsx:27-29 | an empty search query matches every product |
| Listing.SearchIgnoresQueryCase | src/app/products/page.tsx:28-29 | a query and its lower-case form select the same products |
| Listing.PricesWithinInitialRange | src/app/products/page.tsx:20 | every catalog price lies within the initial range 0 to 200000 |
| Listing.InitialStateShowsCatalog | src/app/products/page.tsx:18-42 | the initial state shows the whole catalog in catalog order |
| UriComponent.HexValue | src/lib/whatsapp.ts:53 | a character reads as a value iff it is a hexadecimal digit of either case; the value is below 16 and is written back as the same digit in upper case |
| UriComponent.HexRoundTrip | src/lib/whatsapp.ts:53 | each value 0-15 is written as an upper-case hex digit that reads back as the value |
| UriComponent.Utf8 | src/lib/whatsapp.ts:53 | UTF-8 has 1 to 4 bytes: the lead announces the length, the rest are continuation bytes, and the length is the shortest for the code point |
| UriComponent.Utf8RoundTrip | src/lib/whatsapp.ts:53 | decoding the UTF-8 bytes of a character gives the character back |
| UriComponent.Utf8DecodeOnlyCanonical | src/lib/whatsapp.ts:53 | the decoder accepts only the encoder's byte sequences: no overlong forms, surrogates or values above U+10FFFF |
| UriComponent.PercentOctets | src/lib/whatsapp.ts:53 | the escaped octets take three characters per octet; their %HH shape and read-back are stated by UriComponent.PercentOctetsWellFormed and UriComponent.ReadOctetsRoundTrip |
| UriComponent.PercentOctetsWellFormed | src/lib/whatsapp.ts:53 | escaped octets are consecutive %HH triples with upper-case hexadecimal digits |
| UriComponent.ReadOctetsRoundTrip | src/lib/whatsapp.ts:53 | reading n octets back from the escapes of n octets, whatever follows, gives exactly those octets |
| UriComponent.ReadOctets | src/lib/whatsapp.ts:53 | reading n octets consumes 3n characters and yields n bytes |
| UriComponent.EncodeChar | src/lib/whatsapp.ts:53 | one character as `encodeURIComponent` writes it; UriComponent.DecodeEncodeChar and UriComponent.EncodeExamples state what it writes |
| UriComponent.Encode | src/lib/whatsapp.ts:53 | `encodeURIComponent`; UriComponent.RoundTrip, UriComponent.EncodeWellFormed and UriComponent.EncodeInjective state what it produces |
| UriComponent.Decode | src/lib/whatsapp.ts:53 | `decodeURIComponent`, the inverse through which the link's `text` parameter is read; UriComponent.RoundTrip ties it to the encoder |
| UriComponent.DecodeEncodeChar | src/lib/whatsapp.ts:53 | decoding one character's encoding followed by more text yields the character and then the decoding of the text |
| UriComponent.RoundTrip | src/lib/whatsapp.ts:53 | decoding the encoding of any string gives the string back |
| UriComponent.EncodeInjective | src/lib/whatsapp.ts:53 | distinct messages have distinct encodings |
| UriComponent.EncodeWellFormed | src/lib/whatsapp.ts:53 | encoded text consists of unreserved characters and %HH triples with upper-case hex digits |
| UriComponent.WellFormedChars | src/lib/whatsapp.ts:53 | each character of well-formed encoded text is unreserved or % |
| UriComponent.EncodeUnreservedIsIdentity | src/lib/whatsapp.ts:53 | text made only of unreserved characters is copied unchanged |
| UriComponent.IsUnreserved | src/lib/whatsapp.ts:53 | the characters `encodeURIComponent` copies: ASCII letters, digits and `- _ . ! ~ * ' ( )`; UriComponent.EncodeKeepsUnreserved states each is copied wherever it stands |
| UriComponent.EncodeAppend | src/lib/whatsapp.ts:53 | the encoding of a concatenation is the concatenation of the encodings |
| UriComponent.EncodeKeepsUnreserved | src/lib/whatsapp.ts:53 | an unreserved character is copied unchanged whatever text surrounds it |
| UriComponent.Utf8OfReserved | src/lib/whatsapp.ts:53 | no octet of a reserved character's UTF-8 form spells an unreserved character |
| UriComponent.EncodeCanonical | src/lib/whatsapp.ts:53 | encoded text is canonical: well-formed, and no %HH triple spells an unreserved character |
| UriComponent.ReadCanonicalOctets | src/lib/whatsapp.ts:53 | octets read from canonical text were written exactly as the encoder writes them, and the rest of the text stays canonical |
| UriComponent.CanonicalOctetsReserved | src/lib/whatsapp.ts:53 | no octet read from canonical text spells an unreserved character |
| UriComponent.CanonicalIsEncoding | src/lib/whatsapp.ts:53 | canonical text that decodes to a message is exactly the encoding of that message, so the encoder's output is its only canonical spelling |
| UriComponent.EncodeExamples | src/lib/whatsapp.ts:53 | a space, an em dash and the cart emoji encode as %20, %E2%80%94 and %F0%9F%9B%92 |
| WhatsApp.ReduceTotalIsSum | src/lib/whatsapp.ts:27-29 | the reduce that computes the detailed total equals the sum of price times quantity over the items |
| WhatsApp.Subtotal | src/lib/whatsapp.ts:21 | price times quantity of a cart line; WhatsApp.ItemLinesInOrder reads it back from the item line |
| WhatsApp.ReduceTotal | src/lib/whatsapp.ts:27-28 | the left-fold `reduce` of the total; WhatsApp.ReduceTotalIsSum states its value |
| WhatsApp.ItemLine | src/lib/whatsapp.ts:20-23 | the line of one cart item; WhatsApp.ItemLinesInOrder states its place and read-back |
| WhatsApp.ItemLines | src/lib/whatsapp.ts:19-24 | one line per cart item; WhatsApp.ItemLinesInOrder states that line i is item i's, in cart order |
| WhatsApp.LabelledLine | src/lib/whatsapp.ts:36-42 | the labelled line for an optional field; WhatsApp.CustomerLineIffGiven and WhatsApp.ShippingLineIffGiven state it is present iff the field is present and non-empty |
| WhatsApp.FormatOrderMessage | src/lib/whatsapp.ts:15-47 | `formatOrderMessage`; WhatsApp.MessageIsItsLines, WhatsApp.MessageSplitsIntoLines and WhatsApp.MessageFrame state what it produces |
| WhatsApp.MessageIsItsLines | src/lib/whatsapp.ts:15-47 | the detailed message is its line view joined by newlines, in this order: header, blank, "Order Details", items, blank, total, blank, optional customer and shipping lines, footer |
| WhatsApp.MessageSplitsIntoLines | src/lib/whatsapp.ts:15-47 | when names, customer and address hold no newline, splitting the message at newlines recovers the line view |
| WhatsApp.MessageFrame | src/lib/whatsapp.ts:32-44 | every detailed message starts with the cart-emoji header and ends with the confirmation footer |
| WhatsApp.ItemLinesInOrder | src/lib/whatsapp.ts:19-24 | item i is line 3+i, rendered "i+1. name xquantity - $subtotal", and its amount reads back as price times quantity |
| WhatsApp.TotalLineInPlace | src/lib/whatsapp.ts:27-34 | the total line follows the items after a blank line, and its amount reads back as the sum of the subtotals |
| WhatsApp.CustomerLineIffGiven | src/lib/whatsapp.ts:36-38 | a line labelled "*Customer:* " is present iff the customer name is present and non-empty |
| WhatsApp.ShippingLineIffGiven | src/lib/whatsapp.ts:40-42 | a line labelled "*Shipping Address:* " is present iff the address is present and non-empty |
| WhatsApp.CustomerBeforeShipping | src/lib/whatsapp.ts:36-42 | when both are given, the customer line comes right before the shipping line |
| WhatsApp.EmptyCartMessage | src/lib/whatsapp.ts:19-34 | an empty cart is not rejected: the item list is one empty line and the total reads $0.00 |
| WhatsApp.GenerateQuickOrderMessage | src/lib/whatsapp.ts:71-80 | `generateQuickOrderMessage`; WhatsApp.QuickNamesRoundTrip, WhatsApp.QuickTotalRoundTrip and WhatsApp.QuickMessageExample state what it produces |
| WhatsApp.QuickNamesRoundTrip | src/lib/whatsapp.ts:75-79 | the quick message lists the entries joined by ", " between the greeting and the total |
| WhatsApp.QuickEntry | src/lib/whatsapp.ts:76 | the entry of one cart item reads back, through the last `(` and the closing `)`, as exactly the product name and the quantity, even when the name holds parentheses |
| WhatsApp.ReadQuickEntryOfParts | src/lib/whatsapp.ts:76 | any name followed by " (x", the quantity's decimal form and ")" reads back as that name and quantity |
| WhatsApp.QuickEntries | src/lib/whatsapp.ts:75-77 | one entry per cart item, in order, and entry i reads back as item i's product name and quantity |
| WhatsApp.QuickTotalRoundTrip | src/lib/whatsapp.ts:71-80 | the quick message states the total the caller passes, not one recomputed from the items |
| WhatsApp.QuickMessageExample | src/lib/whatsapp.ts:75-79 | one Royal Red Bridal and two Blush Pink Reception lehengas give the exact quick message, with total $215000.00 |
| WhatsApp.WhatsAppUrl | src/lib/whatsapp.ts:52-55 | the link starts with "https://wa.me/1234567890?text="; the rest is percent-encoded text (only unreserved characters and %HH triples), in canonical form (no triple spells an unreserved character), decodes to the message and holds no & or #; WhatsApp.LinkIsUnique shows these fix the link |
| WhatsApp.UpToDelimiter | src/lib/whatsapp.ts:54 | text free of & and # is a query value that runs to the end |
| WhatsApp.LinkCarriesMessage | src/lib/whatsapp.ts:52-55 | the text parameter of the link decodes to exactly the message |
| WhatsApp.LinkIsUnique | src/lib/whatsapp.ts:52-55 | a link with the prefix whose text part is canonical and decodes to the message is exactly the generated link |
| WhatsApp.CheckoutUrl | src/lib/whatsapp.ts:60-62 | the detailed checkout link carries the formatted order message |
| WhatsApp.QuickCheckoutUrl | src/lib/whatsapp.ts:85-87 | the quick checkout link carries the quick message, and the total read back from that message is the one passed in |

## Left out

- The cart store (`src/lib/store.ts`) is not part of this model. A cart item is a plain product-and-quantity pair, and adding, updating or removing items is not modelled.
- `window.open` in `initiateWhatsAppCheckout` and `initiateQuickCheckout` is a browser side effect. Only the link each one opens is modelled, as `WhatsApp.CheckoutUrl` and `WhatsApp.QuickCheckoutUrl`.
- React state plumbing, rendering and animation on the listing page are not modelled, including the `showFilters` toggle of the initial state. The page state is a plain `Listing.ListingState` value.
- The price slider's `parseInt` produces an integer here. The `NaN` it could yield on malformed input is not modelled.
- Locale price formatting with `Intl.NumberFormat` and `toLocaleString` is display-only and left out.
- Text.Lower: only ASCII A-Z are lower-cased. JavaScript's full Unicode case mapping (for example of accented capitals) is not modelled.
- Text.IntToString, Text.NatToDecimal: JavaScript prints numbers of magnitude 1e21 and above in exponent notation ("1e+21"); the model always writes every digit, so its contracts describe `String(n)` only for |n| < 1e21. Catalog prices and cart quantities are far below that bound.
- Text.Fixed2: models `toFixed(2)` on integers only. Non-integer amounts and the exponent notation used from 1e21 upward are not modelled, because every catalog price and quantity is an integer.
- UriComponent.Encode: strings are sequences of Unicode scalar values. The lone UTF-16 surrogates on which `encodeURIComponent` throws cannot be expressed, so that error path is not modelled.
- Numbers are unbounded integers. JavaScript's double-precision rounding of very large products `price * quantity` is not modelled.
