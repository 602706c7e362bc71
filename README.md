# simple-search-app: the server-side catalog engine

This project models, in Dafny, the part of simple-search-app that decides
which catalog items a search returns and in what order:

- `matchesQuery`, the `pseudoRandom` generator and `seedItems`
  (`server/src/util/utilities.ts`);
- the `GET /items` handler (`server/src/index.ts`). It clamps `offset` and
  `limit`, filters the catalog with `matchesQuery` and stable-sorts a copy by
  price (`asc`, `desc` or unchanged). It then slices one page and reports
  `total`, `nextOffset` and `hasMore`;
- the catalog store (`server/src/data.ts`). This is the item array, seeded
  with 600 generated items, plus the `nextId` counter that `addItem` uses to
  give a new item its id before putting it at the front.

Files and modules:

- `text.dfy` (`Text`): the JavaScript string operations the engine relies on.
  These are `toLowerCase` on ASCII letters, `trim` with the ECMAScript
  whitespace set, `includes`, and `String(n)` for natural numbers.
- `jsnumber.dfy` (`JsNumber`): whether `Number(s)` is not NaN, following the
  StringNumericLiteral grammar of section 7.1.4.1 of ECMA-262. It also
  holds `price.toString()` for a price kept in integer cents.
- `items.dfy` (`Items`): the `Item` record of `client/src/types.ts` and the
  item data without its id.
- `utilities.dfy` (`Utilities`): `matchesQuery` as a predicate. The
  generator is a class `Lehmer` whose field is the captured state. The
  `seedItems` loop is a method proved equal to the function `SeededItems`.
- `listing.dfy` (`Listing`): the handler as a function of the catalog's
  contents and the request parameters. The stable sort is an insertion sort,
  `SortBy`, and any stable sort by the same comparator is proved to give
  the same result.
- `data.ts` is modelled in `data.dfy` (`Data`) as a class `Catalog` with
  fields `items` and `nextId`. Its invariant says the ids are the decimal
  spellings of distinct numbers that are exactly `1 .. nextId - 1`.

Prices are natural numbers of cents. The handler takes `offset` and `limit`
as already-parsed integers: `None` stands for an absent or empty parameter.

Two details of the handler worth noting:

- The handler skips filtering only for the empty string `q`. A query of
  spaces is filtered, but every item matches it.
  `Listing.BlankQueryKeepsCatalog` shows both paths give the whole catalog.
- `total` is the length of the filtered list, which equals the length of the
  sorted copy.

## Model

| member | source | states |
|---|---|---|
| Text.ToLower | server/src/util/utilities.ts:35 | lower-casing keeps the length and maps each character by ASCII `toLowerCase` |
| Text.TrimStart | server/src/util/utilities.ts:35 | the result is a suffix of `s`; everything dropped is whitespace, and the result does not start with whitespace |
| Text.TrimEnd | server/src/util/utilities.ts:35 | the result is a prefix of `s`; everything dropped is whitespace, and the result does not end with whitespace |
| Text.Trim | server/src/util/utilities.ts:35 | the trimmed query is an infix `s[a..b]` with only whitespace before `a` and after `b`. It neither starts nor ends with whitespace, and it is empty exactly when the query is all whitespace |
| Text.Includes | server/src/util/utilities.ts:40-47 | `s.includes(sub)`: `sub` occurs in `s` at some index (definition) |
| Text.NatToString | server/src/util/utilities.ts:22 | `String(i)` is a non-empty digit string with no leading zero |
| Text.NatToStringInjective | server/src/data.ts:9 | distinct counter values give distinct id strings |
| Text.NatToStringRoundTrip | server/src/util/utilities.ts:22 | reading the digits of `String(n)` back gives `n` |
| JsNumber.IsNumeric | server/src/util/utilities.ts:45-47 | `!Number.isNaN(Number(query))`: after trimming, the query is empty, a decimal literal (optional sign, digits with at most one point, optional exponent, or `Infinity`), or a `0b`/`0o`/`0x` literal (definition) |
| JsNumber.PriceString | server/src/util/utilities.ts:47 | `price.toString()` for a price in cents: the whole amount, then a point and the cents with no trailing zero, nothing for a whole amount (definition; its properties are in `PriceStringRoundTrip`) |
| JsNumber.PriceStringRoundTrip | server/src/util/utilities.ts:47 | `price.toString()` is digits with at most one point and denotes exactly the price |
| JsNumber.DecimalShapedNumeric | server/src/util/utilities.ts:45-47 | `Number` accepts a non-empty string of digits and at most one point exactly when it is not `"."` |
| JsNumber.PricePieceNumeric | server/src/util/utilities.ts:45-47 | a non-empty query found in a price's text is a number for `Number` exactly when it is not `"."` |
| Utilities.NormalizeQuery | server/src/util/utilities.ts:35 | `q.toLowerCase().trim()` (definition) |
| Utilities.InText | server/src/util/utilities.ts:39-43 | the query occurs in the lower-cased name, description or alt text, or in some lower-cased tag; an absent alt text or tag list gives false (definition) |
| Utilities.PriceMatch | server/src/util/utilities.ts:45-47 | the query is a number and occurs in the price's text (definition) |
| Utilities.MatchesQuery | server/src/util/utilities.ts:34-49 | an item matches when the normalized query is empty, or it matches the text fields, or it matches the price (definition; `MatchesQueryCharacterized` and the lemmas below state its properties) |
| Utilities.BlankQueryMatchesAll | server/src/util/utilities.ts:35-38 | a query that is empty after lower-casing and trimming matches every item |
| Utilities.MatchesQueryIgnoresQueryCase | server/src/util/utilities.ts:35 | two queries differing only in letter case match the same items |
| Utilities.MatchesQueryIgnoresFieldCase | server/src/util/utilities.ts:40-43 | items whose name, description, alt text and tags differ only in letter case match the same queries |
| Utilities.MatchesQueryCharacterized | server/src/util/utilities.ts:34-49 | an item matches if and only if the query is blank, or occurs in a lower-cased text field, or is not `"."` and occurs in the price's text |
| Utilities.NonNumericQueryMatchesOnlyText | server/src/util/utilities.ts:45-48 | a query that is not a number matches only through the text fields |
| Utilities.AbsentExtrasNeverMatch | server/src/util/utilities.ts:42-43 | with neither alt text nor tags, only the name, the description and the price can make an item match |
| Utilities.MatchesQueryIgnoresIdAndImage | server/src/util/utilities.ts:39-47 | changing `id` and `image` never changes whether an item matches |
| Utilities.NumericQueryMatchesDigitsAnywhere | server/src/util/utilities.ts:45-47 | the query `"10"` matches both 10.50 and 210.00, since the price test is a substring test |
| Utilities.JsRem | server/src/util/utilities.ts:5-6 | JavaScript's `% 2147483647` keeps the dividend's sign, stays strictly within the modulus and differs from the dividend by a multiple of it |
| Utilities.LehmerStep | server/src/util/utilities.ts:6 | one draw sets the state to `value * 48271 % 2147483647`; the result stays strictly within the modulus and is not negative for a non-negative state |
| Utilities.LehmerState | server/src/util/utilities.ts:5-6 | the state after `n` draws: `seed % 2147483647`, then `n` steps (definition) |
| Utilities.LehmerStateBounds | server/src/util/utilities.ts:3-7 | the generator's state stays within `(-2147483647, 2147483647)`, and within `[0, 2147483647)` for a non-negative seed |
| Utilities.LehmerProductExact | server/src/util/utilities.ts:6 | the product `value * 48271` stays below 2^53 in magnitude, so doubles hold it exactly |
| Utilities.Lehmer.constructor | server/src/util/utilities.ts:5 | the captured state starts as `seed % 2147483647` |
| Utilities.Lehmer.Next | server/src/util/utilities.ts:6 | each call sets the state to `value * 48271 % 2147483647` and returns it |
| Utilities.SeedPriceCents | server/src/util/utilities.ts:20-26 | a generated price lies in [10.00, 99.99] |
| Utilities.SeededItems | server/src/util/utilities.ts:19-31 | `seedItems(count)` as a value: the items `SeededItem(1, …)` to `SeededItem(count, …)` in order, each priced from the next draw of the generator seeded with 42; it has exactly `count` items |
| Utilities.SeededItem | server/src/util/utilities.ts:21-29 | the item pushed in round `i`: id `String(i)`, the name, description, image URL and alt text built from `i`, the price from the draw, and tag set `TAG_SETS[i % 5]` (definition) |
| Utilities.SeedDraw | server/src/util/utilities.ts:10-20 | the state behind the `i`-th draw of the generator seeded with 42; it is below the modulus |
| Utilities.SeededItemsShape | server/src/util/utilities.ts:19-28 | the item at index `k` has id `String(k + 1)`, tag set `TAG_SETS[(k + 1) % 5]` and a price in [10.00, 99.99] |
| Utilities.SeededIdsDistinct | server/src/util/utilities.ts:22 | generated ids are pairwise distinct |
| Utilities.SeedItems | server/src/util/utilities.ts:9-32 | the loop, drawing from a generator seeded with 42, builds exactly `SeededItems(count)`; a count below 1 gives no items |
| Items.WithId | server/src/data.ts:9 | `{ id, ...data }` has the given id and otherwise exactly the given data |
| Listing.EffectiveOffset | server/src/index.ts:19-22 | the effective offset is the parsed value when that is not negative, otherwise 0 |
| Listing.EffectiveLimit | server/src/index.ts:23-24 | the effective limit lies in [1, 100]: 20 when absent, the parsed value when it is within range, 1 below it and 100 above it |
| Listing.Filter | server/src/index.ts:27 | `items.filter(keep)`: the items `keep` accepts, in order; never longer than `items` |
| Listing.Matcher | server/src/index.ts:27 | the callback `(i) => matchesQuery(i, q)` (definition) |
| Listing.Filtered | server/src/index.ts:27 | `q ? items.filter(...) : items`: the whole catalog for the empty `q`, otherwise the filter; never longer than the catalog |
| Listing.FilterIsSubsequence | server/src/index.ts:27 | `filter` with any callback gives a subsequence of the catalog, in catalog order |
| Listing.FilterKeepsExactlyMatches | server/src/index.ts:27 | `filter` keeps each item the callback accepts as often as it occurs, and drops every other item |
| Listing.FilterAllMatching | server/src/index.ts:27 | when the callback accepts every item, `filter` returns the catalog unchanged |
| Listing.FilterNoneMatching | server/src/index.ts:27 | when the callback accepts no item, `filter` returns the empty list |
| Listing.BlankQueryKeepsCatalog | server/src/index.ts:27 | for an empty or whitespace-only `q`, both the shortcut and filtering give the whole catalog |
| Listing.OrderOf | server/src/index.ts:25-35 | the order is ascending exactly when `sort` is `"asc"` and descending exactly when it is `"desc"`; any other value leaves the order alone |
| Listing.Compare | server/src/index.ts:28-35 | for `asc` the comparator is at most 0 exactly when `a` costs no more than `b`; for `desc`, exactly when `a` costs no less; with no sort it is always 0 |
| Listing.SortBy | server/src/index.ts:28-35 | `[...filtered].sort(comparator)` as an insertion sort; it keeps the length, and the lemmas below prove it is the stable sort |
| Listing.SortByPermutes | server/src/index.ts:28-35 | the sorted copy is a permutation of the filtered list |
| Listing.SortBySorted | server/src/index.ts:28-35 | the sorted copy has no pair out of order for the comparator |
| Listing.SortedPrices | server/src/index.ts:29-32 | sorted for `asc` means non-decreasing prices; sorted for `desc` means non-increasing prices |
| Listing.SortByKeepsTies | server/src/index.ts:28-35 | items the comparator ties keep their filtered order (stability) |
| Listing.StableSortUnique | server/src/index.ts:28-35 | two sorted, tie-preserving permutations of one list are equal |
| Listing.SortByIsTheStableSort | server/src/index.ts:28-35 | every stable sort by the comparator gives exactly `SortBy` |
| Listing.UnsortedKeepsOrder | server/src/index.ts:33-34 | with neither `asc` nor `desc` the comparator returns 0, so the order is unchanged |
| Listing.DescendingReversesAscending | server/src/index.ts:28-35 | when no two prices are equal, `desc` gives exactly the reverse of `asc` |
| Listing.Slice | server/src/index.ts:36 | `slice(start, end)` has `min(end, length) - start` elements, or none when the window starts at or past the end; they are the elements from `start` on |
| Listing.ListItems | server/src/index.ts:17-46 | page items are `sortedItems[offset ..]` for `min(limit, total - offset)` elements, or none when `offset >= total`. `total` is the filtered count. `nextOffset` is `offset + limit` exactly when that is below `total`, and `hasMore` holds exactly when `nextOffset` is set |
| Listing.PageItemsMatch | server/src/index.ts:27-36 | every item on a page is in the catalog and matches the query |
| Listing.NoMatchEmptyPage | server/src/index.ts:27-44 | a query no item matches gives an empty page, `total` 0, no `nextOffset`, `hasMore` false |
| Listing.FirstPageOf600 | server/src/index.ts:36-44 | with 600 items, empty query, offset 0 and limit 20, the page is the first 20 items of the sorted copy, `nextOffset` is 20 and `hasMore` is true |
| Listing.LastPageOf600 | server/src/index.ts:36-44 | with 600 items, empty query, offset 590 and limit 20, the page is the last 10 items of the sorted copy, there is no `nextOffset` and `hasMore` is false |
| Listing.UnsortedFirstPageIsHead | server/src/index.ts:27-36 | with an empty query, offset 0 and no sort, the page is the catalog's first `limit` items in catalog order |
| Data.NumberedIdsUnique | server/src/data.ts:6-10 | ids built from distinct counter values are pairwise distinct |
| Data.NextIdUnused | server/src/data.ts:9 | the id the counter gives out next is not used by any item, so ids are never reused |
| Data.NumberedIdsCoverCounter | server/src/data.ts:6-10 | every counter value in `[1, nextId)` is the id of some item |
| Data.Catalog.constructor | server/src/data.ts:4-6 | the store starts with the 600 seeded items and `nextId` 601, with the id invariant |
| Data.Catalog.AddItem | server/src/data.ts:8-12 | the new item has id `String(old nextId)` and the given data. `nextId` goes up by one. The item is put at index 0 and every earlier item moves up one place unchanged. The id invariant is kept |
| Data.AddedItemLeadsFirstPage | server/src/data.ts:10 | after `addItem`, the first page with no query and no sort starts with the new item |
| Data.InitialCatalogPages | server/src/data.ts:4 | on the initial catalog, the page at offset 0 is the first 20 items of the sorted copy and more follow; the page at offset 590 is its last 10 items and nothing follows |

## Left out

- Express set-up, CORS, JSON body parsing, `/health` and `app.listen` are network plumbing. The handler is modelled from its already-parsed parameters.
- The `POST /items` endpoint in `server/src/index.ts` is commented out, so it is not behaviour and is not modelled. `addItem` is modelled on its own.
- The client (`App.tsx`, `api.ts`, `ItemCard.tsx`) is UI and HTTP code. It is not part of this model; only the `Item` shape of `client/src/types.ts` is used.
- Listing.EffectiveOffset, Listing.EffectiveLimit: `parseInt` of a non-numeric parameter gives NaN, which `Math.max`/`Math.min` pass on. The model takes the parameters as parsed integers and does not cover that case.
- Listing.ListItems: a `q`, `sort` or paging parameter given more than once arrives as an array. It is modelled as a single string.
- Utilities.SeedPriceCents: the price is computed on integers as `floor(v * 9000 / 2147483647) + 1000` cents. It is not computed through doubles. The double computation gives the same value for every state `v`, because its rounding error (below 1e-11) is smaller than the distance from `v * 9000 / 2147483647` to the nearest integer (at least 1/2147483647). This argument is not proved in Dafny.
- Utilities.Lehmer.Next returns the new state `v`, not `v / 2147483647`. The division is folded into `SeedPriceCents`.
- Utilities.SeedItems takes the count as a parameter. The default count of 500 is not modelled, since the only caller passes 600.
- Data.Catalog.AddItem: the id counter is an exact unbounded integer in the model. In JavaScript `nextId` is a double, and once it reaches 2^53 `nextId++` no longer changes it, so every later item would get the id "9007199254740992". `Valid()`, `Data.NextIdUnused` and `Data.NumberedIdsUnique` therefore describe the source only until the id 2^53 has been handed out; the next `addItem` would repeat it.
- Items.WithId: the spread `{ id, ...data }` would let a stray `id` field in `data` replace the counter's id. The typed data has no such field, and the model keeps the counter's id.
- Prices are integer cents. Prices with more than two decimals, negative prices, and prices whose `toString` uses exponent form (1e21 and above) are not modelled. `a.price - b.price` is modelled by its sign on cents.
- `toLowerCase` is modelled on ASCII letters only; other characters are left unchanged. `trim` and `Number` use the full ECMAScript whitespace set.
- The `Number` grammar is modelled as a predicate on strings. Only its NaN/not-NaN outcome is used; the numeric value it denotes is not.
