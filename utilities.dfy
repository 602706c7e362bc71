/** server/src/util/utilities.ts: the query predicate, the Lehmer generator
    and the generator of the initial catalog. */
module Utilities {
  import opened Text
  import opened JsNumber
  import opened Items

  // ---------------------------------------------------------------------------
  // matchesQuery
  // ---------------------------------------------------------------------------

  /** `q.toLowerCase().trim()` */
  function NormalizeQuery(q: string): string {
    Trim(ToLower(q))
  }

  /** Some tag of `tags`, lower-cased, contains `query` (`tags.some(...)`). */
  predicate SomeTagIncludes(tags: seq<string>, query: string) {
    exists t | t in tags :: Includes(ToLower(t), query)
  }

  /** `inText`: the query occurs in the lower-cased name, description, alt
      text or a tag; an absent alt text or tag list contributes `false`. */
  predicate InText(item: Item, query: string) {
    Includes(ToLower(item.name), query) ||
    Includes(ToLower(item.description), query) ||
    (match item.imageAlt
     case Some(alt) => Includes(ToLower(alt), query)
     case None => false) ||
    (match item.imageTags
     case Some(tags) => SomeTagIncludes(tags, query)
     case None => false)
  }

  /** `priceMatch`: the query is a number and occurs in the price's text. */
  predicate PriceMatch(item: Item, query: string) {
    IsNumeric(query) && Includes(PriceString(item.price), query)
  }

  /** `matchesQuery(item, q)` */
  predicate MatchesQuery(item: Item, q: string) {
    var query := NormalizeQuery(q);
    query == [] || InText(item, query) || PriceMatch(item, query)
  }

  /** A query made only of whitespace matches every item. */
  lemma BlankQueryMatchesAll(item: Item, q: string)
    requires AllWhitespace(q)
    ensures MatchesQuery(item, q)
  {
    assert AllWhitespace(ToLower(q));
  }

  /** Matching ignores the case of the query's letters. */
  lemma MatchesQueryIgnoresQueryCase(item: Item, q1: string, q2: string)
    requires SameIgnoringCase(q1, q2)
    ensures MatchesQuery(item, q1) <==> MatchesQuery(item, q2)
  {
    ToLowerOfSameIgnoringCase(q1, q2);
  }

  /** Matching ignores the case of the letters of every text field. */
  lemma MatchesQueryIgnoresFieldCase(item: Item, other: Item, q: string)
    requires SameIgnoringCase(item.name, other.name)
    requires SameIgnoringCase(item.description, other.description)
    requires item.imageAlt.Some? <==> other.imageAlt.Some?
    requires item.imageAlt.Some? ==> SameIgnoringCase(item.imageAlt.value, other.imageAlt.value)
    requires item.imageTags.Some? <==> other.imageTags.Some?
    requires item.imageTags.Some? ==>
      |item.imageTags.value| == |other.imageTags.value| &&
      forall i :: 0 <= i < |item.imageTags.value| ==>
        SameIgnoringCase(item.imageTags.value[i], other.imageTags.value[i])
    requires item.price == other.price
    ensures MatchesQuery(item, q) <==> MatchesQuery(other, q)
  {
    var query := NormalizeQuery(q);
    ToLowerOfSameIgnoringCase(item.name, other.name);
    ToLowerOfSameIgnoringCase(item.description, other.description);
    if item.imageAlt.Some? {
      ToLowerOfSameIgnoringCase(item.imageAlt.value, other.imageAlt.value);
    }
    if item.imageTags.Some? {
      TagsIgnoreCase(item.imageTags.value, other.imageTags.value, query);
    }
  }

  /** Tag lists that differ only in letter case contain the same queries. */
  lemma TagsIgnoreCase(ts: seq<string>, us: seq<string>, query: string)
    requires |ts| == |us|
    requires forall i :: 0 <= i < |ts| ==> SameIgnoringCase(ts[i], us[i])
    ensures SomeTagIncludes(ts, query) <==> SomeTagIncludes(us, query)
  {
    forall i | 0 <= i < |ts| ensures ToLower(ts[i]) == ToLower(us[i]) {
      ToLowerOfSameIgnoringCase(ts[i], us[i]);
    }
    if SomeTagIncludes(ts, query) {
      var t :| t in ts && Includes(ToLower(t), query);
      var i :| 0 <= i < |ts| && ts[i] == t;
      assert us[i] in us;
    }
    if SomeTagIncludes(us, query) {
      var u :| u in us && Includes(ToLower(u), query);
      var i :| 0 <= i < |us| && us[i] == u;
      assert ts[i] in ts;
    }
  }

  /** What `matchesQuery` accepts, in full: the blank query, a text match, or
      a match in the price's text by any query other than `"."` (the one
      piece of a price's text that `Number` rejects). */
  lemma MatchesQueryCharacterized(item: Item, q: string)
    ensures var query := NormalizeQuery(q);
      MatchesQuery(item, q) <==>
        query == [] || InText(item, query) ||
        (query != "." && Includes(PriceString(item.price), query))
  {
    var query := NormalizeQuery(q);
    if query != [] && Includes(PriceString(item.price), query) {
      PricePieceNumeric(item.price, query);
    }
  }

  /** A query that is not a number can match only through the text fields. */
  lemma NonNumericQueryMatchesOnlyText(item: Item, q: string)
    requires !IsNumeric(NormalizeQuery(q))
    ensures MatchesQuery(item, q) <==> NormalizeQuery(q) == [] || InText(item, NormalizeQuery(q))
  {
  }

  /** Without alt text and tags only the name, the description and the price
      can make an item match. */
  lemma AbsentExtrasNeverMatch(item: Item, q: string)
    requires item.imageAlt.None? && item.imageTags.None?
    ensures var query := NormalizeQuery(q);
      MatchesQuery(item, q) <==>
        query == [] || Includes(ToLower(item.name), query) ||
        Includes(ToLower(item.description), query) || PriceMatch(item, query)
  {
  }

  /** The id and the image URL are never consulted. */
  lemma MatchesQueryIgnoresIdAndImage(item: Item, q: string, id: string, image: string)
    ensures MatchesQuery(item.(id := id, image := image), q) <==> MatchesQuery(item, q)
  {
  }

  /** The numeric rule matches any price whose text contains the query's
      digits: `"10"` matches 10.50 and also 210.00. */
  lemma NumericQueryMatchesDigitsAnywhere(a: Item, b: Item)
    requires a.price == 1050 && b.price == 21000
    ensures MatchesQuery(a, "10") && MatchesQuery(b, "10")
  {
    assert Includes(PriceString(1050), "10") by {
      PriceStringOf1050();
      assert OccursAt("10.5", "10", 0);
    }
    assert Includes(PriceString(21000), "10") by {
      PriceStringOf21000();
      assert OccursAt("210", "10", 1);
    }
    TenMatchesPriceText(a);
    TenMatchesPriceText(b);
  }

  lemma TenMatchesPriceText(item: Item)
    requires Includes(PriceString(item.price), "10")
    ensures MatchesQuery(item, "10")
  {
    TenIsNormal();
    TenIsNumeric();
    assert PriceMatch(item, NormalizeQuery("10"));
  }

  lemma TenIsNormal()
    ensures NormalizeQuery("10") == "10"
  {
    var ten := "10";
    assert ten[0] == '1' && ten[1] == '0' && |ten| == 2;
    assert ToLower(ten) == ten;
    TrimUntrimmed(ten);
  }

  lemma TenIsNumeric()
    ensures IsNumeric("10")
  {
    var ten := "10";
    assert ten[0] == '1' && ten[1] == '0' && |ten| == 2;
    assert DecimalShaped(ten);
    DecimalShapedNumeric(ten);
  }

  lemma PriceStringOf1050()
    ensures PriceString(1050) == "10.5"
  {
    assert NatToString(10) == "10" by {
      assert NatToString(1) == "1";
    }
    assert FractionText(50) == ".5";
  }

  lemma PriceStringOf21000()
    ensures PriceString(21000) == "210"
  {
    assert NatToString(210) == "210" by {
      assert NatToString(2) == "2";
      assert NatToString(21) == "21";
    }
  }

  // ---------------------------------------------------------------------------
  // pseudoRandom
  // ---------------------------------------------------------------------------

  const Modulus: int := 2147483647
  const Multiplier: int := 48271

  /** `a % 2147483647` as JavaScript computes it: the remainder takes the
      sign of the dividend and differs from it by a multiple of the modulus. */
  function JsRem(a: int): (r: int)
    ensures -Modulus < r < Modulus
    ensures a >= 0 ==> 0 <= r
    ensures a <= 0 ==> r <= 0
    ensures (a - r) % Modulus == 0
  {
    if a >= 0 then a % Modulus else -((-a) % Modulus)
  }

  /** One draw's update of the generator's state. */
  function LehmerStep(v: int): (next: int)
    ensures -Modulus < next < Modulus
    ensures v >= 0 ==> next >= 0
  {
    JsRem(v * Multiplier)
  }

  /** The generator's state after `n` draws from `pseudoRandom(seed)`. */
  function LehmerState(seed: int, n: nat): int {
    if n == 0 then JsRem(seed) else LehmerStep(LehmerState(seed, n - 1))
  }

  /** The state stays strictly between `-Modulus` and `Modulus`, and in
      `[0, Modulus)` for a non-negative seed. */
  lemma {:induction false} LehmerStateBounds(seed: int, n: nat)
    ensures -Modulus < LehmerState(seed, n) < Modulus
    ensures seed >= 0 ==> 0 <= LehmerState(seed, n)
  {
    if n > 0 {
      LehmerStateBounds(seed, n - 1);
    }
  }

  /** The product the update computes stays below 2^53, so JavaScript's
      doubles hold it exactly and the integer model is the source's
      arithmetic. */
  lemma LehmerProductExact(v: int)
    requires -Modulus < v < Modulus
    ensures -0x20_0000_0000_0000 < v * Multiplier < 0x20_0000_0000_0000
  {
    if v >= 0 {
      assert v * Multiplier <= Modulus * Multiplier;
    } else {
      assert (-v) * Multiplier <= Modulus * Multiplier;
    }
  }

  /** The closure `pseudoRandom(seed)` returns, with its captured `value`. */
  class Lehmer {
    var value: int

    constructor (seed: int)
      ensures value == LehmerState(seed, 0)
    {
      value := JsRem(seed);
    }

    /** One call of the closure. It returns the new state `v`; the source
        returns `v / Modulus`, which the caller scales. */
    method Next() returns (v: int)
      modifies this
      ensures value == LehmerStep(old(value))
      ensures v == value
    {
      value := JsRem(value * Multiplier);
      v := value;
    }
  }

  // ---------------------------------------------------------------------------
  // seedItems
  // ---------------------------------------------------------------------------

  const Seed: int := 42

  const TagSets: seq<seq<string>> := [
    ["nature", "outdoor", "scenic"],
    ["city", "architecture", "buildings"],
    ["people", "portrait", "lifestyle"],
    ["food", "cuisine", "meal"],
    ["animals", "wildlife", "pet"]
  ]

  /** `Math.floor(rand() * 9000) / 100 + 10` in cents, for the state `v`
      behind `rand()`'s result. */
  function SeedPriceCents(v: nat): (cents: nat)
    requires v < Modulus
    ensures 1000 <= cents <= 9999
  {
    v * 9000 / Modulus + 1000
  }

  /** The `i`-th generated item (1-based), priced from the state `v`. */
  function SeededItem(i: nat, v: nat): Item
    requires v < Modulus
  {
    var n := NatToString(i);
    Item(n, "Item " + n, "This is a sample description for item " + n + ".",
         SeedPriceCents(v), "https://picsum.photos/seed/item-" + n + "/400/250",
         Some("Sample photo for item " + n), Some(TagSets[i % |TagSets|]))
  }

  /** The state behind the `i`-th draw of the catalog generator. */
  function SeedDraw(i: nat): (v: nat)
    ensures v < Modulus
  {
    LehmerStateBounds(Seed, i);
    LehmerState(Seed, i)
  }

  /** `seedItems(count)` for a non-negative count, as a value. */
  function SeededItems(count: nat): (items: seq<Item>)
    ensures |items| == count
  {
    if count == 0 then [] else SeededItems(count - 1) + [SeededItem(count, SeedDraw(count))]
  }

  /** The generated catalog has `count` items; the one at index `k` has id
      `String(k + 1)`, the tag set `TagSets[(k + 1) % 5]` and a price in
      [10.00, 99.99]. */
  lemma {:induction false} SeededItemsShape(count: nat)
    ensures |SeededItems(count)| == count
    ensures forall k :: 0 <= k < count ==>
      var item := SeededItems(count)[k];
      item.id == NatToString(k + 1) &&
      item.imageTags == Some(TagSets[(k + 1) % 5]) &&
      1000 <= item.price <= 9999
  {
    if count > 0 {
      SeededItemsShape(count - 1);
      assert forall k :: 0 <= k < count - 1 ==> SeededItems(count)[k] == SeededItems(count - 1)[k];
    }
  }

  /** Generated ids are pairwise distinct. */
  lemma SeededIdsDistinct(count: nat)
    ensures |SeededItems(count)| == count
    ensures forall i, j :: 0 <= i < j < count ==> SeededItems(count)[i].id != SeededItems(count)[j].id
  {
    SeededItemsShape(count);
    forall i, j | 0 <= i < j < count
      ensures SeededItems(count)[i].id != SeededItems(count)[j].id
    {
      if SeededItems(count)[i].id == SeededItems(count)[j].id {
        NatToStringInjective(i + 1, j + 1);
      }
    }
  }

  /** `seedItems(count)`: draws one state per item from a generator seeded
      with 42 and builds the items in order. A count below 1 gives no items. */
  method SeedItems(count: int) returns (items: seq<Item>)
    ensures count <= 0 ==> items == []
    ensures count >= 0 ==> items == SeededItems(count)
    ensures count >= 0 ==> |items| == count
  {
    var rand := new Lehmer(Seed);
    items := [];
    var i := 1;
    while i <= count
      invariant 1 <= i <= (if count < 0 then 0 else count) + 1
      invariant items == SeededItems(i - 1)
      invariant rand.value == LehmerState(Seed, i - 1)
    {
      var v := rand.Next();
      LehmerStateBounds(Seed, i);
      items := items + [SeededItem(i, v)];
      i := i + 1;
    }
  }
}
