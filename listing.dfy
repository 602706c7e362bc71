/** server/src/index.ts, `GET /items`: clamp the paging parameters, filter
    the catalog by the query, stable-sort a copy by price, slice one page and
    compute `total`, `nextOffset` and `hasMore`. The handler only reads the
    catalog, so it is a function of the catalog's contents. */
module Listing {
  import opened Text
  import opened Items
  import opened Utilities

  function Min(a: int, b: int): int { if a <= b then a else b }
  function Max(a: int, b: int): int { if a <= b then b else a }

  // ---------------------------------------------------------------------------
  // Paging parameters
  // ---------------------------------------------------------------------------

  /** `Math.max(0, parseInt(offset || "0", 10))`; `None` stands for an absent
      or empty parameter. */
  function EffectiveOffset(raw: Option<int>): (offset: nat)
    ensures raw.Some? && raw.value >= 0 ==> offset == raw.value
    ensures raw.None? || raw.value < 0 ==> offset == 0
  {
    match raw
    case None => 0
    case Some(n) => Max(0, n)
  }

  /** `Math.min(Math.max(1, parseInt(limit || "20", 10)), 100)` */
  function EffectiveLimit(raw: Option<int>): (limit: nat)
    ensures 1 <= limit <= 100
    ensures raw.None? ==> limit == 20
    ensures raw.Some? && 1 <= raw.value <= 100 ==> limit == raw.value
    ensures raw.Some? && raw.value < 1 ==> limit == 1
    ensures raw.Some? && raw.value > 100 ==> limit == 100
  {
    match raw
    case None => 20
    case Some(n) => Min(Max(1, n), 100)
  }

  // ---------------------------------------------------------------------------
  // Filtering
  // ---------------------------------------------------------------------------

  /** `items.filter(keep)` */
  function Filter(items: seq<Item>, keep: Item -> bool): (r: seq<Item>)
    ensures |r| <= |items|
  {
    if items == [] then []
    else (if keep(items[0]) then [items[0]] else []) + Filter(items[1..], keep)
  }

  /** The callback `(i) => matchesQuery(i, q)`. */
  function Matcher(q: string): Item -> bool {
    item => MatchesQuery(item, q)
  }

  /** `q ? items.filter((i) => matchesQuery(i, q)) : items` */
  function Filtered(catalog: seq<Item>, q: string): (r: seq<Item>)
    ensures q == "" ==> r == catalog
    ensures |r| <= |catalog|
  {
    if q == "" then catalog else Filter(catalog, Matcher(q))
  }

  /** `a` is `b` with some elements left out, the rest in the same order. */
  predicate IsSubsequence(a: seq<Item>, b: seq<Item>) {
    a == [] ||
    (b != [] && ((a[0] == b[0] && IsSubsequence(a[1..], b[1..])) || IsSubsequence(a, b[1..])))
  }

  /** The filtered list keeps catalog order: it is a subsequence. */
  lemma {:induction false} FilterIsSubsequence(items: seq<Item>, keep: Item -> bool)
    ensures IsSubsequence(Filter(items, keep), items)
  {
    if items != [] {
      FilterIsSubsequence(items[1..], keep);
      var rest := Filter(items[1..], keep);
      if keep(items[0]) {
        var r := [items[0]] + rest;
        assert Filter(items, keep) == r;
        assert r[0] == items[0] && r[1..] == rest;
        assert IsSubsequence(r, items);
      } else {
        assert Filter(items, keep) == rest;
        assert IsSubsequence(rest, items);
      }
    }
  }

  /** The filtered list holds every kept item as often as the catalog does,
      and nothing else. */
  lemma {:induction false} FilterKeepsExactlyMatches(items: seq<Item>, keep: Item -> bool, x: Item)
    ensures multiset(Filter(items, keep))[x] == if keep(x) then multiset(items)[x] else 0
  {
    if items != [] {
      var h, rest := items[0], items[1..];
      FilterKeepsExactlyMatches(rest, keep, x);
      var head := if keep(h) then [h] else [];
      assert multiset(Filter(items, keep)) == multiset(head) + multiset(Filter(rest, keep));
      assert multiset(items) == multiset{h} + multiset(rest) by {
        assert items == [h] + rest;
      }
    }
  }

  lemma {:induction false} FilterAllMatching(items: seq<Item>, keep: Item -> bool)
    requires forall i :: 0 <= i < |items| ==> keep(items[i])
    ensures Filter(items, keep) == items
  {
    if items != [] {
      FilterAllMatching(items[1..], keep);
    }
  }

  lemma {:induction false} FilterNoneMatching(items: seq<Item>, keep: Item -> bool)
    requires forall i :: 0 <= i < |items| ==> !keep(items[i])
    ensures Filter(items, keep) == []
  {
    if items != [] {
      FilterNoneMatching(items[1..], keep);
    }
  }

  /** A blank query, empty or whitespace only, keeps the whole catalog; so
      the shortcut for the empty query agrees with filtering. */
  lemma BlankQueryKeepsCatalog(catalog: seq<Item>, q: string)
    requires AllWhitespace(q)
    ensures Filtered(catalog, q) == catalog
    ensures Filter(catalog, Matcher(q)) == catalog
  {
    forall i | 0 <= i < |catalog| ensures Matcher(q)(catalog[i]) {
      BlankQueryMatchesAll(catalog[i], q);
    }
    FilterAllMatching(catalog, Matcher(q));
  }

  // ---------------------------------------------------------------------------
  // Sorting
  // ---------------------------------------------------------------------------

  datatype SortOrder = Ascending | Descending | Unsorted

  /** The `sort` parameter: `"asc"`, `"desc"`, anything else (or absent)
      leaves the order alone. */
  function OrderOf(sort: string): (order: SortOrder)
    ensures order == Ascending <==> sort == "asc"
    ensures order == Descending <==> sort == "desc"
  {
    if sort == "asc" then Ascending else if sort == "desc" then Descending else Unsorted
  }

  /** The comparator passed to `sort`. */
  function Compare(order: SortOrder, a: Item, b: Item): (c: int)
    ensures order == Ascending ==> (c <= 0 <==> a.price <= b.price)
    ensures order == Descending ==> (c <= 0 <==> a.price >= b.price)
    ensures order == Unsorted ==> c == 0
  {
    match order
    case Ascending => a.price - b.price
    case Descending => b.price - a.price
    case Unsorted => 0
  }

  /** Insert `x`, which came before every element of `t`, into `t`: after the
      elements the comparator puts strictly before it, before the others. */
  function Insert(order: SortOrder, x: Item, t: seq<Item>): (r: seq<Item>)
    ensures |r| == |t| + 1
  {
    if t == [] || Compare(order, x, t[0]) <= 0 then [x] + t
    else [t[0]] + Insert(order, x, t[1..])
  }

  /** `[...filtered].sort(comparator)`: a stable sort, written as insertion
      sort. SortByIsTheStableSort shows that every stable sort gives this
      result. */
  function SortBy(order: SortOrder, s: seq<Item>): (r: seq<Item>)
    ensures |r| == |s|
  {
    if s == [] then [] else Insert(order, s[0], SortBy(order, s[1..]))
  }

  /** No pair is out of order for the comparator. */
  predicate Sorted(order: SortOrder, s: seq<Item>) {
    forall i, j :: 0 <= i < j < |s| ==> Compare(order, s[i], s[j]) <= 0
  }

  /** The elements of `s` the comparator ties with `y`, in order. */
  function TiedWith(order: SortOrder, y: Item, s: seq<Item>): seq<Item> {
    if s == [] then []
    else (if Compare(order, y, s[0]) == 0 then [s[0]] else []) + TiedWith(order, y, s[1..])
  }

  /** A stable sort keeps the relative order of tied elements. */
  ghost predicate KeepsTies(order: SortOrder, r: seq<Item>, s: seq<Item>) {
    forall y :: TiedWith(order, y, r) == TiedWith(order, y, s)
  }

  lemma {:induction false} InsertPermutes(order: SortOrder, x: Item, t: seq<Item>)
    ensures multiset(Insert(order, x, t)) == multiset(t) + multiset{x}
  {
    if t != [] && Compare(order, x, t[0]) > 0 {
      InsertPermutes(order, x, t[1..]);
      assert t == [t[0]] + t[1..];
    }
  }

  /** The sorted copy is a permutation of the filtered list. */
  lemma {:induction false} SortByPermutes(order: SortOrder, s: seq<Item>)
    ensures multiset(SortBy(order, s)) == multiset(s)
  {
    if s != [] {
      SortByPermutes(order, s[1..]);
      InsertPermutes(order, s[0], SortBy(order, s[1..]));
      assert s == [s[0]] + s[1..];
    }
  }

  /** An item that precedes `x` and every element of `t` precedes every
      element of `Insert(order, x, t)`. */
  lemma {:induction false} InsertPrecededBy(order: SortOrder, a: Item, x: Item, t: seq<Item>)
    requires Compare(order, a, x) <= 0
    requires forall k :: 0 <= k < |t| ==> Compare(order, a, t[k]) <= 0
    ensures forall k :: 0 <= k < |Insert(order, x, t)| ==> Compare(order, a, Insert(order, x, t)[k]) <= 0
  {
    if t != [] && Compare(order, x, t[0]) > 0 {
      InsertPrecededBy(order, a, x, t[1..]);
      assert Insert(order, x, t) == [t[0]] + Insert(order, x, t[1..]);
    }
  }

  lemma {:induction false} InsertSorted(order: SortOrder, x: Item, t: seq<Item>)
    requires Sorted(order, t)
    ensures Sorted(order, Insert(order, x, t))
  {
    if t != [] && Compare(order, x, t[0]) > 0 {
      var rest := t[1..];
      InsertSorted(order, x, rest);
      InsertPrecededBy(order, t[0], x, rest);
      assert Insert(order, x, t) == [t[0]] + Insert(order, x, rest);
      ConsSorted(order, t[0], Insert(order, x, rest));
    }
  }

  /** Putting in front of a sorted sequence an element that precedes all of
      it keeps it sorted. */
  lemma ConsSorted(order: SortOrder, a: Item, s: seq<Item>)
    requires Sorted(order, s)
    requires forall k :: 0 <= k < |s| ==> Compare(order, a, s[k]) <= 0
    ensures Sorted(order, [a] + s)
  {
    var r := [a] + s;
    forall i, j | 0 <= i < j < |r| ensures Compare(order, r[i], r[j]) <= 0 {
      if i > 0 {
        assert r[i] == s[i - 1] && r[j] == s[j - 1];
      } else {
        assert r[j] == s[j - 1];
      }
    }
  }

  /** With `"asc"` prices never decrease, with `"desc"` they never increase. */
  lemma {:induction false} SortBySorted(order: SortOrder, s: seq<Item>)
    ensures Sorted(order, SortBy(order, s))
  {
    if s != [] {
      SortBySorted(order, s[1..]);
      InsertSorted(order, s[0], SortBy(order, s[1..]));
    }
  }

  lemma SortedPrices(s: seq<Item>)
    ensures Sorted(Ascending, s) <==> forall i, j :: 0 <= i < j < |s| ==> s[i].price <= s[j].price
    ensures Sorted(Descending, s) <==> forall i, j :: 0 <= i < j < |s| ==> s[i].price >= s[j].price
  {
  }

  lemma TiedWithCons(order: SortOrder, y: Item, a: Item, s: seq<Item>)
    ensures TiedWith(order, y, [a] + s) ==
      (if Compare(order, y, a) == 0 then [a] else []) + TiedWith(order, y, s)
  {
    assert ([a] + s)[1..] == s;
  }

  lemma {:induction false} InsertKeepsTies(order: SortOrder, y: Item, x: Item, t: seq<Item>)
    ensures TiedWith(order, y, Insert(order, x, t)) == TiedWith(order, y, [x] + t)
  {
    if t != [] && Compare(order, x, t[0]) > 0 {
      var rest := t[1..];
      InsertKeepsTies(order, y, x, rest);
      assert t == [t[0]] + rest;
      assert Insert(order, x, t) == [t[0]] + Insert(order, x, rest);
      TiesSwap(order, y, x, t[0], rest, Insert(order, x, rest));
    }
  }

  /** Moving `x` past an element it is not tied with leaves every tie class
      in the same order. */
  lemma TiesSwap(order: SortOrder, y: Item, x: Item, a: Item, rest: seq<Item>, ins: seq<Item>)
    requires Compare(order, x, a) > 0
    requires TiedWith(order, y, ins) == TiedWith(order, y, [x] + rest)
    ensures TiedWith(order, y, [a] + ins) == TiedWith(order, y, [x] + ([a] + rest))
  {
    TiedWithCons(order, y, a, ins);
    TiedWithCons(order, y, x, rest);
    TiedWithCons(order, y, x, [a] + rest);
    TiedWithCons(order, y, a, rest);
    assert !(Compare(order, y, x) == 0 && Compare(order, y, a) == 0);
  }

  /** The sort is stable: elements of equal price keep their relative order
      (for the no-op comparator, every element does). */
  lemma {:induction false} SortByKeepsTies(order: SortOrder, s: seq<Item>)
    ensures KeepsTies(order, SortBy(order, s), s)
  {
    if s != [] {
      SortByKeepsTies(order, s[1..]);
      forall y ensures TiedWith(order, y, SortBy(order, s)) == TiedWith(order, y, s) {
        InsertKeepsTies(order, y, s[0], SortBy(order, s[1..]));
        TiedWithCons(order, y, s[0], SortBy(order, s[1..]));
        TiedWithCons(order, y, s[0], s[1..]);
        assert s == [s[0]] + s[1..];
      }
    }
  }

  /** With neither `"asc"` nor `"desc"` the comparator returns 0 and the
      stable sort leaves the filtered order exactly as it was. */
  lemma {:induction false} UnsortedKeepsOrder(s: seq<Item>)
    ensures SortBy(Unsorted, s) == s
  {
    if s != [] {
      UnsortedKeepsOrder(s[1..]);
    }
  }

  /** The first elements of two sorted permutations of each other are tied. */
  lemma SortedHeadsTied(order: SortOrder, r1: seq<Item>, r2: seq<Item>)
    requires r1 != [] && multiset(r1) == multiset(r2)
    requires Sorted(order, r1) && Sorted(order, r2)
    ensures r2 != [] && Compare(order, r1[0], r2[0]) == 0
  {
    assert r1[0] in multiset(r2);
    var j :| 0 <= j < |r2| && r2[j] == r1[0];
    assert r2[0] in multiset(r1);
    var i :| 0 <= i < |r1| && r1[i] == r2[0];
    assert Compare(order, r2[0], r1[0]) <= 0 && Compare(order, r1[0], r2[0]) <= 0;
  }

  lemma TailsKeepTies(order: SortOrder, a: Item, r1: seq<Item>, r2: seq<Item>)
    requires KeepsTies(order, [a] + r1, [a] + r2)
    ensures KeepsTies(order, r1, r2)
  {
    forall y ensures TiedWith(order, y, r1) == TiedWith(order, y, r2) {
      TiedWithCons(order, y, a, r1);
      TiedWithCons(order, y, a, r2);
      var h := if Compare(order, y, a) == 0 then [a] else [];
      var t1, t2 := TiedWith(order, y, r1), TiedWith(order, y, r2);
      assert h + t1 == h + t2;
      assert (h + t1)[|h|..] == t1 && (h + t2)[|h|..] == t2;
    }
  }

  lemma TailsPermute(r1: seq<Item>, r2: seq<Item>)
    requires r1 != [] && r2 != [] && r1[0] == r2[0] && multiset(r1) == multiset(r2)
    ensures multiset(r1[1..]) == multiset(r2[1..])
  {
    assert r1 == [r1[0]] + r1[1..] && r2 == [r2[0]] + r2[1..];
    assert multiset(r1[1..]) == multiset(r1) - multiset{r1[0]};
    assert multiset(r2[1..]) == multiset(r2) - multiset{r2[0]};
  }

  /** Tied first elements that both lead their tie class are the same. */
  lemma TiedHeadsEqual(order: SortOrder, r1: seq<Item>, r2: seq<Item>)
    requires r1 != [] && r2 != [] && Compare(order, r1[0], r2[0]) == 0
    requires KeepsTies(order, r1, r2)
    ensures r1[0] == r2[0]
  {
    var a, b := r1[0], r2[0];
    assert r1 == [a] + r1[1..] && r2 == [b] + r2[1..];
    TiedWithCons(order, a, a, r1[1..]);
    TiedWithCons(order, a, b, r2[1..]);
    assert TiedWith(order, a, r1) == TiedWith(order, a, r2);
    assert TiedWith(order, a, r1)[0] == a && TiedWith(order, a, r2)[0] == b;
  }

  /** Two sorted permutations of each other that order ties alike are equal. */
  lemma {:induction false} StableSortUnique(order: SortOrder, r1: seq<Item>, r2: seq<Item>)
    requires multiset(r1) == multiset(r2)
    requires Sorted(order, r1) && Sorted(order, r2)
    requires KeepsTies(order, r1, r2)
    ensures r1 == r2
    decreases |r1|
  {
    if r1 == [] {
      assert |multiset(r2)| == 0;
    } else {
      SortedHeadsTied(order, r1, r2);
      TiedHeadsEqual(order, r1, r2);
      TailsPermute(r1, r2);
      assert r1 == [r1[0]] + r1[1..] && r2 == [r1[0]] + r2[1..];
      TailsKeepTies(order, r1[0], r1[1..], r2[1..]);
      StableSortUnique(order, r1[1..], r2[1..]);
    }
  }

  /** Any stable sort by the comparator (whatever algorithm the JavaScript
      engine uses) gives exactly SortBy. */
  lemma SortByIsTheStableSort(order: SortOrder, s: seq<Item>, r: seq<Item>)
    requires multiset(r) == multiset(s)
    requires Sorted(order, r)
    requires KeepsTies(order, r, s)
    ensures r == SortBy(order, s)
  {
    SortByPermutes(order, s);
    SortBySorted(order, s);
    SortByKeepsTies(order, s);
    StableSortUnique(order, r, SortBy(order, s));
  }

  function Reverse(s: seq<Item>): (r: seq<Item>)
    ensures |r| == |s|
  {
    if s == [] then [] else Reverse(s[1..]) + [s[0]]
  }

  lemma {:induction false} ReverseAt(s: seq<Item>, k: nat)
    requires k < |s|
    ensures Reverse(s)[k] == s[|s| - 1 - k]
  {
    if k < |s| - 1 {
      ReverseAt(s[1..], k);
    }
  }

  lemma {:induction false} ReversePermutes(s: seq<Item>)
    ensures multiset(Reverse(s)) == multiset(s)
  {
    if s != [] {
      ReversePermutes(s[1..]);
      assert s == [s[0]] + s[1..];
    }
  }

  lemma {:induction false} ReverseConcat(a: seq<Item>, b: seq<Item>)
    ensures Reverse(a + b) == Reverse(b) + Reverse(a)
  {
    if a == [] {
      assert a + b == b;
    } else {
      assert (a + b)[1..] == a[1..] + b;
      ReverseConcat(a[1..], b);
    }
  }

  lemma {:induction false} TiedWithConcat(order: SortOrder, y: Item, a: seq<Item>, b: seq<Item>)
    ensures TiedWith(order, y, a + b) == TiedWith(order, y, a) + TiedWith(order, y, b)
  {
    if a == [] {
      assert a + b == b;
    } else {
      assert (a + b)[1..] == a[1..] + b;
      TiedWithConcat(order, y, a[1..], b);
    }
  }

  lemma {:induction false} TiedWithReverse(order: SortOrder, y: Item, s: seq<Item>)
    ensures TiedWith(order, y, Reverse(s)) == Reverse(TiedWith(order, y, s))
  {
    if s != [] {
      TiedWithReverse(order, y, s[1..]);
      TiedWithConcat(order, y, Reverse(s[1..]), [s[0]]);
      var h := if Compare(order, y, s[0]) == 0 then [s[0]] else [];
      ReverseConcat(h, TiedWith(order, y, s[1..]));
      assert TiedWith(order, y, [s[0]]) == h by {
        TiedWithCons(order, y, s[0], []);
      }
      assert Reverse(h) == h;
    }
  }

  /** Ascending and descending order tie the same pairs: equal prices. */
  lemma {:induction false} TiesAgree(y: Item, s: seq<Item>)
    ensures TiedWith(Descending, y, s) == TiedWith(Ascending, y, s)
  {
    if s != [] {
      TiesAgree(y, s[1..]);
    }
  }

  predicate DistinctPrices(s: seq<Item>) {
    forall i, j :: 0 <= i < j < |s| ==> s[i].price != s[j].price
  }

  lemma {:induction false} DistinctPricesFewTies(order: SortOrder, y: Item, s: seq<Item>)
    requires order != Unsorted && DistinctPrices(s)
    ensures |TiedWith(order, y, s)| <= 1
  {
    if s != [] {
      DistinctPricesFewTies(order, y, s[1..]);
      if Compare(order, y, s[0]) == 0 {
        forall i | 0 <= i < |s[1..]| ensures Compare(order, y, s[1..][i]) != 0 {
          assert s[1..][i] == s[i + 1];
        }
        TiedWithNone(order, y, s[1..]);
      }
    }
  }

  lemma {:induction false} TiedWithNone(order: SortOrder, y: Item, s: seq<Item>)
    requires forall i :: 0 <= i < |s| ==> Compare(order, y, s[i]) != 0
    ensures TiedWith(order, y, s) == []
  {
    if s != [] {
      TiedWithNone(order, y, s[1..]);
    }
  }

  /** Without ties in price, sorting `"desc"` gives exactly the reverse of
      sorting `"asc"`. */
  lemma DescendingReversesAscending(s: seq<Item>)
    requires DistinctPrices(s)
    ensures SortBy(Descending, s) == Reverse(SortBy(Ascending, s))
  {
    var up := SortBy(Ascending, s);
    var down := Reverse(up);
    SortByPermutes(Ascending, s);
    ReversePermutes(up);
    SortBySorted(Ascending, s);
    forall i, j | 0 <= i < j < |down| ensures Compare(Descending, down[i], down[j]) <= 0 {
      ReverseAt(up, i);
      ReverseAt(up, j);
    }
    SortByKeepsTies(Ascending, s);
    forall y ensures TiedWith(Descending, y, down) == TiedWith(Descending, y, s) {
      TiesAgree(y, down);
      TiesAgree(y, s);
      TiedWithReverse(Ascending, y, up);
      DistinctPricesFewTies(Ascending, y, s);
      var t := TiedWith(Ascending, y, s);
      assert Reverse(t) == t by {
        if |t| == 1 {
          assert Reverse(t) == Reverse(t[1..]) + [t[0]];
        }
      }
    }
    SortByIsTheStableSort(Descending, s, down);
  }

  // ---------------------------------------------------------------------------
  // The page
  // ---------------------------------------------------------------------------

  /** The JSON body of the response; `nextOffset: null` is `None`. */
  datatype Page = Page(items: seq<Item>, total: nat, nextOffset: Option<nat>, hasMore: bool)

  /** `s.slice(start, end)` for non-negative bounds: clipped to the sequence,
      empty when the window starts at or past its end. */
  function Slice(s: seq<Item>, start: nat, end: nat): (r: seq<Item>)
    ensures |r| == if start < end && start < |s| then Min(end, |s|) - start else 0
    ensures forall i :: 0 <= i < |r| ==> r[i] == s[start + i]
  {
    var from := Min(start, |s|);
    var to := Max(from, Min(end, |s|));
    s[from..to]
  }

  /** The handler of `GET /items`. `offsetParam` and `limitParam` are the
      parsed integers (`None`: absent or empty); `sort` is the raw parameter,
      `""` when absent. */
  function ListItems(catalog: seq<Item>, q: string, offsetParam: Option<int>,
                     limitParam: Option<int>, sort: string): (page: Page)
    ensures page.total == |Filtered(catalog, q)|
    ensures page.hasMore <==> page.nextOffset.Some?
    ensures var offset, limit := EffectiveOffset(offsetParam), EffectiveLimit(limitParam);
      (page.nextOffset.Some? <==> offset + limit < page.total) &&
      (page.nextOffset.Some? ==> page.nextOffset.value == offset + limit) &&
      |page.items| <= limit &&
      (offset >= page.total ==> page.items == []) &&
      |page.items| == (if offset < page.total then Min(limit, page.total - offset) else 0) &&
      forall i :: 0 <= i < |page.items| ==>
        page.items[i] == SortBy(OrderOf(sort), Filtered(catalog, q))[offset + i]
  {
    var offset := EffectiveOffset(offsetParam);
    var limit := EffectiveLimit(limitParam);
    var filtered := Filtered(catalog, q);
    var sortedItems := SortBy(OrderOf(sort), filtered);
    var slice := Slice(sortedItems, offset, offset + limit);
    var nextOffset: Option<nat> := if offset + limit < |sortedItems| then Some(offset + limit) else None;
    Page(slice, |filtered|, nextOffset, nextOffset != None)
  }

  /** Every item on a page is in the catalog and matches the query. */
  lemma PageItemsMatch(catalog: seq<Item>, q: string, offsetParam: Option<int>,
                       limitParam: Option<int>, sort: string, x: Item)
    requires x in ListItems(catalog, q, offsetParam, limitParam, sort).items
    ensures x in catalog && MatchesQuery(x, q)
  {
    var page := ListItems(catalog, q, offsetParam, limitParam, sort);
    var filtered := Filtered(catalog, q);
    var k :| 0 <= k < |page.items| && page.items[k] == x;
    var sortedItems := SortBy(OrderOf(sort), filtered);
    assert x == sortedItems[EffectiveOffset(offsetParam) + k];
    SortByPermutes(OrderOf(sort), filtered);
    assert x in multiset(filtered);
    if q == "" {
      BlankQueryMatchesAll(x, q);
    } else {
      FilterKeepsExactlyMatches(catalog, Matcher(q), x);
    }
  }

  /** A query no item matches gives an empty page, `total` 0, no next page. */
  lemma NoMatchEmptyPage(catalog: seq<Item>, q: string, offsetParam: Option<int>,
                         limitParam: Option<int>, sort: string)
    requires forall i :: 0 <= i < |catalog| ==> !MatchesQuery(catalog[i], q)
    ensures var page := ListItems(catalog, q, offsetParam, limitParam, sort);
      page.items == [] && page.total == 0 && page.nextOffset.None? && !page.hasMore
  {
    if q == "" && catalog != [] {
      BlankQueryMatchesAll(catalog[0], q);
    }
    FilterNoneMatching(catalog, Matcher(q));
  }

  /** 600 items, empty query, offset 0, limit 20: the first 20 items and
      `nextOffset` 20. */
  lemma FirstPageOf600(catalog: seq<Item>, sort: string)
    requires |catalog| == 600
    ensures var page := ListItems(catalog, "", Some(0), Some(20), sort);
      page.total == 600 && page.items == SortBy(OrderOf(sort), catalog)[..20] &&
      page.nextOffset == Some(20) && page.hasMore
  {
  }

  /** 600 items, empty query, offset 590, limit 20: the last 10 items, no
      `nextOffset`, `hasMore` false. */
  lemma LastPageOf600(catalog: seq<Item>, sort: string)
    requires |catalog| == 600
    ensures var page := ListItems(catalog, "", Some(590), Some(20), sort);
      page.total == 600 && page.items == SortBy(OrderOf(sort), catalog)[590..] &&
      page.nextOffset.None? && !page.hasMore
  {
  }

  /** With an empty query and no sort the first page is the catalog's head, in
      catalog order. */
  lemma UnsortedFirstPageIsHead(catalog: seq<Item>, limitParam: Option<int>, sort: string)
    requires sort != "asc" && sort != "desc"
    ensures var page := ListItems(catalog, "", Some(0), limitParam, sort);
      page.items == catalog[..Min(EffectiveLimit(limitParam), |catalog|)]
  {
    UnsortedKeepsOrder(catalog);
  }
}
