/** server/src/data.ts: the module-level catalog array, seeded with 600
    items, and the id counter that `addItem` advances. */
module Data {
  import opened Text
  import opened Items
  import opened Utilities
  import opened Listing

  /** `numbers[i]` is the counter value behind `items[i].id`; the numbers
      are distinct and are exactly 1 .. nextId - 1. */
  ghost predicate NumberedBy(items: seq<Item>, numbers: seq<nat>, nextId: nat) {
    |numbers| == |items| &&
    (forall i :: 0 <= i < |items| ==> items[i].id == NatToString(numbers[i])) &&
    (forall i, j :: 0 <= i < j < |numbers| ==> numbers[i] != numbers[j]) &&
    (forall k: nat :: k in numbers <==> 1 <= k < nextId)
  }

  /** Ids in a catalog numbered by a counter are pairwise distinct. */
  lemma NumberedIdsUnique(items: seq<Item>, numbers: seq<nat>, nextId: nat)
    requires NumberedBy(items, numbers, nextId)
    ensures forall i, j :: 0 <= i < j < |items| ==> items[i].id != items[j].id
  {
    forall i, j | 0 <= i < j < |items| ensures items[i].id != items[j].id {
      if items[i].id == items[j].id {
        NatToStringInjective(numbers[i], numbers[j]);
      }
    }
  }

  /** The id the counter hands out next is not in use: ids are never reused. */
  lemma NextIdUnused(items: seq<Item>, numbers: seq<nat>, nextId: nat)
    requires NumberedBy(items, numbers, nextId)
    ensures forall i :: 0 <= i < |items| ==> items[i].id != NatToString(nextId)
  {
    forall i | 0 <= i < |items| ensures items[i].id != NatToString(nextId) {
      assert numbers[i] in numbers;
      if items[i].id == NatToString(nextId) {
        NatToStringInjective(numbers[i], nextId);
      }
    }
  }

  /** Every counter value below `nextId` names exactly one item. */
  lemma NumberedIdsCoverCounter(items: seq<Item>, numbers: seq<nat>, nextId: nat, k: nat)
    requires NumberedBy(items, numbers, nextId)
    requires 1 <= k < nextId
    ensures exists i :: 0 <= i < |items| && items[i].id == NatToString(k)
  {
    assert k in numbers;
    var i :| 0 <= i < |numbers| && numbers[i] == k;
    assert items[i].id == NatToString(k);
  }

  /** The catalog store: `items` and `nextId`. */
  class Catalog {
    var items: seq<Item>
    var nextId: nat
    ghost var idNumbers: seq<nat>

    ghost predicate Valid()
      reads this
    {
      NumberedBy(items, idNumbers, nextId) && nextId == |items| + 1
    }

    /** `items = seedItems(600)`, `nextId = items.length + 1`. */
    constructor ()
      ensures Valid()
      ensures items == SeededItems(600) && nextId == 601
    {
      var seeded := SeedItems(600);
      items := seeded;
      nextId := |seeded| + 1;
      var numbers: seq<nat> := seq(600, k requires 0 <= k < 600 => k + 1);
      idNumbers := numbers;
      SeededItemsShape(600);
      forall k: nat | 1 <= k < 601 ensures k in numbers {
        assert numbers[k - 1] == k;
      }
    }

    /** `addItem(data)`: the item takes `String(nextId)` as its id, the
        counter moves on by one and the item is put in front. */
    method AddItem(data: ItemData) returns (item: Item)
      requires Valid()
      modifies this
      ensures Valid()
      ensures item.id == NatToString(old(nextId)) && DataOf(item) == data
      ensures nextId == old(nextId) + 1
      ensures items == [item] + old(items)
      ensures |items| == |old(items)| + 1 && items[0] == item
      ensures forall i :: 0 <= i < |old(items)| ==> items[i + 1] == old(items)[i]
    {
      item := WithId(NatToString(nextId), data);
      assert nextId !in idNumbers;
      nextId := nextId + 1;
      items := [item] + items;
      idNumbers := [nextId - 1] + idNumbers;
    }
  }

  /** After `addItem`, listing with no query, offset 0 and no sort shows the
      new item first. */
  lemma AddedItemLeadsFirstPage(before: seq<Item>, item: Item, limitParam: Option<int>, sort: string)
    requires sort != "asc" && sort != "desc"
    ensures ListItems([item] + before, "", Some(0), limitParam, sort).items[0] == item
  {
    UnsortedFirstPageIsHead([item] + before, limitParam, sort);
  }

  /** On the initial catalog the first page is the first 20 of the sorted
      copy and more follow; the page at offset 590 is its last 10 and nothing
      follows. */
  lemma InitialCatalogPages(sort: string)
    ensures var page := ListItems(SeededItems(600), "", Some(0), Some(20), sort);
      page.items == SortBy(OrderOf(sort), SeededItems(600))[..20] && page.total == 600 && page.hasMore
    ensures var page := ListItems(SeededItems(600), "", Some(590), Some(20), sort);
      page.items == SortBy(OrderOf(sort), SeededItems(600))[590..] && page.nextOffset.None? && !page.hasMore
  {
    FirstPageOf600(SeededItems(600), sort);
    LastPageOf600(SeededItems(600), sort);
  }
}
