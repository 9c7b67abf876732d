/*
 * The intrusive circular doubly linked list that the Node-API environment
 * keeps its references in. Items are named by their addresses (positive
 * integers); the list's own sentinel item `head_` has address 0. The
 * sentinel's `next` is the first item and its `prev` the last, and an empty
 * list links the sentinel to itself. The `next` and `prev` fields of the
 * items of one list are the two maps of the list object.
 */
module NodeApiList {

  /** The address of the sentinel item. */
  const Head: int := 0

  ghost predicate Distinct(s: seq<int>)
  {
    forall i, j :: 0 <= i < j < |s| ==> s[i] != s[j]
  }

  /** The item at ring position `k` of the list `items`: positions -1 and
      |items| are the sentinel. */
  function Node(items: seq<int>, k: int): int
  {
    if 0 <= k < |items| then items[k] else Head
  }

  /** `next` and `prev` link the sentinel and `items` into one ring, in order. */
  ghost predicate LinksOf(next: map<int, int>, prev: map<int, int>, items: seq<int>)
  {
    && Head !in items
    && Distinct(items)
    && (forall k :: -1 <= k < |items| ==> Node(items, k) in next && next[Node(items, k)] == Node(items, k + 1))
    && (forall k :: 0 <= k <= |items| ==> Node(items, k) in prev && prev[Node(items, k)] == Node(items, k - 1))
  }

  /** Only the sentinel and the items carry links. */
  ghost predicate LinkedAreItems(next: map<int, int>, prev: map<int, int>, items: seq<int>)
  {
    && (forall x :: x in next <==> x == Head || x in items)
    && (forall x :: x in prev <==> x == Head || x in items)
  }

  /** The position of `x` in `s`. */
  ghost function IndexOf(s: seq<int>, x: int): (k: int)
    requires x in s
    ensures 0 <= k < |s| && s[k] == x
  {
    var k :| 0 <= k < |s| && s[k] == x; k
  }

  /** `s` without `x`. */
  ghost function Removed(s: seq<int>, x: int): seq<int>
  {
    if x in s then s[..IndexOf(s, x)] + s[IndexOf(s, x) + 1..] else s
  }

  /** `s` with `x` placed right after `at`, or in front when `at` is not in
      `s` (that is, when `at` is the sentinel). */
  ghost function InsertedAfter(s: seq<int>, at: int, x: int): seq<int>
  {
    if at in s then s[..IndexOf(s, at) + 1] + [x] + s[IndexOf(s, at) + 1..] else [x] + s
  }

  // ---------------------------------------------------------------------------
  // Relinking keeps the ring well formed.
  // ---------------------------------------------------------------------------

  /** In a list without repeats, an item's position is the one it sits at. */
  lemma IndexOfDistinct(s: seq<int>, k: int)
    requires Distinct(s) && 0 <= k < |s|
    ensures IndexOf(s, s[k]) == k
  {
  }

  /** Removing an item other than the last keeps the last item last. */
  lemma RemovedKeepsLast(s: seq<int>, x: int)
    requires Head !in s && Distinct(s) && 0 < |s| && s[|s| - 1] != x
    ensures var r := Removed(s, x);
      Head !in r && Distinct(r) && 0 < |r| && r[|r| - 1] == s[|s| - 1]
  {
    if x in s {
      var k := IndexOf(s, x);
      RemoveAtKeepsDistinct(s, k);
      assert s[k + 1..][|s| - k - 2] == s[|s| - 1];
    }
  }

  /** Inserting after the last item appends. */
  lemma InsertedAfterLast(s: seq<int>, at: int, x: int)
    requires Distinct(s) && 0 < |s| && s[|s| - 1] == at
    ensures InsertedAfter(s, at, x) == s + [x]
  {
    IndexOfDistinct(s, |s| - 1);
    assert s[|s|..] == [];
    assert s[..|s|] == s;
  }

  /** Different ring positions hold different items, except that both ends are
      the sentinel. */
  lemma NodesDiffer(items: seq<int>, i: int, j: int)
    requires Head !in items && Distinct(items)
    requires -1 <= i <= |items| && -1 <= j <= |items| && i != j
    requires !(i == -1 && j == |items|) && !(j == -1 && i == |items|)
    ensures Node(items, i) != Node(items, j)
  {
    if 0 <= i < |items| && 0 <= j < |items| {
      if i > j {
        assert items[j] != items[i];
      }
    } else if 0 <= i < |items| {
      assert items[i] in items;
    } else {
      assert items[j] in items;
    }
  }

  /** Dropping one item keeps the rest distinct and free of the sentinel. */
  lemma RemoveAtKeepsDistinct(items: seq<int>, k: int)
    requires Head !in items && Distinct(items) && 0 <= k < |items|
    ensures var rest := items[..k] + items[k + 1..];
      Head !in rest && Distinct(rest)
      && forall x :: x in rest <==> x in items && x != items[k]
  {
    var rest := items[..k] + items[k + 1..];
    forall i, j | 0 <= i < j < |rest| ensures rest[i] != rest[j] {
      var i0, j0 := if i < k then i else i + 1, if j < k then j else j + 1;
      assert rest[i] == items[i0] && rest[j] == items[j0];
    }
    forall x ensures x in rest <==> x in items && x != items[k] {
      if x in rest {
        var i := IndexOf(rest, x);
        var i0 := if i < k then i else i + 1;
        assert rest[i] == items[i0];
      }
      if x in items && x != items[k] {
        var i0 := IndexOf(items, x);
        assert x == rest[if i0 < k then i0 else i0 - 1];
      }
    }
  }

  /** Where each item of `items` lands once `x` is placed after position `a`. */
  lemma InsertedAt(items: seq<int>, a: int, x: int)
    requires -1 <= a < |items|
    ensures var items' := items[..a + 1] + [x] + items[a + 1..];
      |items'| == |items| + 1
      && (forall i :: 0 <= i <= a ==> items'[i] == items[i])
      && items'[a + 1] == x
      && (forall i :: a + 1 < i < |items'| ==> items'[i] == items[i - 1])
  {
  }

  /** Placing a new item `x` after position `a` keeps the items distinct. */
  lemma InsertKeepsDistinct(items: seq<int>, a: int, x: int)
    requires Head !in items && Distinct(items) && -1 <= a < |items| && x != Head && x !in items
    ensures var items' := items[..a + 1] + [x] + items[a + 1..];
      Head !in items' && Distinct(items')
  {
    var items' := items[..a + 1] + [x] + items[a + 1..];
    InsertedAt(items, a, x);
    forall i, j | 0 <= i < j < |items'| ensures items'[i] != items'[j] {
      if i != a + 1 && j != a + 1 {
        var i0, j0 := if i <= a then i else i - 1, if j <= a then j else j - 1;
        assert items'[i] == items[i0] && items'[j] == items[j0];
      } else if i == a + 1 {
        assert items[j - 1] in items;
      } else {
        assert items[i] in items;
      }
    }
    assert Head !in items[..a + 1] && Head !in items[a + 1..];
  }

  /** Placing `x` after position `a` adds exactly `x` to the members. */
  lemma InsertMembers(items: seq<int>, a: int, x: int)
    requires -1 <= a < |items|
    ensures var items' := items[..a + 1] + [x] + items[a + 1..];
      forall y :: y in items' <==> y == x || y in items
  {
    var items' := items[..a + 1] + [x] + items[a + 1..];
    assert items == items[..a + 1] + items[a + 1..];
  }

  /** After unlinking the item at position `k`, every remaining position keeps
      its successor, and the item before `k` gets the one after it. */
  lemma UnlinkKeepsNext(next: map<int, int>, prev: map<int, int>, items: seq<int>, k: int)
    requires LinksOf(next, prev, items) && 0 <= k < |items|
    ensures var rest := items[..k] + items[k + 1..];
      var next' := next[Node(items, k - 1) := Node(items, k + 1)] - {items[k]};
      forall m :: -1 <= m < |rest| ==> Node(rest, m) in next' && next'[Node(rest, m)] == Node(rest, m + 1)
  {
    var rest := items[..k] + items[k + 1..];
    var next' := next[Node(items, k - 1) := Node(items, k + 1)] - {items[k]};
    forall m | -1 <= m < |rest|
      ensures Node(rest, m) in next' && next'[Node(rest, m)] == Node(rest, m + 1)
    {
      var m0 := if m < k then m else m + 1;
      assert Node(rest, m) == Node(items, m0);
      assert Node(rest, m + 1) == Node(items, if m + 1 < k then m + 1 else m + 2);
      NodesDiffer(items, m0, k);
      if m0 != k - 1 {
        NodesDiffer(items, m0, k - 1);
        assert next[Node(items, m0)] == Node(items, m0 + 1);
      }
    }
  }

  /** The mirror image of `UnlinkKeepsNext` for the `prev` links. */
  lemma UnlinkKeepsPrev(next: map<int, int>, prev: map<int, int>, items: seq<int>, k: int)
    requires LinksOf(next, prev, items) && 0 <= k < |items|
    ensures var rest := items[..k] + items[k + 1..];
      var prev' := prev[Node(items, k + 1) := Node(items, k - 1)] - {items[k]};
      forall m :: 0 <= m <= |rest| ==> Node(rest, m) in prev' && prev'[Node(rest, m)] == Node(rest, m - 1)
  {
    var rest := items[..k] + items[k + 1..];
    var prev' := prev[Node(items, k + 1) := Node(items, k - 1)] - {items[k]};
    forall m | 0 <= m <= |rest|
      ensures Node(rest, m) in prev' && prev'[Node(rest, m)] == Node(rest, m - 1)
    {
      var m0 := if m < k then m else m + 1;
      assert Node(rest, m) == Node(items, m0);
      assert Node(rest, m - 1) == Node(items, if m - 1 < k then m - 1 else m);
      NodesDiffer(items, m0, k);
      if m0 != k + 1 {
        NodesDiffer(items, m0, k + 1);
        assert prev[Node(items, m0)] == Node(items, m0 - 1);
      }
    }
  }

  /** Linking a new item `x` after ring position `a` keeps every successor
      link and gives `x` its place at position a+1. */
  lemma LinkKeepsNext(next: map<int, int>, prev: map<int, int>, items: seq<int>, a: int, x: int)
    requires LinksOf(next, prev, items) && -1 <= a < |items| && x != Head && x !in items
    ensures var items' := items[..a + 1] + [x] + items[a + 1..];
      var next' := next[x := Node(items, a + 1)][Node(items, a) := x];
      forall m :: -1 <= m < |items'| ==> Node(items', m) in next' && next'[Node(items', m)] == Node(items', m + 1)
  {
    var items' := items[..a + 1] + [x] + items[a + 1..];
    var next' := next[x := Node(items, a + 1)][Node(items, a) := x];
    InsertKeepsDistinct(items, a, x);
    InsertedAt(items, a, x);
    forall m | -1 <= m < |items'| ensures Node(items', m) in next' && next'[Node(items', m)] == Node(items', m + 1) {
      if m == a {
        assert Node(items', m) == Node(items, a);
      } else if m == a + 1 {
        assert Node(items', m) == x && Node(items', m + 1) == Node(items, a + 1);
        NodesDiffer(items', a, a + 1);
      } else {
        var m0 := if m < a then m else m - 1;
        assert Node(items', m) == Node(items, m0) && Node(items', m + 1) == Node(items, m0 + 1);
        NodesDiffer(items, m0, a);
        NodesDiffer(items', m, a + 1);
      }
    }
  }

  /** The mirror image of `LinkKeepsNext` for the `prev` links. */
  lemma LinkKeepsPrev(next: map<int, int>, prev: map<int, int>, items: seq<int>, a: int, x: int)
    requires LinksOf(next, prev, items) && -1 <= a < |items| && x != Head && x !in items
    ensures var items' := items[..a + 1] + [x] + items[a + 1..];
      var prev' := prev[x := Node(items, a)][Node(items, a + 1) := x];
      forall m :: 0 <= m <= |items'| ==> Node(items', m) in prev' && prev'[Node(items', m)] == Node(items', m - 1)
  {
    var items' := items[..a + 1] + [x] + items[a + 1..];
    var prev' := prev[x := Node(items, a)][Node(items, a + 1) := x];
    InsertKeepsDistinct(items, a, x);
    InsertedAt(items, a, x);
    forall m | 0 <= m <= |items'| ensures Node(items', m) in prev' && prev'[Node(items', m)] == Node(items', m - 1) {
      if m == a + 1 {
        assert Node(items', m) == x && Node(items', m - 1) == Node(items, a);
        NodesDiffer(items', a + 1, a + 2);
      } else if m == a + 2 {
        assert Node(items', m) == Node(items, a + 1);
      } else {
        var m0 := if m <= a then m else m - 1;
        assert Node(items', m) == Node(items, m0) && Node(items', m - 1) == Node(items, m0 - 1);
        NodesDiffer(items, m0, a + 1);
        NodesDiffer(items', m, a + 1);
      }
    }
  }

  /** After linking, the linked addresses are the sentinel, the items and the
      new item. */
  lemma LinkKeepsLinked(next: map<int, int>, prev: map<int, int>, items: seq<int>, a: int, x: int)
    requires LinkedAreItems(next, prev, items) && -1 <= a < |items|
    ensures var at, n := Node(items, a), Node(items, a + 1);
      LinkedAreItems(next[x := n][at := x], prev[x := at][n := x], items[..a + 1] + [x] + items[a + 1..])
  {
    InsertMembers(items, a, x);
    assert Node(items, a) == Head || Node(items, a) in items;
    assert Node(items, a + 1) == Head || Node(items, a + 1) in items;
  }

  /** Linking a new item after ring position `a` yields the ring of the
      items with the new item inserted there. */
  lemma LinkKeepsRing(next: map<int, int>, prev: map<int, int>, items: seq<int>, a: int, x: int)
    requires LinksOf(next, prev, items) && LinkedAreItems(next, prev, items)
    requires -1 <= a < |items| && x != Head && x !in items
    ensures var at, n := Node(items, a), Node(items, a + 1);
      var items' := items[..a + 1] + [x] + items[a + 1..];
      && LinksOf(next[x := n][at := x], prev[x := at][n := x], items')
      && LinkedAreItems(next[x := n][at := x], prev[x := at][n := x], items')
      && items' == InsertedAfter(items, at, x)
  {
    LinkKeepsNext(next, prev, items, a, x);
    LinkKeepsPrev(next, prev, items, a, x);
    InsertKeepsDistinct(items, a, x);
    LinkKeepsLinked(next, prev, items, a, x);
    if a == -1 {
      assert items[..0] == [];
    } else {
      IndexOfDistinct(items, a);
    }
  }

  class LinkedList {
    var next: map<int, int>
    var prev: map<int, int>
    /** The items from first to last. */
    ghost var items: seq<int>

    ghost predicate Valid()
      reads this
    {
      LinksOf(next, prev, items) && LinkedAreItems(next, prev, items)
    }

    constructor ()
      ensures Valid() && items == []
    {
      next := map[Head := Head];
      prev := map[Head := Head];
      items := [];
    }

    /** An item is linked when its `prev` link is set. */
    predicate IsLinked(item: int)
      reads this
    {
      item in prev
    }

    /** The emptiness test as the list defines it: the sentinel's two links
        agree. */
    predicate IsEmptyAsWritten()
      reads this
      requires Valid()
      ensures IsEmptyAsWritten() <==> Node(items, 0) == Node(items, |items| - 1)
    {
      assert next[Node(items, -1)] == Node(items, 0);
      assert prev[Node(items, |items|)] == Node(items, |items| - 1);
      next[Head] == prev[Head]
    }

    /** The emptiness test the list needs: the sentinel follows itself. */
    predicate IsEmpty()
      reads this
      requires Valid()
    {
      next[Head] == Head
    }

    /** Unlinks `item` if it is linked, joining its neighbours and clearing its
        links. */
    method Unlink(item: int)
      requires Valid() && item != Head
      modifies this
      ensures Valid() && items == Removed(old(items), item) && !IsLinked(item)
      ensures forall x :: x in items <==> x in old(items) && x != item
    {
      if IsLinked(item) {
        ghost var k := IndexOf(items, item);
        assert Node(items, k) == item;
        var p, n := prev[item], next[item];
        UnlinkKeepsNext(next, prev, items, k);
        UnlinkKeepsPrev(next, prev, items, k);
        RemoveAtKeepsDistinct(items, k);
        next := next[p := n] - {item};
        prev := prev[n := p] - {item};
        items := items[..k] + items[k + 1..];
      }
    }

    /** Links `item` right after `at`, first unlinking it if it is linked. */
    method LinkNext(at: int, item: int)
      requires Valid() && (at == Head || at in items) && item != Head && item != at
      modifies this
      ensures Valid() && items == InsertedAfter(Removed(old(items), item), at, item)
    {
      Unlink(item);
      LinkUnlinked(at, item);
    }

    /** The linking half of `LinkNext`, for an item that is not linked. */
    method LinkUnlinked(at: int, item: int)
      requires Valid() && (at == Head || at in items) && item != Head && item !in items
      modifies this
      ensures Valid() && items == InsertedAfter(old(items), at, item)
    {
      ghost var a := if at == Head then -1 else IndexOf(items, at);
      assert Node(items, a) == at;
      var n := next[at];
      assert n == Node(items, a + 1);
      LinkKeepsRing(next, prev, items, a, item);
      prev := prev[item := at][n := item];
      next := next[item := n][at := item];
      items := items[..a + 1] + [item] + items[a + 1..];
    }

    method PushFront(item: int)
      requires Valid() && item != Head
      modifies this
      ensures Valid() && items == [item] + Removed(old(items), item)
    {
      LinkNext(Head, item);
    }

    method PushBack(item: int)
      requires Valid() && item != Head && item != prev[Head]
      modifies this
      ensures Valid() && items == Removed(old(items), item) + [item]
    {
      ghost var last := |items| - 1;
      assert prev[Node(items, last + 1)] == Node(items, last);
      if items != [] {
        RemovedKeepsLast(items, item);
        InsertedAfterLast(Removed(items, item), items[last], item);
      }
      LinkNext(prev[Head], item);
    }

    /** Walks the list from the first item to the last, reading each item's
        successor before visiting it; returns the items in the order visited. */
    method ForEach() returns (visited: seq<int>)
      requires Valid()
      ensures visited == items
    {
      visited := [];
      var item := next[Head];
      ghost var i := 0;
      assert next[Node(items, -1)] == Node(items, 0);
      while item != Head
        invariant 0 <= i <= |items| && visited == items[..i]
        invariant item == Node(items, i)
        decreases |items| - i
      {
        var nextItem := next[item];
        visited := visited + [item];
        item := nextItem;
        i := i + 1;
      }
    }
  }

  /** The emptiness test as written also holds for a list of exactly one item,
      whose only item is both the first and the last. */
  lemma IsEmptyAsWrittenHoldsForOneItem(list: LinkedList)
    requires list.Valid() && |list.items| == 1
    ensures list.IsEmptyAsWritten()
  {
    assert list.next[Node(list.items, -1)] == Node(list.items, 0);
    assert list.prev[Node(list.items, 1)] == Node(list.items, 0);
  }

  /** The emptiness test as written holds exactly for lists of at most one item. */
  lemma IsEmptyAsWrittenMeaning(list: LinkedList)
    requires list.Valid()
    ensures list.IsEmptyAsWritten() <==> |list.items| <= 1
  {
    var items := list.items;
    assert list.next[Node(items, -1)] == Node(items, 0);
    assert list.prev[Node(items, |items|)] == Node(items, |items| - 1);
    if |items| > 1 {
      NodesDiffer(items, 0, |items| - 1);
    }
  }

  /** The corrected test holds exactly for the empty list. */
  lemma IsEmptyMeaning(list: LinkedList)
    requires list.Valid()
    ensures list.IsEmpty() <==> list.items == []
  {
    var items := list.items;
    assert list.next[Node(items, -1)] == Node(items, 0);
    if items != [] {
      NodesDiffer(items, 0, |items|);
    }
  }
}
