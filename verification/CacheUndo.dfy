/** Rolling an item back undoes exactly the change that was made to it, one cached list at a time. */
module CacheUndo {
  import opened QueryCache
  import opened Wrappers

  // ----- Inserting -----

  /**
   * Inserting an unknown item at the top and rolling it back restores the pages, unless there was no page at all:
   * then an empty page is left behind.
   */
  lemma UndoInsert(key: Key, pages: Pages, item: Item)
    requires !Holds(Flat(pages), item.id)
    ensures RollbackItem(pages, InsertAtTop(key, pages, item), item.id, None, false) == pages
        <==> (pages != [] || !Shows(key, item))
  {
    var id := item.id;
    if Shows(key, item) && pages != [] {
      HoldsConcat(pages[0], Flat(pages[1..]), id);
      WithoutAbsent(pages[0], id);
      FilterAbsent(pages[1..], id);
      var inserted := InsertAtTop(key, pages, item);
      FilterFirst(inserted, id);
      assert inserted[0][1..] == pages[0];
    } else if Shows(key, item) {
      assert |FilterOut([[item]], id)| == 1;
    } else {
      FilterAbsent(pages, id);
    }
  }

  lemma FilterFirst(pages: Pages, id: Id)
    requires pages != []
    ensures FilterOut(pages, id) == [Without(pages[0], id)] + FilterOut(pages[1..], id)
  {
  }

  // ----- Removing -----

  lemma {:induction false} UndoFilterPages(pages: Pages, id: Id, at: nat)
    requires Distinct(Flat(pages)) && at < |Flat(pages)| && Flat(pages)[at].id == id
    ensures Reinsert(pages, FilterOut(pages, id), id, Flat(pages)[at]) == pages
  {
    var head, tail := pages[0], Flat(pages[1..]);
    DistinctConcat(head, tail);
    FilterFirst(pages, id);
    if at < |head| {
      assert head[at].id == id;
      assert FindIndex(head, id) == at;
      WithoutAt(head, at);
      assert Holds(head, id);
      FilterAbsent(pages[1..], id);
      assert Splice(head[..at] + head[at + 1..], at, head[at]) == head;
    } else {
      assert tail[at - |head|].id == id;
      assert Holds(tail, id);
      WithoutAbsent(head, id);
      UndoFilterPages(pages[1..], id, at - |head|);
    }
  }

  /** Removing an item, known or not, and rolling it back restores the pages. */
  lemma UndoFilter(pages: Pages, id: Id)
    requires Distinct(Flat(pages))
    ensures RollbackItem(pages, FilterOut(pages, id), id, None, false) == pages
  {
    var at := FindIndex(Flat(pages), id);
    if at < 0 {
      FilterAbsent(pages, id);
      FilterAbsent(pages, id);
    } else {
      FlatOfFilter(pages, id);
      WithoutIsAbsent(Flat(pages), id);
      UndoFilterPages(pages, id, at);
    }
  }

  lemma {:induction false} WithoutIsAbsent(items: seq<Item>, id: Id)
    ensures !Holds(Without(items, id), id)
  {
    if items != [] {
      WithoutIsAbsent(items[1..], id);
      if items[0].id != id {
        HoldsConcat([items[0]], Without(items[1..], id), id);
        assert FindIndex([items[0]], id) == -1;
      }
    }
  }

  // ----- Patching -----

  lemma {:induction false} FlatOfReplace(pages: Pages, id: Id, f: Item -> Item)
    ensures Flat(ReplaceAll(pages, id, f)) == ReplaceItem(Flat(pages), id, f)
  {
    if pages != [] {
      FlatOfReplace(pages[1..], id, f);
      assert ReplaceAll(pages, id, f)[1..] == ReplaceAll(pages[1..], id, f);
      assert ReplaceAll(pages, id, f)[0] == ReplaceItem(pages[0], id, f);
      assert ReplaceItem(pages[0] + Flat(pages[1..]), id, f) == ReplaceItem(pages[0], id, f) + ReplaceItem(Flat(pages[1..]), id, f);
    }
  }

  /** A patch that leaves the archive flag alone is taken back field by field. */
  lemma RestoreAfterSpread(item: Item, patch: Patch)
    ensures RestoreFields(Spread(item, patch), item, Some(patch)) == item
  {
  }

  lemma ReplaceWhereFound(items: seq<Item>, id: Id, f: Item -> Item)
    requires Distinct(items)
    ensures Holds(items, id) ==> ReplaceItem(items, id, f) == items[FindIndex(items, id) := f(items[FindIndex(items, id)])]
    ensures !Holds(items, id) ==> ReplaceItem(items, id, f) == items
  {
  }

  lemma UndoPatch(pages: Pages, id: Id, patch: Patch)
    requires Distinct(Flat(pages))
    ensures RollbackItem(pages, PatchInPlace(pages, id, patch), id, Some(patch), false) == pages
  {
    var spread := (item: Item) => Spread(item, patch);
    var all, at := Flat(pages), FindIndex(Flat(pages), id);
    var patched := PatchInPlace(pages, id, patch);
    FlatOfReplace(pages, id, spread);
    ReplaceWhereFound(all, id, spread);
    if at < 0 {
      assert Flat(patched) == all;
      FilterAbsent(patched, id);
      ResliceOfFlat(pages);
      ResliceOfFlat(patched);
      ResliceByLengths(all, pages, patched);
    } else {
      assert Flat(patched)[at].id == id;
      assert FindIndex(Flat(patched), id) == at;
      RestoreAfterSpread(all[at], patch);
      var back := ReplaceAll(patched, id, _ => all[at]);
      FlatOfReplace(patched, id, _ => all[at]);
      assert Distinct(Flat(patched));
      ReplaceWhereFound(Flat(patched), id, _ => all[at]);
      assert Flat(back) == all;
      SameFlatSameLengths(back, pages);
    }
  }

  lemma SameFlatSameLengths(a: Pages, b: Pages)
    requires Flat(a) == Flat(b) && |a| == |b| && forall i :: 0 <= i < |a| ==> |a[i]| == |b[i]|
    ensures a == b
  {
    ResliceOfFlat(a);
    ResliceOfFlat(b);
    ResliceByLengths(Flat(a), a, b);
  }

  // ----- Reordering -----

  /** The moved list, as a splice into what is left without the item. */
  lemma ReorderedList(items: seq<Item>, at: nat, newIndex: int, moved: Item)
    requires at < |items| && Distinct(items) && moved.id == items[at].id
    ensures var rest := items[..at] + items[at + 1..];
      var list := Splice(rest, newIndex, moved);
      && |list| == |items| && Distinct(list)
      && Without(list, moved.id) == rest
      && Holds(list, moved.id) && list[FindIndex(list, moved.id)] == moved
  {
    var rest := items[..at] + items[at + 1..];
    WithoutAt(items, at);
    WithoutKeepsDistinct(items, moved.id);
    var to := Clamp(if newIndex < 0 then |rest| + newIndex else newIndex, 0, |rest|);
    SpliceUnknown(rest, to, moved);
  }

  /** A move, to anywhere at all, is taken back: same items, same order, same page boundaries. */
  lemma UndoReorder(pages: Pages, id: Id, position: real, newIndex: int)
    requires Distinct(Flat(pages))
    ensures RollbackItem(pages, Reorder(pages, id, position, newIndex), id, None, true) == pages
  {
    var all, at := Flat(pages), FindIndex(Flat(pages), id);
    if at < 0 {
      FilterAbsent(pages, id);
    } else {
      var moved := all[at].(position := position);
      var rest := all[..at] + all[at + 1..];
      ReorderedList(all, at, newIndex, moved);
      var list := Splice(rest, newIndex, moved);
      var current := Reslice(list, pages);
      FlatOfReslice(list, pages);
      RestoreAfterMove(all[at], position);
      PutBack(all, at);
      ResliceByLengths(all, current, pages);
      ResliceOfFlat(pages);
    }
  }

  lemma RestoreAfterMove(item: Item, position: real)
    ensures RestoreFields(item.(position := position), item, None) == item
  {
  }

  lemma PutBack(items: seq<Item>, at: nat)
    requires at < |items|
    ensures Splice(items[..at] + items[at + 1..], at, items[at]) == items
  {
  }

  // ----- Creating: insert at the top, then sort by pin and position -----

  ghost predicate Sorted(items: seq<Item>) {
    forall i, j :: 0 <= i < j < |items| ==> !Precedes(items[j], items[i])
  }

  lemma {:induction false} SortedInsertHolds(x: Item, items: seq<Item>)
    ensures multiset(SortedInsert(x, items)) == multiset(items) + multiset{x}
  {
    if items != [] {
      assert items == [items[0]] + items[1..];
      SortedInsertHolds(x, items[1..]);
    }
  }

  lemma SortedPrepend(head: Item, tail: seq<Item>)
    requires Sorted(tail) && forall y :: y in tail ==> !Precedes(y, head)
    ensures Sorted([head] + tail)
  {
  }

  lemma {:induction false} SortedInsertKeeps(x: Item, items: seq<Item>)
    requires Sorted(items)
    ensures Sorted(SortedInsert(x, items))
    ensures multiset(SortedInsert(x, items)) == multiset(items) + multiset{x}
  {
    SortedInsertHolds(x, items);
    if items != [] {
      var head, tail := items[0], items[1..];
      forall y | y in tail
        ensures !Precedes(y, head)
      {
        var j :| 0 <= j < |tail| && tail[j] == y;
        assert items[j + 1] == y;
      }
      if Precedes(head, x) {
        SortedInsertKeeps(x, tail);
        forall y | y in SortedInsert(x, tail)
          ensures !Precedes(y, head)
        {
          assert y in multiset(SortedInsert(x, tail));
        }
        SortedPrepend(head, SortedInsert(x, tail));
      } else {
        assert forall y :: y in items ==> y == head || y in tail;
        SortedPrepend(x, items);
      }
    }
  }

  /** Sorting sorts, and loses and invents nothing. */
  lemma {:induction false} SortIsSorted(items: seq<Item>)
    ensures Sorted(Sort(items)) && multiset(Sort(items)) == multiset(items)
  {
    if items != [] {
      SortIsSorted(items[1..]);
      SortedInsertKeeps(items[0], Sort(items[1..]));
      assert items == [items[0]] + items[1..];
    }
  }

  /** A list is left as it is exactly when it was sorted: ties keep their order. */
  lemma {:induction false} SortOfSorted(items: seq<Item>)
    ensures Sort(items) == items <==> Sorted(items)
  {
    if Sorted(items) {
      if items != [] {
        assert Sorted(items[1..]);
        SortOfSorted(items[1..]);
        assert |items| > 1 ==> !Precedes(items[1], items[0]);
        assert items == [items[0]] + items[1..];
      }
    } else {
      SortIsSorted(items);
    }
  }

  lemma DistinctIds(a: seq<Item>, b: seq<Item>)
    requires Distinct(a) && |a| == |b| && forall i :: 0 <= i < |a| ==> b[i].id == a[i].id
    ensures Distinct(b)
  {
  }

  lemma {:induction false} SortedInsertKeepsDistinct(x: Item, items: seq<Item>)
    requires Distinct(items) && !Holds(items, x.id)
    ensures Distinct(SortedInsert(x, items))
    ensures forall id :: Holds(SortedInsert(x, items), id) <==> id == x.id || Holds(items, id)
  {
    var r := SortedInsert(x, items);
    if items != [] && Precedes(items[0], x) {
      var head, tail := [items[0]], items[1..];
      assert items == head + tail;
      DistinctConcat(head, tail);
      HoldsConcat(head, tail, x.id);
      SortedInsertKeepsDistinct(x, tail);
      assert Holds(head, items[0].id);
      DistinctAppend(head, SortedInsert(x, tail));
      forall id
        ensures Holds(r, id) <==> id == x.id || Holds(items, id)
      {
        HoldsConcat(head, tail, id);
        HoldsConcat(head, SortedInsert(x, tail), id);
      }
    } else {
      assert r == [x] + items;
      DistinctAppend([x], items);
      forall id
        ensures Holds(r, id) <==> id == x.id || Holds(items, id)
      {
        HoldsConcat([x], items, id);
      }
    }
  }

  lemma {:induction false} SortKeepsDistinct(items: seq<Item>)
    requires Distinct(items)
    ensures Distinct(Sort(items)) && forall id :: Holds(Sort(items), id) <==> Holds(items, id)
  {
    if items != [] {
      var head, tail := [items[0]], items[1..];
      assert items == head + tail;
      DistinctConcat(head, tail);
      SortKeepsDistinct(tail);
      assert Holds(head, items[0].id);
      SortedInsertKeepsDistinct(items[0], Sort(tail));
      forall id
        ensures Holds(Sort(items), id) <==> Holds(items, id)
      {
        HoldsConcat(head, tail, id);
      }
    }
  }

  lemma HoldsInMultiset(a: seq<Item>, b: seq<Item>, id: Id)
    requires multiset(a) == multiset(b) && Holds(a, id)
    ensures Holds(b, id)
  {
    var x := a[FindIndex(a, id)];
    assert x in multiset(a);
    assert x in b;
  }

  /** How many pinned items a list starts with; in a sorted list those are all of them. */
  function PinnedPrefix(items: seq<Item>): (n: nat)
    ensures n <= |items|
  {
    if items != [] && items[0].pinned then 1 + PinnedPrefix(items[1..]) else 0
  }

  /** A new, unpinned item with the highest position goes right behind the pinned ones. */
  lemma {:induction false} NewItemFollowsPinned(x: Item, items: seq<Item>)
    requires !x.pinned && forall i :: 0 <= i < |items| ==> items[i].position < x.position
    ensures var j := PinnedPrefix(items); SortedInsert(x, items) == items[..j] + [x] + items[j..]
  {
    if items != [] && items[0].pinned {
      NewItemFollowsPinned(x, items[1..]);
    }
  }

  function Create(key: Key, pages: Pages, item: Item): Pages {
    SortTierList(key, InsertAtTop(key, pages, item))
  }

  /** The list after inserting and sorting, when the item is shown. */
  lemma CreatedList(key: Key, pages: Pages, item: Item)
    requires pages != [] && Shows(key, item) && IsNew(Flat(pages), item)
    ensures var s := Sort(Flat(pages));
      var j := PinnedPrefix(s);
      var inserted := InsertAtTop(key, pages, item);
      && Create(key, pages, item) == Reslice(s[..j] + [item] + s[j..], inserted)
      && |s[..j] + [item] + s[j..]| == |Flat(inserted)|
      && Without(s[..j] + [item] + s[j..], item.id) == s
      && !Holds(s, item.id)
  {
    var flat, s := Flat(pages), Sort(Flat(pages));
    var inserted := InsertAtTop(key, pages, item);
    assert inserted[1..] == pages[1..];
    assert Flat(inserted) == [item] + flat;
    assert ([item] + flat)[1..] == flat;
    SortIsSorted(flat);
    forall i | 0 <= i < |s|
      ensures s[i].position < item.position
    {
      assert s[i] in multiset(s);
      assert s[i] in flat;
    }
    NewItemFollowsPinned(item, s);
    if Holds(s, item.id) {
      HoldsInMultiset(s, flat, item.id);
    }
    var j := PinnedPrefix(s);
    assert s == s[..j] + s[j..];
    WithoutSpliced(s[..j], item, s[j..]);
  }

  lemma WithoutSpliced(a: seq<Item>, item: Item, b: seq<Item>)
    requires !Holds(a + b, item.id)
    ensures Without(a + [item] + b, item.id) == a + b
  {
    HoldsConcat(a, b, item.id);
    WithoutMiddle(a, item, b);
  }

  /** What `onMutate` gives a new item: an unused id, no pin, and a position above every cached one. */
  ghost predicate IsNew(items: seq<Item>, item: Item) {
    && !Holds(items, item.id) && !item.pinned
    && forall i :: 0 <= i < |items| ==> items[i].position < item.position
  }

  lemma UndoHiddenCreate(key: Key, pages: Pages, item: Item)
    requires pages != [] && !Shows(key, item) && key.search == "" && IsNew(Flat(pages), item)
    ensures RollbackItem(pages, Create(key, pages, item), item.id, None, false) == pages <==> Sorted(Flat(pages))
  {
    var flat := Flat(pages);
    var current := Create(key, pages, item);
    SortIsSorted(flat);
    FlatOfReslice(Sort(flat), pages);
    if Holds(Sort(flat), item.id) {
      HoldsInMultiset(Sort(flat), flat, item.id);
    }
    FilterAbsent(current, item.id);
    SortOfSorted(flat);
    ResliceOfFlat(pages);
  }

  lemma UndoShownCreate(key: Key, pages: Pages, item: Item)
    requires pages != [] && Shows(key, item) && IsNew(Flat(pages), item)
    ensures RollbackItem(pages, Create(key, pages, item), item.id, None, false) == pages
        <==> Sorted(Flat(pages)) && PinnedPrefix(Flat(pages)) <= |pages[0]|
  {
    var flat, s := Flat(pages), Sort(Flat(pages));
    CreatedList(key, pages, item);
    var list := s[..PinnedPrefix(s)] + [item] + s[PinnedPrefix(s)..];
    var inserted := InsertAtTop(key, pages, item);
    FlatOfReslice(list, inserted);
    FlatOfFilter(Reslice(list, inserted), item.id);
    SortOfSorted(flat);
    assert inserted[1..] == pages[1..] && |inserted[0]| == |pages[0]| + 1;
    FilterOfResliced(list, inserted, item.id);
    if s == flat {
      if PinnedPrefix(flat) <= |pages[0]| {
        ItemLandsOnFirstPage(pages, PinnedPrefix(flat), item);
      } else {
        ItemLandsLater(pages, PinnedPrefix(flat), item);
      }
    }
  }

  lemma FilterOfResliced(list: seq<Item>, pages: Pages, id: Id)
    requires pages != [] && |pages[0]| <= |list|
    ensures FilterOut(Reslice(list, pages), id)
         == [Without(list[..|pages[0]|], id)] + FilterOut(Reslice(list[|pages[0]|..], pages[1..]), id)
  {
    FilterFirst(Reslice(list, pages), id);
  }

  /** With more pinned notes than the first page holds, that page ends up one item longer. */
  lemma ItemLandsLater(pages: Pages, j: nat, item: Item)
    requires pages != [] && |pages[0]| < j <= |Flat(pages)| && !Holds(Flat(pages), item.id)
    ensures var flat, n := Flat(pages), |pages[0]|;
      |Without((flat[..j] + [item] + flat[j..])[..n + 1], item.id)| == n + 1
  {
    var flat, n := Flat(pages), |pages[0]|;
    assert (flat[..j] + [item] + flat[j..])[..n + 1] == flat[..n + 1];
    assert flat == flat[..n + 1] + flat[n + 1..];
    HoldsConcat(flat[..n + 1], flat[n + 1..], item.id);
    WithoutAbsent(flat[..n + 1], item.id);
  }

  lemma SpliceFirst<T>(first: seq<T>, rest: seq<T>, j: nat, x: T)
    requires j <= |first|
    ensures var (flat, n) := (first + rest, |first|);
      var list := flat[..j] + [x] + flat[j..];
      list[..n + 1] == first[..j] + [x] + first[j..] && list[n + 1..] == rest
  {
  }

  lemma FirstPageKeeps(first: Page, j: nat, item: Item)
    requires j <= |first| && !Holds(first, item.id)
    ensures Without(first[..j] + [item] + first[j..], item.id) == first
  {
    assert first == first[..j] + first[j..];
    WithoutSpliced(first[..j], item, first[j..]);
  }

  lemma LaterPagesKeep(later: Pages, id: Id)
    requires !Holds(Flat(later), id)
    ensures FilterOut(Reslice(Flat(later), later), id) == later
  {
    ResliceOfFlat(later);
    FilterAbsent(later, id);
  }

  /** With at most a page of pinned notes the new one is cut into the first page, and the others are untouched. */
  lemma ItemLandsOnFirstPage(pages: Pages, j: nat, item: Item)
    requires pages != [] && j <= |pages[0]| && !Holds(Flat(pages), item.id)
    ensures var flat, n := Flat(pages), |pages[0]|;
      var list := flat[..j] + [item] + flat[j..];
      && Without(list[..n + 1], item.id) == pages[0]
      && FilterOut(Reslice(list[n + 1..], pages[1..]), item.id) == pages[1..]
  {
    SpliceFirst(pages[0], Flat(pages[1..]), j, item);
    HoldsConcat(pages[0], Flat(pages[1..]), item.id);
    FirstPageKeeps(pages[0], j, item);
    LaterPagesKeep(pages[1..], item.id);
  }

  /**
   * Creating a note and taking it back. The creation also sorts the list, and rolling back only removes the item,
   * so the old pages come back exactly when the list was already sorted and, where the new note is shown, the
   * pinned notes fit on the first page. Otherwise the order or the page boundaries stay changed.
   */
  lemma UndoCreate(key: Key, pages: Pages, item: Item)
    requires pages != [] && IsNew(Flat(pages), item)
    ensures RollbackItem(pages, Create(key, pages, item), item.id, None, false) == pages <==> CanUndoCreate(key, pages, item)
  {
    if Shows(key, item) {
      UndoShownCreate(key, pages, item);
    } else if key.search == "" {
      UndoHiddenCreate(key, pages, item);
    } else {
      FilterAbsent(pages, item.id);
    }
  }

  ghost predicate CanUndoCreate(key: Key, pages: Pages, item: Item) {
    || key.search != ""
    || (Sorted(Flat(pages)) && (Shows(key, item) && pages != [] ==> PinnedPrefix(Flat(pages)) <= |pages[0]|))
  }

  /** Two pinned notes on pages of one: the page boundary moves for good. */
  lemma CreateCanMoveAPageBoundary()
    ensures
      var key := Key("notes", "u", "all", "", "");
      var a, b := Item("a", false, true, 2000.0, map[]), Item("b", false, true, 1000.0, map[]);
      var item := Item("temp-1", false, false, 3000.0, map[]);
      IsNew(Flat([[a], [b]]), item) &&
      RollbackItem([[a], [b]], Create(key, [[a], [b]], item), item.id, None, false) != [[a], [b]]
  {
    var key := Key("notes", "u", "all", "", "");
    var a, b := Item("a", false, true, 2000.0, map[]), Item("b", false, true, 1000.0, map[]);
    var item := Item("temp-1", false, false, 3000.0, map[]);
    var pages := [[a], [b]];
    assert Flat(pages[1..]) == [b];
    assert Flat(pages) == [a, b];
    assert PinnedPrefix([a, b][1..]) == 1;
    assert PinnedPrefix([a, b]) == 2;
    assert FindIndex([a, b], "temp-1") < 0 by {
      assert [a, b][0].id != "temp-1" && [a, b][1].id != "temp-1";
    }
    UndoCreate(key, pages, item);
  }
}
