/** Archiving and pinning move an item within a list; this is exactly when rolling them back restores the list. */
module ToggleUndo {
  import opened CacheUndo
  import opened QueryCache
  import opened Wrappers

  // ----- Archiving -----

  lemma FlatOfToggled(pages: Pages, id: Id, updated: Item)
    requires pages != []
    ensures Flat([[updated] + Without(pages[0], id)] + FilterOut(pages[1..], id)) == [updated] + Without(Flat(pages), id)
  {
    var toggled := [[updated] + Without(pages[0], id)] + FilterOut(pages[1..], id);
    assert toggled[1..] == FilterOut(pages[1..], id);
    FlatOfFilter(pages[1..], id);
    WithoutConcat(pages[0], Flat(pages[1..]), id);
  }

  lemma PrependedOnce(item: Item, items: seq<Item>)
    requires Distinct(items)
    ensures var after := [item] + Without(items, item.id);
      && Distinct(after) && Holds(after, item.id) && Without(after, item.id) == Without(items, item.id)
  {
    var rest := Without(items, item.id);
    WithoutKeepsDistinct(items, item.id);
    WithoutAbsent(rest, item.id);
    DistinctAppend([item], rest);
    HoldsConcat([item], rest, item.id);
    WithoutConcat([item], rest, item.id);
    assert Without([item], item.id) == [] && [] + rest == rest;
    assert [item][0].id == item.id;
  }

  /** An item the list does not show afterwards is left out; the others are the same, in the same order. */
  lemma ToggledList(key: Key, pages: Pages, id: Id, updated: Item)
    requires Distinct(Flat(pages)) && updated.id == id
    ensures var after := Flat(ToggleArchive(key, pages, id, updated));
      && Distinct(after) && Without(after, id) == Without(Flat(pages), id)
      && (Holds(after, id) <==>
            Belongs(key, updated) && (Holds(Flat(pages), id) || (key.search == "" && key.tags == "")))
  {
    var rest := Without(Flat(pages), id);
    WithoutKeepsDistinct(Flat(pages), id);
    WithoutAbsent(rest, id);
    PrependedOnce(updated, Flat(pages));
    if !Belongs(key, updated) {
      FlatOfFilter(pages, id);
    } else if pages == [] {
      assert Flat([[updated]]) == [updated] + Flat([]);
    } else {
      FlatOfToggled(pages, id, updated);
    }
  }

  /** In an unfiltered list the item is shown if and only if it belongs there now, once; all others stay as they were. */
  lemma ToggledIsShownIff(key: Key, pages: Pages, id: Id, updated: Item)
    requires Distinct(Flat(pages)) && updated.id == id && key.search == "" && key.tags == ""
    ensures var after := Flat(ToggleArchive(key, pages, id, updated));
      && Distinct(after) && (Holds(after, id) <==> Belongs(key, updated))
      && Without(after, id) == Without(Flat(pages), id)
  {
    ToggledList(key, pages, id, updated);
  }

  /** Two copies of an item that differ at most in what the patch sets. */
  ghost predicate AgreeOutside(a: Item, b: Item, patch: Patch) {
    && a.id == b.id
    && (patch.archived.None? ==> a.archived == b.archived)
    && (patch.pinned.None? ==> a.pinned == b.pinned)
    && (patch.position.None? ==> a.position == b.position)
    && forall f :: f !in patch.fields ==>
         (f in a.fields <==> f in b.fields) && (f in a.fields ==> a.fields[f] == b.fields[f])
  }

  /** The patch goes back to what this list showed, everything else stays what the found copy shows. */
  lemma RestoreFromCopy(found: Item, previous: Item, patch: Patch)
    requires found.id == previous.id
    ensures var restored := RestoreFields(Spread(found, patch), previous, Some(patch));
      && restored.id == found.id
      && AgreeOutside(restored, found, patch)
      && (restored == previous <==> AgreeOutside(found, previous, patch))
  {
  }

  /**
   * Archiving can be taken back in a list the item leaves. In one it stays in, or is brought to the top of, it is
   * only put back in the right place if it was at the top before, and only to its old content if the copy that was
   * found showed the same; and a list without any page is left with an empty one.
   */
  ghost predicate CanUndoArchive(key: Key, pages: Pages, patch: Patch, found: Item)
    requires patch.archived.Some?
  {
    var at := FindIndex(Flat(pages), found.id);
    || (key.view != "all" && patch.archived.value != (key.view == "archived"))
    || (if at < 0 then pages != [] || key.search != "" || key.tags != ""
        else at == 0 && pages[0] != [] && AgreeOutside(found, Flat(pages)[0], patch))
  }

  lemma ReplaceAbsent(page: Page, id: Id, f: Item -> Item)
    requires !Holds(page, id)
    ensures ReplaceItem(page, id, f) == page
  {
  }

  /** The other pages, and the rest of the first, do not hold the item. */
  lemma ReplaceToggled(pages: Pages, id: Id, updated: Item, restored: Item)
    requires pages != [] && updated.id == id
    ensures ReplaceAll([[updated] + Without(pages[0], id)] + FilterOut(pages[1..], id), id, _ => restored)
         == [[restored] + Without(pages[0], id)] + FilterOut(pages[1..], id)
  {
    var f := (item: Item) => restored;
    var later := FilterOut(pages[1..], id);
    WithoutIsAbsent(pages[0], id);
    ReplaceAbsent(Without(pages[0], id), id, f);
    assert ReplaceItem([updated] + Without(pages[0], id), id, f) == [restored] + ReplaceItem(Without(pages[0], id), id, f);
    forall i | 0 <= i < |later|
      ensures ReplaceItem(later[i], id, f) == later[i]
    {
      WithoutIsAbsent(pages[1..][i], id);
      ReplaceAbsent(later[i], id, f);
    }
    assert ReplaceAll(later, id, f) == later;
    assert ReplaceAll([[updated] + Without(pages[0], id)] + later, id, f)
        == [ReplaceItem([updated] + Without(pages[0], id), id, f)] + ReplaceAll(later, id, f);
  }

  lemma UndoHeldArchive(pages: Pages, id: Id, patch: Patch, found: Item)
    requires Distinct(Flat(pages)) && Holds(Flat(pages), id) && patch.archived.Some? && found.id == id
    ensures var updated := Spread(found, patch);
      var previous := Flat(pages)[FindIndex(Flat(pages), id)];
      RollbackItem(pages, [[updated] + Without(pages[0], id)] + FilterOut(pages[1..], id), id, Some(patch), false)
        == [[RestoreFields(updated, previous, Some(patch))] + Without(pages[0], id)] + FilterOut(pages[1..], id)
  {
    var updated := Spread(found, patch);
    var previous := Flat(pages)[FindIndex(Flat(pages), id)];
    FlatOfToggled(pages, id, updated);
    assert ([updated] + Without(Flat(pages), id))[0] == updated;
    ReplaceToggled(pages, id, updated, RestoreFields(updated, previous, Some(patch)));
  }

  lemma TopOfPage(pages: Pages, top: Item, id: Id)
    requires Distinct(Flat(pages)) && Holds(Flat(pages), id) && top.id == id
    ensures [[top] + Without(pages[0], id)] + FilterOut(pages[1..], id) == pages
        <==> FindIndex(Flat(pages), id) == 0 && pages[0] != [] && Flat(pages)[0] == top
  {
    var back := [[top] + Without(pages[0], id)] + FilterOut(pages[1..], id);
    if back == pages {
      assert pages[0][0] == top;
    }
    if FindIndex(Flat(pages), id) == 0 && pages[0] != [] && Flat(pages)[0] == top {
      assert pages[0][0] == top;
      DistinctConcat(pages[0], Flat(pages[1..]));
      WithoutAt(pages[0], 0);
      assert [top] + pages[0][1..] == pages[0];
      assert Holds(pages[0], id);
      FilterAbsent(pages[1..], id);
      assert back[0] == pages[0] && back[1..] == pages[1..];
      assert back == [back[0]] + back[1..] && pages == [pages[0]] + pages[1..];
    }
  }

  /** Rolling an archive toggle back restores the list if and only if it can be taken back there. */
  lemma UndoArchive(key: Key, pages: Pages, id: Id, patch: Patch, found: Item)
    requires Distinct(Flat(pages)) && patch.archived.Some? && found.id == id
    ensures RollbackItem(pages, ToggleArchive(key, pages, id, Spread(found, patch)), id, Some(patch), false) == pages
        <==> CanUndoArchive(key, pages, patch, found)
  {
    var updated := Spread(found, patch);
    var at := FindIndex(Flat(pages), id);
    if !Belongs(key, updated) {
      UndoFilter(pages, id);
      FlatOfFilter(pages, id);
      WithoutIsAbsent(Flat(pages), id);
    } else if at >= 0 {
      UndoHeldArchive(pages, id, patch, found);
      RestoreFromCopy(found, Flat(pages)[at], patch);
      TopOfPage(pages, RestoreFields(updated, Flat(pages)[at], Some(patch)), id);
    } else if key.search != "" || key.tags != "" {
      FilterAbsent(pages, id);
    } else if pages == [] {
      assert |FilterOut([[updated]], id)| == 1;
    } else {
      HoldsConcat(pages[0], Flat(pages[1..]), id);
      WithoutAbsent(pages[0], id);
      FilterAbsent(pages[1..], id);
      FilterFirst([[updated] + pages[0]] + pages[1..], id);
      assert ([updated] + pages[0])[1..] == pages[0];
    }
  }

  /** The second of two notes, archived in the list of all notes and taken back, is left at the top. */
  lemma ArchiveCanMoveAnItem()
    ensures
      var key := Key("notes", "u", "all", "", "");
      var a, b := Item("a", false, false, 2000.0, map[]), Item("b", false, false, 1000.0, map[]);
      var patch := Patch(Some(true), None, None, map[]);
      RollbackItem([[a, b]], ToggleArchive(key, [[a, b]], "b", Spread(b, patch)), "b", Some(patch), false) != [[a, b]]
  {
    var a, b := Item("a", false, false, 2000.0, map[]), Item("b", false, false, 1000.0, map[]);
    assert [[a, b]][1..] == [];
    assert Flat([[a, b]]) == [a, b];
    assert [a, b][0].id != "b" && [a, b][1].id == "b";
    UndoArchive(Key("notes", "u", "all", "", ""), [[a, b]], "b", Patch(Some(true), None, None, map[]), b);
  }

  // ----- Pinning -----

  /** An insertion does not change which of two other items comes first. */
  lemma {:induction false} InsertKeepsOrder(x: Item, items: seq<Item>, a: Id, b: Id)
    requires a != x.id && b != x.id && 0 <= FindIndex(items, a) < FindIndex(items, b)
    ensures 0 <= FindIndex(SortedInsert(x, items), a) < FindIndex(SortedInsert(x, items), b)
  {
    if Precedes(items[0], x) {
      assert FindIndex(items[1..], b) >= 0 && (items[0].id != a ==> FindIndex(items[1..], a) < FindIndex(items[1..], b));
      if items[0].id != a {
        InsertKeepsOrder(x, items[1..], a, b);
      } else {
        InsertKeepsHeld(x, items[1..], b);
      }
    }
  }

  lemma {:induction false} InsertKeepsHeld(x: Item, items: seq<Item>, id: Id)
    requires Holds(items, id)
    ensures Holds(SortedInsert(x, items), id)
  {
    if Precedes(items[0], x) && items[0].id != id {
      InsertKeepsHeld(x, items[1..], id);
    }
  }

  /** What does not precede the inserted item comes after it. */
  lemma {:induction false} InsertGoesBefore(x: Item, items: seq<Item>, at: nat)
    requires at < |items| && Distinct(items) && !Holds(items, x.id) && !Precedes(items[at], x)
    ensures 0 <= FindIndex(SortedInsert(x, items), x.id) < FindIndex(SortedInsert(x, items), items[at].id)
  {
    if Precedes(items[0], x) {
      assert items[1..][at - 1] == items[at];
      assert forall i :: 0 <= i < |items[1..]| ==> items[1..][i] == items[i + 1];
      InsertGoesBefore(x, items[1..], at - 1);
    } else {
      assert FindIndex(items, items[at].id) >= 0;
    }
  }

  lemma SameItem(items: seq<Item>, other: seq<Item>, i: nat, at: nat)
    requires i < |items| && at < |other| && Distinct(items) && items[i].id == other[at].id
    requires multiset(other) == multiset(items)
    ensures other[at] == items[i]
  {
    assert other[at] in multiset(other);
    var k :| 0 <= k < |items| && items[k] == other[at];
    assert k == i;
  }

  lemma HeadGoesBefore(head: Item, tail: seq<Item>, at: nat)
    requires at < |tail| && Distinct(tail) && !Holds(tail, head.id) && !Precedes(tail[at], head)
    ensures 0 <= FindIndex(SortedInsert(head, Sort(tail)), head.id)
               < FindIndex(SortedInsert(head, Sort(tail)), tail[at].id)
  {
    SortKeepsDistinct(tail);
    SortIsSorted(tail);
    assert Holds(tail, tail[at].id);
    SameItem(tail, Sort(tail), at, FindIndex(Sort(tail), tail[at].id));
    InsertGoesBefore(head, Sort(tail), FindIndex(Sort(tail), tail[at].id));
  }

  /** Sorting is stable: an item stays behind those it does not precede. */
  lemma {:induction false} SortIsStable(items: seq<Item>, i: nat, j: nat)
    requires i < j < |items| && Distinct(items) && !Precedes(items[j], items[i])
    ensures 0 <= FindIndex(Sort(items), items[i].id) < FindIndex(Sort(items), items[j].id)
  {
    var head, tail := items[0], items[1..];
    assert items == [head] + tail;
    DistinctConcat([head], tail);
    assert Holds([head], head.id);
    if i == 0 {
      assert tail[j - 1] == items[j];
      HeadGoesBefore(head, tail, j - 1);
    } else {
      assert tail[i - 1] == items[i] && tail[j - 1] == items[j];
      SortIsStable(tail, i - 1, j - 1);
      InsertKeepsOrder(head, Sort(tail), items[i].id, items[j].id);
    }
  }

  /** One sorted behind another: it does not precede it, and either came later or is preceded by it. */
  ghost predicate GoesBefore(items: seq<Item>, i: nat, j: nat)
    requires i < |items| && j < |items|
  {
    i != j && !Precedes(items[j], items[i]) && (i < j || Precedes(items[i], items[j]))
  }

  lemma SortOrders(items: seq<Item>, i: nat, j: nat)
    requires i < |items| && j < |items| && Distinct(items) && GoesBefore(items, i, j)
    ensures 0 <= FindIndex(Sort(items), items[i].id) < FindIndex(Sort(items), items[j].id)
  {
    if i < j {
      SortIsStable(items, i, j);
    } else {
      SortKeepsDistinct(items);
      SortIsSorted(items);
      assert Holds(items, items[i].id) && Holds(items, items[j].id);
      var a, b := FindIndex(Sort(items), items[i].id), FindIndex(Sort(items), items[j].id);
      SameItem(items, Sort(items), i, a);
      SameItem(items, Sort(items), j, b);
    }
  }

  /** A permutation that keeps every pair in order is the same list. */
  lemma SameOrderSame(items: seq<Item>, other: seq<Item>)
    requires Distinct(items) && multiset(other) == multiset(items)
    requires forall i, j :: 0 <= i < j < |items| ==> 0 <= FindIndex(other, items[i].id) < FindIndex(other, items[j].id)
    ensures other == items
  {
    assert |multiset(other)| == |multiset(items)|;
    forall i | 0 <= i < |items|
      ensures other[i] == items[i]
    {
      assert items[i] in multiset(other);
      var k :| 0 <= k < |other| && other[k] == items[i];
      var at := FindIndex(other, items[i].id);
      IndexAtLeast(items, other, i);
      IndexAtMost(items, other, i);
      SameItem(items, other, i, at);
    }
  }

  lemma {:induction false} IndexAtLeast(items: seq<Item>, other: seq<Item>, i: nat)
    requires i < |items| && Holds(other, items[i].id)
    requires forall i, j :: 0 <= i < j < |items| ==> 0 <= FindIndex(other, items[i].id) < FindIndex(other, items[j].id)
    ensures FindIndex(other, items[i].id) >= i
  {
    if i > 0 {
      IndexAtLeast(items, other, i - 1);
    }
  }

  lemma {:induction false} IndexAtMost(items: seq<Item>, other: seq<Item>, i: nat)
    requires i < |items| == |other|
    requires forall i, j :: 0 <= i < j < |items| ==> 0 <= FindIndex(other, items[i].id) < FindIndex(other, items[j].id)
    ensures FindIndex(other, items[i].id) <= i
    decreases |items| - i
  {
    if i + 1 < |items| {
      IndexAtMost(items, other, i + 1);
    }
  }

  lemma SameIdsSameIndex(a: seq<Item>, b: seq<Item>, id: Id)
    requires |a| == |b| && forall i :: 0 <= i < |a| ==> a[i].id == b[i].id
    ensures FindIndex(a, id) == FindIndex(b, id)
  {
  }

  /** The sorted list with the changed item put back as it was: a permutation of the list before the change. */
  lemma PutBackInPlace(items: seq<Item>, at: nat, changed: Item)
    requires at < |items| && Distinct(items) && changed.id == items[at].id
    ensures var moved := Sort(items[at := changed]);
      var back := ReplaceItem(moved, changed.id, _ => items[at]);
      && Distinct(back) && multiset(back) == multiset(items)
      && Holds(moved, changed.id) && moved[FindIndex(moved, changed.id)] == changed
  {
    var patched := items[at := changed];
    var moved := Sort(patched);
    var back := ReplaceItem(moved, changed.id, _ => items[at]);
    DistinctIds(items, patched);
    SortKeepsDistinct(patched);
    SortIsSorted(patched);
    assert patched[at] == changed;
    assert Holds(patched, changed.id);
    var p := FindIndex(moved, changed.id);
    SameItem(patched, moved, at, p);
    ReplaceWhereFound(moved, changed.id, _ => items[at]);
    DistinctIds(moved, back);
    assert multiset(back) == multiset(moved) - multiset{changed} + multiset{items[at]};
    assert multiset(patched) == multiset(items) - multiset{items[at]} + multiset{changed};
  }

  /** Which of two items comes first after the change, the rollback and both sorts. */
  lemma RoundTripOrders(items: seq<Item>, at: nat, changed: Item, i: nat, j: nat)
    requires at < |items| && Distinct(items) && changed.id == items[at].id && i < |items| && j < |items| && i != j
    requires !Precedes(items[j], items[i])
    requires Precedes(items[i], items[j]) || GoesBefore(items[at := changed], i, j)
    ensures var back := ReplaceItem(Sort(items[at := changed]), changed.id, _ => items[at]);
      0 <= FindIndex(Sort(back), items[i].id) < FindIndex(Sort(back), items[j].id)
  {
    var patched := items[at := changed];
    var moved := Sort(patched);
    var back := ReplaceItem(moved, changed.id, _ => items[at]);
    PutBackInPlace(items, at, changed);
    DistinctIds(items, patched);
    SameIdsSameIndex(moved, back, items[i].id);
    SameIdsSameIndex(moved, back, items[j].id);
    if GoesBefore(patched, i, j) {
      SortOrders(patched, i, j);
    }
    HeldInPermutation(items, back, i);
    HeldInPermutation(items, back, j);
    var a, b := FindIndex(back, items[i].id), FindIndex(back, items[j].id);
    SameItem(items, back, i, a);
    SameItem(items, back, j, b);
    SortOrders(back, a, b);
  }

  lemma HeldInPermutation(items: seq<Item>, other: seq<Item>, i: nat)
    requires i < |items| && multiset(other) == multiset(items)
    ensures Holds(other, items[i].id)
  {
    assert items[i] in multiset(other);
    var k :| 0 <= k < |other| && other[k] == items[i];
  }

  /** A list is sorted, and no two items that were tied change places when the patch is sorted in. */
  ghost predicate KeepsTies(items: seq<Item>, patched: seq<Item>) {
    && Sorted(items) && |patched| == |items|
    && forall i, j :: 0 <= i < j < |items| && !Precedes(items[i], items[j]) ==> !Precedes(patched[j], patched[i])
  }

  lemma RoundTripRestores(items: seq<Item>, at: nat, changed: Item)
    requires at < |items| && Distinct(items) && changed.id == items[at].id && KeepsTies(items, items[at := changed])
    ensures Sort(ReplaceItem(Sort(items[at := changed]), changed.id, _ => items[at])) == items
  {
    var back := ReplaceItem(Sort(items[at := changed]), changed.id, _ => items[at]);
    PutBackInPlace(items, at, changed);
    SortIsSorted(back);
    forall i, j | 0 <= i < j < |items|
      ensures 0 <= FindIndex(Sort(back), items[i].id) < FindIndex(Sort(back), items[j].id)
    {
      RoundTripOrders(items, at, changed, i, j);
    }
    SameOrderSame(items, Sort(back));
  }

  lemma RoundTripIff(items: seq<Item>, at: nat, changed: Item)
    requires at < |items| && Distinct(items) && changed.id == items[at].id
    ensures Sort(ReplaceItem(Sort(items[at := changed]), changed.id, _ => items[at])) == items
        <==> KeepsTies(items, items[at := changed])
  {
    var patched := items[at := changed];
    var back := ReplaceItem(Sort(patched), changed.id, _ => items[at]);
    if KeepsTies(items, patched) {
      RoundTripRestores(items, at, changed);
    } else if Sort(back) == items {
      SortIsSorted(back);
      var i, j :| 0 <= i < j < |items| && !Precedes(items[i], items[j]) && Precedes(patched[j], patched[i]);
      RoundTripOrders(items, at, changed, j, i);
    }
  }

  lemma SamePages(pages: Pages, current: Pages)
    requires |current| == |pages| && forall i :: 0 <= i < |pages| ==> |current[i]| == |pages[i]|
    ensures Flat(current) == Flat(pages) <==> current == pages
  {
    if Flat(current) == Flat(pages) {
      SameFlatSameLengths(current, pages);
    }
  }

  /**
   * A change of pin is sorted in, and sorted again when it is taken back: a list outside searches is restored if and
   * only if it was sorted and the item was not moved past one it was tied with.
   */
  ghost predicate CanUndoPin(key: Key, pages: Pages, id: Id, patch: Patch) {
    key.search != "" || KeepsTies(Flat(pages), Flat(PatchInPlace(pages, id, patch)))
  }

  lemma SortedPages(key: Key, pages: Pages, current: Pages)
    requires key.search == "" && |current| == |pages| && forall i :: 0 <= i < |pages| ==> |current[i]| == |pages[i]|
    requires |Flat(current)| == |Flat(pages)|
    ensures SortTierList(key, current) == Reslice(Sort(Flat(current)), pages)
    ensures SortTierList(key, current) == pages <==> Sort(Flat(current)) == Flat(pages)
  {
    ResliceByLengths(Sort(Flat(current)), current, pages);
    FlatOfReslice(Sort(Flat(current)), pages);
    SamePages(pages, SortTierList(key, current));
  }

  lemma UndoHeldPin(key: Key, pages: Pages, id: Id, patch: Patch)
    requires Distinct(Flat(pages)) && key.search == "" && Holds(Flat(pages), id)
    ensures SortTierList(key, RollbackItem(pages, SortTierList(key, PatchInPlace(pages, id, patch)), id, Some(patch), false)) == pages
        <==> KeepsTies(Flat(pages), Flat(PatchInPlace(pages, id, patch)))
  {
    var all, at := Flat(pages), FindIndex(Flat(pages), id);
    var spread, changed := (item: Item) => Spread(item, patch), Spread(all[at], patch);
    var patched := PatchInPlace(pages, id, patch);
    FlatOfReplace(pages, id, spread);
    ReplaceWhereFound(all, id, spread);
    assert Flat(patched) == all[at := changed];
    SortedPages(key, pages, patched);
    var current := SortTierList(key, patched);
    FlatOfReslice(Sort(Flat(patched)), pages);
    PutBackInPlace(all, at, changed);
    RestoreAfterSpread(all[at], patch);
    FlatOfReplace(current, id, _ => all[at]);
    SortedPages(key, pages, ReplaceAll(current, id, _ => all[at]));
    RoundTripIff(all, at, changed);
  }

  lemma UndoPin(key: Key, pages: Pages, id: Id, patch: Patch)
    requires Distinct(Flat(pages))
    ensures SortTierList(key, RollbackItem(pages, SortTierList(key, PatchInPlace(pages, id, patch)), id, Some(patch), false)) == pages
        <==> CanUndoPin(key, pages, id, patch)
  {
    var all, spread := Flat(pages), (item: Item) => Spread(item, patch);
    if key.search != "" {
      UndoPatch(pages, id, patch);
    } else if Holds(all, id) {
      UndoHeldPin(key, pages, id, patch);
    } else {
      var patched := PatchInPlace(pages, id, patch);
      FlatOfReplace(pages, id, spread);
      ReplaceWhereFound(all, id, spread);
      SortedPages(key, pages, patched);
      var current := SortTierList(key, patched);
      FlatOfReslice(Sort(all), pages);
      SortKeepsDistinct(all);
      FilterAbsent(current, id);
      SortedPages(key, pages, current);
      SortIsSorted(all);
      SortOfSorted(Sort(all));
      SortOfSorted(all);
    }
  }

  /** The second of two tied notes, pinned and unpinned again, stays in front of the first. */
  lemma PinCanSwapTies()
    ensures
      var key := Key("notes", "u", "all", "", "");
      var a, b := Item("a", false, false, 1000.0, map[]), Item("b", false, false, 1000.0, map[]);
      var patch := Patch(None, Some(true), None, map[]);
      var pinned := SortTierList(key, PatchInPlace([[a, b]], "b", patch));
      SortTierList(key, RollbackItem([[a, b]], pinned, "b", Some(patch), false)) != [[a, b]]
  {
    var a, b := Item("a", false, false, 1000.0, map[]), Item("b", false, false, 1000.0, map[]);
    var patch := Patch(None, Some(true), None, map[]);
    var patched := PatchInPlace([[a, b]], "b", patch);
    assert [[a, b]][1..] == [] && patched[1..] == [];
    assert Flat([[a, b]]) == [a, b] && Flat(patched) == [a, Spread(b, patch)];
    UndoPin(Key("notes", "u", "all", "", ""), [[a, b]], "b", patch);
    assert Precedes(Flat(patched)[1], Flat(patched)[0]) && !Precedes([a, b][0], [a, b][1]);
  }
}
