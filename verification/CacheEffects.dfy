/** What each optimistic change shows, list by list, and what taking one back leaves of the others. */
module CacheEffects {
  import opened CacheUndo
  import opened ConfirmedState
  import opened QueryCache
  import opened ToggleUndo
  import opened Wrappers

  // ----- Reading an item -----

  /** The item as it was with the patch on top, field by field. */
  ghost predicate Overlays(shown: Item, was: Item, patch: Patch) {
    && shown.id == was.id
    && shown.archived == (if patch.archived.Some? then patch.archived.value else was.archived)
    && shown.pinned == (if patch.pinned.Some? then patch.pinned.value else was.pinned)
    && shown.position == (if patch.position.Some? then patch.position.value else was.position)
    && (forall f :: f in patch.fields ==> f in shown.fields && shown.fields[f] == patch.fields[f])
    && (forall f :: f !in patch.fields ==> (f in shown.fields <==> f in was.fields))
    && (forall f :: f !in patch.fields && f in was.fields ==> shown.fields[f] == was.fields[f])
  }

  ghost predicate SameLengths(a: Pages, b: Pages) {
    |a| == |b| && forall i :: 0 <= i < |a| ==> |a[i]| == |b[i]|
  }

  /** Pinned items first, higher positions before lower ones. */
  ghost predicate InPinOrder(items: seq<Item>) {
    forall i, j :: 0 <= i < j < |items| ==>
      && (items[j].pinned ==> items[i].pinned)
      && (items[i].pinned == items[j].pinned ==> items[i].position >= items[j].position)
  }

  /** An item is shown in a list of every view of its kind that filters by nothing. */
  ghost predicate IsShown(key: Key, archived: bool) {
    key.search == "" && key.tags == "" && (key.view == "all" || archived == (key.view == "archived"))
  }

  /** Each item with the id reads the patch over what it was, every other item is as it was. */
  ghost predicate IsPatched(before: Pages, after: Pages, id: Id, patch: Patch)
    requires SameLengths(before, after)
  {
    forall i, j :: 0 <= i < |before| && 0 <= j < |before[i]| ==>
      if before[i][j].id == id then Overlays(after[i][j], before[i][j], patch) else after[i][j] == before[i][j]
  }

  // ----- Updates -----

  /** The lists of other tiers, and which lists there are, never change. */
  lemma OtherTiersStay(c: Client, root: string, op: Op)
    ensures Perform(c, root, op).Keys == c.Keys
    ensures forall k :: k in c && k.root != root ==> Perform(c, root, op)[k] == c[k]
  {
  }

  lemma PatchedPages(pages: Pages, id: Id, patch: Patch)
    ensures SameLengths(pages, PatchInPlace(pages, id, patch)) && IsPatched(pages, PatchInPlace(pages, id, patch), id, patch)
  {
  }

  /** An update in place: same pages, same ids, the patch over the item, every other item as it was. */
  lemma UpdateShows(c: Client, root: string, id: Id, patch: Patch, found: Option<Item>, k: Key)
    requires k in c && k.root == root && patch.archived.None? && patch.pinned.None?
    ensures var (before, after) := (c[k], Perform(c, root, Update(id, patch, found))[k]);
      SameLengths(before, after) && IsPatched(before, after, id, patch)
  {
    PatchedPages(c[k], id, patch);
  }

  lemma SortedIsPinOrder(items: seq<Item>)
    ensures Sorted(items) <==> InPinOrder(items)
  {
    forall i, j | 0 <= i < j < |items|
      ensures !Precedes(items[j], items[i]) <==>
        (items[j].pinned ==> items[i].pinned) && (items[i].pinned == items[j].pinned ==> items[i].position >= items[j].position)
    {
    }
  }

  lemma SortedList(key: Key, pages: Pages)
    ensures var after := SortTierList(key, pages);
      && SameLengths(pages, after) && multiset(Flat(after)) == multiset(Flat(pages))
      && (key.search == "" ==> InPinOrder(Flat(after))) && (key.search != "" ==> after == pages)
  {
    if key.search == "" {
      SortIsSorted(Flat(pages));
      FlatOfReslice(Sort(Flat(pages)), pages);
      SortedIsPinOrder(Sort(Flat(pages)));
    }
  }

  /** A change of pin also brings lists outside searches into pin order, whatever else the patch holds. */
  lemma PinUpdateShows(c: Client, root: string, id: Id, patch: Patch, found: Option<Item>, k: Key)
    requires k in c && k.root == root && patch.archived.None? && patch.pinned.Some?
    ensures var (before, after) := (c[k], Perform(c, root, Update(id, patch, found))[k]);
      && SameLengths(before, after)
      && (k.search == "" ==> InPinOrder(Flat(after)))
      && exists patched :: SameLengths(before, patched) && IsPatched(before, patched, id, patch)
           && multiset(Flat(patched)) == multiset(Flat(after))
  {
    var patched := PatchInPlace(c[k], id, patch);
    PatchedPages(c[k], id, patch);
    SortedList(k, patched);
    assert Perform(c, root, Update(id, patch, found))[k] == SortTierList(k, patched);
  }

  lemma PatchedIsOverlay(item: Item, patch: Patch)
    ensures Overlays(Spread(item, patch), item, patch)
  {
  }

  lemma {:induction false} WithoutHoldsNone(items: seq<Item>, id: Id)
    ensures forall x :: x in Without(items, id) <==> x in items && x.id != id
  {
    if items != [] {
      WithoutHoldsNone(items[1..], id);
      assert items == [items[0]] + items[1..];
    }
  }

  lemma FilteredHoldsNone(pages: Pages, id: Id)
    ensures forall x :: x in Flat(FilterOut(pages, id)) ==> x.id != id
  {
    FlatOfFilter(pages, id);
    WithoutHoldsNone(Flat(pages), id);
  }

  lemma HeldIfIn(items: seq<Item>, x: Item)
    requires x in items
    ensures Holds(items, x.id)
  {
    var i :| 0 <= i < |items| && items[i] == x;
  }

  lemma ToggledItems(key: Key, pages: Pages, id: Id, updated: Item, x: Item)
    requires x in Flat(ToggleArchive(key, pages, id, updated)) && x.id == id
    ensures x == updated
  {
    if x in Flat(pages) {
      HeldIfIn(Flat(pages), x);
    }
    if !Belongs(key, updated) {
      FilteredHoldsNone(pages, id);
    } else if (key.search != "" || key.tags != "") && !Holds(Flat(pages), id) {
    } else if pages == [] {
      assert Flat([[updated]]) == [updated] + Flat([]);
    } else {
      FlatOfToggled(pages, id, updated);
      WithoutHoldsNone(Flat(pages), id);
    }
  }

  lemma SortedItems(key: Key, pages: Pages, x: Item)
    ensures x in Flat(SortTierList(key, pages)) <==> x in Flat(pages)
  {
    SortedList(key, pages);
    assert x in multiset(Flat(SortTierList(key, pages))) <==> x in multiset(Flat(pages));
  }

  /** Archiving: wherever the item is shown afterwards, it reads the patch over the copy that was found. */
  lemma ArchiveShows(c: Client, root: string, id: Id, patch: Patch, found: Item, k: Key, x: Item)
    requires k in c && k.root == root && patch.archived.Some? && found.id == id
    requires x in Flat(Perform(c, root, Update(id, patch, Some(found)))[k]) && x.id == id
    ensures Overlays(x, found, patch)
  {
    var toggled := ToggleArchive(k, c[k], id, Spread(found, patch));
    SortedItems(k, toggled, x);
    ToggledItems(k, c[k], id, Spread(found, patch), x);
    PatchedIsOverlay(found, patch);
  }

  lemma {:induction false} CountsWithout(items: seq<Item>, id: Id, x: Item)
    ensures multiset(Without(items, id))[x] == if x.id == id then 0 else multiset(items)[x]
  {
    if items != [] {
      CountsWithout(items[1..], id, x);
      assert items == [items[0]] + items[1..];
      if items[0].id != id {
        assert Without(items, id) == [items[0]] + Without(items[1..], id);
      }
    }
  }

  /** An unfiltered list shows it exactly when its view is for archived items as the item now is; the others stay. */
  lemma ArchiveMovesIff(c: Client, root: string, id: Id, patch: Patch, found: Item, k: Key)
    requires k in c && k.root == root && patch.archived.Some? && found.id == id
    requires Distinct(Flat(c[k])) && k.search == "" && k.tags == ""
    ensures var after := Flat(Perform(c, root, Update(id, patch, Some(found)))[k]);
      && (Holds(after, id) <==> IsShown(k, patch.archived.value))
      && forall x: Item :: x.id != id ==> multiset(after)[x] == multiset(Flat(c[k]))[x]
  {
    var updated := Spread(found, patch);
    var toggled := ToggleArchive(k, c[k], id, updated);
    var after := Perform(c, root, Update(id, patch, Some(found)))[k];
    ToggledIsShownIff(k, c[k], id, updated);
    SortedList(k, toggled);
    assert multiset(Flat(after)) == multiset(Flat(toggled));
    HoldsInMultisetIff(Flat(after), Flat(toggled), id);
    forall x: Item | x.id != id
      ensures multiset(Flat(after))[x] == multiset(Flat(c[k]))[x]
    {
      CountsWithout(Flat(toggled), id, x);
      CountsWithout(Flat(c[k]), id, x);
    }
  }

  lemma HoldsInMultisetIff(a: seq<Item>, b: seq<Item>, id: Id)
    requires multiset(a) == multiset(b)
    ensures Holds(a, id) <==> Holds(b, id)
  {
    if Holds(a, id) {
      assert a[FindIndex(a, id)] in multiset(b);
      HeldIfIn(b, a[FindIndex(a, id)]);
    }
    if Holds(b, id) {
      assert b[FindIndex(b, id)] in multiset(a);
      HeldIfIn(a, b[FindIndex(b, id)]);
    }
  }

  // ----- Inserting, creating, deleting -----

  /** A restored item comes first in the lists that show it; no other list changes. */
  lemma UndeleteShows(c: Client, root: string, item: Item, k: Key)
    requires k in c && k.root == root
    ensures var (before, after) := (c[k], Perform(c, root, Undelete(item))[k]);
      if IsShown(k, item.archived) then
        && Flat(after) == [item] + Flat(before)
        && (before != [] ==> after[1..] == before[1..])
      else after == before
  {
    var before, after := c[k], Perform(c, root, Undelete(item))[k];
    if IsShown(k, item.archived) {
      assert after[1..] == if before == [] then [] else before[1..];
      assert Flat(after) == [item] + Flat(before);
    }
  }

  /** A new note joins the same lists, and all lists outside searches are in pin order. */
  lemma CreateShows(c: Client, root: string, item: Item, k: Key)
    requires k in c && k.root == root
    ensures var (before, after) := (c[k], Perform(c, root, CreateNote(item))[k]);
      && multiset(Flat(after)) == multiset(Flat(before)) + (if IsShown(k, item.archived) then multiset{item} else multiset{})
      && (k.search == "" ==> InPinOrder(Flat(after))) && (k.search != "" ==> after == before)
  {
    var inserted := InsertAtTop(k, c[k], item);
    UndeleteShows(c, root, item, k);
    assert Perform(c, root, Undelete(item))[k] == inserted;
    assert Perform(c, root, CreateNote(item))[k] == SortTierList(k, inserted);
    SortedList(k, inserted);
  }

  /** A deleted item is in no list of the tier, and the others stay where they were on their pages. */
  lemma DeleteHides(c: Client, root: string, id: Id, k: Key)
    requires k in c && k.root == root
    ensures var before: Pages := c[k];
      var after := Perform(c, root, Delete(id))[k];
      && !Holds(Flat(after), id) && |after| == |before|
      && (forall i :: 0 <= i < |before| && !Holds(before[i], id) ==> after[i] == before[i])
      && (forall i, at :: 0 <= i < |before| && 0 <= at < |before[i]| && Distinct(before[i]) && before[i][at].id == id ==>
            after[i] == before[i][..at] + before[i][at + 1..])
  {
    var before, after := c[k], Perform(c, root, Delete(id))[k];
    FilteredHoldsNone(before, id);
    if Holds(Flat(after), id) {
      assert Flat(after)[FindIndex(Flat(after), id)] in Flat(after);
    }
    forall i | 0 <= i < |before| && !Holds(before[i], id)
      ensures after[i] == before[i]
    {
      WithoutAbsent(before[i], id);
    }
    forall i, at | 0 <= i < |before| && 0 <= at < |before[i]| && Distinct(before[i]) && before[i][at].id == id
      ensures after[i] == before[i][..at] + before[i][at + 1..]
    {
      WithoutAt(before[i], at);
    }
  }

  // ----- Moving -----

  /** Where `splice` puts the one item taken out of `n`: a negative index counts from the end of the rest. */
  function Landing(newIndex: int, n: nat): int
    requires n > 0
  {
    var last := n - 1;
    if newIndex < 0 then (if last + newIndex < 0 then 0 else last + newIndex) else if newIndex > last then last else newIndex
  }

  lemma SpliceLands(rest: seq<Item>, newIndex: int, moved: Item)
    ensures var (after, to) := (Splice(rest, newIndex, moved), Landing(newIndex, |rest| + 1));
      |after| == |rest| + 1 && after[to] == moved && after[..to] + after[to + 1..] == rest
  {
    var after, to := Splice(rest, newIndex, moved), Landing(newIndex, |rest| + 1);
    assert after == rest[..to] + [moved] + rest[to..];
    assert after[..to] == rest[..to] && after[to + 1..] == rest[to..];
  }

  lemma ReorderIs(pages: Pages, id: Id, position: real, newIndex: int, at: nat)
    requires Distinct(Flat(pages)) && at < |Flat(pages)| && Flat(pages)[at].id == id
    ensures var before := Flat(pages);
      Reorder(pages, id, position, newIndex)
        == Reslice(Splice(before[..at] + before[at + 1..], newIndex, before[at].(position := position)), pages)
  {
    assert FindIndex(Flat(pages), id) == at;
  }

  lemma ReorderLands(pages: Pages, id: Id, position: real, newIndex: int, at: nat)
    requires Distinct(Flat(pages)) && at < |Flat(pages)| && Flat(pages)[at].id == id
    ensures var (before, moved) := (Flat(pages), Reorder(pages, id, position, newIndex));
      var (after, to) := (Flat(moved), Landing(newIndex, |before|));
      && SameLengths(pages, moved) && |after| == |before|
      && after[to] == before[at].(position := position)
      && after[..to] + after[to + 1..] == before[..at] + before[at + 1..]
  {
    var before := Flat(pages);
    var rest, moved := before[..at] + before[at + 1..], before[at].(position := position);
    SpliceLands(rest, newIndex, moved);
    FlatOfReslice(Splice(rest, newIndex, moved), pages);
    ReorderIs(pages, id, position, newIndex, at);
  }

  /** The item lands at its index with its new position; the rest keep their order and the pages their lengths. */
  lemma MoveLands(c: Client, root: string, id: Id, position: real, newIndex: int, k: Key, at: nat)
    requires k in c && k.root == root && Distinct(Flat(c[k])) && at < |Flat(c[k])| && Flat(c[k])[at].id == id
    ensures var (before, pages) := (Flat(c[k]), Perform(c, root, Move(id, position, newIndex))[k]);
      var (after, to) := (Flat(pages), Landing(newIndex, |before|));
      && SameLengths(c[k], pages) && |after| == |before|
      && after[to] == before[at].(position := position)
      && after[..to] + after[to + 1..] == before[..at] + before[at + 1..]
  {
    ReorderLands(c[k], id, position, newIndex, at);
    assert Perform(c, root, Move(id, position, newIndex))[k] == Reorder(c[k], id, position, newIndex);
  }

  // ----- Rolling back over later changes -----

  lemma WithoutTwice(items: seq<Item>, id: Id)
    ensures Without(Without(items, id), id) == Without(items, id)
  {
    WithoutIsAbsent(items, id);
    WithoutAbsent(Without(items, id), id);
  }

  lemma {:induction false} WithoutReplaced(items: seq<Item>, id: Id, x: Item)
    requires x.id == id
    ensures Without(ReplaceItem(items, id, _ => x), id) == Without(items, id)
  {
    if items != [] {
      WithoutReplaced(items[1..], id, x);
      assert ReplaceItem(items, id, _ => x)[1..] == ReplaceItem(items[1..], id, _ => x);
    }
  }

  lemma WithoutSplicedIn(items: seq<Item>, start: int, x: Item)
    ensures Without(Splice(items, start, x), x.id) == Without(items, x.id)
  {
    var at := Landing(start, |items| + 1);
    assert Splice(items, start, x) == items[..at] + [x] + items[at..];
    WithoutConcat(items[..at] + [x], items[at..], x.id);
    WithoutConcat(items[..at], [x], x.id);
    WithoutConcat(items[..at], items[at..], x.id);
    assert items[..at] + items[at..] == items;
    assert Without([x], x.id) == [];
  }

  lemma {:induction false} WithoutReinserted(before: Pages, current: Pages, id: Id, x: Item)
    requires x.id == id
    ensures Without(Flat(Reinsert(before, current, id, x)), id) == Without(Flat(current), id)
  {
    if before != [] && current != [] {
      var after := Reinsert(before, current, id, x);
      WithoutConcat(current[0], Flat(current[1..]), id);
      WithoutConcat(after[0], Flat(after[1..]), id);
      if Holds(before[0], id) {
        WithoutSplicedIn(current[0], FindIndex(before[0], id), x);
        assert after[1..] == current[1..];
      } else {
        WithoutReinserted(before[1..], current[1..], id, x);
        assert after[1..] == Reinsert(before[1..], current[1..], id, x);
      }
    }
  }

  /** Whatever has happened to the list since, rolling one item back leaves all others alone, in their order. */
  lemma RollbackLeavesOthers(before: Pages, current: Pages, id: Id, optimistic: Option<Patch>, restorePosition: bool)
    requires Distinct(Flat(current))
    ensures Without(Flat(RollbackItem(before, current, id, optimistic, restorePosition)), id) == Without(Flat(current), id)
  {
    var was, now := FindIndex(Flat(before), id), FindIndex(Flat(current), id);
    FlatOfFilter(current, id);
    WithoutTwice(Flat(current), id);
    if was >= 0 && now < 0 {
      WithoutReinserted(before, current, id, Flat(before)[was]);
    } else if was >= 0 {
      var restored := RestoreFields(Flat(current)[now], Flat(before)[was], optimistic);
      FlatOfReplace(current, id, _ => restored);
      WithoutReplaced(Flat(current), id, restored);
      WithoutAt(Flat(current), now);
      FlatOfReslice(Splice(Without(Flat(current), id), was, restored), current);
      WithoutSplicedIn(Without(Flat(current), id), was, restored);
    }
  }

  /** The fields the patch set go back to what they were, except those that were changed again since. */
  ghost predicate IsRolledBack(shown: Item, present: Item, previous: Item, patch: Patch) {
    && shown.id == present.id
    && shown.archived == (if patch.archived == Some(present.archived) then previous.archived else present.archived)
    && shown.pinned == (if patch.pinned == Some(present.pinned) then previous.pinned else present.pinned)
    && shown.position == (if patch.position == Some(present.position) then previous.position else present.position)
    && forall f ::
         var source := if f in patch.fields && f in present.fields && present.fields[f] == patch.fields[f] then previous else present;
         (f in shown.fields <==> f in source.fields) && (f in shown.fields ==> shown.fields[f] == source.fields[f])
  }

  lemma RestoredIsRolledBack(present: Item, previous: Item, patch: Patch)
    ensures IsRolledBack(RestoreFields(present, previous, Some(patch)), present, previous, patch)
  {
  }

  /** An update rolled back in place: only the fields it still owns, and only in its own item. */
  lemma RollbackKeepsLaterEdits(before: Pages, current: Pages, id: Id, patch: Patch, was: nat, now: nat)
    requires Distinct(Flat(before)) && was < |Flat(before)| && Flat(before)[was].id == id
    requires Distinct(Flat(current)) && now < |Flat(current)| && Flat(current)[now].id == id
    ensures var after := RollbackItem(before, current, id, Some(patch), false);
      && SameLengths(current, after) && |Flat(after)| == |Flat(current)|
      && (forall i :: 0 <= i < |Flat(after)| && i != now ==> Flat(after)[i] == Flat(current)[i])
      && IsRolledBack(Flat(after)[now], Flat(current)[now], Flat(before)[was], patch)
  {
    assert FindIndex(Flat(before), id) == was && FindIndex(Flat(current), id) == now;
    var restored := RestoreFields(Flat(current)[now], Flat(before)[was], Some(patch));
    RestoredIsRolledBack(Flat(current)[now], Flat(before)[was], patch);
    FlatOfReplace(current, id, _ => restored);
    ReplaceWhereFound(Flat(current), id, _ => restored);
  }

  /** Without a record of what was changed, all fields the snapshot knows go back. */
  ghost predicate IsRestored(shown: Item, present: Item, previous: Item) {
    && shown.id == present.id
    && (shown.archived, shown.pinned, shown.position) == (previous.archived, previous.pinned, previous.position)
    && forall f ::
         var source := if f in previous.fields then previous else present;
         (f in shown.fields <==> f in source.fields) && (f in shown.fields ==> shown.fields[f] == source.fields[f])
  }

  lemma WholeItemRestored(present: Item, previous: Item)
    ensures IsRestored(RestoreFields(present, previous, None), present, previous)
  {
  }

  /** A move rolled back over later changes: the item is where it was, or last if the list has become shorter. */
  lemma RollbackMovesBack(before: Pages, current: Pages, id: Id, was: nat, now: nat)
    requires Distinct(Flat(before)) && was < |Flat(before)| && Flat(before)[was].id == id
    requires Distinct(Flat(current)) && now < |Flat(current)| && Flat(current)[now].id == id
    ensures var pages := RollbackItem(before, current, id, None, true);
      var (after, to) := (Flat(pages), if was < |Flat(current)| then was else |Flat(current)| - 1);
      && SameLengths(current, pages) && |after| == |Flat(current)|
      && IsRestored(after[to], Flat(current)[now], Flat(before)[was])
      && after[..to] + after[to + 1..] == Flat(current)[..now] + Flat(current)[now + 1..]
  {
    assert FindIndex(Flat(before), id) == was && FindIndex(Flat(current), id) == now;
    var rest := Flat(current)[..now] + Flat(current)[now + 1..];
    var restored := RestoreFields(Flat(current)[now], Flat(before)[was], None);
    WholeItemRestored(Flat(current)[now], Flat(before)[was]);
    WithoutAt(Flat(current), now);
    SpliceLands(rest, was, restored);
    FlatOfReslice(Splice(rest, was, restored), current);
  }

  /** An update that is rolled back does not bring back an item that has left the list since. */
  lemma GoneStaysGone(before: Pages, current: Pages, id: Id, patch: Patch)
    requires Holds(Flat(before), id) && !Holds(Flat(current), id) && patch.archived.None?
    ensures RollbackItem(before, current, id, Some(patch), false) == current
  {
  }

  lemma {:induction false} ReinsertsOnPage(before: Pages, current: Pages, id: Id, previous: Item, p: nat, at: nat)
    requires p < |before| && at < |before[p]| && FindIndex(before[p], id) == at && forall i :: 0 <= i < p ==> !Holds(before[i], id)
    ensures var after := Reinsert(before, current, id, previous);
      if p < |current| then after == current[p := Splice(current[p], at, previous)] else after == current
  {
    if current != [] && p > 0 {
      assert !Holds(before[0], id);
      assert forall i :: 0 <= i < p - 1 ==> before[1..][i] == before[i + 1];
      ReinsertsOnPage(before[1..], current[1..], id, previous, p - 1, at);
      if p < |current| {
        assert current[1..][p - 1] == current[p];
      }
    }
  }

  lemma {:induction false} FoundOnPage(pages: Pages, id: Id, p: nat, at: nat)
    requires Distinct(Flat(pages)) && p < |pages| && at < |pages[p]| && pages[p][at].id == id
    ensures FindIndex(pages[p], id) == at && Holds(Flat(pages), id) && Flat(pages)[FindIndex(Flat(pages), id)] == pages[p][at]
    ensures forall i :: 0 <= i < p ==> !Holds(pages[i], id)
  {
    var head, tail := pages[0], Flat(pages[1..]);
    DistinctConcat(head, tail);
    HoldsConcat(head, tail, id);
    if p == 0 {
      assert FindIndex(head, id) == at;
    } else {
      assert pages[1..][p - 1] == pages[p];
      FoundOnPage(pages[1..], id, p - 1, at);
      assert Holds(tail, id);
      assert !Holds(head, id);
      assert forall i :: 1 <= i < p ==> pages[i] == pages[1..][i - 1];
    }
  }

  /** A removed or archived item comes back to its page and place, as it was, if there still is such a page. */
  lemma GoneComesBack(before: Pages, current: Pages, id: Id, optimistic: Option<Patch>, restorePosition: bool, p: nat, at: nat)
    requires Distinct(Flat(before)) && p < |before| && at < |before[p]| && before[p][at].id == id
    requires !Holds(Flat(current), id) && (optimistic.Some? ==> optimistic.value.archived.Some?)
    ensures var after := RollbackItem(before, current, id, optimistic, restorePosition);
      if p >= |current| then after == current else
        var to := if at < |current[p]| then at else |current[p]|;
        after == current[p := current[p][..to] + [before[p][at]] + current[p][to..]]
  {
    FoundOnPage(before, id, p, at);
    ReinsertsOnPage(before, current, id, before[p][at], p, at);
  }

  /** What the snapshot did not have is taken out, whichever change put it there. */
  lemma UnknownIsRemoved(before: Pages, current: Pages, id: Id, optimistic: Option<Patch>, restorePosition: bool)
    requires !Holds(Flat(before), id)
    ensures var after := RollbackItem(before, current, id, optimistic, restorePosition);
      !Holds(Flat(after), id) && |after| == |current|
      && forall i :: 0 <= i < |current| && !Holds(current[i], id) ==> after[i] == current[i]
  {
    FlatOfFilter(current, id);
    WithoutIsAbsent(Flat(current), id);
    forall i | 0 <= i < |current| && !Holds(current[i], id)
      ensures Without(current[i], id) == current[i]
    {
      WithoutAbsent(current[i], id);
    }
  }

  /** A change of pin leaves the lists outside searches in pin order when it is unwound, too. */
  lemma UnwoundPinIsSorted(c: Client, m: Mutation, k: Key)
    requires k in c && k in m.snapshots && k.search == "" && m.root in ["notes", "secrets", "seals"] && m.id != ""
    requires m.patch.Some? && m.patch.value.pinned.Some?
    ensures InPinOrder(Flat(UnwindOne(c, m)[k]))
  {
    SortedList(k, RollbackAll(c, m.snapshots, m.id, m.patch, m.reordered)[k]);
  }

  // ----- Temporary rows -----

  /** A row is left out exactly when its id is a temporary one, whatever surrounds it. */
  lemma {:induction false} TemporaryLeftOut(a: seq<Item>, x: Item, b: seq<Item>)
    ensures WithoutTemporary([]) == []
    ensures WithoutTemporary(a + [x] + b)
         == WithoutTemporary(a) + (if |x.id| >= 5 && x.id[..5] == "temp-" then [] else [x]) + WithoutTemporary(b)
  {
    if a == [] {
      assert a + [x] + b == [x] + b;
      assert ([x] + b)[1..] == b;
    } else {
      TemporaryLeftOut(a[1..], x, b);
      assert (a + [x] + b)[1..] == a[1..] + [x] + b;
    }
  }

  lemma {:induction false} NoneTemporary(items: seq<Item>)
    ensures forall x :: x in WithoutTemporary(items) <==> x in items && !(|x.id| >= 5 && x.id[..5] == "temp-")
  {
    if items != [] {
      NoneTemporary(items[1..]);
      assert items == [items[0]] + items[1..];
    }
  }

  lemma {:induction false} UnwindKeepsKeys(c: Client, pending: seq<Mutation>)
    ensures Unwind(c, pending).Keys == c.Keys
  {
    if pending != [] {
      UnwindKeepsKeys(c, pending[1..]);
    }
  }

  /** No list of a tier is persisted with a temporary row; every other row of the unwound state is, on its page. */
  lemma PersistsNoTemporary(c: Client, pending: seq<Mutation>, k: Key)
    requires k in c
    ensures k in Confirmed(c, pending) && k in Unwind(c, pending)
    ensures var (before, after) := (Unwind(c, pending)[k], Confirmed(c, pending)[k]);
      if k.root in ["notes", "secrets", "seals"] then
        && |after| == |before|
        && forall i, x: Item :: 0 <= i < |before| ==>
             (x in after[i] <==> x in before[i] && !(|x.id| >= 5 && x.id[..5] == "temp-"))
      else after == before
  {
    UnwindKeepsKeys(c, pending);
    var before, after := Unwind(c, pending)[k], Confirmed(c, pending)[k];
    if k.root in ["notes", "secrets", "seals"] {
      forall i | 0 <= i < |before|
        ensures forall x: Item :: x in after[i] <==> x in before[i] && !(|x.id| >= 5 && x.id[..5] == "temp-")
      {
        NoneTemporary(before[i]);
      }
    }
  }
}
