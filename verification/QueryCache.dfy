/**
 * The optimistic cache: what each cache operation does to one cached, paged list, and what rolling one item back
 * does to it.
 */
module QueryCache {
  import opened Wrappers

  type Id = string

  /** The JSON text of a field's value: the source compares fields by their JSON. */
  type Json = string

  /** A cached note: the fields the cache itself looks at, and all the others. */
  datatype Item = Item(id: Id, archived: bool, pinned: bool, position: real, fields: map<string, Json>)

  /** A partial note. */
  datatype Patch = Patch(archived: Option<bool>, pinned: Option<bool>, position: Option<real>, fields: map<string, Json>)

  /** [root, user, view, search, tags]; an empty search or tag filter is no filter. */
  datatype Key = Key(root: string, user: string, view: string, search: string, tags: string)

  type Page = seq<Item>
  type Pages = seq<Page>

  // ----- Lists -----

  function Flat(pages: Pages): seq<Item> {
    if pages == [] then [] else pages[0] + Flat(pages[1..])
  }

  /** The index of the first item with this id, or -1. */
  function FindIndex(items: seq<Item>, id: Id): (at: int)
    ensures -1 <= at < |items|
    ensures at >= 0 ==> items[at].id == id
    ensures at >= 0 ==> forall i :: 0 <= i < at ==> items[i].id != id
    ensures at < 0 ==> forall i :: 0 <= i < |items| ==> items[i].id != id
  {
    if items == [] then -1
    else if items[0].id == id then 0
    else
      var rest := FindIndex(items[1..], id);
      if rest < 0 then -1 else rest + 1
  }

  predicate Holds(items: seq<Item>, id: Id) {
    FindIndex(items, id) >= 0
  }

  function Without(items: seq<Item>, id: Id): seq<Item> {
    if items == [] then []
    else if items[0].id == id then Without(items[1..], id)
    else [items[0]] + Without(items[1..], id)
  }

  function Clamp(i: int, low: int, high: int): int {
    if i < low then low else if i > high then high else i
  }

  /** `splice(start, 0, item)`: a negative start counts from the end, and both ends clamp. */
  function Splice(items: seq<Item>, start: int, item: Item): seq<Item> {
    var at := Clamp(if start < 0 then |items| + start else start, 0, |items|);
    items[..at] + [item] + items[at..]
  }

  /** Cut a flat list into pages as long as these pages; `slice` clamps at the end. */
  function Reslice(items: seq<Item>, pages: Pages): Pages {
    if pages == [] then []
    else
      var n := Clamp(|pages[0]|, 0, |items|);
      [items[..n]] + Reslice(items[n..], pages[1..])
  }

  // ----- Optimistic changes to one list -----

  predicate IsArchivedView(key: Key) {
    key.view == "archived"
  }

  predicate Belongs(key: Key, item: Item) {
    key.view == "all" || item.archived == IsArchivedView(key)
  }

  /** Whether a new item goes into this list: filtered searches are left to the server. */
  predicate Shows(key: Key, item: Item) {
    Belongs(key, item) && key.search == "" && key.tags == ""
  }

  function InsertAtTop(key: Key, pages: Pages, item: Item): Pages {
    if !Shows(key, item) then pages
    else if pages == [] then [[item]]
    else [[item] + pages[0]] + pages[1..]
  }

  function FilterOut(pages: Pages, id: Id): Pages {
    seq(|pages|, i requires 0 <= i < |pages| => Without(pages[i], id))
  }

  function Spread(item: Item, patch: Patch): Item {
    Item(item.id,
         if patch.archived.Some? then patch.archived.value else item.archived,
         if patch.pinned.Some? then patch.pinned.value else item.pinned,
         if patch.position.Some? then patch.position.value else item.position,
         item.fields + patch.fields)
  }

  function ReplaceItem(page: Page, id: Id, f: Item -> Item): Page {
    seq(|page|, j requires 0 <= j < |page| => if page[j].id == id then f(page[j]) else page[j])
  }

  function ReplaceAll(pages: Pages, id: Id, f: Item -> Item): Pages {
    seq(|pages|, i requires 0 <= i < |pages| => ReplaceItem(pages[i], id, f))
  }

  function PatchInPlace(pages: Pages, id: Id, patch: Patch): Pages {
    ReplaceAll(pages, id, item => Spread(item, patch))
  }

  /** The archive toggle: to the top of the lists the item now belongs to, out of the others. */
  function ToggleArchive(key: Key, pages: Pages, id: Id, updated: Item): Pages {
    if !Belongs(key, updated) then FilterOut(pages, id)
    else if (key.search != "" || key.tags != "") && !Holds(Flat(pages), id) then pages
    else if pages == [] then [[updated]]
    else [[updated] + Without(pages[0], id)] + FilterOut(pages[1..], id)
  }

  /** The drag-and-drop move: take the item out, put it back elsewhere, keep the page lengths. */
  function Reorder(pages: Pages, id: Id, position: real, newIndex: int): Pages {
    var all := Flat(pages);
    var at := FindIndex(all, id);
    if at < 0 then pages
    else Reslice(Splice(all[..at] + all[at + 1..], newIndex, all[at].(position := position)), pages)
  }

  // ----- The pin order -----

  predicate Precedes(a: Item, b: Item) {
    if a.pinned != b.pinned then a.pinned else a.position > b.position
  }

  /** Insert in front of everything the item does not have to follow, so that sorting is stable. */
  function SortedInsert(x: Item, items: seq<Item>): (r: seq<Item>)
    ensures |r| == |items| + 1
  {
    if items == [] then [x]
    else if Precedes(items[0], x) then [items[0]] + SortedInsert(x, items[1..])
    else [x] + items
  }

  function Sort(items: seq<Item>): (r: seq<Item>)
    ensures |r| == |items|
  {
    if items == [] then [] else SortedInsert(items[0], Sort(items[1..]))
  }

  function SortTierList(key: Key, pages: Pages): Pages {
    if key.search != "" then pages else Reslice(Sort(Flat(pages)), pages)
  }

  // ----- Rolling one item back -----

  /** Copy back the fields the optimistic change still owns; without a record of it, all of them. */
  function RestoreFields(present: Item, previous: Item, optimistic: Option<Patch>): Item {
    if optimistic.None? then
      Item(present.id, previous.archived, previous.pinned, previous.position, present.fields + previous.fields)
    else
      var p := optimistic.value;
      var owned := set f | f in p.fields && f in present.fields && present.fields[f] == p.fields[f];
      Item(present.id,
           if p.archived == Some(present.archived) then previous.archived else present.archived,
           if p.pinned == Some(present.pinned) then previous.pinned else present.pinned,
           if p.position == Some(present.position) then previous.position else present.position,
           (present.fields - owned) + (map f | f in owned && f in previous.fields :: previous.fields[f]))
  }

  /** Put the item back into the page and place it had, if that page still exists. */
  function Reinsert(before: Pages, current: Pages, id: Id, previous: Item): Pages {
    if before == [] || current == [] then current
    else if Holds(before[0], id) then [Splice(current[0], FindIndex(before[0], id), previous)] + current[1..]
    else [current[0]] + Reinsert(before[1..], current[1..], id, previous)
  }

  function RollbackItem(before: Pages, current: Pages, id: Id, optimistic: Option<Patch>, restorePosition: bool): Pages {
    var was, is_ := FindIndex(Flat(before), id), FindIndex(Flat(current), id);
    if was < 0 then FilterOut(current, id)
    else
      var previous := Flat(before)[was];
      if is_ < 0 then
        if optimistic.Some? && optimistic.value.archived.None? then current
        else Reinsert(before, current, id, previous)
      else
        var restored := RestoreFields(Flat(current)[is_], previous, optimistic);
        if restorePosition then Reslice(Splice(Without(Flat(current), id), was, restored), current)
        else ReplaceAll(current, id, _ => restored)
  }

  // ----- Facts about lists -----

  ghost predicate Distinct(items: seq<Item>) {
    forall i, j :: 0 <= i < j < |items| ==> items[i].id != items[j].id
  }

  lemma {:induction false} WithoutAbsent(items: seq<Item>, id: Id)
    requires !Holds(items, id)
    ensures Without(items, id) == items
  {
    if items != [] {
      assert forall i :: 0 <= i < |items[1..]| ==> items[1..][i] == items[i + 1];
      WithoutAbsent(items[1..], id);
    }
  }

  lemma {:induction false} WithoutConcat(a: seq<Item>, b: seq<Item>, id: Id)
    ensures Without(a + b, id) == Without(a, id) + Without(b, id)
  {
    if a == [] {
      assert a + b == b;
    } else {
      assert (a + b)[1..] == a[1..] + b;
      WithoutConcat(a[1..], b, id);
    }
  }

  lemma WithoutMiddle(a: seq<Item>, x: Item, b: seq<Item>)
    requires !Holds(a, x.id) && !Holds(b, x.id)
    ensures Without(a + [x] + b, x.id) == a + b
  {
    WithoutConcat(a + [x], b, x.id);
    WithoutConcat(a, [x], x.id);
    WithoutAbsent(a, x.id);
    WithoutAbsent(b, x.id);
    assert Without([x], x.id) == [] && a + [] == a;
  }

  lemma OthersDiffer(items: seq<Item>, at: nat)
    requires at < |items| && Distinct(items)
    ensures !Holds(items[..at], items[at].id) && !Holds(items[at + 1..], items[at].id)
  {
  }

  /** Removing the only item with an id. */
  lemma WithoutAt(items: seq<Item>, at: nat)
    requires at < |items| && Distinct(items)
    ensures Without(items, items[at].id) == items[..at] + items[at + 1..]
  {
    OthersDiffer(items, at);
    WithoutMiddle(items[..at], items[at], items[at + 1..]);
    assert items == items[..at] + [items[at]] + items[at + 1..];
  }

  lemma {:induction false} FlatOfReslice(items: seq<Item>, pages: Pages)
    requires |items| == |Flat(pages)|
    ensures Flat(Reslice(items, pages)) == items
    ensures |Reslice(items, pages)| == |pages|
    ensures forall i :: 0 <= i < |pages| ==> |Reslice(items, pages)[i]| == |pages[i]|
  {
    if pages != [] {
      var n := |pages[0]|;
      FlatOfReslice(items[n..], pages[1..]);
      assert items == items[..n] + items[n..];
      var r := Reslice(items, pages);
      assert r[1..] == Reslice(items[n..], pages[1..]);
      assert forall i :: 1 <= i < |pages| ==> r[i] == Reslice(items[n..], pages[1..])[i - 1] && pages[i] == pages[1..][i - 1];
    }
  }

  /** Only the lengths of the pages matter when a list is cut up again. */
  lemma {:induction false} ResliceByLengths(items: seq<Item>, a: Pages, b: Pages)
    requires |a| == |b| && forall i :: 0 <= i < |a| ==> |a[i]| == |b[i]|
    ensures Reslice(items, a) == Reslice(items, b)
  {
    if a != [] {
      assert forall i :: 0 <= i < |a[1..]| ==> a[1..][i] == a[i + 1] && b[1..][i] == b[i + 1];
      ResliceByLengths(items[Clamp(|a[0]|, 0, |items|)..], a[1..], b[1..]);
    }
  }

  lemma {:induction false} ResliceOfFlat(pages: Pages)
    ensures Reslice(Flat(pages), pages) == pages
  {
    if pages != [] {
      ResliceOfFlat(pages[1..]);
      assert Flat(pages)[..|pages[0]|] == pages[0];
      assert Flat(pages)[|pages[0]|..] == Flat(pages[1..]);
    }
  }

  lemma {:induction false} FlatOfFilter(pages: Pages, id: Id)
    ensures Flat(FilterOut(pages, id)) == Without(Flat(pages), id)
  {
    if pages != [] {
      FlatOfFilter(pages[1..], id);
      assert FilterOut(pages, id)[1..] == FilterOut(pages[1..], id);
      WithoutConcat(pages[0], Flat(pages[1..]), id);
    }
  }

  lemma {:induction false} FilterAbsent(pages: Pages, id: Id)
    requires !Holds(Flat(pages), id)
    ensures FilterOut(pages, id) == pages
  {
    if pages != [] {
      HoldsConcat(pages[0], Flat(pages[1..]), id);
      FilterAbsent(pages[1..], id);
      WithoutAbsent(pages[0], id);
      assert FilterOut(pages, id) == [Without(pages[0], id)] + FilterOut(pages[1..], id);
    }
  }

  lemma HoldsConcat(a: seq<Item>, b: seq<Item>, id: Id)
    ensures Holds(a + b, id) <==> Holds(a, id) || Holds(b, id)
    ensures Holds(a, id) ==> FindIndex(a + b, id) == FindIndex(a, id)
    ensures !Holds(a, id) && Holds(b, id) ==> FindIndex(a + b, id) == |a| + FindIndex(b, id)
  {
    var at := FindIndex(a + b, id);
    if at >= 0 {
      assert (a + b)[at].id == id;
    }
    if Holds(a, id) {
      assert (a + b)[FindIndex(a, id)].id == id;
    }
    if Holds(b, id) {
      assert (a + b)[|a| + FindIndex(b, id)].id == id;
    }
  }

  lemma DistinctConcat(a: seq<Item>, b: seq<Item>)
    requires Distinct(a + b)
    ensures Distinct(a) && Distinct(b)
    ensures forall i, j :: 0 <= i < |a| && 0 <= j < |b| ==> a[i].id != b[j].id
    ensures forall id :: Holds(a, id) ==> !Holds(b, id)
  {
    forall i, j | 0 <= i < |a| && 0 <= j < |b|
      ensures a[i].id != b[j].id
    {
      assert (a + b)[i] == a[i] && (a + b)[|a| + j] == b[j];
    }
    forall i, j | 0 <= i < j < |a|
      ensures a[i].id != a[j].id
    {
      assert (a + b)[i] == a[i] && (a + b)[j] == a[j];
    }
    forall i, j | 0 <= i < j < |b|
      ensures b[i].id != b[j].id
    {
      assert (a + b)[|a| + i] == b[i] && (a + b)[|a| + j] == b[j];
    }
  }

  lemma {:induction false} WithoutKeepsDistinct(items: seq<Item>, id: Id)
    requires Distinct(items)
    ensures Distinct(Without(items, id)) && !Holds(Without(items, id), id)
    ensures forall other :: other != id ==> Holds(Without(items, id), other) == Holds(items, other)
  {
    if items != [] {
      var tail := items[1..];
      assert items == [items[0]] + tail;
      DistinctConcat([items[0]], tail);
      WithoutKeepsDistinct(tail, id);
      var rest := Without(tail, id);
      forall other | other != id
        ensures Holds(Without(items, id), other) == Holds(items, other)
      {
        HoldsConcat([items[0]], tail, other);
        HoldsConcat([items[0]], rest, other);
      }
      assert Holds([items[0]], items[0].id);
      if items[0].id != id {
        HoldsConcat([items[0]], rest, id);
        DistinctAppend([items[0]], rest);
      }
    }
  }

  lemma DistinctAppend(a: seq<Item>, b: seq<Item>)
    requires Distinct(a) && Distinct(b) && forall i :: 0 <= i < |a| ==> !Holds(b, a[i].id)
    ensures Distinct(a + b)
  {
  }

  lemma FoundInMiddle(a: seq<Item>, x: Item, b: seq<Item>)
    requires !Holds(a, x.id)
    ensures FindIndex(a + [x] + b, x.id) == |a|
  {
    HoldsConcat(a + [x], b, x.id);
    HoldsConcat(a, [x], x.id);
    assert [x][0].id == x.id;
  }

  lemma DistinctMiddle(a: seq<Item>, x: Item, b: seq<Item>)
    requires Distinct(a + b) && !Holds(a + b, x.id)
    ensures Distinct(a + [x] + b) && !Holds(a, x.id) && !Holds(b, x.id)
  {
    HoldsConcat(a, b, x.id);
    DistinctConcat(a, b);
    DistinctAppend([x], b);
    HoldsConcat([x], b, x.id);
    forall i | 0 <= i < |a|
      ensures !Holds([x] + b, a[i].id)
    {
      assert Holds(a, a[i].id);
      HoldsConcat([x], b, a[i].id);
    }
    DistinctAppend(a, [x] + b);
    assert a + ([x] + b) == a + [x] + b;
  }

  /** Splicing an unknown item in: it is found where it was put, and taking it out again leaves the rest. */
  lemma SpliceUnknown(rest: seq<Item>, to: nat, item: Item)
    requires Distinct(rest) && !Holds(rest, item.id) && to <= |rest|
    ensures var list := rest[..to] + [item] + rest[to..];
      && Distinct(list) && FindIndex(list, item.id) == to && Without(list, item.id) == rest
  {
    var a, b := rest[..to], rest[to..];
    assert rest == a + b;
    DistinctMiddle(a, item, b);
    FoundInMiddle(a, item, b);
    WithoutMiddle(a, item, b);
  }
}
