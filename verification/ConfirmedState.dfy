/**
 * The whole cache, and unwinding it to what the server confirmed: pending mutations are rolled back newest first,
 * each with the snapshot it took before it changed anything.
 */
module ConfirmedState {
  import opened QueryCache
  import opened CacheUndo
  import opened ToggleUndo
  import opened Wrappers

  /** Every list with data. */
  type Client = map<Key, Pages>

  /** What a pending mutation remembers. */
  datatype Mutation = Mutation(root: string, id: Id, snapshots: Client, patch: Option<Patch>, reordered: bool)

  datatype Op =
    | Undelete(item: Item)
    | CreateNote(item: Item)
    | Delete(id: Id)
    | Update(id: Id, patch: Patch, found: Option<Item>) // `found` is a cached copy, looked for when archiving
    | Move(id: Id, position: real, newIndex: int)

  const ROOTS := ["notes", "secrets", "seals"]

  // ----- What the hooks do -----

  /** The snapshot taken first: every list under the tier's root. */
  function Under(c: Client, root: string): Client {
    map k | k in c && k.root == root :: c[k]
  }

  function ApplyOp(key: Key, pages: Pages, op: Op): Pages {
    match op
    case Undelete(item) => InsertAtTop(key, pages, item)
    case CreateNote(item) => Create(key, pages, item)
    case Delete(id) => FilterOut(pages, id)
    case Update(id, patch, found) =>
      var updated := if patch.archived.None? then PatchInPlace(pages, id, patch)
                     else if found.None? then pages
                     else ToggleArchive(key, pages, id, Spread(found.value, patch));
      if patch.pinned.Some? then SortTierList(key, updated) else updated
    case Move(id, position, newIndex) => Reorder(pages, id, position, newIndex)
  }

  /** Each list of `keys` that exists is replaced; the others are left alone. */
  function Rewrite(c: Client, keys: set<Key>, f: (Key, Pages) -> Pages): Client {
    map k | k in c :: if k in keys then f(k, c[k]) else c[k]
  }

  function Performing(op: Op): (Key, Pages) -> Pages {
    (key, pages) => ApplyOp(key, pages, op)
  }

  function Perform(c: Client, root: string, op: Op): Client {
    Rewrite(c, Under(c, root).Keys, Performing(op))
  }

  function OpId(op: Op): Id {
    match op
    case Undelete(item) => item.id
    case CreateNote(item) => item.id
    case Delete(id) => id
    case Update(id, _, _) => id
    case Move(id, _, _) => id
  }

  function MutationOf(c: Client, root: string, op: Op): Mutation {
    Mutation(root, OpId(op), Under(c, root), if op.Update? then Some(op.patch) else None, op.Move?)
  }

  // ----- Unwinding -----

  function RollingBack(snapshots: Client, id: Id, optimistic: Option<Patch>, restorePosition: bool): (Key, Pages) -> Pages {
    (key, pages) => if key in snapshots then RollbackItem(snapshots[key], pages, id, optimistic, restorePosition) else pages
  }

  function RollbackAll(c: Client, snapshots: Client, id: Id, optimistic: Option<Patch>, restorePosition: bool): Client {
    Rewrite(c, snapshots.Keys, RollingBack(snapshots, id, optimistic, restorePosition))
  }

  function Sorting(): (Key, Pages) -> Pages {
    (key, pages) => SortTierList(key, pages)
  }

  function SortAll(c: Client, snapshots: Client): Client {
    Rewrite(c, snapshots.Keys, Sorting())
  }

  function UnwindOne(c: Client, m: Mutation): Client {
    if m.root !in ROOTS || m.id == "" then c
    else
      var rolled := RollbackAll(c, m.snapshots, m.id, m.patch, m.reordered);
      if m.patch.Some? && m.patch.value.pinned.Some? then SortAll(rolled, m.snapshots) else rolled
  }

  /** The last mutation is undone first. */
  function Unwind(c: Client, pending: seq<Mutation>): Client {
    if pending == [] then c else UnwindOne(Unwind(c, pending[1..]), pending[0])
  }

  predicate IsTemporary(id: Id) {
    |id| >= 5 && id[..5] == "temp-"
  }

  function WithoutTemporary(items: seq<Item>): seq<Item> {
    if items == [] then []
    else if IsTemporary(items[0].id) then WithoutTemporary(items[1..])
    else [items[0]] + WithoutTemporary(items[1..])
  }

  function DropTemporary(c: Client): Client {
    map k | k in c ::
      if k.root in ROOTS then seq(|c[k]|, i requires 0 <= i < |c[k]| => WithoutTemporary(c[k][i])) else c[k]
  }

  function Confirmed(c: Client, pending: seq<Mutation>): Client {
    DropTemporary(Unwind(c, pending))
  }

  /** Lists can be rewritten one at a time, in any order. */
  lemma RewriteOneMore(c: Client, keys: set<Key>, todo: set<Key>, key: Key, f: (Key, Pages) -> Pages)
    requires key in todo && todo <= keys
    ensures Rewrite(c, keys - (todo - {key}), f)
         == if key in c then Rewrite(c, keys - todo, f)[key := f(key, c[key])] else Rewrite(c, keys - todo, f)
  {
  }

  /** Nothing exactly when no list holds the item, else what some list shows of it. */
  ghost predicate IsCopy(c: Client, id: Id, found: Option<Item>) {
    match found
    case None => forall k :: k in c ==> !Holds(Flat(c[k]), id)
    case Some(item) => exists k :: k in c && Holds(Flat(c[k]), id) && Flat(c[k])[FindIndex(Flat(c[k]), id)] == item
  }

  // ----- The client, changed list by list -----

  class QueryClient {
    var data: Client

    constructor (data: Client)
      ensures this.data == data
    {
      this.data := data;
    }

    /** The loop that hands out consecutive slices, advancing an offset. */
    method CutIntoPages(items: seq<Item>, pages: Pages) returns (newPages: Pages)
      requires |items| == |Flat(pages)|
      ensures newPages == Reslice(items, pages)
    {
      newPages := [];
      var offset := 0;
      for i := 0 to |pages|
        invariant 0 <= offset <= |items| && |items| - offset == |Flat(pages[i..])|
        invariant newPages + Reslice(items[offset..], pages[i..]) == Reslice(items, pages)
      {
        assert pages[i..][1..] == pages[i + 1..];
        assert pages[i..][0] == pages[i];
        var n := |pages[i]|;
        newPages := newPages + [items[offset..offset + n]];
        assert items[offset..][n..] == items[offset + n..];
        assert items[offset..][..n] == items[offset..offset + n];
        offset := offset + n;
      }
    }

    method ChangeList(key: Key, pages: Pages, op: Op) returns (changed: Pages)
      requires !op.Move?
      ensures changed == ApplyOp(key, pages, op)
    {
      match op
      case Undelete(item) =>
        changed := InsertAtTop(key, pages, item);
      case CreateNote(item) =>
        changed := InsertAtTop(key, pages, item);
        changed := SortTierList(key, changed);
      case Delete(id) =>
        changed := FilterOut(pages, id);
      case Update(id, patch, found) =>
        changed := pages;
        if patch.archived.None? {
          changed := PatchInPlace(pages, id, patch);
        } else if found.Some? {
          changed := ToggleArchive(key, pages, id, Spread(found.value, patch));
        }
        if patch.pinned.Some? {
          changed := SortTierList(key, changed);
        }
    }

    /** The hooks that insert, remove or update: snapshot the tier's lists, then change each. */
    method OnMutate(root: string, op: Op) returns (m: Mutation)
      requires !op.Move?
      modifies this
      ensures data == Perform(old(data), root, op) && m == MutationOf(old(data), root, op)
    {
      var snapshots := Under(data, root);
      m := Mutation(root, OpId(op), snapshots, if op.Update? then Some(op.patch) else None, false);
      var todo := snapshots.Keys;
      ghost var f := Performing(op);
      while todo != {}
        invariant todo <= snapshots.Keys && data == Rewrite(old(data), snapshots.Keys - todo, f)
      {
        var key :| key in todo;
        var pages := ChangeList(key, data[key], op);
        RewriteOneMore(old(data), snapshots.Keys, todo, key, f);
        assert pages == f(key, old(data)[key]);
        data := data[key := pages];
        todo := todo - {key};
      }
    }

    /** Some cached copy of the item, whichever list is met first. */
    method FindCopy(snapshots: Client, id: Id) returns (found: Option<Item>)
      ensures IsCopy(snapshots, id, found)
    {
      var todo := snapshots.Keys;
      while todo != {}
        invariant todo <= snapshots.Keys
        invariant forall k :: k in snapshots && k !in todo ==> !Holds(Flat(snapshots[k]), id)
      {
        var key :| key in todo;
        var items := Flat(snapshots[key]);
        var at := FindIndex(items, id);
        if at >= 0 {
          return Some(items[at]);
        }
        todo := todo - {key};
      }
      found := None;
    }

    /** The update hook: an archived flag toggles lists, any other patch stays in place, a pin re-sorts. */
    method OnUpdate(root: string, id: Id, patch: Patch) returns (m: Mutation, ghost op: Op)
      modifies this
      ensures op.Update? && op.id == id && op.patch == patch
      ensures patch.archived.Some? ==> IsCopy(Under(old(data), root), id, op.found)
      ensures data == Perform(old(data), root, op) && m == MutationOf(old(data), root, op)
    {
      var found: Option<Item> := None;
      if patch.archived.Some? {
        found := FindCopy(Under(data, root), id);
      }
      op := Update(id, patch, found);
      m := OnMutate(root, Update(id, patch, found));
    }

    /** Splice the item out and in again, then cut the list up as before. */
    method ReorderList(pages: Pages, id: Id, position: real, newIndex: int) returns (newPages: Pages)
      ensures newPages == Reorder(pages, id, position, newIndex)
    {
      var allItems := Flat(pages);
      var itemIndex := FindIndex(allItems, id);
      if itemIndex == -1 {
        return pages;
      }
      var movedItem := allItems[itemIndex];
      allItems := allItems[..itemIndex] + allItems[itemIndex + 1..];
      allItems := Splice(allItems, newIndex, movedItem.(position := position));
      newPages := CutIntoPages(allItems, pages);
    }

    /** The reorder hook: snapshot the tier's lists, then reorder each. */
    method OnReorder(root: string, id: Id, position: real, newIndex: int) returns (m: Mutation)
      modifies this
      ensures data == Perform(old(data), root, Move(id, position, newIndex))
      ensures m == MutationOf(old(data), root, Move(id, position, newIndex))
    {
      var snapshots := Under(data, root);
      m := Mutation(root, id, snapshots, None, true);
      var todo := snapshots.Keys;
      ghost var f := Performing(Move(id, position, newIndex));
      while todo != {}
        invariant todo <= snapshots.Keys && data == Rewrite(old(data), snapshots.Keys - todo, f)
      {
        var key :| key in todo;
        var newPages := ReorderList(snapshots[key], id, position, newIndex);
        assert newPages == f(key, old(data)[key]);
        RewriteOneMore(old(data), snapshots.Keys, todo, key, f);
        data := data[key := newPages];
        todo := todo - {key};
      }
    }

    /** Roll one item back in every snapshotted list that still exists. */
    method RollbackItem(snapshots: Client, id: Id, optimistic: Option<Patch>, restorePosition: bool)
      modifies this
      ensures data == RollbackAll(old(data), snapshots, id, optimistic, restorePosition)
    {
      var todo := snapshots.Keys;
      ghost var f := RollingBack(snapshots, id, optimistic, restorePosition);
      while todo != {}
        invariant todo <= snapshots.Keys && data == Rewrite(old(data), snapshots.Keys - todo, f)
      {
        var key :| key in todo;
        RewriteOneMore(old(data), snapshots.Keys, todo, key, f);
        if key in data {
          var restored := QueryCache.RollbackItem(snapshots[key], data[key], id, optimistic, restorePosition);
          assert restored == f(key, old(data)[key]);
          data := data[key := restored];
        }
        todo := todo - {key};
      }
    }

    method SortTierLists(snapshots: Client)
      modifies this
      ensures data == SortAll(old(data), snapshots)
    {
      var todo := snapshots.Keys;
      ghost var f := Sorting();
      while todo != {}
        invariant todo <= snapshots.Keys && data == Rewrite(old(data), snapshots.Keys - todo, f)
      {
        var key :| key in todo;
        RewriteOneMore(old(data), snapshots.Keys, todo, key, f);
        if key in data {
          var sorted := SortTierList(key, data[key]);
          assert sorted == f(key, old(data)[key]);
          data := data[key := sorted];
        }
        todo := todo - {key};
      }
    }
  }

  /** Works on a copy of the live client and leaves the live one alone. */
  method ConfirmedQueryState(client: QueryClient, pending: seq<Mutation>) returns (confirmed: Client)
    ensures confirmed == Confirmed(client.data, pending)
  {
    var copy := new QueryClient(client.data);
    var i := |pending|;
    while i > 0
      invariant 0 <= i <= |pending| && fresh(copy) && copy != client
      invariant copy.data == Unwind(client.data, pending[i..])
    {
      i := i - 1;
      assert pending[i..][1..] == pending[i + 1..];
      var m := pending[i];
      if m.root in ROOTS && m.id != "" {
        copy.RollbackItem(m.snapshots, m.id, m.patch, m.reordered);
        if m.patch.Some? && m.patch.value.pinned.Some? {
          copy.SortTierLists(m.snapshots);
        }
      }
    }
    confirmed := DropTemporary(copy.data);
  }

  // ----- Unwinding restores the confirmed lists -----

  ghost predicate AllDistinct(c: Client) {
    forall k :: k in c ==> Distinct(Flat(c[k]))
  }

  /**
   * What the hooks see to: restored and new items are unknown to the list, a new one is above all others, and an
   * archive toggle, which changes nothing else, shows a copy of the item if there is any.
   */
  ghost predicate IsMade(pages: Pages, op: Op) {
    match op
    case Undelete(item) => !Holds(Flat(pages), item.id)
    case CreateNote(item) => IsNew(Flat(pages), item)
    case Update(id, patch, found) =>
      patch.archived.Some? ==> patch.pinned.None? && if found.None? then !Holds(Flat(pages), id) else found.value.id == id
    case _ => true
  }

  /** Whether rolling the change back from right behind it is exact in this list. */
  ghost predicate CanUndo(key: Key, pages: Pages, op: Op) {
    match op
    case Undelete(item) => pages != [] || !Shows(key, item)
    case CreateNote(item) => if pages == [] then !Shows(key, item) else CanUndoCreate(key, pages, item)
    case Update(id, patch, found) =>
      if patch.archived.Some? then found.Some? ==> CanUndoArchive(key, pages, patch, found.value)
      else patch.pinned.Some? ==> CanUndoPin(key, pages, id, patch)
    case _ => true
  }

  ghost predicate AllMade(c: Client, root: string, op: Op) {
    root in ["notes", "secrets", "seals"] && OpId(op) != "" && forall k :: k in c && k.root == root ==> IsMade(c[k], op)
  }

  ghost predicate AllUndoable(c: Client, root: string, op: Op) {
    AllMade(c, root, op) && forall k :: k in c && k.root == root ==> CanUndo(k, c[k], op)
  }

  /** A history of optimistic changes, each undoable when it was made. */
  ghost predicate History(c: Client, ops: seq<(string, Op)>)
    decreases |ops|
  {
    ops == [] || (AllUndoable(c, ops[0].0, ops[0].1) && History(Perform(c, ops[0].0, ops[0].1), ops[1..]))
  }

  function PerformAll(c: Client, ops: seq<(string, Op)>): Client
    decreases |ops|
  {
    if ops == [] then c else PerformAll(Perform(c, ops[0].0, ops[0].1), ops[1..])
  }

  function MutationsOf(c: Client, ops: seq<(string, Op)>): seq<Mutation>
    decreases |ops|
  {
    if ops == [] then []
    else [MutationOf(c, ops[0].0, ops[0].1)] + MutationsOf(Perform(c, ops[0].0, ops[0].1), ops[1..])
  }

  lemma InsertKeepsDistinct(key: Key, pages: Pages, item: Item)
    requires Distinct(Flat(pages)) && !Holds(Flat(pages), item.id)
    ensures Distinct(Flat(InsertAtTop(key, pages, item)))
    ensures Shows(key, item) ==> Flat(InsertAtTop(key, pages, item)) == [item] + Flat(pages)
  {
  }

  /** No operation ever shows one id twice in a list. */
  lemma ApplyKeepsDistinct(key: Key, pages: Pages, op: Op)
    requires Distinct(Flat(pages)) && IsMade(pages, op)
    ensures Distinct(Flat(ApplyOp(key, pages, op)))
  {
    match op
    case Undelete(item) => InsertKeepsDistinct(key, pages, item);
    case CreateNote(item) =>
      InsertKeepsDistinct(key, pages, item);
      SortListKeepsDistinct(key, InsertAtTop(key, pages, item));
    case Delete(id) =>
      FlatOfFilter(pages, id);
      WithoutKeepsDistinct(Flat(pages), id);
    case Update(id, patch, found) =>
      if patch.archived.None? {
        FlatOfReplace(pages, id, item => Spread(item, patch));
        DistinctIds(Flat(pages), Flat(PatchInPlace(pages, id, patch)));
        SortListKeepsDistinct(key, PatchInPlace(pages, id, patch));
      } else if found.Some? {
        ToggledList(key, pages, id, Spread(found.value, patch));
      }
    case Move(id, position, newIndex) =>
      var all, at := Flat(pages), FindIndex(Flat(pages), id);
      if at >= 0 {
        ReorderedList(all, at, newIndex, all[at].(position := position));
        FlatOfReslice(Splice(all[..at] + all[at + 1..], newIndex, all[at].(position := position)), pages);
      }
  }

  lemma SortListKeepsDistinct(key: Key, pages: Pages)
    requires Distinct(Flat(pages))
    ensures Distinct(Flat(SortTierList(key, pages)))
  {
    SortKeepsDistinct(Flat(pages));
    FlatOfReslice(Sort(Flat(pages)), pages);
  }

  /** One list after its mutation is unwound. */
  function UnwindList(key: Key, before: Pages, current: Pages, op: Op): Pages {
    var rolled := RollbackItem(before, current, OpId(op), if op.Update? then Some(op.patch) else None, op.Move?);
    if op.Update? && op.patch.pinned.Some? then SortTierList(key, rolled) else rolled
  }

  lemma UndoOp(key: Key, pages: Pages, op: Op)
    requires Distinct(Flat(pages)) && IsMade(pages, op)
    ensures UnwindList(key, pages, ApplyOp(key, pages, op), op) == pages <==> CanUndo(key, pages, op)
  {
    match op
    case Undelete(item) => UndoInsert(key, pages, item);
    case CreateNote(item) =>
      if pages != [] {
        UndoCreate(key, pages, item);
      } else {
        UndoFirstCreate(key, item);
      }
    case Delete(id) => UndoFilter(pages, id);
    case Update(id, patch, found) =>
      if patch.archived.Some? {
        FilterAbsentIfNew(pages, id);
        if found.Some? {
          UndoArchive(key, pages, id, patch, found.value);
        }
      } else if patch.pinned.Some? {
        UndoPin(key, pages, id, patch);
      } else {
        UndoPatch(pages, id, patch);
      }
    case Move(id, position, newIndex) => UndoReorder(pages, id, position, newIndex);
  }

  lemma FilterAbsentIfNew(pages: Pages, id: Id)
    ensures !Holds(Flat(pages), id) ==> FilterOut(pages, id) == pages
  {
    if !Holds(Flat(pages), id) {
      FilterAbsent(pages, id);
    }
  }

  lemma UndoFirstCreate(key: Key, item: Item)
    ensures RollbackItem([], Create(key, [], item), item.id, None, false) == [] <==> !Shows(key, item)
  {
    if Shows(key, item) {
      FlatOfReslice(Sort(Flat([[item]])), [[item]]);
      assert InsertAtTop(key, [], item) == [[item]];
    }
  }

  /** Two rewritings of the same lists are one. */
  lemma RewriteTwice(c: Client, keys: set<Key>, f: (Key, Pages) -> Pages, g: (Key, Pages) -> Pages)
    ensures Rewrite(Rewrite(c, keys, f), keys, g) == Rewrite(c, keys, (key, pages) => g(key, f(key, pages)))
  {
  }

  lemma RewriteSame(c: Client, keys: set<Key>, f: (Key, Pages) -> Pages, g: (Key, Pages) -> Pages)
    requires forall k :: k in keys && k in c ==> f(k, c[k]) == g(k, c[k])
    ensures Rewrite(c, keys, f) == Rewrite(c, keys, g)
  {
  }

  function Unwinding(snapshots: Client, op: Op): (Key, Pages) -> Pages {
    (key, pages) => if key in snapshots then UnwindList(key, snapshots[key], pages, op) else pages
  }

  /** A mutation is unwound in each list of its tier, and in no other. */
  lemma UnwindOneIs(c: Client, root: string, op: Op, after: Client)
    requires root in ["notes", "secrets", "seals"] && OpId(op) != ""
    ensures UnwindOne(after, MutationOf(c, root, op)) == Rewrite(after, Under(c, root).Keys, Unwinding(Under(c, root), op))
  {
    var m := MutationOf(c, root, op);
    var keys, back := m.snapshots.Keys, RollingBack(m.snapshots, m.id, m.patch, m.reordered);
    if op.Update? && op.patch.pinned.Some? {
      RewriteTwice(after, keys, back, Sorting());
      RewriteSame(after, keys, (key, pages) => Sorting()(key, back(key, pages)), Unwinding(m.snapshots, op));
    } else {
      RewriteSame(after, keys, back, Unwinding(m.snapshots, op));
    }
  }

  lemma RewriteBackIff(c: Client, keys: set<Key>, f: (Key, Pages) -> Pages, g: (Key, Pages) -> Pages)
    ensures Rewrite(Rewrite(c, keys, f), keys, g) == c <==> forall k :: k in c && k in keys ==> g(k, f(k, c[k])) == c[k]
  {
    var after := Rewrite(Rewrite(c, keys, f), keys, g);
    assert forall k :: k in c && k in keys ==> after[k] == g(k, f(k, c[k]));
    if forall k :: k in c && k in keys ==> g(k, f(k, c[k])) == c[k] {
      assert after == c;
    }
  }

  lemma PerformKeepsDistinct(c: Client, root: string, op: Op)
    requires AllDistinct(c) && AllMade(c, root, op)
    ensures AllDistinct(Perform(c, root, op))
  {
    forall k | k in Under(c, root)
      ensures Distinct(Flat(ApplyOp(k, c[k], op)))
    {
      ApplyKeepsDistinct(k, c[k], op);
    }
  }

  /** One pending mutation, unwound from right behind it, gives back the whole client exactly when every list allows it. */
  lemma UnwindUndoesOne(c: Client, root: string, op: Op)
    requires AllDistinct(c) && AllMade(c, root, op)
    ensures UnwindOne(Perform(c, root, op), MutationOf(c, root, op)) == c <==> AllUndoable(c, root, op)
  {
    var keys, back := Under(c, root).Keys, Unwinding(Under(c, root), op);
    UnwindOneIs(c, root, op, Perform(c, root, op));
    RewriteBackIff(c, keys, Performing(op), back);
    forall k | k in c && k in keys
      ensures back(k, Performing(op)(k, c[k])) == c[k] <==> CanUndo(k, c[k], op)
    {
      assert IsMade(c[k], op);
      UndoOp(k, c[k], op);
    }
  }

  /**
   * Unwinding any history of still-pending changes, over all lists of all tiers at once, returns exactly the lists
   * the changes started from: the same items, in the same order, with the same page boundaries.
   */
  lemma {:induction false} UnwindRestores(c: Client, ops: seq<(string, Op)>)
    requires AllDistinct(c) && History(c, ops)
    ensures Unwind(PerformAll(c, ops), MutationsOf(c, ops)) == c
    decreases |ops|
  {
    if ops != [] {
      var (root, op) := ops[0];
      UnwindUndoesOne(c, root, op);
      PerformKeepsDistinct(c, root, op);
      UnwindRestores(Perform(c, root, op), ops[1..]);
      var ms := MutationsOf(c, ops);
      assert ms[1..] == MutationsOf(Perform(c, root, op), ops[1..]);
    }
  }

  lemma {:induction false} NothingTemporary(items: seq<Item>)
    requires forall i :: 0 <= i < |items| ==> !IsTemporary(items[i].id)
    ensures WithoutTemporary(items) == items
  {
    if items != [] {
      NothingTemporary(items[1..]);
    }
  }

  /** What is persisted is therefore the confirmed state, whatever is still in flight. */
  lemma ConfirmedIsBase(c: Client, ops: seq<(string, Op)>)
    requires AllDistinct(c) && History(c, ops)
    requires forall k, i, j :: k in c && 0 <= i < |c[k]| && 0 <= j < |c[k][i]| ==> !IsTemporary(c[k][i][j].id)
    ensures Confirmed(PerformAll(c, ops), MutationsOf(c, ops)) == c
  {
    UnwindRestores(c, ops);
    forall k | k in c
      ensures DropTemporary(c)[k] == c[k]
    {
      forall i | 0 <= i < |c[k]|
        ensures WithoutTemporary(c[k][i]) == c[k][i]
      {
        NothingTemporary(c[k][i]);
      }
    }
  }
}
