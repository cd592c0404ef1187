/** A promotion is a lossless move: what is where before, is where after. */
module PromotionLaws {
  import opened Promotion
  import opened Sets
  import opened Wrappers

  ghost predicate ShelfHolds(shelf: Shelf) {
    && (forall v :: v in shelf.versions ==> v.owner in shelf.items)
    && (forall a :: a in shelf.links ==> a.owner in shelf.items)
    && Distinct(IdsOf(shelf.versions))
    && (forall a, b :: a in shelf.links && b in shelf.links && a.owner.1 == b.owner.1 && a.tag == b.tag ==> a == b)
  }

  /** A file under a Seal's own key is linked to that Seal or to nothing. */
  ghost predicate SealKeysStayHome(files: map<Key, File>) {
    forall k :: k in files && files[k].item.Some? && files[k].scope == SealKey
      ==> files[k].tier == Some(Seal) && files[k].item == files[k].keyItem
  }

  ghost predicate Consistent(t: Tables) {
    ShelfHolds(t.note) && ShelfHolds(t.secret) && ShelfHolds(t.seal) && SealKeysStayHome(t.files)
  }

  ghost predicate Accepted(t: Tables, tier: Tier, user: UserId, input: Input, generation: Option<nat>, position: real) {
    && Consistent(t) && tier != Seal && Refusal(t, tier, user, input, generation) == None
    && IsRaised(Get(t, Next(tier)).items, user, position)
  }

  // ----- Histories -----

  lemma {:induction false} HistoryOfConcat(a: seq<Version>, b: seq<Version>, owner: Key)
    ensures History(a + b, owner) == History(a, owner) + History(b, owner)
  {
    if a == [] {
      assert a + b == b;
    } else {
      assert (a + b)[1..] == a[1..] + b;
      HistoryOfConcat(a[1..], b, owner);
    }
  }

  lemma {:induction false} HistoryOfOwn(h: seq<Version>, owner: Key, other: Key)
    requires forall i :: 0 <= i < |h| ==> h[i].owner == owner
    ensures History(h, other) == if other == owner then h else []
  {
    if h != [] {
      HistoryOfOwn(h[1..], owner, other);
      assert h == [h[0]] + h[1..];
    }
  }

  lemma {:induction false} HistoryOfWithout(versions: seq<Version>, owner: Key, other: Key)
    ensures History(WithoutHistory(versions, owner), other) == if other == owner then [] else History(versions, other)
  {
    if versions != [] {
      HistoryOfWithout(versions[1..], owner, other);
      var head := if versions[0].owner == owner then [] else [versions[0]];
      HistoryOfConcat(head, WithoutHistory(versions[1..], owner), other);
    }
  }

  lemma {:induction false} NoHistory(versions: seq<Version>, owner: Key)
    requires forall v :: v in versions ==> v.owner != owner
    ensures History(versions, owner) == []
  {
    if versions != [] {
      NoHistory(versions[1..], owner);
    }
  }

  lemma {:induction false} LastBodyById(vs: seq<Supplied>, i: nat)
    requires Distinct(VersionIds(vs)) && i < |vs|
    ensures vs[i].id in ById(vs) && ById(vs)[vs[i].id] == vs[i].body
  {
    var init := vs[..|vs| - 1];
    if i < |vs| - 1 {
      assert VersionIds(vs)[i] != VersionIds(vs)[|vs| - 1];
      assert forall j :: 0 <= j < |init| ==> VersionIds(init)[j] == VersionIds(vs)[j];
      LastBodyById(init, i);
    }
  }

  /** Each stored version pairs with the supplied one of the same id and takes its body. */
  lemma SentHistory(history: seq<Version>, supplied: seq<Supplied>)
    requires AcceptsVersions(IdsOf(history), supplied)
    ensures var sent := Reencrypted(history, ById(supplied));
      && |sent| == |supplied|
      && forall i :: 0 <= i < |sent| ==> history[i].id == supplied[i].id && sent[i] == history[i].(body := supplied[i].body)
  {
    SizeOfElements(VersionIds(supplied));
    forall i | 0 <= i < |history|
      ensures history[i].id == supplied[i].id && supplied[i].id in ById(supplied)
        && ById(supplied)[supplied[i].id] == supplied[i].body
    {
      assert IdsOf(history)[i] == VersionIds(supplied)[i];
      LastBodyById(supplied, i);
    }
  }

  lemma MovedHistory(from: Shelf, to: Shelf, owner: Key, sent: seq<Version>)
    requires ShelfHolds(to) && owner !in to.items
    requires forall i :: 0 <= i < |sent| ==> sent[i].owner == owner
    ensures History(to.versions + sent, owner) == sent && History(WithoutHistory(from.versions, owner), owner) == []
  {
    HistoryOfConcat(to.versions, sent, owner);
    NoHistory(to.versions, owner);
    HistoryOfOwn(sent, owner, owner);
    HistoryOfWithout(from.versions, owner, owner);
  }

  /** The destination holds the same history, version for version, under the bodies the client supplied. */
  lemma HistoryMoves(t: Tables, tier: Tier, user: UserId, input: Input, generation: Option<nat>, position: real)
    requires Accepted(t, tier, user, input, generation, position)
    ensures var (m, owner) := (Promote(t, tier, user, input, position), (user, input.id));
      var (before, after) := (History(Get(t, tier).versions, owner), History(Get(m, Next(tier)).versions, owner));
      && |after| == |before| == |input.versions|
      && (forall i :: 0 <= i < |after| ==>
            after[i] == before[i].(body := input.versions[i].body) && before[i].id == input.versions[i].id)
      && History(Get(m, tier).versions, owner) == []
  {
    var owner := (user, input.id);
    var from, to := Get(t, tier), Get(t, Next(tier));
    var before := History(from.versions, owner);
    var sent := Reencrypted(before, ById(input.versions));
    SentHistory(before, input.versions);
    MovedHistory(from, to, owner, sent);
    var m := Promote(t, tier, user, input, position);
    assert Get(m, Next(tier)).versions == to.versions + sent;
    assert Get(m, tier).versions == WithoutHistory(from.versions, owner);
  }

  /** The item stands in the destination only, with its metadata, above every other live item of its owner. */
  lemma ItemMoves(t: Tables, tier: Tier, user: UserId, input: Input, generation: Option<nat>, position: real)
    requires Accepted(t, tier, user, input, generation, position)
    ensures var (m, owner) := (Promote(t, tier, user, input, position), (user, input.id));
      var (before, after) := (Get(t, tier).items, Get(m, Next(tier)).items);
      && owner in before && owner !in Get(t, Next(tier)).items && owner in after && owner !in Get(m, tier).items
      && after[owner] == before[owner].(body := input.body, position := position,
                                        wrappedKey := if tier == Secret then input.wrappedKey else None)
      && (forall k :: k in after && k != owner && k.0 == user && !after[k].deleted ==> after[k].position <= position - 1000.0)
      && (position == 1000.0 || exists k :: k in after && k.0 == user && !after[k].deleted && after[k].position == position - 1000.0)
  {
  }

  /** Its tags come along, each in its place. */
  lemma LinksMove(t: Tables, tier: Tier, user: UserId, input: Input, generation: Option<nat>, position: real)
    requires Accepted(t, tier, user, input, generation, position)
    ensures var (m, owner) := (Promote(t, tier, user, input, position), (user, input.id));
      && (forall a: Link :: a.owner == owner ==> (a in Get(m, Next(tier)).links <==> a in Get(t, tier).links))
      && (forall a: Link :: a.owner == owner ==> a !in Get(m, tier).links)
  {
  }

  /** Nothing of any other item changes, in any tier. */
  lemma OtherItemsStay(t: Tables, tier: Tier, user: UserId, input: Input, generation: Option<nat>, position: real,
                       any: Tier, k: Key)
    requires Accepted(t, tier, user, input, generation, position) && k != (user, input.id)
    ensures var (before, after) := (Get(t, any), Get(Promote(t, tier, user, input, position), any));
      && (k in after.items <==> k in before.items)
      && (k in before.items ==> after.items[k] == before.items[k])
      && History(after.versions, k) == History(before.versions, k)
      && (forall a: Link :: a.owner == k ==> (a in after.links <==> a in before.links))
  {
    var owner := (user, input.id);
    var from, to := Get(t, tier), Get(t, Next(tier));
    var sent := Reencrypted(History(from.versions, owner), ById(input.versions));
    HistoryOfConcat(to.versions, sent, k);
    HistoryOfOwn(sent, owner, k);
    HistoryOfWithout(from.versions, owner, k);
  }

  lemma {:induction false} HistoryDistinct(versions: seq<Version>, owner: Key)
    requires Distinct(IdsOf(versions))
    ensures Distinct(IdsOf(History(versions, owner))) && Distinct(IdsOf(WithoutHistory(versions, owner)))
    ensures forall v :: v in versions <==> v in History(versions, owner) || v in WithoutHistory(versions, owner)
    ensures forall v :: v in WithoutHistory(versions, owner) ==> v.owner != owner
  {
    if versions != [] {
      var head, tail := versions[0], versions[1..];
      assert forall i :: 0 <= i < |tail| ==> IdsOf(tail)[i] == IdsOf(versions)[i + 1];
      HistoryDistinct(tail, owner);
      assert versions == [head] + tail;
      forall v | v in tail
        ensures v.id != head.id
      {
        var i :| 0 <= i < |tail| && tail[i] == v;
        assert IdsOf(versions)[0] != IdsOf(versions)[i + 1];
      }
      DistinctPrepend(head, History(tail, owner));
      DistinctPrepend(head, WithoutHistory(tail, owner));
    }
  }

  lemma DistinctPrepend(head: Version, tail: seq<Version>)
    requires Distinct(IdsOf(tail)) && forall v :: v in tail ==> v.id != head.id
    ensures Distinct(IdsOf([head] + tail))
  {
  }

  lemma DeleteHolds(shelf: Shelf, owner: Key)
    requires ShelfHolds(shelf)
    ensures ShelfHolds(Delete(shelf, owner))
  {
    HistoryDistinct(shelf.versions, owner);
  }

  lemma GivenHolds(shelf: Shelf, owner: Key, item: Item, history: seq<Version>, links: set<Link>)
    requires ShelfHolds(shelf) && Distinct(IdsOf(history)) && owner !in shelf.items
    requires forall i :: 0 <= i < |history| ==> history[i].owner == owner
    requires forall v :: v in shelf.versions ==> v.id !in IdsOf(history)
    requires forall a :: a in links ==> a.owner == owner
    requires forall a, b :: a in links && b in links && a.tag == b.tag ==> a == b
    requires forall a, b :: a in links && b in shelf.links && a.owner.1 == b.owner.1 ==> a.tag != b.tag
    ensures ShelfHolds(Given(shelf, owner, item, history, links))
  {
  }

  lemma AcceptedShelves(t: Tables, tier: Tier, user: UserId, input: Input, generation: Option<nat>, position: real)
    requires Accepted(t, tier, user, input, generation, position)
    ensures var (from, to, owner) := (Get(t, tier), Get(t, Next(tier)), (user, input.id));
      && ShelfHolds(from) && ShelfHolds(to) && owner in from.items && owner !in to.items
      && (forall v :: v in to.versions ==> v.id !in IdsOf(History(from.versions, owner)))
      && (forall a, b :: a in from.links && a.owner == owner && b in to.links && b.owner.1 == owner.1 ==> a.tag != b.tag)
  {
  }

  lemma SentIds(versions: seq<Version>, owner: Key, bodies: map<Id, Option<string>>)
    requires Distinct(IdsOf(versions))
    ensures Distinct(IdsOf(Reencrypted(History(versions, owner), bodies)))
    ensures IdsOf(Reencrypted(History(versions, owner), bodies)) == IdsOf(History(versions, owner))
  {
    HistoryDistinct(versions, owner);
  }

  /** Keys and references hold after every accepted promotion, so promotions can follow one another. */
  lemma PromotionKeepsConsistent(t: Tables, tier: Tier, user: UserId, input: Input, generation: Option<nat>, position: real)
    requires Accepted(t, tier, user, input, generation, position)
    ensures Consistent(Promote(t, tier, user, input, position))
  {
    AcceptedShelves(t, tier, user, input, generation, position);
    var owner := (user, input.id);
    var from, to := Get(t, tier), Get(t, Next(tier));
    var sent := Reencrypted(History(from.versions, owner), ById(input.versions));
    SentIds(from.versions, owner, ById(input.versions));
    DeleteHolds(from, owner);
    GivenHolds(to, owner, Raised(from.items[owner], input, tier, position), sent, set a | a in from.links && a.owner == owner);
    SealKeysStay(t, tier, user, input, generation, position);
  }

  lemma HistoryIdsMove(t: Tables, tier: Tier, user: UserId, input: Input, generation: Option<nat>, position: real)
    requires Accepted(t, tier, user, input, generation, position)
    ensures IdsOf(History(Get(Promote(t, tier, user, input, position), Next(tier)).versions, (user, input.id)))
         == IdsOf(History(Get(t, tier).versions, (user, input.id)))
  {
    HistoryMoves(t, tier, user, input, generation, position);
  }

  /** Both promotions in a row carry an item from Note to Seal with its whole history and its tags. */
  lemma NoteBecomesSeal(t: Tables, user: UserId, first: Input, second: Input, g1: Option<nat>, g2: Option<nat>, p1: real, p2: real)
    requires Accepted(t, Note, user, first, g1, p1) && second.id == first.id
    requires Accepted(Promote(t, Note, user, first, p1), Secret, user, second, g2, p2)
    ensures var (m, owner) := (Promote(Promote(t, Note, user, first, p1), Secret, user, second, p2), (user, first.id));
      && owner in m.seal.items && owner !in m.secret.items && owner !in m.note.items
      && m.seal.items[owner].title == t.note.items[owner].title && m.seal.items[owner].meta == t.note.items[owner].meta
      && IdsOf(History(m.seal.versions, owner)) == IdsOf(History(t.note.versions, owner))
      && forall a: Link :: a.owner == owner ==> (a in m.seal.links <==> a in t.note.links)
  {
    var mid := Promote(t, Note, user, first, p1);
    ItemMoves(t, Note, user, first, g1, p1);
    HistoryIdsMove(t, Note, user, first, g1, p1);
    LinksMove(t, Note, user, first, g1, p1);
    ItemMoves(mid, Secret, user, second, g2, p2);
    HistoryIdsMove(mid, Secret, user, second, g2, p2);
    LinksMove(mid, Secret, user, second, g2, p2);
  }

  // ----- Files -----

  /** Counting the suitable uploads is enough: as many as were named means every one of them. */
  lemma AllSuited(files: map<Key, File>, user: UserId, ids: seq<Id>, id: Id, tier: Tier)
    requires Distinct(ids)
    ensures |Suited(files, user, ids, id, tier)| == |ids|
      <==> forall x :: x in ids ==> (user, x) in files && Suitable(files[(user, x)], id, tier)
  {
    SizeOfElements(ids);
    var suited := Suited(files, user, ids, id, tier);
    assert suited <= Elements(ids);
    if |suited| == |ids| {
      FullSubset(suited, Elements(ids));
      forall x | x in ids
        ensures (user, x) in files && Suitable(files[(user, x)], id, tier)
      {
        assert x in Elements(ids);
      }
    } else {
      assert suited != Elements(ids);
      var x :| x in Elements(ids) && x !in suited;
    }
  }

  /** What the checks establish about the files, in one place. */
  lemma AcceptedFiles(t: Tables, tier: Tier, user: UserId, input: Input, generation: Option<nat>)
    requires tier != Seal && Refusal(t, tier, user, input, generation) == None
    ensures Bijection(ToReplace(t.files, user, input.id, tier), input.files)
    ensures forall x :: x in Encrypted(input.files) ==>
      (user, x) in t.files && Suitable(t.files[(user, x)], input.id, tier)
    ensures tier == Secret && input.files != [] ==> input.wrappedKey.Some?
  {
    AcceptedIffBijection(ToReplace(t.files, user, input.id, tier), input.files);
    AllSuited(t.files, user, Encrypted(input.files), input.id, tier);
  }

  /** Exactly one upload replaces `source`. */
  ghost predicate ReplacedOnce(rs: seq<Replacement>, source: Id, upload: Id) {
    && Replacement(source, upload) in rs
    && forall r :: r in rs && (r.source == source || r.encrypted == upload) ==> r == Replacement(source, upload)
  }

  lemma OnlyReplacement(rs: seq<Replacement>, source: Id) returns (upload: Id)
    requires Distinct(Sources(rs)) && Distinct(Encrypted(rs)) && source in Sources(rs)
    ensures ReplacedOnce(rs, source, upload)
  {
    var i :| 0 <= i < |rs| && Sources(rs)[i] == source;
    upload := rs[i].encrypted;
    forall r | r in rs && (r.source == source || r.encrypted == upload)
      ensures r == rs[i]
    {
      var j :| 0 <= j < |rs| && rs[j] == r;
      assert Sources(rs)[j] == r.source && Encrypted(rs)[j] == r.encrypted && Encrypted(rs)[i] == upload;
    }
  }

  /**
   * Each live file of the item is either kept, because a Note had it encrypted already, or retired in favour of
   * exactly one encrypted upload, now linked to the item in its new tier under the key that tier decrypts with.
   */
  lemma FilesMove(t: Tables, tier: Tier, user: UserId, input: Input, generation: Option<nat>, position: real, x: Id)
    requires Accepted(t, tier, user, input, generation, position)
    requires (user, x) in t.files && IsSource(t.files[(user, x)], input.id, tier)
    ensures var (before, after) := (t.files, Promote(t, tier, user, input, position).files);
      var (k, f) := ((user, x), t.files[(user, x)]);
      if tier == Note && f.encrypted then after[k] == f.(tier := Some(Secret))
      else
        && after[k] == f.(deleted := true)
        && exists upload :: ReplacedOnce(input.files, x, upload) && (user, upload) in before
             && Suitable(before[(user, upload)], input.id, tier)
             && after[(user, upload)] == before[(user, upload)].(item := Some(input.id), tier := Some(Next(tier)))
  {
    AcceptedFiles(t, tier, user, input, generation);
    var f := t.files[(user, x)];
    assert x !in Encrypted(input.files);
    if !(tier == Note && f.encrypted) {
      assert x in ToReplace(t.files, user, input.id, tier);
      var upload := OnlyReplacement(input.files, x);
      assert upload in Encrypted(input.files) by {
        var i :| 0 <= i < |input.files| && input.files[i] == Replacement(x, upload);
        assert Encrypted(input.files)[i] == upload;
      }
    }
  }

  /** Conversely a file newly linked to the item replaces one of its own, and every other file is as it was. */
  lemma OtherFilesStay(t: Tables, tier: Tier, user: UserId, input: Input, generation: Option<nat>, position: real, k: Key)
    requires Accepted(t, tier, user, input, generation, position) && k in t.files
    requires !(k.0 == user && IsSource(t.files[k], input.id, tier))
    ensures var after := Promote(t, tier, user, input, position).files;
      && after.Keys == t.files.Keys
      && (after[k] != t.files[k] ==>
            k.0 == user && exists source :: source in ToReplace(t.files, user, input.id, tier) && ReplacedOnce(input.files, source, k.1))
  {
    AcceptedFiles(t, tier, user, input, generation);
    if k.0 == user && k.1 in Encrypted(input.files) {
      var i :| 0 <= i < |input.files| && Encrypted(input.files)[i] == k.1;
      var source := input.files[i].source;
      assert Sources(input.files)[i] == source;
      assert source in Elements(Sources(input.files));
      var upload := OnlyReplacement(input.files, source);
      assert input.files[i] == Replacement(source, upload);
    }
  }

  /** No plaintext file is linked to the item in its new tier by a promotion. */
  lemma NewFilesAreEncrypted(t: Tables, tier: Tier, user: UserId, input: Input, generation: Option<nat>, position: real, k: Key)
    requires Accepted(t, tier, user, input, generation, position) && k in t.files
    requires k.0 == user && IsSource(Promote(t, tier, user, input, position).files[k], input.id, Next(tier))
    ensures t.files[k].encrypted || IsSource(t.files[k], input.id, Next(tier))
  {
    AcceptedFiles(t, tier, user, input, generation);
  }

  /** A Seal's own key never reaches a file of another item. */
  lemma SealKeysStay(t: Tables, tier: Tier, user: UserId, input: Input, generation: Option<nat>, position: real)
    requires Accepted(t, tier, user, input, generation, position)
    ensures SealKeysStayHome(Promote(t, tier, user, input, position).files)
  {
    AcceptedFiles(t, tier, user, input, generation);
    var after := Promote(t, tier, user, input, position).files;
    forall k | k in after && after[k].item.Some? && after[k].scope == SealKey
      ensures after[k].tier == Some(Seal) && after[k].item == after[k].keyItem
    {
      assert after[k] == Relabel(t.files[k], k, user, input, tier);
    }
  }
}
