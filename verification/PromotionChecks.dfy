/** When a promotion is accepted, said of the tables and the request alone. */
module PromotionChecks {
  import opened Promotion
  import opened PromotionController
  import opened PromotionLaws
  import opened Sets
  import opened Wrappers

  // ----- The history of an item -----

  /** The places of an item's versions in the table, from `k` on, in order. */
  ghost predicate ArePlaces(versions: seq<Version>, owner: Key, k: nat, at: seq<nat>) {
    && (forall i, j :: 0 <= i < j < |at| ==> at[i] < at[j])
    && (forall i :: 0 <= i < |at| ==> k <= at[i] < |versions| && versions[at[i]].owner == owner)
    && (forall x {:trigger x in at} :: k <= x < |versions| && versions[x].owner == owner ==> x in at)
  }

  lemma OnePlaceMore(versions: seq<Version>, owner: Key, k: nat, rest: seq<nat>)
    requires k < |versions| && versions[k].owner == owner && ArePlaces(versions, owner, k + 1, rest)
    ensures ArePlaces(versions, owner, k, [k] + rest)
  {
    var at := [k] + rest;
    assert forall i :: 1 <= i < |at| ==> at[i] == rest[i - 1];
    forall x | k <= x < |versions| && versions[x].owner == owner
      ensures x in at
    {
      if x == k {
        assert at[0] == x;
      } else {
        assert x in rest;
      }
    }
  }

  lemma {:induction false} PlacesFrom(versions: seq<Version>, owner: Key, k: nat) returns (at: seq<nat>)
    requires k <= |versions|
    ensures ArePlaces(versions, owner, k, at) && |at| == |History(versions[k..], owner)|
    ensures forall i :: 0 <= i < |at| ==> History(versions[k..], owner)[i] == versions[at[i]]
    decreases |versions| - k
  {
    if k == |versions| {
      at := [];
    } else {
      var rest := PlacesFrom(versions, owner, k + 1);
      var history := History(versions[k + 1..], owner);
      assert versions[k..][1..] == versions[k + 1..];
      if versions[k].owner == owner {
        at := [k] + rest;
        OnePlaceMore(versions, owner, k, rest);
        assert History(versions[k..], owner) == [versions[k]] + history;
        assert forall i :: 1 <= i < |at| ==> ([versions[k]] + history)[i] == history[i - 1] && at[i] == rest[i - 1];
      } else {
        at := rest;
        assert History(versions[k..], owner) == [] + history == history;
      }
    }
  }

  /** A history lists exactly the versions of its item, in the order of the table. */
  lemma HistoryIsInPlace(versions: seq<Version>, owner: Key) returns (at: seq<nat>)
    ensures ArePlaces(versions, owner, 0, at) && |at| == |History(versions, owner)|
    ensures forall i :: 0 <= i < |at| ==> History(versions, owner)[i] == versions[at[i]]
  {
    at := PlacesFrom(versions, owner, 0);
    assert versions[0..] == versions;
  }

  // ----- The conditions -----

  ghost predicate AccountOpen(t: Tables, user: UserId, generation: Option<nat>) {
    var state := if user in t.states then t.states[user] else State(0, false);
    !state.rotating && state.generation == if generation.Some? then generation.value else 0
  }

  /** Live, not armed to burn, unchanged since the client read it, and with its key free in the destination. */
  ghost predicate ItemReady(from: Shelf, to: Shelf, owner: Key, expected: Option<int>) {
    && owner in from.items && owner !in to.items
    && var item := from.items[owner];
       !item.deleted && !(item.burn && item.expiresAt.Some?) && expected == Some(item.updatedAt)
  }

  /** The stored history and the supplied list name the same versions in the same order. */
  ghost predicate SameVersions(history: seq<Version>, supplied: seq<Supplied>) {
    |history| == |supplied| && forall i :: 0 <= i < |history| ==> history[i].id == supplied[i].id
  }

  /** A live file of the item that may not simply follow it. */
  ghost predicate MustBeReplaced(files: map<Key, File>, user: UserId, id: Id, tier: Tier, x: Id) {
    && (user, x) in files
    && var f := files[(user, x)];
       f.item == Some(id) && f.tier == Some(tier) && !f.deleted && !(tier == Note && f.encrypted)
  }

  /** An encrypted upload, linked to nothing, under the key of the destination. */
  ghost predicate CanReplace(files: map<Key, File>, user: UserId, id: Id, tier: Tier, x: Id) {
    && (user, x) in files
    && var f := files[(user, x)];
       && f.item.None? && f.tier.None? && !f.deleted && f.encrypted
       && (tier == Note ==> f.scope == VaultKey) && (tier == Secret ==> f.scope == SealKey && f.keyItem == Some(id))
  }

  /** One upload for each file, no upload twice, no file twice, nothing else. */
  ghost predicate FilesMatch(files: map<Key, File>, user: UserId, input: Input, tier: Tier) {
    var rs := input.files;
    && (forall i, j :: 0 <= i < j < |rs| ==> rs[i].source != rs[j].source && rs[i].encrypted != rs[j].encrypted)
    && (forall i :: 0 <= i < |rs| ==>
          MustBeReplaced(files, user, input.id, tier, rs[i].source) && CanReplace(files, user, input.id, tier, rs[i].encrypted))
    && (forall x :: MustBeReplaced(files, user, input.id, tier, x) ==> exists i :: 0 <= i < |rs| && rs[i].source == x)
    && (tier == Secret && rs != [] ==> input.wrappedKey.Some?)
  }

  /** No version id and no (item, tag) pair is taken in the destination. */
  ghost predicate KeysFree(from: Shelf, to: Shelf, owner: Key) {
    && (forall v, w :: v in from.versions && v.owner == owner && w in to.versions ==> v.id != w.id)
    && (forall a, b :: a in from.links && a.owner == owner && b in to.links && b.owner.1 == owner.1 ==> a.tag != b.tag)
  }

  // ----- They are what the checks check -----

  lemma GateIff(t: Tables, user: UserId, generation: Option<nat>)
    ensures Gate(t, user, generation).None? <==> AccountOpen(t, user, generation)
  {
  }

  lemma VersionsIff(versions: seq<Version>, owner: Key, supplied: seq<Supplied>)
    requires Distinct(IdsOf(versions))
    ensures AcceptsVersions(IdsOf(History(versions, owner)), supplied) <==> SameVersions(History(versions, owner), supplied)
  {
    HistoryDistinct(versions, owner);
    var history := History(versions, owner);
    AcceptedIffSameHistory(IdsOf(history), supplied);
    if SameVersions(history, supplied) {
      assert VersionIds(supplied) == IdsOf(history);
    }
  }

  lemma SourcesIff(files: map<Key, File>, user: UserId, id: Id, tier: Tier, x: Id)
    requires tier != Seal
    ensures x in ToReplace(files, user, id, tier) <==> MustBeReplaced(files, user, id, tier, x)
  {
    assert (user, x).0 == user && (user, x).1 == x;
  }

  lemma BijectionIff(files: map<Key, File>, user: UserId, input: Input, tier: Tier)
    requires tier != Seal
    ensures Bijection(ToReplace(files, user, input.id, tier), input.files)
       <==> var rs := input.files;
            && (forall i, j :: 0 <= i < j < |rs| ==> rs[i].source != rs[j].source && rs[i].encrypted != rs[j].encrypted)
            && (forall i :: 0 <= i < |rs| ==> MustBeReplaced(files, user, input.id, tier, rs[i].source))
            && (forall x :: MustBeReplaced(files, user, input.id, tier, x) ==> exists i :: 0 <= i < |rs| && rs[i].source == x)
  {
    var rs, sources := input.files, ToReplace(files, user, input.id, tier);
    forall x
      ensures x in sources <==> MustBeReplaced(files, user, input.id, tier, x)
    {
      SourcesIff(files, user, input.id, tier, x);
    }
    forall x
      ensures x in Elements(Sources(rs)) <==> exists i :: 0 <= i < |rs| && rs[i].source == x
    {
      if i :| 0 <= i < |rs| && rs[i].source == x {
        assert Sources(rs)[i] == x;
      }
    }
    assert forall i :: 0 <= i < |rs| ==> Sources(rs)[i] == rs[i].source && Encrypted(rs)[i] == rs[i].encrypted;
  }

  lemma UploadsIff(files: map<Key, File>, user: UserId, input: Input, tier: Tier)
    requires tier != Seal && Distinct(Encrypted(input.files))
    ensures |Suited(files, user, Encrypted(input.files), input.id, tier)| == |Encrypted(input.files)|
       <==> forall i :: 0 <= i < |input.files| ==> CanReplace(files, user, input.id, tier, input.files[i].encrypted)
  {
    var ids := Encrypted(input.files);
    AllSuited(files, user, ids, input.id, tier);
    forall x
      ensures (user, x) in files && Suitable(files[(user, x)], input.id, tier) <==> CanReplace(files, user, input.id, tier, x)
    {
    }
    assert forall i :: 0 <= i < |ids| ==> ids[i] == input.files[i].encrypted;
  }

  lemma KeysIff(from: Shelf, to: Shelf, owner: Key)
    ensures !(Taken(to.versions, IdsOf(History(from.versions, owner))) || Clash(from.links, to.links, owner))
       <==> KeysFree(from, to, owner)
  {
    var history := History(from.versions, owner);
    var at := HistoryIsInPlace(from.versions, owner);
    forall v | v in from.versions && v.owner == owner
      ensures v.id in IdsOf(history)
    {
      var k :| 0 <= k < |from.versions| && from.versions[k] == v;
      assert k in at;
      var i :| 0 <= i < |at| && at[i] == k;
      assert IdsOf(history)[i] == v.id;
    }
    forall x | x in IdsOf(history)
      ensures exists v :: v in from.versions && v.owner == owner && v.id == x
    {
      var i :| 0 <= i < |history| && IdsOf(history)[i] == x;
      assert history[i] in from.versions;
    }
  }

  lemma FilesIff(files: map<Key, File>, user: UserId, input: Input, tier: Tier)
    requires tier != Seal
    ensures && AcceptsReplacements(ToReplace(files, user, input.id, tier), input.files)
            && !(Encrypted(input.files) != [] && tier == Secret && input.wrappedKey == None)
            && !(Encrypted(input.files) != []
                 && |Suited(files, user, Encrypted(input.files), input.id, tier)| != |Encrypted(input.files)|)
       <==> FilesMatch(files, user, input, tier)
  {
    AcceptedIffBijection(ToReplace(files, user, input.id, tier), input.files);
    BijectionIff(files, user, input, tier);
    if Distinct(Encrypted(input.files)) {
      UploadsIff(files, user, input, tier);
    }
  }

  /**
   * A promotion goes through exactly when the account is open to the request, the item is ready, the versions and the
   * files match, and no key is taken.
   */
  lemma PromotedIff(t: Tables, tier: Tier, user: UserId, input: Input, generation: Option<nat>, after: Tables, outcome: Outcome)
    requires Consistent(t) && tier != Seal && PromotionResult(t, tier, user, input, generation, after, outcome)
    ensures var (from, to, owner) := (Get(t, tier), Get(t, Next(tier)), (user, input.id));
      var versionsMatch := SameVersions(History(from.versions, owner), input.versions);
      var filesMatch := FilesMatch(t.files, user, input, tier);
      outcome.Promoted? <==>
        AccountOpen(t, user, generation) && ItemReady(from, to, owner, input.expected) && versionsMatch && filesMatch
        && KeysFree(from, to, owner)
    ensures outcome.Failed? ==> after == t
  {
    var from, to, owner := Get(t, tier), Get(t, Next(tier)), (user, input.id);
    GateIff(t, user, generation);
    VersionsIff(from.versions, owner, input.versions);
    FilesIff(t.files, user, input, tier);
    KeysIff(from, to, owner);
  }

  /** A refusal names the first condition that fails. */
  lemma RefusedIff(t: Tables, tier: Tier, user: UserId, input: Input, generation: Option<nat>, after: Tables, outcome: Outcome)
    requires Consistent(t) && tier != Seal && PromotionResult(t, tier, user, input, generation, after, outcome)
    requires AccountOpen(t, user, generation)
    ensures var (from, to, owner) := (Get(t, tier), Get(t, Next(tier)), (user, input.id));
      var found := owner in from.items && !from.items[owner].deleted;
      var armed := found && from.items[owner].burn && from.items[owner].expiresAt.Some?;
      var versionsMatch := SameVersions(History(from.versions, owner), input.versions);
      var filesMatch := FilesMatch(t.files, user, input, tier);
      && (outcome == Failed(NotFound) <==> !found)
      && (outcome == Failed(BurnArmed) <==> armed)
      && (outcome == Failed(Conflict) <==> found && !armed && !(ItemReady(from, to, owner, input.expected) && versionsMatch))
      && (outcome == Failed(InvalidFiles) <==> ItemReady(from, to, owner, input.expected) && versionsMatch && !filesMatch)
      && (outcome == Failed(Duplicate) <==>
            ItemReady(from, to, owner, input.expected) && versionsMatch && filesMatch && !KeysFree(from, to, owner))
  {
    var from, to, owner := Get(t, tier), Get(t, Next(tier)), (user, input.id);
    GateIff(t, user, generation);
    VersionsIff(from.versions, owner, input.versions);
    FilesIff(t.files, user, input, tier);
    KeysIff(from, to, owner);
  }
}
