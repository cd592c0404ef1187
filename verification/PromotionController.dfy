/** The two promotions as their transactions run them: checks, then one statement after another. */
module PromotionController {
  import opened Promotion
  import opened PromotionLaws
  import opened Sets
  import opened Wrappers

  // ----- The file updates -----

  function LinkUploads(files: map<Key, File>, user: UserId, ids: set<Id>, item: Id, tier: Tier): map<Key, File> {
    map k | k in files :: if k.0 == user && k.1 in ids then files[k].(item := Some(item), tier := Some(tier)) else files[k]
  }

  function Retier(files: map<Key, File>, user: UserId, ids: set<Id>, tier: Tier): map<Key, File> {
    map k | k in files :: if k.0 == user && k.1 in ids then files[k].(tier := Some(tier)) else files[k]
  }

  function Retire(files: map<Key, File>, user: UserId, ids: set<Id>): map<Key, File> {
    map k | k in files :: if k.0 == user && k.1 in ids then files[k].(deleted := true) else files[k]
  }

  /** An upload is linked to nothing, a source to the item: the updates touch different rows. */
  lemma NoteUpdatesMakeRelabel(t: Tables, user: UserId, input: Input, generation: Option<nat>)
    requires Refusal(t, Note, user, input, generation) == None
    ensures var replaced := ToReplace(t.files, user, input.id, Note);
      var kept := SourceFiles(t.files, user, input.id, Note) - replaced;
      var linked := LinkUploads(t.files, user, Elements(Encrypted(input.files)), input.id, Secret);
      Retire(Retier(linked, user, kept, Secret), user, replaced) == Relabelled(t.files, user, input, Note)
  {
    AcceptedFiles(t, Note, user, input, generation);
  }

  lemma SecretUpdatesMakeRelabel(t: Tables, user: UserId, input: Input, generation: Option<nat>)
    requires Refusal(t, Secret, user, input, generation) == None
    ensures var linked := LinkUploads(t.files, user, Elements(Encrypted(input.files)), input.id, Seal);
      Retire(linked, user, ToReplace(t.files, user, input.id, Secret)) == Relabelled(t.files, user, input, Secret)
  {
    AcceptedFiles(t, Secret, user, input, generation);
  }

  // ----- The checks -----

  method AssertReplacementSet(sourceIds: set<Id>, replacements: seq<Replacement>) returns (encryptedIds: Option<seq<Id>>)
    ensures encryptedIds.Some? <==> Bijection(sourceIds, replacements)
    ensures encryptedIds.Some? ==> encryptedIds.value == Encrypted(replacements)
  {
    AcceptedIffBijection(sourceIds, replacements);
    if !AcceptsReplacements(sourceIds, replacements) {
      return None;
    }
    return Some(Encrypted(replacements));
  }

  /** The position of the topmost live item of the account, found by scanning, or zero. */
  method TopPosition(items: map<Key, Item>, user: UserId) returns (top: real)
    ensures IsTop(items, user, top)
  {
    var todo := set k | k in items && k.0 == user && !items[k].deleted;
    ghost var live := todo;
    top := 0.0;
    var found := false;
    while todo != {}
      invariant todo <= live
      invariant found <==> todo != live
      invariant forall k :: k in live - todo ==> items[k].position <= top
      invariant if found then exists k :: k in live - todo && items[k].position == top else top == 0.0
      decreases |todo|
    {
      var k :| k in todo;
      todo := todo - {k};
      if !found || items[k].position > top {
        top := items[k].position;
        assert k in live - todo && items[k].position == top;
      }
      found := true;
    }
    if found {
      ghost var k :| k in live - todo && items[k].position == top;
      assert k in items && k.0 == user && !items[k].deleted;
    }
    assert forall k :: k in items && k.0 == user && !items[k].deleted ==> k in live;
  }

  /** A refusal changes nothing; an accepted promotion leaves what `Promote` says, on top of the destination. */
  ghost predicate PromotionResult(t: Tables, tier: Tier, user: UserId, input: Input, generation: Option<nat>,
                                  after: Tables, outcome: Outcome)
    requires tier != Seal
  {
    var refusal := Refusal(t, tier, user, input, generation);
    if refusal.Some? then after == t && outcome == Failed(refusal.value)
    else
      && outcome == Promoted(input.id, Get(t, tier).items[(user, input.id)].meta, if generation.Some? then generation.value else 0)
      && exists position :: IsRaised(Get(t, Next(tier)).items, user, position) && after == Promote(t, tier, user, input, position)
  }

  class Store {
    var tables: Tables

    constructor (tables: Tables)
      ensures this.tables == tables
    {
      this.tables := tables;
    }

    /** Every check of the first promotion, before anything is written. */
    method CheckNote(user: UserId, input: Input, generation: Option<nat>) returns (refusal: Option<Error>)
      ensures refusal == Refusal(tables, Note, user, input, generation)
    {
      var owner := (user, input.id);
      if Gate(tables, user, generation).Some? {
        return Gate(tables, user, generation);
      }
      if owner !in tables.note.items || tables.note.items[owner].deleted {
        return Some(NotFound);
      }
      var note := tables.note.items[owner];
      if note.burn && note.expiresAt.Some? {
        return Some(BurnArmed);
      }
      if input.expected != Some(note.updatedAt) || owner in tables.secret.items {
        return Some(Conflict);
      }
      var versions := History(tables.note.versions, owner);
      if !AcceptsVersions(IdsOf(versions), input.versions) {
        return Some(Conflict);
      }
      var plaintextIds := ToReplace(tables.files, user, input.id, Note);
      var encryptedIds := AssertReplacementSet(plaintextIds, input.files);
      AcceptedIffBijection(plaintextIds, input.files);
      if encryptedIds.None? {
        return Some(InvalidFiles);
      }
      var uploads := encryptedIds.value;
      if uploads != [] && |Suited(tables.files, user, uploads, input.id, Note)| != |uploads| {
        return Some(InvalidFiles);
      }
      if Taken(tables.secret.versions, IdsOf(versions)) || Clash(tables.note.links, tables.secret.links, owner) {
        return Some(Duplicate);
      }
      refusal := None;
    }

    method PromoteNoteToSecret(user: UserId, input: Input, generation: Option<nat>) returns (outcome: Outcome)
      modifies this
      ensures PromotionResult(old(tables), Note, user, input, generation, tables, outcome)
    {
      var refusal := CheckNote(user, input, generation);
      if refusal.Some? {
        return Failed(refusal.value);
      }
      NoteUpdatesMakeRelabel(tables, user, input, generation);
      var owner := (user, input.id);
      var note, versions := tables.note.items[owner], History(tables.note.versions, owner);
      var plaintextIds := ToReplace(tables.files, user, input.id, Note);
      var alreadyEncryptedIds := SourceFiles(tables.files, user, input.id, Note) - plaintextIds;
      var top := TopPosition(tables.secret.items, user);
      var links := set a | a in tables.note.links && a.owner == owner;
      tables := tables.(secret := Given(tables.secret, owner, Raised(note, input, Note, top + POSITION_STEP),
                                        Reencrypted(versions, ById(input.versions)), links));
      tables := tables.(files := LinkUploads(tables.files, user, Elements(Encrypted(input.files)), input.id, Secret));
      tables := tables.(files := Retier(tables.files, user, alreadyEncryptedIds, Secret));
      tables := tables.(files := Retire(tables.files, user, plaintextIds));
      tables := tables.(note := Delete(tables.note, owner));
      assert tables == Promote(old(tables), Note, user, input, top + POSITION_STEP);
      outcome := Promoted(input.id, note.meta, if generation.Some? then generation.value else 0);
    }

    /** Every check of the second promotion, before anything is written. */
    method CheckSecret(user: UserId, input: Input, generation: Option<nat>) returns (refusal: Option<Error>)
      ensures refusal == Refusal(tables, Secret, user, input, generation)
    {
      var owner := (user, input.id);
      if Gate(tables, user, generation).Some? {
        return Gate(tables, user, generation);
      }
      if owner !in tables.secret.items || tables.secret.items[owner].deleted {
        return Some(NotFound);
      }
      var secret := tables.secret.items[owner];
      if secret.burn && secret.expiresAt.Some? {
        return Some(BurnArmed);
      }
      if input.expected != Some(secret.updatedAt) || owner in tables.seal.items {
        return Some(Conflict);
      }
      var versions := History(tables.secret.versions, owner);
      if !AcceptsVersions(IdsOf(versions), input.versions) {
        return Some(Conflict);
      }
      var sourceIds := ToReplace(tables.files, user, input.id, Secret);
      var encryptedIds := AssertReplacementSet(sourceIds, input.files);
      AcceptedIffBijection(sourceIds, input.files);
      if encryptedIds.None? {
        return Some(InvalidFiles);
      }
      var uploads := encryptedIds.value;
      if uploads != [] {
        if input.wrappedKey == None || |Suited(tables.files, user, uploads, input.id, Secret)| != |uploads| {
          return Some(InvalidFiles);
        }
      }
      if Taken(tables.seal.versions, IdsOf(versions)) || Clash(tables.secret.links, tables.seal.links, owner) {
        return Some(Duplicate);
      }
      refusal := None;
    }

    method PromoteSecretToSeal(user: UserId, input: Input, generation: Option<nat>) returns (outcome: Outcome)
      modifies this
      ensures PromotionResult(old(tables), Secret, user, input, generation, tables, outcome)
    {
      var refusal := CheckSecret(user, input, generation);
      if refusal.Some? {
        return Failed(refusal.value);
      }
      SecretUpdatesMakeRelabel(tables, user, input, generation);
      var owner := (user, input.id);
      var secret, versions := tables.secret.items[owner], History(tables.secret.versions, owner);
      var sourceIds := ToReplace(tables.files, user, input.id, Secret);
      var top := TopPosition(tables.seal.items, user);
      var links := set a | a in tables.secret.links && a.owner == owner;
      tables := tables.(seal := Given(tables.seal, owner, Raised(secret, input, Secret, top + POSITION_STEP),
                                      Reencrypted(versions, ById(input.versions)), links));
      tables := tables.(files := LinkUploads(tables.files, user, Elements(Encrypted(input.files)), input.id, Seal));
      tables := tables.(files := Retire(tables.files, user, sourceIds));
      tables := tables.(secret := Delete(tables.secret, owner));
      assert tables == Promote(old(tables), Secret, user, input, top + POSITION_STEP);
      outcome := Promoted(input.id, secret.meta, if generation.Some? then generation.value else 0);
    }
  }
}
