/** What a merge conserves, read off its closed form. */
module AccountMergeLaws {
  import opened AccountMerge
  import opened Sets
  import opened Wrappers

  ghost predicate Mergeable(t: Tables, primary: UserId, secondary: UserId) {
    Consistent(t) && primary != secondary && Fence(t, primary, secondary).None?
  }

  lemma MergedNotesKeyed(t: Tables, primary: UserId, secondary: UserId)
    requires Mergeable(t, primary, secondary)
    ensures NotesKeyed(Merge(t, primary, secondary).notes) && FilesKeyed(Merge(t, primary, secondary).files)
  {
  }

  lemma MergedParents(t: Tables, primary: UserId, secondary: UserId)
    requires Mergeable(t, primary, secondary)
    ensures ParentsExist(Merge(t, primary, secondary))
  {
    var m := Merge(t, primary, secondary);
    forall id, user | HasNote(t.notes, id, user)
      ensures HasNote(m.notes, id, Owner(user, primary, secondary))
    {
      var n :| n in t.notes && n.id == id && n.user == user;
      assert n.(user := Owner(n.user, primary, secondary)) in m.notes;
    }
  }

  lemma MergedTagsOwned(t: Tables, primary: UserId, secondary: UserId)
    requires Mergeable(t, primary, secondary)
    ensures TagsOwned(Merge(t, primary, secondary).links, Merge(t, primary, secondary).tags)
  {
    var m := Merge(t, primary, secondary);
    forall a | a in t.links
      ensures var b := MergedLink(t.tags, primary, secondary, a);
        exists y :: y in m.tags && y.id == b.tag && y.user == b.user
    {
      var x :| x in t.tags && x.id == a.tag && x.user == a.user;
      if a.user == secondary {
        DestinationNamesake(t.tags, primary, secondary, x);
      } else {
        assert x in m.tags;
      }
    }
  }

  lemma NothingPending(t: Tables, primary: UserId, secondary: UserId)
    requires Mergeable(t, primary, secondary)
    ensures TagsKeyed(Merge(t, primary, secondary).tags) && LinksKeyed(Merge(t, primary, secondary).links)
  {
    TagsStayKeyed(t.tags, primary, secondary, {});
    LinksStayKeyed(t, primary, secondary, {});
    var m := Merge(t, primary, secondary);
    assert m.tags == TagsSoFar(t.tags, primary, secondary, {});
    forall a | a in t.links
      ensures LinkSoFar(t.tags, primary, secondary, {}, a) in LinksSoFar(t.links, t.tags, primary, secondary, {})
      ensures MergedLink(t.tags, primary, secondary, a)
           == LinkSoFar(t.tags, primary, secondary, {}, a).(user := Owner(a.user, primary, secondary))
    {
    }
  }

  lemma MergedEmailsUnique(users: map<UserId, Contact>, primary: UserId, secondary: UserId)
    requires EmailsUnique(users) && primary != secondary
    ensures EmailsUnique(MergedUsers(users, primary, secondary))
  {
  }

  /** Every key and reference of the schema still holds after a merge. */
  lemma MergeKeepsConsistent(t: Tables, primary: UserId, secondary: UserId)
    requires Mergeable(t, primary, secondary)
    ensures Consistent(Merge(t, primary, secondary))
  {
    MergedNotesKeyed(t, primary, secondary);
    MergedParents(t, primary, secondary);
    MergedTagsOwned(t, primary, secondary);
    NothingPending(t, primary, secondary);
    MergedEmailsUnique(t.users, primary, secondary);
  }

  lemma NotesConserved(t: Tables, primary: UserId, secondary: UserId)
    requires Mergeable(t, primary, secondary)
    ensures |Merge(t, primary, secondary).notes| == |t.notes|
  {
    var f := (n: Note) => n.(user := Owner(n.user, primary, secondary));
    SameSize(t.notes, f);
    assert Merge(t, primary, secondary).notes == Image(t.notes, f);
  }

  lemma FilesConserved(t: Tables, primary: UserId, secondary: UserId)
    requires Mergeable(t, primary, secondary)
    ensures |Merge(t, primary, secondary).files| == |t.files|
  {
    var f := (n: File) => n.(user := Owner(n.user, primary, secondary));
    SameSize(t.files, f);
    assert Merge(t, primary, secondary).files == Image(t.files, f);
  }

  /** Links are repointed, never merged away. */
  lemma LinksConserved(t: Tables, primary: UserId, secondary: UserId)
    requires Mergeable(t, primary, secondary)
    ensures |Merge(t, primary, secondary).links| == |t.links|
  {
    var f := (a: Link) => if a in t.links then MergedLink(t.tags, primary, secondary, a) else a;
    forall a, b | a in t.links && b in t.links && f(a) == f(b)
      ensures a == b
    {
      if a != b {
        LinksStayApart(t, primary, secondary, {}, a, b);
      }
    }
    SameSize(t.links, f);
    assert Merge(t, primary, secondary).links == Image(t.links, f);
  }

  /** Every note, version and attachment of either account is the primary's, unchanged but for its owner. */
  lemma PrimaryOwnsAll(t: Tables, primary: UserId, secondary: UserId)
    requires Mergeable(t, primary, secondary)
    ensures var m := Merge(t, primary, secondary);
      && (forall n :: n in t.notes && n.user in {primary, secondary} ==> n.(user := primary) in m.notes)
      && (forall f :: f in t.files && f.user in {primary, secondary} ==> f.(user := primary) in m.files)
      && (forall v :: v in t.versions && v.user in {primary, secondary} ==> v.(user := primary) in m.versions)
  {
  }

  /** What the picker shows on a note: the name at each place of its order. */
  ghost function TagNames(t: Tables, user: UserId, note: Id): set<(int, string)> {
    set a, x | a in t.links && x in t.tags && a.note == note && a.user == user && x.id == a.tag :: (a.order, x.name)
  }

  ghost predicate HasNamed(tags: set<Tag>, id: Id, name: string) {
    exists y :: y in tags && y.id == id && y.name == name
  }

  lemma NamesKept(t: Tables, primary: UserId, secondary: UserId, a: Link, x: Tag)
    requires Mergeable(t, primary, secondary) && a in t.links && x in t.tags && x.id == a.tag
    ensures var b := MergedLink(t.tags, primary, secondary, a);
      && b in Merge(t, primary, secondary).links
      && HasNamed(Merge(t, primary, secondary).tags, b.tag, x.name)
  {
  }

  lemma NameStays(t: Tables, primary: UserId, secondary: UserId, a: Link, x: Tag)
    requires Mergeable(t, primary, secondary) && a.user in {primary, secondary}
    requires a in t.links && x in t.tags && x.id == a.tag
    ensures (a.order, x.name) in TagNames(Merge(t, primary, secondary), primary, a.note)
  {
    var m := Merge(t, primary, secondary);
    NamesKept(t, primary, secondary, a, x);
    var b := MergedLink(t.tags, primary, secondary, a);
    var y :| y in m.tags && y.id == b.tag && y.name == x.name;
    assert b in m.links && b.note == a.note && b.user == primary && b.order == a.order;
  }

  lemma NoNameAppears(t: Tables, primary: UserId, secondary: UserId, user: UserId, b: Link, y: Tag)
    requires Mergeable(t, primary, secondary) && user in {primary, secondary} && HasNote(t.notes, b.note, user)
    requires b in Merge(t, primary, secondary).links && y in Merge(t, primary, secondary).tags
    requires y.id == b.tag && b.user == primary
    requires TagsKeyed(Merge(t, primary, secondary).tags)
    ensures (b.order, y.name) in TagNames(t, user, b.note)
  {
  }

  /** Each note of either account keeps its tag names, in their order, whichever tags now stand for them. */
  lemma TagNamesKept(t: Tables, primary: UserId, secondary: UserId, user: UserId, note: Id)
    requires Mergeable(t, primary, secondary) && user in {primary, secondary} && HasNote(t.notes, note, user)
    ensures TagNames(Merge(t, primary, secondary), primary, note) == TagNames(t, user, note)
  {
    var m := Merge(t, primary, secondary);
    NothingPending(t, primary, secondary);
    forall p | p in TagNames(t, user, note)
      ensures p in TagNames(m, primary, note)
    {
      var a, x :| a in t.links && x in t.tags && a.note == note && a.user == user && x.id == a.tag && p == (a.order, x.name);
      NameStays(t, primary, secondary, a, x);
    }
    forall p | p in TagNames(m, primary, note)
      ensures p in TagNames(t, user, note)
    {
      var b, y :| b in m.links && y in m.tags && b.note == note && b.user == primary && y.id == b.tag && p == (b.order, y.name);
      NoNameAppears(t, primary, secondary, user, b, y);
    }
  }

  ghost predicate HoldsNothing(t: Tables, user: UserId) {
    && (forall n :: n in t.notes ==> n.user != user) && (forall v :: v in t.versions ==> v.user != user)
    && (forall a :: a in t.links ==> a.user != user) && (forall x :: x in t.tags ==> x.user != user)
    && (forall f :: f in t.files ==> f.user != user) && (forall i :: i in t.identities ==> i.user != user)
    && (forall k :: k in t.passkeys ==> k.user != user) && user !in t.users && user !in t.profiles
  }

  lemma SecondaryIsGone(t: Tables, primary: UserId, secondary: UserId)
    requires Mergeable(t, primary, secondary)
    ensures HoldsNothing(Merge(t, primary, secondary), secondary)
  {
  }

  /** Every identity and passkey of either account signs in to the primary, and no other does. */
  lemma SignInMethodsFollow(t: Tables, primary: UserId, secondary: UserId)
    requires Mergeable(t, primary, secondary)
    ensures var m := Merge(t, primary, secondary);
      && (forall i :: i in m.identities && i.user == primary
            <==> i.user == primary && (i in t.identities || i.(user := secondary) in t.identities))
      && (forall k :: k in m.passkeys && k.user == primary
            <==> k.user == primary && (k in t.passkeys || k.(user := secondary) in t.passkeys))
  {
  }

  /** An empty address counts as none. */
  ghost predicate HasAddress(t: Tables, user: UserId) {
    user in t.users && match t.users[user].email case None => false case Some(address) => address != ""
  }

  /** An address held by either account survives, the primary's own first, with when it was verified and who owns it. */
  lemma EmailSurvives(t: Tables, primary: UserId, secondary: UserId)
    requires Mergeable(t, primary, secondary) && primary in t.users && secondary in t.users
    ensures var m := Merge(t, primary, secondary);
      && primary in m.users
      && m.users[primary] == t.users[if !HasAddress(t, primary) && HasAddress(t, secondary) then secondary else primary]
      && (HasAddress(m, primary) <==> HasAddress(t, primary) || HasAddress(t, secondary))
  {
  }

  /** The tags of both accounts: the secondary's become the primary's as they are, but for those with a namesake there. */
  lemma TagsFollow(t: Tables, primary: UserId, secondary: UserId, x: Tag)
    requires Mergeable(t, primary, secondary)
    ensures var m := Merge(t, primary, secondary);
      && (x in t.tags && x.user == primary ==> x in m.tags)
      && (x in t.tags && x.user == secondary ==>
            (x.(user := primary) in m.tags <==> forall d :: d in t.tags && d.user == primary ==> d.name != x.name))
      && (x in m.tags && x.user == primary ==> x in t.tags || x.(user := secondary) in t.tags)
  {
    var m := Merge(t, primary, secondary);
    if x in t.tags && x.user == secondary && !HasNamesake(t.tags, primary, x.name) {
      assert MovedTag(x, primary) in m.tags;
    }
    if x in t.tags && x.user == secondary && x.(user := primary) in m.tags {
      var y :| y in t.tags && (y.user == secondary ==> !HasNamesake(t.tags, primary, y.name))
               && x.(user := primary) == (if y.user == secondary then MovedTag(y, primary) else y);
      assert y.id == x.id;
    }
    if x in m.tags && x.user == primary {
      var y :| y in t.tags && x == (if y.user == secondary then MovedTag(y, primary) else y);
      assert y == Tag(y.id, y.user, y.name, y.content);
    }
  }

  ghost predicate OwnersHold(t: Tables) {
    forall u :: u in t.users && t.users[u].owner.Some? ==> OwnsIdentity(t, u, t.users[u].owner.value)
  }

  ghost predicate OwnsIdentity(t: Tables, user: UserId, id: Id) {
    exists i :: i in t.identities && i.id == id && i.user == user
  }

  lemma OwnersFollow(t: Tables, primary: UserId, secondary: UserId)
    requires Mergeable(t, primary, secondary) && OwnersHold(t)
    ensures OwnersHold(Merge(t, primary, secondary))
  {
    var m := Merge(t, primary, secondary);
    forall user, id | OwnsIdentity(t, user, id)
      ensures OwnsIdentity(m, Owner(user, primary, secondary), id)
    {
      var i :| i in t.identities && i.id == id && i.user == user;
      assert i.(user := Owner(i.user, primary, secondary)) in m.identities;
    }
  }

  /** No row of a third account is made, changed or lost. */
  lemma OthersUntouched(t: Tables, primary: UserId, secondary: UserId, user: UserId)
    requires Mergeable(t, primary, secondary) && user !in {primary, secondary}
    ensures var m := Merge(t, primary, secondary);
      && (forall n: Note :: n.user == user ==> (n in m.notes <==> n in t.notes))
      && (forall v: Version :: v.user == user ==> (v in m.versions <==> v in t.versions))
      && (forall a: Link :: a.user == user ==> (a in m.links <==> a in t.links))
      && (forall x: Tag :: x.user == user ==> (x in m.tags <==> x in t.tags))
      && (forall f: File :: f.user == user ==> (f in m.files <==> f in t.files))
      && (forall i: Identity :: i.user == user ==> (i in m.identities <==> i in t.identities))
      && (forall k: Passkey :: k.user == user ==> (k in m.passkeys <==> k in t.passkeys))
      && (user in m.users <==> user in t.users) && (user in t.users ==> m.users[user] == t.users[user])
      && (user in m.profiles <==> user in t.profiles)
  {
  }

  /** Whatever was looked up before the locks were taken, a call keeps every key and either fails with no effect or links. */
  lemma LinkingIsSafe(t: Tables, primary: UserId, row: Identity, seen: Option<UserId>, generation: nat,
                      after: Tables, outcome: Outcome)
    requires Consistent(t) && row.user == primary && LinkResult(t, primary, row, seen, generation, after, outcome)
    requires seen == Some(primary) ==> OwnedBy(t, row.provider, row.subject, primary)
    ensures Consistent(after)
    ensures outcome.Failed? ==> after == t
    ensures outcome.Linked? ==> OwnedBy(after, row.provider, row.subject, primary)
  {
    var secondary := if seen.Some? then seen.value else primary;
    if after != t && !(seen.None? || Unclaimed(t, row.provider, row.subject)) {
      MergeKeepsConsistent(t, primary, secondary);
      var i :| i in t.identities && i.provider == row.provider && i.subject == row.subject && i.user == secondary;
      assert i.(user := Owner(i.user, primary, secondary)) in after.identities;
    } else if after != t {
      assert row in after.identities;
      InsertKeepsConsistent(t, row);
    }
  }

  lemma InsertKeepsConsistent(t: Tables, row: Identity)
    requires Consistent(t)
    ensures Consistent(Insert(t, row).0)
  {
  }

  // ----- When a call is answered how -----

  ghost predicate IsRotating(t: Tables, user: UserId) {
    user in t.states && t.states[user].rotating
  }

  ghost predicate AtGeneration(t: Tables, user: UserId, generation: nat) {
    generation == if user in t.states then t.states[user].generation else 0
  }

  /** Anything sealed that a merge could not carry over, trash included. */
  ghost predicate KeepsSealedData(t: Tables, user: UserId) {
    || (exists id :: (user, id) in t.secrets) || (exists id :: (user, id) in t.seals) || (exists id :: (user, id) in t.otps)
    || (exists f :: f in t.files && f.user == user && f.encrypted && !f.storageDeleted)
  }

  ghost predicate ShareNoteId(t: Tables, a: UserId, b: UserId) {
    exists x, y :: x in t.notes && y in t.notes && x.user == a && y.user == b && x.id == y.id
  }

  ghost predicate ShareFileId(t: Tables, a: UserId, b: UserId) {
    exists x, y :: x in t.files && y in t.files && x.user == a && y.user == b && x.id == y.id
  }

  ghost predicate HasIdentity(t: Tables, provider: string, subject: string, user: UserId) {
    exists i :: i in t.identities && i.provider == provider && i.subject == subject && i.user == user
  }

  lemma SealedDataIffFenced(t: Tables, user: UserId)
    ensures KeepsSealedData(t, user) <==> HoldsEncrypted(t, user)
  {
    forall r | r in t.secrets + t.seals + t.otps
      ensures r == (r.0, r.1)
    {
    }
    if HoldsEncrypted(t, user) {
      if r :| r in t.secrets && r.0 == user {
        assert (user, r.1) in t.secrets;
      } else if r :| r in t.seals && r.0 == user {
        assert (user, r.1) in t.seals;
      } else if r :| r in t.otps && r.0 == user {
        assert (user, r.1) in t.otps;
      }
    }
  }

  /** An identity seen with its owner is linked already; else the gates come before any lookup, whatever the tables hold. */
  lemma GatesIff(t: Tables, primary: UserId, row: Identity, seen: Option<UserId>, generation: nat, after: Tables, outcome: Outcome)
    requires LinkResult(t, primary, row, seen, generation, after, outcome)
    ensures seen == Some(primary) ==> outcome == Linked && after == t
    ensures outcome == Failed(RotationInProgress)
        <==> seen != Some(primary) && (IsRotating(t, primary) || (seen.Some? && IsRotating(t, seen.value)))
    ensures outcome == Failed(GenerationMismatch)
        <==> seen != Some(primary) && !IsRotating(t, primary) && !(seen.Some? && IsRotating(t, seen.value))
             && !AtGeneration(t, primary, generation)
  {
  }

  /** A call past the gates that still finds the identity with the account it was seen at. */
  ghost predicate ReachesFence(t: Tables, primary: UserId, row: Identity, secondary: UserId, generation: nat) {
    && primary != secondary && !IsRotating(t, primary) && !IsRotating(t, secondary) && AtGeneration(t, primary, generation)
    && HasIdentity(t, row.provider, row.subject, secondary)
  }

  /** Of the calls that reach the fence, exactly those merge that have nothing sealed to lose and no id in common. */
  lemma FencedIff(t: Tables, primary: UserId, row: Identity, secondary: UserId, generation: nat, after: Tables, outcome: Outcome)
    requires Consistent(t) && LinkResult(t, primary, row, Some(secondary), generation, after, outcome)
    requires ReachesFence(t, primary, row, secondary, generation)
    ensures outcome == Failed(EncryptedData) <==> KeepsSealedData(t, secondary)
    ensures outcome == Failed(NoteCollision) <==> !KeepsSealedData(t, secondary) && ShareNoteId(t, secondary, primary)
    ensures outcome == Failed(FileCollision)
        <==> !KeepsSealedData(t, secondary) && !ShareNoteId(t, secondary, primary) && ShareFileId(t, secondary, primary)
    ensures outcome.Linked?
        <==> !KeepsSealedData(t, secondary) && !ShareNoteId(t, secondary, primary) && !ShareFileId(t, secondary, primary)
  {
    SealedDataIffFenced(t, secondary);
    var i :| i in t.identities && i.provider == row.provider && i.subject == row.subject && i.user == secondary;
    assert NotesCollide(t.notes, primary, secondary) <==> ShareNoteId(t, secondary, primary);
    assert FilesCollide(t.files, primary, secondary) <==> ShareFileId(t, secondary, primary);
    assert !OwnedBy(t, row.provider, row.subject, primary);
  }

  /** The other answers: the identity has moved to a third account, or its key is taken at the insert. */
  lemma OtherAnswersIff(t: Tables, primary: UserId, row: Identity, seen: Option<UserId>, generation: nat, after: Tables, outcome: Outcome)
    requires Consistent(t) && LinkResult(t, primary, row, seen, generation, after, outcome) && seen != Some(primary)
    requires !IsRotating(t, primary) && !(seen.Some? && IsRotating(t, seen.value)) && AtGeneration(t, primary, generation)
    ensures outcome == Failed(AlreadyLinked)
        <==> seen.Some? && exists i :: i in t.identities && i.provider == row.provider && i.subject == row.subject
                                       && i.user != primary && i.user != seen.value
    ensures outcome == Failed(Duplicate)
        <==> (exists i :: i in t.identities && (i.id == row.id || (i.provider == row.provider && i.subject == row.subject)))
             && (seen.None? || forall i :: i in t.identities ==> !(i.provider == row.provider && i.subject == row.subject))
    ensures seen.Some? && HasIdentity(t, row.provider, row.subject, primary) ==> outcome.Linked? && after == t
  {
  }

  /** Whatever moved in a successful call, nothing sealed was the secondary's, before or after, and none changed owner. */
  lemma NothingSealedMoves(t: Tables, primary: UserId, row: Identity, seen: Option<UserId>, generation: nat,
                           after: Tables, outcome: Outcome)
    requires Consistent(t) && LinkResult(t, primary, row, seen, generation, after, outcome)
    requires outcome.Linked? && after != t.(identities := after.identities)
    ensures seen.Some? && !KeepsSealedData(t, seen.value) && !KeepsSealedData(after, seen.value)
    ensures after.secrets == t.secrets && after.seals == t.seals && after.otps == t.otps
    ensures forall f :: f in t.files && f !in after.files ==> !(f.encrypted && !f.storageDeleted)
    ensures forall f :: f in after.files && f !in t.files ==> !(f.encrypted && !f.storageDeleted)
  {
    var secondary := seen.value;
    SealedDataIffFenced(t, secondary);
    SealedDataIffFenced(after, secondary);
    assert forall f :: f in t.files && f.user != secondary ==> f.(user := Owner(f.user, primary, secondary)) == f;
  }
}
