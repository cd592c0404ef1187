/** The merge as the transaction runs it, one statement after another. */
module IdentityController {
  import opened AccountMerge
  import opened Sets
  import opened Wrappers

  /** The rows a note's new owner carries along, through their foreign key on (note, user). */
  function CascadeLinks(links: set<Link>, notes: set<Note>, primary: UserId, secondary: UserId): set<Link> {
    set a | a in links :: if HasNote(notes, a.note, a.user) then a.(user := Owner(a.user, primary, secondary)) else a
  }

  function CascadeVersions(versions: set<Version>, notes: set<Note>, primary: UserId, secondary: UserId): set<Version> {
    set v | v in versions :: if HasNote(notes, v.note, v.user) then v.(user := Owner(v.user, primary, secondary)) else v
  }

  function OwnersMoved(t: Tables, primary: UserId, secondary: UserId): Tables {
    t.(
      notes := MovedNotes(t.notes, primary, secondary),
      versions := CascadeVersions(t.versions, t.notes, primary, secondary),
      links := CascadeLinks(t.links, t.notes, primary, secondary),
      files := MovedFiles(t.files, primary, secondary),
      identities := MovedIdentities(t.identities, primary, secondary),
      passkeys := MovedPasskeys(t.passkeys, primary, secondary),
      users := MergedUsers(t.users, primary, secondary),
      profiles := t.profiles - {secondary})
  }

  lemma InheritedInTwoSteps(users: map<UserId, Contact>, primary: UserId, secondary: UserId)
    requires primary != secondary
    ensures MergedUsers(users, primary, secondary)
         == if Inherits(users, primary, secondary) && primary in users
            then (users - {secondary})[primary := users[secondary]] else users - {secondary}
  {
  }

  /** The two halves together are the merge; every row has a parent, so the cascade reaches all of them. */
  lemma HalvesMakeMerge(t: Tables, primary: UserId, secondary: UserId)
    requires Consistent(t)
    ensures OwnersMoved(SoFar(t, primary, secondary, {}), primary, secondary) == Merge(t, primary, secondary)
  {
  }

  class Store {
    var tables: Tables

    constructor (tables: Tables)
      ensures this.tables == tables
    {
      this.tables := tables;
    }

    /**
     * `seen` is the owner of the identity when it was looked up, before any lock was taken; the tables may have
     * changed since. Every failure leaves them as they are.
     */
    method LinkIdentity(primary: UserId, id: Id, provider: string, subject: string, content: string,
                        seen: Option<UserId>, generation: nat) returns (outcome: Outcome)
      requires Consistent(tables)
      modifies this
      ensures LinkResult(old(tables), primary, Identity(id, primary, provider, subject, content), seen, generation, tables, outcome)
    {
      var row := Identity(id, primary, provider, subject, content);
      if seen == Some(primary) {
        return Linked;
      }
      var state := StateOf(tables, primary);
      if state.rotating {
        return Failed(RotationInProgress);
      }
      if seen.Some? && StateOf(tables, seen.value).rotating {
        return Failed(RotationInProgress);
      }
      if state.generation != generation {
        return Failed(GenerationMismatch);
      }
      if seen.None? || Unclaimed(tables, provider, subject) {
        var inserted := Insert(tables, row);
        tables := inserted.0;
        return inserted.1;
      }
      var secondary := seen.value;
      if OwnedBy(tables, provider, subject, primary) {
        return Linked;
      }
      if !OwnedBy(tables, provider, subject, secondary) {
        return Failed(AlreadyLinked);
      }
      if Fence(tables, primary, secondary).Some? {
        return Failed(Fence(tables, primary, secondary).value);
      }
      HalvesMakeMerge(tables, primary, secondary);
      MergeTags(primary, secondary);
      MoveOwner(primary, secondary);
      outcome := Linked;
    }

    /** Secondary tags, in whatever order the query returns them. No statement breaks a key on the way. */
    method MergeTags(primary: UserId, secondary: UserId)
      requires Consistent(tables) && primary != secondary && !NotesCollide(tables.notes, primary, secondary)
      modifies this
      ensures tables == SoFar(old(tables), primary, secondary, {})
    {
      ghost var t := tables;
      var destinationTagByName := IndexOf(tables.tags, primary);
      var todo := TagsOf(tables.tags, secondary);
      NothingMovedYet(t, primary, secondary, todo);
      while todo != {}
        invariant Fits(t.tags, secondary, todo) && Indexes(destinationTagByName, t.tags, primary, todo)
        invariant tables == SoFar(t, primary, secondary, todo)
        decreases |todo|
      {
        var tag :| tag in todo;
        destinationTagByName := MergeTag(t, primary, secondary, todo, tag, destinationTagByName);
        todo := todo - {tag};
      }
    }

    method MergeTag(ghost t: Tables, primary: UserId, secondary: UserId, ghost todo: set<Tag>, tag: Tag,
                    byName: map<string, Tag>) returns (index: map<string, Tag>)
      requires Consistent(t) && primary != secondary && !NotesCollide(t.notes, primary, secondary)
      requires Fits(t.tags, secondary, todo) && tag in todo && Indexes(byName, t.tags, primary, todo)
      requires tables == SoFar(t, primary, secondary, todo)
      modifies this
      ensures tables == SoFar(t, primary, secondary, todo - {tag}) && Fits(t.tags, secondary, todo - {tag})
      ensures Indexes(index, t.tags, primary, todo - {tag}) && |todo - {tag}| < |todo|
      ensures TagsKeyed(tables.tags) && LinksKeyed(tables.links)
    {
      FewerLeft(todo, tag);
      KeysHold(t, primary, secondary, todo - {tag});
      index := byName;
      if tag.name in byName {
        var destination := byName[tag.name];
        RepointOne(t, primary, secondary, todo, tag, destination);
        RepointTag(secondary, tag.id, destination.id);
        DeleteTag(tag.id);
      } else {
        MoveOne(t, primary, secondary, todo, tag);
        GiveTag(tag.id, primary);
        index := byName[tag.name := MovedTag(tag, primary)];
      }
    }

    /** The owner moves, in order; the notes take their links and versions along. */
    method MoveOwner(primary: UserId, secondary: UserId)
      requires primary != secondary
      modifies this
      ensures tables == OwnersMoved(old(tables), primary, secondary)
    {
      var inherits := Inherits(tables.users, primary, secondary);
      var inherited := if inherits then tables.users[secondary] else Contact(None, None, None);
      InheritedInTwoSteps(tables.users, primary, secondary);
      tables := tables.(
        versions := CascadeVersions(tables.versions, tables.notes, primary, secondary),
        links := CascadeLinks(tables.links, tables.notes, primary, secondary),
        notes := MovedNotes(tables.notes, primary, secondary));
      tables := tables.(files := MovedFiles(tables.files, primary, secondary));
      tables := tables.(profiles := tables.profiles - {secondary});
      tables := tables.(identities := MovedIdentities(tables.identities, primary, secondary));
      tables := tables.(passkeys := MovedPasskeys(tables.passkeys, primary, secondary));
      tables := tables.(users := tables.users - {secondary});
      if inherits && primary in tables.users {
        tables := tables.(users := tables.users[primary := inherited]);
      }
    }

    method RepointTag(user: UserId, from: Id, to: Id)
      modifies this
      ensures tables == old(tables).(links := RepointLinks(old(tables).links, user, from, to))
    {
      tables := tables.(links := RepointLinks(tables.links, user, from, to));
    }

    /** Deleting a tag takes the links that still name it along. */
    method DeleteTag(id: Id)
      modifies this
      ensures tables == old(tables).(tags := DropTag(old(tables).tags, id), links := DropLinks(old(tables).links, id))
    {
      tables := tables.(tags := DropTag(tables.tags, id), links := DropLinks(tables.links, id));
    }

    method GiveTag(id: Id, user: UserId)
      modifies this
      ensures tables == old(tables).(tags := GiveTags(old(tables).tags, id, user))
    {
      tables := tables.(tags := GiveTags(tables.tags, id, user));
    }
  }

  /** The name index still answers for every tag to come. */
  ghost predicate Indexes(byName: map<string, Tag>, tags: set<Tag>, primary: UserId, todo: set<Tag>) {
    forall x :: x in todo ==>
      && (x.name in byName <==> HasNamesake(tags, primary, x.name))
      && (x.name in byName ==> byName[x.name] in tags && byName[x.name].user == primary && byName[x.name].name == x.name)
  }

  lemma KeysHold(t: Tables, primary: UserId, secondary: UserId, todo: set<Tag>)
    requires Consistent(t) && primary != secondary && !NotesCollide(t.notes, primary, secondary) && Fits(t.tags, secondary, todo)
    ensures var s := SoFar(t, primary, secondary, todo); TagsKeyed(s.tags) && LinksKeyed(s.links)
  {
    LinksStayKeyed(t, primary, secondary, todo);
    TagsStayKeyed(t.tags, primary, secondary, todo);
  }

  function TagsOf(tags: set<Tag>, user: UserId): set<Tag> {
    set x | x in tags && x.user == user
  }

  function IndexOf(tags: set<Tag>, user: UserId): (byName: map<string, Tag>)
    requires TagsKeyed(tags)
    ensures forall todo :: Indexes(byName, tags, user, todo)
  {
    map x | x in tags && x.user == user :: x.name := x
  }

  lemma LinkNotMovedYet(t: Tables, primary: UserId, secondary: UserId, todo: set<Tag>, a: Link)
    requires Consistent(t) && todo == TagsOf(t.tags, secondary) && a in t.links
    ensures LinkSoFar(t.tags, primary, secondary, todo, a) == a
  {
  }

  lemma TagsNotMovedYet(tags: set<Tag>, primary: UserId, secondary: UserId)
    ensures TagsSoFar(tags, primary, secondary, TagsOf(tags, secondary)) == tags
  {
  }

  lemma NothingMovedYet(t: Tables, primary: UserId, secondary: UserId, todo: set<Tag>)
    requires Consistent(t) && todo == TagsOf(t.tags, secondary)
    ensures SoFar(t, primary, secondary, todo) == t && Fits(t.tags, secondary, todo)
  {
    TagsNotMovedYet(t.tags, primary, secondary);
    forall a | a in t.links
      ensures LinkSoFar(t.tags, primary, secondary, todo, a) == a
    {
      LinkNotMovedYet(t, primary, secondary, todo, a);
    }
  }
}
