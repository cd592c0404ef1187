/**
 * Merging one account into another, table by table: what the transaction leaves behind in closed form, and what it
 * conserves. A row is a value; a table is a set of rows.
 */
module AccountMerge {
  import opened Wrappers

  type Id = string
  type UserId = string

  /** `content` stands for every column a merge does not touch. */
  datatype Note = Note(id: Id, user: UserId, content: string)
  datatype Version = Version(id: Id, note: Id, user: UserId, content: string)
  datatype Link = Link(note: Id, user: UserId, tag: Id, order: int)
  datatype Tag = Tag(id: Id, user: UserId, name: string, content: string)
  datatype File = File(id: Id, user: UserId, encrypted: bool, storageDeleted: bool, content: string)
  datatype Identity = Identity(id: Id, user: UserId, provider: string, subject: string, content: string)
  datatype Passkey = Passkey(id: Id, user: UserId, content: string)
  datatype Contact = Contact(email: Option<string>, verifiedAt: Option<int>, owner: Option<Id>)
  datatype State = State(generation: nat, rotating: bool)

  datatype Tables = Tables(
    notes: set<Note>, versions: set<Version>, links: set<Link>, tags: set<Tag>, files: set<File>,
    identities: set<Identity>, passkeys: set<Passkey>, users: map<UserId, Contact>, profiles: set<UserId>,
    secrets: set<(UserId, Id)>, seals: set<(UserId, Id)>, otps: set<(UserId, Id)>, states: map<UserId, State>)

  datatype Error =
    | RotationInProgress | GenerationMismatch | AlreadyLinked | EncryptedData | NoteCollision | FileCollision | Duplicate

  datatype Outcome = Linked | Failed(error: Error)

  function StateOf(t: Tables, user: UserId): State {
    if user in t.states then t.states[user] else State(0, false)
  }

  // ----- The constraints of the schema -----

  function Fold(s: string): string {
    seq(|s|, i requires 0 <= i < |s| => if 'A' <= s[i] <= 'Z' then s[i] - 'A' + 'a' else s[i])
  }

  ghost predicate NotesKeyed(notes: set<Note>) {
    forall a, b :: a in notes && b in notes && a.id == b.id && a.user == b.user ==> a == b
  }

  ghost predicate FilesKeyed(files: set<File>) {
    forall a, b :: a in files && b in files && a.id == b.id && a.user == b.user ==> a == b
  }

  /** Ids are global, names are unique within an account. */
  ghost predicate TagsKeyed(tags: set<Tag>) {
    && (forall a, b :: a in tags && b in tags && a.id == b.id ==> a == b)
    && (forall a, b :: a in tags && b in tags && a.user == b.user && a.name == b.name ==> a == b)
  }

  /** The primary key leaves the account out: it relies on a tag id belonging to one account. */
  ghost predicate LinksKeyed(links: set<Link>) {
    forall a, b :: a in links && b in links && a.note == b.note && a.tag == b.tag ==> a == b
  }

  /** Each link names a tag, and one of its own account. */
  ghost predicate TagsOwned(links: set<Link>, tags: set<Tag>) {
    forall a :: a in links ==> exists x :: x in tags && x.id == a.tag && x.user == a.user
  }

  predicate HasNote(notes: set<Note>, id: Id, user: UserId) {
    exists n :: n in notes && n.id == id && n.user == user
  }

  ghost predicate ParentsExist(t: Tables) {
    && (forall a :: a in t.links ==> HasNote(t.notes, a.note, a.user))
    && (forall v :: v in t.versions ==> HasNote(t.notes, v.note, v.user))
  }

  ghost predicate IdentitiesKeyed(identities: set<Identity>) {
    && (forall a, b :: a in identities && b in identities && a.id == b.id ==> a == b)
    && (forall a, b :: a in identities && b in identities && a.provider == b.provider && a.subject == b.subject ==> a == b)
  }

  ghost predicate EmailsUnique(users: map<UserId, Contact>) {
    forall u, v | u in users && v in users && users[u].email.Some? && users[v].email.Some? ::
      Fold(users[u].email.value) == Fold(users[v].email.value) ==> u == v
  }

  ghost predicate Consistent(t: Tables) {
    && NotesKeyed(t.notes) && FilesKeyed(t.files) && TagsKeyed(t.tags) && LinksKeyed(t.links)
    && TagsOwned(t.links, t.tags) && ParentsExist(t) && IdentitiesKeyed(t.identities) && EmailsUnique(t.users)
  }

  // ----- The fences -----

  predicate HoldsEncrypted(t: Tables, user: UserId) {
    || (exists r :: r in t.secrets && r.0 == user)
    || (exists r :: r in t.seals && r.0 == user)
    || (exists r :: r in t.otps && r.0 == user)
    || (exists f :: f in t.files && f.user == user && f.encrypted && !f.storageDeleted)
  }

  predicate NotesCollide(notes: set<Note>, primary: UserId, secondary: UserId) {
    exists a :: a in notes && a.user == secondary && exists b :: b in notes && b.user == primary && b.id == a.id
  }

  predicate FilesCollide(files: set<File>, primary: UserId, secondary: UserId) {
    exists a :: a in files && a.user == secondary && exists b :: b in files && b.user == primary && b.id == a.id
  }

  function Fence(t: Tables, primary: UserId, secondary: UserId): Option<Error> {
    if HoldsEncrypted(t, secondary) then Some(EncryptedData)
    else if NotesCollide(t.notes, primary, secondary) then Some(NoteCollision)
    else if FilesCollide(t.files, primary, secondary) then Some(FileCollision)
    else None
  }

  // ----- The merge in closed form -----

  predicate HasNamesake(tags: set<Tag>, user: UserId, name: string) {
    exists d :: d in tags && d.user == user && d.name == name
  }

  predicate Replaces(tags: set<Tag>, primary: UserId, secondary: UserId, d: Tag, id: Id) {
    d.user == primary && exists x :: x in tags && x.id == id && x.user == secondary && x.name == d.name
  }

  /** The tag that stands for tag `id` afterwards: its namesake in the primary account if there is one, else itself. */
  ghost function Destination(tags: set<Tag>, primary: UserId, secondary: UserId, id: Id): Id {
    if exists d :: d in tags && Replaces(tags, primary, secondary, d, id)
    then (var d :| d in tags && Replaces(tags, primary, secondary, d, id); d.id)
    else id
  }

  function Owner(user: UserId, primary: UserId, secondary: UserId): UserId {
    if user == secondary then primary else user
  }

  function MovedNotes(notes: set<Note>, primary: UserId, secondary: UserId): set<Note> {
    set n | n in notes :: n.(user := Owner(n.user, primary, secondary))
  }

  function MovedFiles(files: set<File>, primary: UserId, secondary: UserId): set<File> {
    set f | f in files :: f.(user := Owner(f.user, primary, secondary))
  }

  function MovedIdentities(identities: set<Identity>, primary: UserId, secondary: UserId): set<Identity> {
    set i | i in identities :: i.(user := Owner(i.user, primary, secondary))
  }

  function MovedPasskeys(passkeys: set<Passkey>, primary: UserId, secondary: UserId): set<Passkey> {
    set k | k in passkeys :: k.(user := Owner(k.user, primary, secondary))
  }

  function MovedTag(x: Tag, primary: UserId): Tag {
    x.(user := primary)
  }

  ghost function MergedTags(tags: set<Tag>, primary: UserId, secondary: UserId): set<Tag> {
    set x | x in tags && (x.user == secondary ==> !HasNamesake(tags, primary, x.name)) ::
      if x.user == secondary then MovedTag(x, primary) else x
  }

  ghost function Repointed(tags: set<Tag>, primary: UserId, secondary: UserId, a: Link): Link {
    if a.user == secondary then a.(tag := Destination(tags, primary, secondary, a.tag)) else a
  }

  ghost function MergedLink(tags: set<Tag>, primary: UserId, secondary: UserId, a: Link): Link {
    Repointed(tags, primary, secondary, a).(user := Owner(a.user, primary, secondary))
  }

  function Inherits(users: map<UserId, Contact>, primary: UserId, secondary: UserId): bool {
    !HasEmail(users, primary) && HasEmail(users, secondary)
  }

  predicate HasEmail(users: map<UserId, Contact>, user: UserId) {
    user in users && users[user].email.Some? && users[user].email.value != ""
  }

  function MergedUsers(users: map<UserId, Contact>, primary: UserId, secondary: UserId): map<UserId, Contact> {
    map u | u in users && u != secondary :: if u == primary && Inherits(users, primary, secondary) then users[secondary] else users[u]
  }

  ghost function Merge(t: Tables, primary: UserId, secondary: UserId): Tables {
    t.(
      notes := MovedNotes(t.notes, primary, secondary),
      versions := set v | v in t.versions :: v.(user := Owner(v.user, primary, secondary)),
      links := set a | a in t.links :: MergedLink(t.tags, primary, secondary, a),
      tags := MergedTags(t.tags, primary, secondary),
      files := MovedFiles(t.files, primary, secondary),
      identities := MovedIdentities(t.identities, primary, secondary),
      passkeys := MovedPasskeys(t.passkeys, primary, secondary),
      users := MergedUsers(t.users, primary, secondary),
      profiles := t.profiles - {secondary})
  }

  // ----- The whole call -----

  function Insert(t: Tables, row: Identity): (Tables, Outcome) {
    if exists i :: i in t.identities && (i.id == row.id || (i.provider == row.provider && i.subject == row.subject))
    then (t, Failed(Duplicate))
    else (t.(identities := t.identities + {row}), Linked)
  }

  predicate OwnedBy(t: Tables, provider: string, subject: string, user: UserId) {
    exists i :: i in t.identities && i.provider == provider && i.subject == subject && i.user == user
  }

  predicate Unclaimed(t: Tables, provider: string, subject: string) {
    forall i :: i in t.identities ==> !(i.provider == provider && i.subject == subject)
  }

  /** A failed call leaves every table alone, and a call that succeeds does one of three things. */
  ghost predicate LinkResult(t: Tables, primary: UserId, row: Identity, seen: Option<UserId>, generation: nat,
                             after: Tables, outcome: Outcome) {
    var state := StateOf(t, primary);
    var secondary := if seen.Some? then seen.value else primary;
    if seen == Some(primary) then after == t && outcome == Linked
    else if state.rotating || StateOf(t, secondary).rotating then after == t && outcome == Failed(RotationInProgress)
    else if state.generation != generation then after == t && outcome == Failed(GenerationMismatch)
    else if seen.None? || Unclaimed(t, row.provider, row.subject) then (after, outcome) == Insert(t, row)
    else if OwnedBy(t, row.provider, row.subject, primary) then after == t && outcome == Linked
    else if !OwnedBy(t, row.provider, row.subject, secondary) then after == t && outcome == Failed(AlreadyLinked)
    else if Fence(t, primary, secondary).Some? then after == t && outcome == Failed(Fence(t, primary, secondary).value)
    else after == Merge(t, primary, secondary) && outcome == Linked
  }

  // ----- Half way through the tags -----

  predicate Pending(todo: set<Tag>, id: Id) {
    exists x :: x in todo && x.id == id
  }

  /** The tags when those of the secondary account in `todo` are still to be handled. */
  ghost function TagsSoFar(tags: set<Tag>, primary: UserId, secondary: UserId, todo: set<Tag>): set<Tag> {
    set x | x in tags && (x.user == secondary && x !in todo ==> !HasNamesake(tags, primary, x.name)) ::
      if x.user == secondary && x !in todo then MovedTag(x, primary) else x
  }

  ghost function LinkSoFar(tags: set<Tag>, primary: UserId, secondary: UserId, todo: set<Tag>, a: Link): Link {
    if Pending(todo, a.tag) then a else Repointed(tags, primary, secondary, a)
  }

  ghost function LinksSoFar(links: set<Link>, tags: set<Tag>, primary: UserId, secondary: UserId, todo: set<Tag>): set<Link> {
    set a | a in links :: LinkSoFar(tags, primary, secondary, todo, a)
  }

  function RepointLink(a: Link, user: UserId, from: Id, to: Id): Link {
    if a.user == user && a.tag == from then a.(tag := to) else a
  }

  function RepointLinks(links: set<Link>, user: UserId, from: Id, to: Id): set<Link> {
    set a | a in links :: RepointLink(a, user, from, to)
  }

  function DropTag(tags: set<Tag>, id: Id): set<Tag> {
    set x | x in tags && x.id != id
  }

  function DropLinks(links: set<Link>, tag: Id): set<Link> {
    set a | a in links && a.tag != tag
  }

  function GiveTags(tags: set<Tag>, id: Id, user: UserId): set<Tag> {
    set x | x in tags :: if x.id == id then MovedTag(x, user) else x
  }

  ghost function SoFar(t: Tables, primary: UserId, secondary: UserId, todo: set<Tag>): Tables {
    t.(tags := TagsSoFar(t.tags, primary, secondary, todo), links := LinksSoFar(t.links, t.tags, primary, secondary, todo))
  }

  ghost predicate Fits(tags: set<Tag>, secondary: UserId, todo: set<Tag>) {
    forall x :: x in todo ==> x in tags && x.user == secondary
  }

  ghost predicate HoldsTag(tags: set<Tag>, id: Id, user: UserId, name: string) {
    exists y :: y in tags && y.id == id && y.user == user && y.name == name
  }

  lemma DestinationOf(tags: set<Tag>, primary: UserId, secondary: UserId, x: Tag)
    requires TagsKeyed(tags) && primary != secondary && x in tags && x.user == secondary
    ensures HasNamesake(tags, primary, x.name)
      ==> HoldsTag(tags, Destination(tags, primary, secondary, x.id), primary, x.name)
    ensures !HasNamesake(tags, primary, x.name) ==> Destination(tags, primary, secondary, x.id) == x.id
  {
  }

  /** The destination belongs to the primary account in the end and carries the same name. */
  lemma DestinationNamesake(tags: set<Tag>, primary: UserId, secondary: UserId, x: Tag)
    requires TagsKeyed(tags) && primary != secondary && x in tags && x.user == secondary
    ensures HoldsTag(MergedTags(tags, primary, secondary), Destination(tags, primary, secondary, x.id), primary, x.name)
  {
    DestinationOf(tags, primary, secondary, x);
    var merged := MergedTags(tags, primary, secondary);
    if HasNamesake(tags, primary, x.name) {
      var d :| d in tags && d.id == Destination(tags, primary, secondary, x.id) && d.user == primary && d.name == x.name;
      assert d in merged;
    } else {
      assert MovedTag(x, primary) in merged;
    }
  }

  // ----- One turn of the loop -----

  /** A tag without a namesake changes owner and no link needs to move. */
  lemma MoveOne(t: Tables, primary: UserId, secondary: UserId, todo: set<Tag>, x: Tag)
    requires TagsKeyed(t.tags) && primary != secondary && Fits(t.tags, secondary, todo) && x in todo
    requires !HasNamesake(t.tags, primary, x.name)
    ensures TagsSoFar(t.tags, primary, secondary, todo - {x})
         == GiveTags(TagsSoFar(t.tags, primary, secondary, todo), x.id, primary)
    ensures LinksSoFar(t.links, t.tags, primary, secondary, todo - {x}) == LinksSoFar(t.links, t.tags, primary, secondary, todo)
  {
  }

  lemma RepointOneLink(t: Tables, primary: UserId, secondary: UserId, todo: set<Tag>, x: Tag, d: Tag, a: Link)
    requires TagsKeyed(t.tags) && TagsOwned(t.links, t.tags) && primary != secondary
    requires Fits(t.tags, secondary, todo) && x in todo && a in t.links
    requires d in t.tags && d.user == primary && d.name == x.name
    ensures LinkSoFar(t.tags, primary, secondary, todo - {x}, a)
         == RepointLink(LinkSoFar(t.tags, primary, secondary, todo, a), secondary, x.id, d.id)
    ensures LinkSoFar(t.tags, primary, secondary, todo - {x}, a).tag != x.id
  {
  }

  /** A tag with a namesake hands over its links and goes; the cascade finds nothing left to delete. */
  lemma RepointOne(t: Tables, primary: UserId, secondary: UserId, todo: set<Tag>, x: Tag, d: Tag)
    requires TagsKeyed(t.tags) && TagsOwned(t.links, t.tags) && primary != secondary
    requires Fits(t.tags, secondary, todo) && x in todo
    requires d in t.tags && d.user == primary && d.name == x.name
    ensures TagsSoFar(t.tags, primary, secondary, todo - {x}) == DropTag(TagsSoFar(t.tags, primary, secondary, todo), x.id)
    ensures var links := RepointLinks(LinksSoFar(t.links, t.tags, primary, secondary, todo), secondary, x.id, d.id);
      LinksSoFar(t.links, t.tags, primary, secondary, todo - {x}) == links == DropLinks(links, x.id)
  {
    DestinationOf(t.tags, primary, secondary, x);
    assert Destination(t.tags, primary, secondary, x.id) == d.id;
    forall a | a in t.links
      ensures LinkSoFar(t.tags, primary, secondary, todo - {x}, a)
           == RepointLink(LinkSoFar(t.tags, primary, secondary, todo, a), secondary, x.id, d.id)
      ensures LinkSoFar(t.tags, primary, secondary, todo - {x}, a).tag != x.id
    {
      RepointOneLink(t, primary, secondary, todo, x, d, a);
    }
  }

  // ----- Keys hold at every turn -----

  lemma TagsStayKeyed(tags: set<Tag>, primary: UserId, secondary: UserId, todo: set<Tag>)
    requires TagsKeyed(tags) && primary != secondary && Fits(tags, secondary, todo)
    ensures TagsKeyed(TagsSoFar(tags, primary, secondary, todo))
  {
  }

  /** No two links of a note ever meet on one tag: the note fence and the ownership of tags see to it. */
  lemma LinksStayKeyed(t: Tables, primary: UserId, secondary: UserId, todo: set<Tag>)
    requires Consistent(t) && primary != secondary && !NotesCollide(t.notes, primary, secondary)
    requires Fits(t.tags, secondary, todo)
    ensures LinksKeyed(LinksSoFar(t.links, t.tags, primary, secondary, todo))
  {
    forall a, b | a in t.links && b in t.links && a != b && a.note == b.note
      ensures LinkSoFar(t.tags, primary, secondary, todo, a).tag != LinkSoFar(t.tags, primary, secondary, todo, b).tag
    {
      LinksStayApart(t, primary, secondary, todo, a, b);
    }
  }

  lemma LinksStayApart(t: Tables, primary: UserId, secondary: UserId, todo: set<Tag>, a: Link, b: Link)
    requires Consistent(t) && primary != secondary && !NotesCollide(t.notes, primary, secondary)
    requires Fits(t.tags, secondary, todo)
    requires a in t.links && b in t.links && a != b && a.note == b.note
    ensures LinkSoFar(t.tags, primary, secondary, todo, a).tag != LinkSoFar(t.tags, primary, secondary, todo, b).tag
  {
  }
}
