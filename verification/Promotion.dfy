/**
 * Moving an item up a tier, from Note to Secret or from Secret to Seal: the checks on what the client supplies, and
 * what the transaction leaves behind.
 */
module Promotion {
  import opened Sets
  import opened Wrappers

  type Id = string
  type UserId = string

  const POSITION_STEP: real := 1000.0

  datatype Tier = Note | Secret | Seal
  datatype Scope = VaultKey | SealKey

  /** Every table of items or files is keyed by owner and id. */
  type Key = (UserId, Id)

  /** `meta` stands for the creation time and the archived, colour, pattern and pinned columns. */
  datatype Item = Item(title: string, updatedAt: int, deleted: bool, burn: bool, expiresAt: Option<int>, meta: string,
                       position: real, body: Option<string>, wrappedKey: Option<string>)
  datatype Version = Version(id: Id, owner: Key, title: string, createdAt: int, body: Option<string>)
  datatype Link = Link(owner: Key, tag: Id, order: int)
  datatype File = File(item: Option<Id>, tier: Option<Tier>, encrypted: bool, scope: Scope, keyItem: Option<Id>,
                       deleted: bool, content: string)

  /** The three tables of a tier; versions stand in the order of their sequence numbers. */
  datatype Shelf = Shelf(items: map<Key, Item>, versions: seq<Version>, links: set<Link>)

  datatype State = State(generation: nat, rotating: bool)
  datatype Tables = Tables(note: Shelf, secret: Shelf, seal: Shelf, files: map<Key, File>, states: map<UserId, State>)

  datatype Replacement = Replacement(source: Id, encrypted: Id)
  datatype Supplied = Supplied(id: Id, body: Option<string>)

  /** What the client sends; an unreadable time never equals a stored one. */
  datatype Input = Input(id: Id, expected: Option<int>, body: Option<string>, wrappedKey: Option<string>,
                         versions: seq<Supplied>, files: seq<Replacement>)

  datatype Error = RotationInProgress | GenerationMismatch | NotFound | BurnArmed | Conflict | InvalidFiles | Duplicate
  datatype Outcome = Promoted(id: Id, meta: string, generation: nat) | Failed(error: Error)

  // ----- Exactly one replacement for each source file -----

  function Sources(rs: seq<Replacement>): (ids: seq<Id>)
    ensures |ids| == |rs| && forall i :: 0 <= i < |rs| ==> ids[i] == rs[i].source
  {
    seq(|rs|, i requires 0 <= i < |rs| => rs[i].source)
  }

  function Encrypted(rs: seq<Replacement>): (ids: seq<Id>)
    ensures |ids| == |rs| && forall i :: 0 <= i < |rs| ==> ids[i] == rs[i].encrypted
  {
    seq(|rs|, i requires 0 <= i < |rs| => rs[i].encrypted)
  }

  /** Three comparisons of sizes and one search. The query lists each source once, by its key; the map's keys are the sources. */
  predicate AcceptsReplacements(sourceIds: set<Id>, rs: seq<Replacement>) {
    && |Elements(Sources(rs))| == |rs|
    && |Elements(Encrypted(rs))| == |Encrypted(rs)|
    && |sourceIds| == |rs|
    && forall id :: id in sourceIds ==> id in Elements(Sources(rs))
  }

  /** The replacements pair the source files off one to one with distinct encrypted files. */
  ghost predicate Bijection(sourceIds: set<Id>, rs: seq<Replacement>) {
    && Distinct(Sources(rs)) && Distinct(Encrypted(rs))
    && Elements(Sources(rs)) == sourceIds
  }

  /** The size comparisons accept exactly the bijections. */
  lemma AcceptedIffBijection(sourceIds: set<Id>, rs: seq<Replacement>)
    ensures AcceptsReplacements(sourceIds, rs) <==> Bijection(sourceIds, rs)
  {
    SizeOfElements(Sources(rs));
    SizeOfElements(Encrypted(rs));
    if AcceptsReplacements(sourceIds, rs) {
      FullSubset(sourceIds, Elements(Sources(rs)));
    }
  }

  function VersionIds(vs: seq<Supplied>): (ids: seq<Id>)
    ensures |ids| == |vs| && forall i :: 0 <= i < |vs| ==> ids[i] == vs[i].id
  {
    seq(|vs|, i requires 0 <= i < |vs| => vs[i].id)
  }

  predicate AcceptsVersions(storedIds: seq<Id>, supplied: seq<Supplied>) {
    && |Elements(VersionIds(supplied))| == |VersionIds(supplied)|
    && |storedIds| == |VersionIds(supplied)|
    && forall i :: 0 <= i < |storedIds| ==> storedIds[i] == VersionIds(supplied)[i]
  }

  /** Accepted exactly when the client supplied the stored history, version by version. */
  lemma AcceptedIffSameHistory(storedIds: seq<Id>, supplied: seq<Supplied>)
    requires Distinct(storedIds)
    ensures AcceptsVersions(storedIds, supplied) <==> VersionIds(supplied) == storedIds
  {
    SizeOfElements(VersionIds(supplied));
  }

  // ----- The tables -----

  function Get(t: Tables, tier: Tier): Shelf {
    match tier
    case Note => t.note
    case Secret => t.secret
    case Seal => t.seal
  }

  function Put(t: Tables, tier: Tier, shelf: Shelf): Tables {
    match tier
    case Note => t.(note := shelf)
    case Secret => t.(secret := shelf)
    case Seal => t.(seal := shelf)
  }

  function Next(tier: Tier): Tier {
    if tier == Note then Secret else Seal
  }

  /** The versions of one item, oldest first. */
  function History(versions: seq<Version>, owner: Key): (h: seq<Version>)
    ensures forall i :: 0 <= i < |h| ==> h[i].owner == owner
  {
    if versions == [] then []
    else (if versions[0].owner == owner then [versions[0]] else []) + History(versions[1..], owner)
  }

  function WithoutHistory(versions: seq<Version>, owner: Key): seq<Version> {
    if versions == [] then []
    else (if versions[0].owner == owner then [] else [versions[0]]) + WithoutHistory(versions[1..], owner)
  }

  function IdsOf(versions: seq<Version>): (ids: seq<Id>)
    ensures |ids| == |versions| && forall i :: 0 <= i < |ids| ==> ids[i] == versions[i].id
  {
    seq(|versions|, i requires 0 <= i < |versions| => versions[i].id)
  }

  predicate IsSource(f: File, id: Id, tier: Tier) {
    f.item == Some(id) && f.tier == Some(tier) && !f.deleted
  }

  function SourceFiles(files: map<Key, File>, user: UserId, id: Id, tier: Tier): set<Id> {
    set k | k in files && k.0 == user && IsSource(files[k], id, tier) :: k.1
  }

  /** A Note hands over its plaintext files only, a Secret all of them. */
  function ToReplace(files: map<Key, File>, user: UserId, id: Id, tier: Tier): set<Id> {
    set k | k in files && k.0 == user && IsSource(files[k], id, tier) && (tier == Note ==> !files[k].encrypted) :: k.1
  }

  /** An unlinked upload under the key the destination decrypts with. */
  predicate Suitable(f: File, id: Id, tier: Tier) {
    && f.item == None && f.tier == None && !f.deleted && f.encrypted
    && if Next(tier) == Secret then f.scope == VaultKey else f.scope == SealKey && f.keyItem == Some(id)
  }

  function Suited(files: map<Key, File>, user: UserId, ids: seq<Id>, id: Id, tier: Tier): set<Id> {
    set x | x in ids && (user, x) in files && Suitable(files[(user, x)], id, tier)
  }

  // ----- The checks, in their order -----

  function Gate(t: Tables, user: UserId, generation: Option<nat>): Option<Error> {
    var state := if user in t.states then t.states[user] else State(0, false);
    if state.rotating then Some(RotationInProgress)
    else if generation.None? && state.generation != 0 then Some(GenerationMismatch)
    else if generation.Some? && generation.value != state.generation then Some(GenerationMismatch)
    else None
  }

  /** Version ids are global. */
  predicate Taken(versions: seq<Version>, ids: seq<Id>) {
    exists v :: v in versions && v.id in ids
  }

  /** The key of a link leaves the owner of the item out. */
  predicate Clash(links: set<Link>, others: set<Link>, owner: Key) {
    exists a :: a in links && a.owner == owner && exists b :: b in others && b.owner.1 == owner.1 && b.tag == a.tag
  }

  function Refusal(t: Tables, tier: Tier, user: UserId, input: Input, generation: Option<nat>): Option<Error>
    requires tier != Seal
  {
    var (from, to, owner) := (Get(t, tier), Get(t, Next(tier)), (user, input.id));
    var history := History(from.versions, owner);
    var encryptedIds := Encrypted(input.files);
    if Gate(t, user, generation).Some? then Gate(t, user, generation)
    else if owner !in from.items || from.items[owner].deleted then Some(NotFound)
    else if from.items[owner].burn && from.items[owner].expiresAt.Some? then Some(BurnArmed)
    else if input.expected != Some(from.items[owner].updatedAt) then Some(Conflict)
    else if owner in to.items then Some(Conflict)
    else if !AcceptsVersions(IdsOf(history), input.versions) then Some(Conflict)
    else if !AcceptsReplacements(ToReplace(t.files, user, input.id, tier), input.files) then Some(InvalidFiles)
    else if encryptedIds != [] && tier == Secret && input.wrappedKey == None then Some(InvalidFiles)
    else if encryptedIds != [] && |Suited(t.files, user, encryptedIds, input.id, tier)| != |encryptedIds| then Some(InvalidFiles)
    else if Taken(to.versions, IdsOf(history)) || Clash(from.links, to.links, owner) then Some(Duplicate)
    else None
  }

  // ----- What a promotion leaves -----

  /** The last body supplied under each id. */
  function ById(vs: seq<Supplied>): map<Id, Option<string>> {
    if vs == [] then map[] else ById(vs[..|vs| - 1])[vs[|vs| - 1].id := vs[|vs| - 1].body]
  }

  function Reencrypted(history: seq<Version>, bodies: map<Id, Option<string>>): (h: seq<Version>)
    ensures |h| == |history|
  {
    seq(|history|, i requires 0 <= i < |history| =>
      history[i].(body := if history[i].id in bodies then bodies[history[i].id] else None))
  }

  /** The position of the topmost live item, or zero. */
  ghost predicate IsTop(items: map<Key, Item>, user: UserId, top: real) {
    if forall k :: k in items && k.0 == user ==> items[k].deleted then top == 0.0
    else
      && (exists k :: k in items && k.0 == user && !items[k].deleted && items[k].position == top)
      && (forall k :: k in items && k.0 == user && !items[k].deleted ==> items[k].position <= top)
  }

  ghost predicate IsRaised(items: map<Key, Item>, user: UserId, position: real) {
    IsTop(items, user, position - POSITION_STEP)
  }

  function Raised(item: Item, input: Input, tier: Tier, position: real): Item {
    item.(body := input.body, position := position, deleted := false,
          wrappedKey := if Next(tier) == Seal then input.wrappedKey else None)
  }

  function Relabel(f: File, k: Key, user: UserId, input: Input, tier: Tier): File {
    if k.0 != user then f
    else if k.1 in Encrypted(input.files) then f.(item := Some(input.id), tier := Some(Next(tier)))
    else if !IsSource(f, input.id, tier) then f
    else if tier == Note && f.encrypted then f.(tier := Some(Secret))
    else f.(deleted := true)
  }

  function Relabelled(files: map<Key, File>, user: UserId, input: Input, tier: Tier): map<Key, File> {
    map k | k in files :: Relabel(files[k], k, user, input, tier)
  }

  /** Deleting an item takes its versions and links along. */
  function Delete(shelf: Shelf, owner: Key): Shelf {
    Shelf(shelf.items - {owner}, WithoutHistory(shelf.versions, owner), set a | a in shelf.links && a.owner != owner)
  }

  function Given(shelf: Shelf, owner: Key, item: Item, history: seq<Version>, links: set<Link>): Shelf {
    Shelf(shelf.items[owner := item], shelf.versions + history, shelf.links + links)
  }

  function Promote(t: Tables, tier: Tier, user: UserId, input: Input, position: real): Tables
    requires tier != Seal && (user, input.id) in Get(t, tier).items
  {
    var (from, owner) := (Get(t, tier), (user, input.id));
    var given := Given(Get(t, Next(tier)), owner, Raised(from.items[owner], input, tier, position),
                       Reencrypted(History(from.versions, owner), ById(input.versions)),
                       set a | a in from.links && a.owner == owner);
    Put(Put(t, Next(tier), given), tier, Delete(from, owner)).(files := Relabelled(t.files, user, input, tier))
  }
}
