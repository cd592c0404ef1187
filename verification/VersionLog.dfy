/** The version log of a note: what an edit or a restore records, what the cap drops, and what runs of both keep. */
module VersionLog {
  import opened Wrappers

  type Id = string
  type Key = (string, Id)

  const MAX_VERSIONS: nat := 10
  const VERSION_COMPRESSION_WINDOW_MS: int := 5 * 60 * 1000
  const EXPIRY_GRACE_MS: int := 3600000

  /** `content` is the text of a note or the sealed body of the other tiers. */
  datatype Head = Head(title: string, content: string, updatedAt: int, expiresAt: Option<int>)
  datatype Version = Version(id: Id, number: nat, title: string, content: string, createdAt: int)

  /** The versions of each note in the order of their numbers, which one identity column hands out for all notes. */
  datatype Store = Store(heads: map<Key, Head>, versions: map<Key, seq<Version>>, nextNumber: nat)

  datatype Outcome = Done(head: Head) | Missing | Duplicate

  /** Notes and Secrets skip an edit that changes nothing; a Seal writes it through but records no version. */
  datatype Kind = Plain | Sealed
  datatype Edit = Edit(changed: bool, snapshot: bool)

  function Compute(kind: Kind, head: Head, title: string, content: string): Edit {
    var same := head.title == title && head.content == content;
    match kind
    case Plain => Edit(!same, true)
    case Sealed => Edit(true, !same)
  }

  function Log(s: Store, key: Key): seq<Version> {
    if key in s.versions then s.versions[key] else []
  }

  predicate ShouldRecordVersion(hasVersions: bool, snapshotCreatedAt: int, now: int) {
    !hasVersions || now - snapshotCreatedAt >= VERSION_COMPRESSION_WINDOW_MS
  }

  /** The newest rows a log may hold. */
  function Newest(log: seq<Version>): seq<Version> {
    if |log| <= MAX_VERSIONS then log else log[|log| - MAX_VERSIONS..]
  }

  predicate IdTaken(s: Store, id: Id) {
    exists k :: k in s.versions && exists v :: v in s.versions[k] && v.id == id
  }

  function SnapshotOf(head: Head, id: Id, number: nat): Version {
    Version(id, number, head.title, head.content, head.updatedAt)
  }

  function Record(s: Store, key: Key, v: Version): Store {
    s.(versions := s.versions[key := Newest(Log(s, key) + [v])], nextNumber := s.nextNumber + 1)
  }

  /** The head's new content, stamped with the time it was saved. */
  function SetHead(s: Store, key: Key, title: string, content: string, saved: int): Store
    requires key in s.heads
  {
    s.(heads := s.heads[key := s.heads[key].(title := title, content := content, updatedAt := saved)])
  }

  /** `checked` is when the window is measured, `saved` when the head is written. */
  function Update(s: Store, key: Key, kind: Kind, title: string, content: string, checked: int, saved: int, id: Id): (Store, Outcome) {
    if key !in s.heads then (s, Missing)
    else
      var head := s.heads[key];
      var edit := Compute(kind, head, title, content);
      if !edit.changed then (s, Done(head))
      else if edit.snapshot && ShouldRecordVersion(Log(s, key) != [], head.updatedAt, checked) then
        if IdTaken(s, id) then (s, Duplicate)
        else
          var after := SetHead(Record(s, key, SnapshotOf(head, id, s.nextNumber)), key, title, content, saved);
          (after, Done(after.heads[key]))
      else
        var after := SetHead(s, key, title, content, saved);
        (after, Done(after.heads[key]))
  }

  function Find(log: seq<Version>, id: Id): Option<Version> {
    if log == [] then None else if log[0].id == id then Some(log[0]) else Find(log[1..], id)
  }

  function Restore(s: Store, key: Key, versionId: Id, saved: int, id: Id): (Store, Outcome) {
    if key !in s.heads || Find(Log(s, key), versionId).None? then (s, Missing)
    else if IdTaken(s, id) then (s, Duplicate)
    else
      var version := Find(Log(s, key), versionId).value;
      var recorded := Record(s, key, SnapshotOf(s.heads[key], id, s.nextNumber));
      var after := SetHead(recorded, key, version.title, version.content, saved);
      (after, Done(after.heads[key]))
  }

  function Drop(log: seq<Version>, id: Id): seq<Version> {
    if log == [] then [] else (if log[0].id == id then [] else [log[0]]) + Drop(log[1..], id)
  }

  predicate Active(head: Head, now: int) {
    head.expiresAt.None? || head.expiresAt.value > now - EXPIRY_GRACE_MS
  }

  function DeleteVersion(s: Store, key: Key, versionId: Id, now: int): (Store, Outcome) {
    if key !in s.heads || !Active(s.heads[key], now) then (s, Missing)
    else (s.(versions := s.versions[key := Drop(Log(s, key), versionId)]), Done(s.heads[key]))
  }

  // ----- The cap -----

  ghost predicate Increasing(log: seq<Version>) {
    forall i, j :: 0 <= i < j < |log| ==> log[i].number < log[j].number
  }

  /** How many rows are newer than `v`: the rank by which the cap decides. */
  function Newer(log: seq<Version>, v: Version): nat {
    |set x | x in log && x.number > v.number|
  }

  lemma {:induction false} RankInOrder(log: seq<Version>, i: nat)
    requires Increasing(log) && i < |log|
    ensures Newer(log, log[i]) == |log| - 1 - i
    decreases |log| - i
  {
    var newer := set x | x in log && x.number > log[i].number;
    if i == |log| - 1 {
      assert newer == {};
    } else {
      RankInOrder(log, i + 1);
      var fewer := set x | x in log && x.number > log[i + 1].number;
      forall x
        ensures x in newer <==> x in fewer || x == log[i + 1]
      {
        if x in newer {
          var j :| 0 <= j < |log| && log[j] == x;
        }
      }
      assert newer == fewer + {log[i + 1]};
    }
  }

  /** Keeping the rows with fewer than the maximum newer ones is dropping the oldest beyond it. */
  lemma NewestByRank(log: seq<Version>, v: Version)
    requires Increasing(log) && v in log
    ensures v in Newest(log) <==> Newer(log, v) < MAX_VERSIONS
  {
    var i :| 0 <= i < |log| && log[i] == v;
    RankInOrder(log, i);
    if |log| > MAX_VERSIONS {
      var newest, cut := Newest(log), |log| - MAX_VERSIONS;
      assert i >= cut ==> newest[i - cut] == v;
      if v in newest {
        var j :| 0 <= j < |newest| && newest[j] == v;
        assert log[j + cut] == v;
      }
    }
  }
}
