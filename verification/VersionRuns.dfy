/** What every run of edits, restores and deletions keeps of a version log. */
module VersionRuns {
  import opened VersionLog
  import opened Wrappers

  datatype Action =
    | Editing(kind: Kind, title: string, content: string, checked: int, saved: int, id: Id)
    | Restoring(version: Id, saved: int, id: Id)
    | Deleting(version: Id, now: int)

  function Perform(s: Store, key: Key, a: Action): Store {
    match a
    case Editing(kind, title, content, checked, saved, id) => Update(s, key, kind, title, content, checked, saved, id).0
    case Restoring(version, saved, id) => Restore(s, key, version, saved, id).0
    case Deleting(version, now) => DeleteVersion(s, key, version, now).0
  }

  function Run(s: Store, run: seq<(Key, Action)>): Store
    decreases |run|
  {
    if run == [] then s else Run(Perform(s, run[0].0, run[0].1), run[1..])
  }

  // ----- Bounded, increasing, one id for one row -----

  ghost predicate LogHolds(log: seq<Version>, next: nat) {
    && |log| <= 10 && Increasing(log)
    && (forall i :: 0 <= i < |log| ==> log[i].number < next)
  }

  ghost predicate IdsUnique(versions: map<Key, seq<Version>>) {
    forall k, l, v, w | k in versions && l in versions && v in versions[k] && w in versions[l] ::
      v.id == w.id ==> k == l && v == w
  }

  ghost predicate Holds(s: Store) {
    forall k :: k in s.versions ==> LogHolds(s.versions[k], s.nextNumber)
  }

  lemma {:induction false} DropKeeps(log: seq<Version>, id: Id)
    ensures |Drop(log, id)| <= |log|
    ensures forall v :: v in Drop(log, id) <==> v in log && v.id != id
    ensures Increasing(log) ==> Increasing(Drop(log, id))
  {
    if log != [] {
      DropKeeps(log[1..], id);
    }
  }

  lemma RecordHolds(log: seq<Version>, next: nat, v: Version)
    requires LogHolds(log, next) && v.number == next
    ensures LogHolds(Newest(log + [v]), next + 1)
  {
  }

  lemma StepHolds(s: Store, key: Key, a: Action)
    requires Holds(s)
    ensures Holds(Perform(s, key, a)) && s.nextNumber <= Perform(s, key, a).nextNumber
  {
    var log := Log(s, key);
    match a
    case Editing(_, _, _, _, _, id) =>
      if key in s.heads {
        RecordHolds(log, s.nextNumber, SnapshotOf(s.heads[key], id, s.nextNumber));
      }
    case Restoring(_, _, id) =>
      if key in s.heads {
        RecordHolds(log, s.nextNumber, SnapshotOf(s.heads[key], id, s.nextNumber));
      }
    case Deleting(version, _) =>
      DropKeeps(log, version);
  }

  /** At most ten rows a note, in strictly increasing order, after every run. */
  lemma {:induction false} RunHolds(s: Store, run: seq<(Key, Action)>)
    requires Holds(s)
    ensures Holds(Run(s, run))
    decreases |run|
  {
    if run != [] {
      StepHolds(s, run[0].0, run[0].1);
      RunHolds(Perform(s, run[0].0, run[0].1), run[1..]);
    }
  }

  // ----- What an insert evicts, what an edit captures -----

  /** Recording adds one row at the end and drops at most one, the oldest, when the log was full. */
  lemma OnlyOldestEvicted(log: seq<Version>, next: nat, v: Version)
    requires LogHolds(log, next) && v.number == next
    ensures Newest(log + [v]) == (if |log| == 10 then log[1..] else log) + [v]
  {
  }

  /** The displaced content is the newest version exactly when it stood for the window or the history was empty. */
  lemma CapturedIff(s: Store, key: Key, kind: Kind, title: string, content: string, checked: int, saved: int, id: Id)
    requires Holds(s) && key in s.heads && !IdTaken(s, id)
    requires !(s.heads[key].title == title && s.heads[key].content == content)
    ensures var (head, log, after) := (s.heads[key], Log(s, key), Update(s, key, kind, title, content, checked, saved, id).0);
      var displaced := Version(id, s.nextNumber, head.title, head.content, head.updatedAt);
      var captured := (if |log| == 10 then log[1..] else log) + [displaced];
      var stood := log == [] || checked - head.updatedAt >= 5 * 60 * 1000;
      && after.heads[key] == head.(title := title, content := content, updatedAt := saved)
      && (stood <==> Log(after, key) == captured) && (!stood <==> Log(after, key) == log)
  {
    var log, v := Log(s, key), SnapshotOf(s.heads[key], id, s.nextNumber);
    OnlyOldestEvicted(log, s.nextNumber, v);
    assert (log + [v])[|log|] == v;
    assert Newest(log + [v])[|Newest(log + [v])| - 1] == v;
  }

  // ----- A burst of saves counts as one version -----

  /** A save of a burst: it comes before the previous one has stood for the window. */
  datatype Save = Save(title: string, content: string, checked: int, saved: int, id: Id)

  function SaveAll(s: Store, key: Key, saves: seq<Save>): Store
    decreases |saves|
  {
    if saves == [] then s
    else SaveAll(Update(s, key, Plain, saves[0].title, saves[0].content, saves[0].checked, saves[0].saved, saves[0].id).0, key, saves[1..])
  }

  ghost predicate Burst(head: Head, saves: seq<Save>)
    decreases |saves|
  {
    saves == [] ||
    (var x := saves[0];
     && !(x.title == head.title && x.content == head.content)
     && x.checked - head.updatedAt < VERSION_COMPRESSION_WINDOW_MS
     && Burst(head.(title := x.title, content := x.content, updatedAt := x.saved), saves[1..]))
  }

  function Final(head: Head, saves: seq<Save>): Head {
    if saves == [] then head
    else head.(title := saves[|saves| - 1].title, content := saves[|saves| - 1].content, updatedAt := saves[|saves| - 1].saved)
  }

  /** However long a burst, it records nothing while it lasts... */
  lemma {:induction false} BurstIsSilent(s: Store, key: Key, saves: seq<Save>)
    requires key in s.heads && Log(s, key) != [] && Burst(s.heads[key], saves)
    ensures SaveAll(s, key, saves) == s.(heads := s.heads[key := Final(s.heads[key], saves)])
    decreases |saves|
  {
    if saves != [] {
      var x := saves[0];
      var next := Update(s, key, Plain, x.title, x.content, x.checked, x.saved, x.id).0;
      BurstIsSilent(next, key, saves[1..]);
      assert Final(next.heads[key], saves[1..]) == Final(s.heads[key], saves);
      assert next.heads[key := Final(next.heads[key], saves[1..])] == s.heads[key := Final(s.heads[key], saves)];
    } else {
      assert s.heads[key := s.heads[key]] == s.heads;
    }
  }

  /** ...and the first save after a pause records its final state, alone. */
  lemma BurstCountsOnce(s: Store, key: Key, saves: seq<Save>, x: Save)
    requires Holds(s) && key in s.heads && Log(s, key) != [] && Burst(s.heads[key], saves) && !IdTaken(s, x.id)
    requires var last := Final(s.heads[key], saves);
      !(x.title == last.title && x.content == last.content) && x.checked - last.updatedAt >= VERSION_COMPRESSION_WINDOW_MS
    ensures Log(SaveAll(SaveAll(s, key, saves), key, [x]), key)
         == Newest(Log(s, key) + [SnapshotOf(Final(s.heads[key], saves), x.id, s.nextNumber)])
  {
    BurstIsSilent(s, key, saves);
    var calm := SaveAll(s, key, saves);
    assert Log(calm, key) == Log(s, key);
    assert SaveAll(calm, key, [x]) == Update(calm, key, Plain, x.title, x.content, x.checked, x.saved, x.id).0;
  }

  // ----- A restore can be undone -----

  lemma NewestIn(log: seq<Version>, v: Version, w: Version)
    requires w in Newest(log + [v])
    ensures w == v || w in log
  {
  }

  lemma LogIdsUnique(versions: map<Key, seq<Version>>, key: Key, log: seq<Version>, added: Option<Version>)
    requires IdsUnique(versions)
    requires forall w :: w in log ==> added == Some(w) || (key in versions && w in versions[key])
    requires added.Some? ==> forall k, v :: k in versions && v in versions[k] ==> v.id != added.value.id
    ensures IdsUnique(versions[key := log])
  {
  }

  lemma RecordIdsUnique(s: Store, key: Key, v: Version)
    requires IdsUnique(s.versions) && !IdTaken(s, v.id)
    ensures IdsUnique(Record(s, key, v).versions)
  {
    var log := Newest(Log(s, key) + [v]);
    forall w | w in log
      ensures w == v || (key in s.versions && w in s.versions[key])
    {
      NewestIn(Log(s, key), v, w);
    }
    LogIdsUnique(s.versions, key, log, Some(v));
  }

  lemma DropIdsUnique(s: Store, key: Key, id: Id)
    requires IdsUnique(s.versions)
    ensures IdsUnique(s.versions[key := Drop(Log(s, key), id)])
  {
    DropKeeps(Log(s, key), id);
    LogIdsUnique(s.versions, key, Drop(Log(s, key), id), None);
  }

  lemma StepIdsUnique(s: Store, key: Key, a: Action)
    requires IdsUnique(s.versions)
    ensures IdsUnique(Perform(s, key, a).versions)
  {
    if key in s.heads {
      match a
      case Editing(_, _, _, _, _, id) =>
        if !IdTaken(s, id) {
          RecordIdsUnique(s, key, SnapshotOf(s.heads[key], id, s.nextNumber));
        }
      case Restoring(_, _, id) =>
        if !IdTaken(s, id) {
          RecordIdsUnique(s, key, SnapshotOf(s.heads[key], id, s.nextNumber));
        }
      case Deleting(version, _) =>
        DropIdsUnique(s, key, version);
    }
  }

  lemma {:induction false} FindOnly(log: seq<Version>, v: Version)
    requires v in log && forall w :: w in log && w.id == v.id ==> w == v
    ensures Find(log, v.id) == Some(v)
  {
    if log[0] != v {
      FindOnly(log[1..], v);
    }
  }

  /** `v` is in the log with at most `d` rows after it. */
  ghost predicate Within(log: seq<Version>, v: Version, d: nat) {
    exists i :: 0 <= i < |log| && log[i] == v && |log| - 1 - i <= d
  }

  lemma {:induction false} DropWithin(log: seq<Version>, id: Id, v: Version, d: nat)
    requires Within(log, v, d) && v.id != id
    ensures Within(Drop(log, id), v, d)
  {
    var i :| 0 <= i < |log| && log[i] == v && |log| - 1 - i <= d;
    var rest := Drop(log[1..], id);
    if i == 0 {
      DropKeeps(log[1..], id);
      assert Drop(log, id)[0] == v;
    } else {
      assert log[1..][i - 1] == v;
      DropWithin(log[1..], id, v, d);
      var j :| 0 <= j < |rest| && rest[j] == v && |rest| - 1 - j <= d;
      assert Drop(log, id)[j + if log[0].id == id then 0 else 1] == v;
    }
  }

  lemma RecordWithin(log: seq<Version>, next: nat, x: Version, v: Version, d: nat)
    requires LogHolds(log, next) && x.number == next && Within(log, v, d) && d < MAX_VERSIONS - 1
    ensures Within(Newest(log + [x]), v, d + 1)
  {
    OnlyOldestEvicted(log, next, x);
    var i :| 0 <= i < |log| && log[i] == v && |log| - 1 - i <= d;
    var after := Newest(log + [x]);
    assert after[if |log| == MAX_VERSIONS then i - 1 else i] == v;
  }

  /** Whether the step adds a row to the log of `key`. */
  predicate Records(s: Store, key: Key, step: (Key, Action)) {
    step.0 == key && Perform(s, step.0, step.1).nextNumber != s.nextNumber
  }

  function Recordings(s: Store, key: Key, run: seq<(Key, Action)>): nat
    decreases |run|
  {
    if run == [] then 0
    else (if Records(s, key, run[0]) then 1 else 0) + Recordings(Perform(s, run[0].0, run[0].1), key, run[1..])
  }

  ghost predicate Undeleted(key: Key, id: Id, run: seq<(Key, Action)>) {
    forall i :: 0 <= i < |run| && run[i].0 == key && run[i].1.Deleting? ==> run[i].1.version != id
  }

  lemma StepWithin(s: Store, key: Key, step: (Key, Action), v: Version, d: nat)
    requires Holds(s) && Within(Log(s, key), v, d) && d + (if Records(s, key, step) then 1 else 0) < MAX_VERSIONS
    requires step.0 == key && step.1.Deleting? ==> step.1.version != v.id
    ensures Within(Log(Perform(s, step.0, step.1), key), v, d + if Records(s, key, step) then 1 else 0)
  {
    if step.0 == key && key in s.heads {
      match step.1
      case Editing(_, _, _, _, _, id) =>
        if Records(s, key, step) {
          RecordWithin(Log(s, key), s.nextNumber, SnapshotOf(s.heads[key], id, s.nextNumber), v, d);
        }
      case Restoring(_, _, id) =>
        if Records(s, key, step) {
          RecordWithin(Log(s, key), s.nextNumber, SnapshotOf(s.heads[key], id, s.nextNumber), v, d);
        }
      case Deleting(version, _) =>
        DropWithin(Log(s, key), version, v, d);
    }
  }

  /** A row outlives any run that records fewer than ten further versions of its note and does not delete it. */
  lemma {:induction false} RowSurvives(s: Store, key: Key, run: seq<(Key, Action)>, v: Version, d: nat)
    requires Holds(s) && IdsUnique(s.versions) && Within(Log(s, key), v, d) && d + Recordings(s, key, run) < MAX_VERSIONS
    requires Undeleted(key, v.id, run)
    ensures Within(Log(Run(s, run), key), v, d + Recordings(s, key, run)) && IdsUnique(Run(s, run).versions) && Holds(Run(s, run))
    decreases |run|
  {
    if run != [] {
      StepHolds(s, run[0].0, run[0].1);
      StepIdsUnique(s, run[0].0, run[0].1);
      StepWithin(s, key, run[0], v, d);
      var more := d + if Records(s, key, run[0]) then 1 else 0;
      RowSurvives(Perform(s, run[0].0, run[0].1), key, run[1..], v, more);
    }
  }

  lemma {:induction false} HeadStays(s: Store, run: seq<(Key, Action)>, key: Key)
    requires key in s.heads
    ensures key in Run(s, run).heads
    decreases |run|
  {
    if run != [] {
      HeadStays(Perform(s, run[0].0, run[0].1), run[1..], key);
    }
  }

  lemma FoundAfter(s: Store, key: Key, run: seq<(Key, Action)>, v: Version)
    requires Holds(s) && IdsUnique(s.versions) && key in s.heads && Within(Log(s, key), v, 0)
    requires Recordings(s, key, run) < MAX_VERSIONS && Undeleted(key, v.id, run)
    ensures key in Run(s, run).heads && Find(Log(Run(s, run), key), v.id) == Some(v)
  {
    RowSurvives(s, key, run, v, 0);
    HeadStays(s, run, key);
    FindOnly(Log(Run(s, run), key), v);
  }

  /** A restore leaves the displaced head as the newest version, whatever the window says. */
  lemma RestoreCaptures(s: Store, key: Key, version: Id, saved: int, id: Id)
    requires Holds(s) && IdsUnique(s.versions) && Restore(s, key, version, saved, id).1.Done?
    ensures var mid := Restore(s, key, version, saved, id).0;
      && Within(Log(mid, key), SnapshotOf(s.heads[key], id, s.nextNumber), 0)
      && Holds(mid) && IdsUnique(mid.versions) && key in mid.heads
  {
    var v := SnapshotOf(s.heads[key], id, s.nextNumber);
    OnlyOldestEvicted(Log(s, key), s.nextNumber, v);
    var log := Log(Restore(s, key, version, saved, id).0, key);
    assert log[|log| - 1] == v;
    StepHolds(s, key, Restoring(version, saved, id));
    StepIdsUnique(s, key, Restoring(version, saved, id));
  }

  /**
   * Restoring the snapshot a restore recorded brings the title and text back exactly, even after a run of other edits,
   * restores and deletions, as long as it recorded fewer than ten versions of the note and kept the snapshot.
   */
  lemma RestoreIsReversible(s: Store, key: Key, version: Id, saved: int, id: Id, run: seq<(Key, Action)>, later: int, newId: Id)
    requires Holds(s) && IdsUnique(s.versions) && Restore(s, key, version, saved, id).1.Done?
    requires var mid := Restore(s, key, version, saved, id).0;
      Recordings(mid, key, run) < MAX_VERSIONS && Undeleted(key, id, run) && !IdTaken(Run(mid, run), newId)
    ensures var (after, outcome) := Restore(Run(Restore(s, key, version, saved, id).0, run), key, id, later, newId);
      outcome.Done? && after.heads[key].title == s.heads[key].title && after.heads[key].content == s.heads[key].content
  {
    RestoreCaptures(s, key, version, saved, id);
    FoundAfter(Restore(s, key, version, saved, id).0, key, run, SnapshotOf(s.heads[key], id, s.nextNumber));
  }

  // ----- What else an operation does, and does not -----

  /** Saving a Note or Secret as it is writes nothing at all; saving a Seal so only moves its time. */
  lemma UnchangedSave(s: Store, key: Key, kind: Kind, checked: int, saved: int, id: Id)
    requires key in s.heads
    ensures var (after, outcome) := Update(s, key, kind, s.heads[key].title, s.heads[key].content, checked, saved, id);
      && after.versions == s.versions && after.nextNumber == s.nextNumber && outcome.Done?
      && after.heads == if kind.Plain? then s.heads else s.heads[key := s.heads[key].(updatedAt := saved)]
  {
  }

  /** A restore sets the head to the version's title and text, saved now. */
  lemma RestoreTakesVersion(s: Store, key: Key, v: Version, saved: int, id: Id)
    requires Holds(s) && IdsUnique(s.versions) && key in s.heads && v in Log(s, key) && !IdTaken(s, id)
    ensures var (after, outcome) := Restore(s, key, v.id, saved, id);
      outcome.Done? && after.heads == s.heads[key := s.heads[key].(title := v.title, content := v.content, updatedAt := saved)]
  {
    FindOnly(Log(s, key), v);
  }

  lemma {:induction false} FindNone(log: seq<Version>, id: Id)
    ensures Find(log, id).None? <==> forall v :: v in log ==> v.id != id
    ensures Find(log, id).Some? ==> Find(log, id).value in log && Find(log, id).value.id == id
  {
    if log != [] && log[0].id != id {
      FindNone(log[1..], id);
      assert log == [log[0]] + log[1..];
    }
  }

  /** Nothing is restored from an id the note's history does not hold. */
  lemma RestoreNeedsVersion(s: Store, key: Key, version: Id, saved: int, id: Id)
    requires forall v :: v in Log(s, key) ==> v.id != version
    ensures Restore(s, key, version, saved, id) == (s, Missing)
  {
    FindNone(Log(s, key), version);
  }

  /**
   * A deletion goes through exactly for a note that has not been expired for an hour. Then the version is gone, whether
   * or not it was there, all others of the note are still there, and the head is as it was.
   */
  lemma DeletionRemoves(s: Store, key: Key, version: Id, now: int)
    ensures var (after, outcome) := DeleteVersion(s, key, version, now);
      && (outcome.Done? <==> key in s.heads && (s.heads[key].expiresAt.Some? ==> s.heads[key].expiresAt.value > now - 3600000))
      && after.heads == s.heads
      && (!outcome.Done? ==> after == s)
      && (outcome.Done? ==> forall v :: v in Log(after, key) <==> v in Log(s, key) && v.id != version)
      && (outcome.Done? && Increasing(Log(s, key)) ==> Increasing(Log(after, key)))
  {
    DropKeeps(Log(s, key), version);
  }

  /** No operation on a note touches another note or its history. */
  lemma OtherNotesStay(s: Store, key: Key, a: Action, other: Key)
    requires other != key
    ensures Log(Perform(s, key, a), other) == Log(s, other)
    ensures other in Perform(s, key, a).heads <==> other in s.heads
    ensures other in s.heads ==> Perform(s, key, a).heads[other] == s.heads[other]
  {
  }

  // ----- Whether the restored row stays -----

  lemma LoggedIdsDiffer(s: Store, key: Key)
    requires Holds(s) && IdsUnique(s.versions)
    ensures forall i, j :: 0 <= i < j < |Log(s, key)| ==> Log(s, key)[i].id != Log(s, key)[j].id
  {
    var log := Log(s, key);
    forall i, j | 0 <= i < j < |log|
      ensures log[i].id != log[j].id
    {
      assert log[i] in s.versions[key] && log[j] in s.versions[key] && log[i].number != log[j].number;
    }
  }

  lemma RestoredLog(s: Store, key: Key, version: Id, saved: int, id: Id)
    requires Holds(s) && IdsUnique(s.versions) && Restore(s, key, version, saved, id).1.Done?
    ensures var log := Log(s, key);
      && version != id && log != []
      && Log(Restore(s, key, version, saved, id).0, key)
         == (if |log| == MAX_VERSIONS then log[1..] else log) + [SnapshotOf(s.heads[key], id, s.nextNumber)]
  {
    var log := Log(s, key);
    FindNone(log, version);
    assert Find(log, version).value in s.versions[key];
    OnlyOldestEvicted(log, s.nextNumber, SnapshotOf(s.heads[key], id, s.nextNumber));
  }

  lemma FindAfterRecord(log: seq<Version>, x: Version, id: Id)
    requires log != [] && x.id != id && Find(log, id).Some?
    requires forall i, j :: 0 <= i < j < |log| ==> log[i].id != log[j].id
    ensures Find(log + [x], id).Some? && (Find(log[1..] + [x], id).Some? <==> log[0].id != id)
  {
    FindNone(log, id);
    FindNone(log + [x], id);
    FindNone(log[1..] + [x], id);
    var v := Find(log, id).value;
    assert v in log + [x];
    var i :| 0 <= i < |log| && log[i] == v;
    if i > 0 {
      assert (log[1..] + [x])[i - 1] == v;
    } else {
      forall w | w in log[1..] + [x]
        ensures w.id != id
      {
        var j :| 0 <= j < |log| && (log[1..] + [x])[j] == w;
        assert j < |log| - 1 ==> w == log[j + 1];
      }
    }
  }

  /** The restored version's own row is left in place if and only if it is not the oldest of a full log. */
  lemma RestoredRowStaysIff(s: Store, key: Key, version: Id, saved: int, id: Id)
    requires Holds(s) && IdsUnique(s.versions) && Restore(s, key, version, saved, id).1.Done?
    ensures Find(Log(Restore(s, key, version, saved, id).0, key), version).Some?
        <==> |Log(s, key)| < MAX_VERSIONS || Log(s, key)[0].id != version
  {
    RestoredLog(s, key, version, saved, id);
    LoggedIdsDiffer(s, key);
    FindAfterRecord(Log(s, key), SnapshotOf(s.heads[key], id, s.nextNumber), version);
  }

  /** Ten versions, with ids of growing length. */
  function FullLog(): (log: seq<Version>)
    ensures |log| == MAX_VERSIONS
    ensures forall i :: 0 <= i < |log| ==> log[i].number == i && |log[i].id| == i && log[i].title == "then"
  {
    seq(MAX_VERSIONS, i requires 0 <= i => Version(seq(i, _ => 'x'), i, "then", "", i))
  }

  function FullStore(key: Key): Store {
    Store(map[key := Head("now", "", 100, None)], map[key := FullLog()], MAX_VERSIONS)
  }

  lemma FullStoreHolds(key: Key)
    ensures Holds(FullStore(key)) && IdsUnique(FullStore(key).versions) && !IdTaken(FullStore(key), "the new version")
  {
    var log := FullLog();
    forall v, w | v in log && w in log && v.id == w.id
      ensures v == w
    {
      var i :| 0 <= i < |log| && log[i] == v;
      var j :| 0 <= j < |log| && log[j] == w;
      assert i == |v.id| == |w.id| == j;
    }
    assert |"the new version"| == 15;
  }

  /** On a full log, restoring the oldest version succeeds and evicts its row. */
  lemma OldestRestoredIsEvicted(key: Key)
    ensures var (s, oldest) := (FullStore(key), FullLog()[0]);
      var (after, outcome) := Restore(s, key, oldest.id, 200, "the new version");
      && Holds(s) && IdsUnique(s.versions) && Find(Log(s, key), oldest.id) == Some(oldest)
      && outcome.Done? && after.heads[key].title == "then" && Find(Log(after, key), oldest.id).None?
  {
    FullStoreHolds(key);
    RestoredRowStaysIff(FullStore(key), key, FullLog()[0].id, 200, "the new version");
  }
}
