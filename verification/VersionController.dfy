/** The repository's writes to a note's head and its version rows. */
module VersionController {
  import opened VersionLog
  import opened VersionRuns
  import opened Wrappers

  /** The rows with fewer than the maximum newer ones: the newest of them, in order. */
  method NewestRows(rows: seq<Version>) returns (keep: seq<Version>)
    requires Increasing(rows)
    ensures keep == Newest(rows)
  {
    keep := [];
    var cut := if |rows| > MAX_VERSIONS then |rows| - MAX_VERSIONS else 0;
    for i := 0 to |rows|
      invariant keep == if i <= cut then [] else rows[cut..i]
    {
      RankInOrder(rows, i);
      if Newer(rows, rows[i]) < MAX_VERSIONS {
        keep := keep + [rows[i]];
      }
    }
  }

  class Repo {
    var heads: map<Key, Head>
    var versions: map<Key, seq<Version>>
    var nextNumber: nat

    constructor ()
      ensures State() == Store(map[], map[], 0) && Holds(State())
    {
      heads, versions, nextNumber := map[], map[], 0;
    }

    function State(): Store
      reads this
    {
      Store(heads, versions, nextNumber)
    }

    /** Insert the snapshot, then delete every row of the note that is not among the newest by number. */
    method InsertVersionCapped(key: Key, v: Version)
      requires Holds(State()) && v.number == nextNumber
      modifies `versions, `nextNumber
      ensures State() == Record(old(State()), key, v)
    {
      var keep := NewestRows(Log(State(), key) + [v]);
      versions := versions[key := keep];
      nextNumber := nextNumber + 1;
    }

    method UpdateHead(key: Key, title: string, content: string, saved: int)
      requires key in heads
      modifies `heads
      ensures State() == SetHead(old(State()), key, title, content, saved)
    {
      heads := heads[key := heads[key].(title := title, content := content, updatedAt := saved)];
    }

    method UpdateWithVersion(key: Key, kind: Kind, title: string, content: string, checked: int, saved: int, id: Id)
      returns (outcome: Outcome)
      requires Holds(State())
      modifies this
      ensures (State(), outcome) == Update(old(State()), key, kind, title, content, checked, saved, id) && Holds(State())
    {
      StepHolds(State(), key, Editing(kind, title, content, checked, saved, id));
      if key !in heads {
        return Missing;
      }
      var head := heads[key];
      var edit := Compute(kind, head, title, content);
      if !edit.changed {
        return Done(head);
      }
      if edit.snapshot {
        if ShouldRecordVersion(Log(State(), key) != [], head.updatedAt, checked) {
          if IdTaken(State(), id) {
            return Duplicate;
          }
          InsertVersionCapped(key, SnapshotOf(head, id, nextNumber));
        }
      }
      UpdateHead(key, title, content, saved);
      outcome := Done(heads[key]);
    }

    method RestoreVersion(key: Key, versionId: Id, saved: int, id: Id) returns (outcome: Outcome)
      requires Holds(State())
      modifies this
      ensures (State(), outcome) == Restore(old(State()), key, versionId, saved, id) && Holds(State())
    {
      StepHolds(State(), key, Restoring(versionId, saved, id));
      if key !in heads {
        return Missing;
      }
      var version := Find(Log(State(), key), versionId);
      if version.None? {
        return Missing;
      }
      if IdTaken(State(), id) {
        return Duplicate;
      }
      InsertVersionCapped(key, SnapshotOf(heads[key], id, nextNumber));
      UpdateHead(key, version.value.title, version.value.content, saved);
      outcome := Done(heads[key]);
    }

    /** Deleting an id that is already gone still answers with the head. */
    method DeleteVersionById(key: Key, versionId: Id, now: int) returns (outcome: Outcome)
      requires Holds(State())
      modifies `versions
      ensures (State(), outcome) == DeleteVersion(old(State()), key, versionId, now) && Holds(State())
    {
      StepHolds(State(), key, Deleting(versionId, now));
      if key !in heads || !Active(heads[key], now) {
        return Missing;
      }
      versions := versions[key := Drop(Log(State(), key), versionId)];
      outcome := Done(heads[key]);
    }
  }
}
