/**
 * The account's session epoch and its audit rows: what each statement of the session controller does to the two
 * tables, and the class whose methods run those statements under the account lock.
 */
module AuthSessions {
  import opened Wrappers

  type UserId = string
  type Sid = string
  type Time = int

  const SESSION_LIFETIME: Time := 7 * 24 * 60 * 60 * 1000

  datatype Result<+T> = Ok(value: T) | EpochError

  /** `undefined` (a token older than the claim), a valid number, or `null` (present but malformed). */
  datatype EpochClaim = Legacy | Epoch(epoch: nat) | Malformed

  /** A decoded claim of unknown type. */
  datatype JsValue = JsUndefined | JsInteger(n: int) | JsOther

  datatype AccountState = AccountState(sessionEpoch: nat, survivingSid: Option<Sid>, rotationSessionSid: Option<Sid>)

  datatype Row = Row(userId: UserId, expiresAt: Time, revoked: bool)

  /** The two tables, each a map from its primary key. */
  datatype Tables = Tables(states: map<UserId, AccountState>, rows: map<Sid, Row>)

  const INITIAL := AccountState(0, None, None)

  function StateOf(t: Tables, userId: UserId): AccountState {
    if userId in t.states then t.states[userId] else INITIAL
  }

  function ReadSessionEpochClaim(value: JsValue): EpochClaim {
    match value
    case JsUndefined => Legacy
    case JsInteger(n) => if 0 <= n <= 9007199254740991 then Epoch(n) else Malformed
    case JsOther => Malformed
  }

  predicate IsSessionEpochAllowed(state: AccountState, sid: Sid, claim: EpochClaim) {
    if sid == "" || claim.Malformed? then false
    else if state.survivingSid == Some(sid) then true
    else if claim.Legacy? then state.sessionEpoch == 0
    else claim.epoch == state.sessionEpoch
  }

  /** A missing claim counts as epoch zero, and a malformed one is never taken for a missing one. */
  lemma ClaimsFailClosed(state: AccountState, sid: Sid, value: JsValue)
    ensures IsSessionEpochAllowed(state, sid, ReadSessionEpochClaim(JsUndefined))
        <==> IsSessionEpochAllowed(state, sid, ReadSessionEpochClaim(JsInteger(0)))
    ensures IsSessionEpochAllowed(state, sid, ReadSessionEpochClaim(value))
        ==> value == JsUndefined || (value.JsInteger? && 0 <= value.n <= 9007199254740991)
  {
  }

  predicate IsDead(row: Row, now: Time) {
    row.revoked || row.expiresAt <= now
  }

  /** The survivor must keep its audit row once an epoch has been advanced. */
  predicate SurvivorLostItsRow(t: Tables, state: AccountState, sid: Sid) {
    sid !in t.rows && state.sessionEpoch > 0 && state.survivingSid == Some(sid)
  }

  predicate IsSessionUnusable(t: Tables, now: Time, sid: Sid, userId: UserId, claim: EpochClaim) {
    || sid == "" || userId == ""
    || (sid in t.rows && (t.rows[sid].userId != userId || IsDead(t.rows[sid], now)))
    || SurvivorLostItsRow(t, StateOf(t, userId), sid)
    || !IsSessionEpochAllowed(StateOf(t, userId), sid, claim)
  }

  // ----- Table updates -----

  /** The lock creates the account's row on first use. */
  function Locked(t: Tables, userId: UserId): Tables {
    t.(states := t.states[userId := StateOf(t, userId)])
  }

  function CaptureSessionEpoch(t: Tables, userId: UserId, sid: Sid): (Result<nat>, Tables) {
    if sid == "" then (EpochError, t)
    else
      var state := StateOf(t, userId);
      (Ok(state.sessionEpoch), t.(states := t.states[userId := state.(rotationSessionSid := None)]))
  }

  function UpsertSessionIfMissing(t: Tables, now: Time, sid: Sid, userId: UserId, claim: EpochClaim): (Result<bool>, Tables) {
    if sid == "" then (Ok(false), t)
    else
      var state := StateOf(t, userId);
      if sid in t.rows then
        if t.rows[sid].userId != userId || IsDead(t.rows[sid], now) || !IsSessionEpochAllowed(state, sid, claim)
        then (EpochError, t)
        else (Ok(false), Locked(t, userId))
      else if SurvivorLostItsRow(t, state, sid) || !IsSessionEpochAllowed(state, sid, claim) then (EpochError, t)
      else (Ok(true), Locked(t, userId).(rows := t.rows[sid := Row(userId, now + SESSION_LIFETIME, false)]))
  }

  /** `clock` is when the caller read the time, which may be a little before the statement runs. */
  function TouchSession(t: Tables, clock: Time, sid: Sid): Tables {
    if sid in t.rows && !IsDead(t.rows[sid], clock)
    then t.(rows := t.rows[sid := t.rows[sid].(expiresAt := clock + SESSION_LIFETIME)])
    else t
  }

  function RevokeRow(rows: map<Sid, Row>, sid: Sid): map<Sid, Row> {
    if sid in rows then rows[sid := rows[sid].(revoked := true)] else rows
  }

  function DropSurvivor(t: Tables, userId: UserId, sid: Sid): Tables {
    var state := StateOf(t, userId);
    if state.survivingSid == Some(sid)
    then t.(states := t.states[userId := state.(survivingSid := None, rotationSessionSid := None)])
    else t
  }

  predicate CanRevoke(t: Tables, sid: Sid, userId: UserId) {
    sid in t.rows && t.rows[sid].userId == userId && !t.rows[sid].revoked
  }

  function RevokeSession(t: Tables, sid: Sid, userId: UserId): (bool, Tables) {
    if sid == "" then (false, t)
    else if CanRevoke(t, sid, userId)
    then (true, DropSurvivor(Locked(t, userId).(rows := RevokeRow(t.rows, sid)), userId, sid))
    else (false, Locked(t, userId))
  }

  function SurvivorOf(exceptSid: Sid): Option<Sid> {
    if exceptSid == "" then None else Some(exceptSid)
  }

  predicate RevokedByAll(row: Row, sid: Sid, userId: UserId, exceptSid: Sid) {
    row.userId == userId && !row.revoked && (exceptSid == "" || sid != exceptSid)
  }

  function RevokeRows(rows: map<Sid, Row>, userId: UserId, exceptSid: Sid): map<Sid, Row> {
    map sid | sid in rows ::
      if RevokedByAll(rows[sid], sid, userId, exceptSid) then rows[sid].(revoked := true) else rows[sid]
  }

  function RevokeAllOtherSessions(t: Tables, userId: UserId, exceptSid: Sid): (nat, Tables) {
    var count := |set sid | sid in t.rows && RevokedByAll(t.rows[sid], sid, userId, exceptSid)|;
    var survivor := SurvivorOf(exceptSid);
    (count,
     Tables(t.states[userId := AccountState(StateOf(t, userId).sessionEpoch + 1, survivor, survivor)],
            RevokeRows(t.rows, userId, exceptSid)))
  }

  /** `userId` is the owner the caller read before taking the lock. */
  function RevokeSessionBySid(t: Tables, sid: Sid, userId: UserId): Tables {
    if sid in t.rows && !t.rows[sid].revoked
    then DropSurvivor(Locked(t, userId).(rows := RevokeRow(t.rows, sid)), userId, sid)
    else Locked(t, userId)
  }

  /** The expiry sweep keeps a dead row for one more lifetime; `clock` was read when the sweep started. */
  function SweepSessions(t: Tables, clock: Time): Tables {
    t.(rows := map sid | sid in t.rows && !(t.rows[sid].expiresAt < clock - SESSION_LIFETIME) :: t.rows[sid])
  }
}

/** The controller: the same statements as methods over the two tables. A thrown error rolls back the lock's insert. */
module SessionController {
  import opened AuthSessions
  import Spec = AuthSessions
  import opened Wrappers

  class SessionStore {
    var states: map<UserId, AccountState>
    var rows: map<Sid, Row>

    function Contents(): Tables
      reads this
    {
      Tables(states, rows)
    }

    constructor ()
      ensures Contents() == Tables(map[], map[])
    {
      states, rows := map[], map[];
    }

    /** Takes the account lock: creates the state row when missing and returns it. */
    method Lock(userId: UserId) returns (state: AccountState)
      modifies this
      ensures Contents() == Locked(old(Contents()), userId)
      ensures state == StateOf(old(Contents()), userId)
    {
      if userId !in states {
        states := states[userId := INITIAL];
      }
      state := states[userId];
    }

    method CaptureSessionEpoch(userId: UserId, sid: Sid) returns (epoch: Result<nat>)
      modifies this
      ensures (epoch, Contents()) == Spec.CaptureSessionEpoch(old(Contents()), userId, sid)
    {
      if sid == "" {
        return EpochError;
      }
      var state := Lock(userId);
      states := states[userId := states[userId].(rotationSessionSid := None)];
      assert states == old(states)[userId := state.(rotationSessionSid := None)];
      epoch := Ok(state.sessionEpoch);
    }

    method UpsertSessionIfMissing(now: Time, sid: Sid, userId: UserId, claim: EpochClaim) returns (created: Result<bool>)
      modifies this
      ensures (created, Contents()) == Spec.UpsertSessionIfMissing(old(Contents()), now, sid, userId, claim)
    {
      if sid == "" {
        return Ok(false);
      }
      ghost var before := Contents();
      var savedStates := states;
      var state := Lock(userId);
      if sid in rows {
        var row := rows[sid];
        if row.userId != userId || IsDead(row, now) || !IsSessionEpochAllowed(state, sid, claim) {
          states := savedStates;
          return EpochError;
        }
        return Ok(false);
      }
      if state.sessionEpoch > 0 && state.survivingSid == Some(sid) {
        states := savedStates;
        return EpochError;
      }
      if !IsSessionEpochAllowed(state, sid, claim) {
        states := savedStates;
        return EpochError;
      }
      rows := rows[sid := Row(userId, now + SESSION_LIFETIME, false)];
      created := Ok(true);
    }

    method TouchSession(clock: Time, sid: Sid)
      modifies this`rows
      ensures Contents() == Spec.TouchSession(old(Contents()), clock, sid)
      ensures rows.Keys == old(rows).Keys
      ensures sid in rows && !IsDead(old(rows)[sid], clock) ==> !IsDead(rows[sid], clock + SESSION_LIFETIME - 1)
      ensures forall r :: r in rows && (r != sid || IsDead(old(rows)[r], clock)) ==> rows[r] == old(rows)[r]
    {
      if sid in rows && !rows[sid].revoked && rows[sid].expiresAt > clock {
        rows := rows[sid := rows[sid].(expiresAt := clock + SESSION_LIFETIME)];
      }
    }

    method RevokeSession(sid: Sid, userId: UserId) returns (revoked: bool)
      modifies this
      ensures (revoked, Contents()) == Spec.RevokeSession(old(Contents()), sid, userId)
    {
      if sid == "" {
        return false;
      }
      var state := Lock(userId);
      revoked := sid in rows && rows[sid].userId == userId && !rows[sid].revoked;
      if revoked {
        rows := rows[sid := rows[sid].(revoked := true)];
        if state.survivingSid == Some(sid) {
          states := states[userId := state.(survivingSid := None, rotationSessionSid := None)];
        }
      }
    }

    method RevokeAllOtherSessions(userId: UserId, exceptSid: Sid) returns (count: nat)
      modifies this
      ensures (count, Contents()) == Spec.RevokeAllOtherSessions(old(Contents()), userId, exceptSid)
    {
      var state := Lock(userId);
      count := |set sid | sid in rows && RevokedByAll(rows[sid], sid, userId, exceptSid)|;
      rows := RevokeRows(rows, userId, exceptSid);
      var survivor := SurvivorOf(exceptSid);
      states := states[userId := AccountState(state.sessionEpoch + 1, survivor, survivor)];
      assert states == old(states)[userId := AccountState(state.sessionEpoch + 1, survivor, survivor)];
    }

    method RevokeSessionBySid(sid: Sid)
      modifies this
      ensures Contents() == if sid == "" || sid !in old(rows) then old(Contents())
                            else Spec.RevokeSessionBySid(old(Contents()), sid, old(rows)[sid].userId)
    {
      if sid == "" || sid !in rows {
        return;
      }
      var userId := rows[sid].userId;
      var state := Lock(userId);
      if !rows[sid].revoked {
        rows := rows[sid := rows[sid].(revoked := true)];
        if state.survivingSid == Some(sid) {
          states := states[userId := state.(survivingSid := None, rotationSessionSid := None)];
        }
      }
    }

    method SweepSessions(clock: Time)
      modifies this`rows
      ensures Contents() == Spec.SweepSessions(old(Contents()), clock)
      ensures forall r :: r in old(rows) ==> (r in rows <==> clock <= old(rows)[r].expiresAt + SESSION_LIFETIME)
      ensures forall r :: r in rows ==> r in old(rows) && rows[r] == old(rows)[r]
    {
      rows := map sid | sid in rows && rows[sid].expiresAt >= clock - SESSION_LIFETIME :: rows[sid];
    }
  }
}
