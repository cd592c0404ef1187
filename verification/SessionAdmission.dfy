/** Who is let in, and what each revocation leaves alone, read off the tables. */
module SessionAdmission {
  import opened AuthSessions
  import opened SessionEnd
  import opened SessionProtocol
  import opened Wrappers

  /** The account accepts the claim: the survivor's, or one of the current epoch, a missing one counting as zero. */
  ghost predicate IsCurrent(state: AccountState, sid: Sid, claim: EpochClaim) {
    match claim
    case Malformed => false
    case Legacy => state.survivingSid == Some(sid) || state.sessionEpoch == 0
    case Epoch(epoch) => state.survivingSid == Some(sid) || state.sessionEpoch == epoch
  }

  /** What a raw claim must be to be current. */
  lemma ClaimIsCurrentIff(state: AccountState, sid: Sid, n: int)
    ensures IsCurrent(state, sid, ReadSessionEpochClaim(JsInteger(n)))
        <==> 0 <= n <= 9007199254740991 && (state.survivingSid == Some(sid) || state.sessionEpoch == n)
    ensures !IsCurrent(state, sid, ReadSessionEpochClaim(JsOther))
  {
  }

  lemma ThreeSteps(s: System, delay: nat, a: Action, b: Action, c: Action, after: System)
    requires Enabled(s, delay, a) && Enabled(Apply(s, delay, a), delay, b)
    requires Enabled(Apply(Apply(s, delay, a), delay, b), delay, c)
    requires after == Apply(Apply(Apply(s, delay, a), delay, b), delay, c)
    ensures Run(s, delay, [a, b, c], after)
  {
    var s1, s2 := Apply(s, delay, a), Apply(Apply(s, delay, a), delay, b);
    assert [a, b, c][1..] == [b, c] && [b, c][1..] == [c] && [c][1..] == [];
    assert Run(after, delay, [], after);
    assert Run(s2, delay, [c], after);
    assert Run(s1, delay, [b, c], after);
  }

  /**
   * A request run at once. With a row, it is admitted exactly when the row is the user's own, neither revoked nor
   * expired, and the claim is current; without one, when the claim is current and the session is not a survivor that
   * lost its row, and then only after creating the row if the token says how the user signed in. No table changes.
   */
  lemma AdmittedIff(s: System, delay: nat, token: Token, id: RequestId) returns (after: System)
    requires token in s.tokens && token.expires > s.now && id !in s.requests
    ensures Run(s, delay, [Begin(id, token), ReadState(id), ReadRow(id)], after)
    ensures after.tables == s.tables && after.now == s.now
    ensures id in after.requests && after.requests[id].token == token && after.requests[id].startedAt == s.now
    ensures var Credential(userId, sid, claim) := token.credential;
      var (state, rows, phase) := (StateOf(s.tables, userId), s.tables.rows, after.requests[id].phase);
      var welcome := userId != "" && sid != "" && IsCurrent(state, sid, claim);
      && (sid in rows ==>
            (phase.Admitted? <==> welcome && rows[sid].userId == userId && !rows[sid].revoked && rows[sid].expiresAt > s.now))
      && (sid !in rows ==>
            (phase.Admitted? || phase.NeedsRow? <==> welcome && !(state.sessionEpoch > 0 && state.survivingSid == Some(sid))))
      && (phase.Admitted? || phase.NeedsRow? || phase.Rejected?)
      && (phase.NeedsRow? ==> sid !in rows && token.hasProvider)
      && (sid !in rows && token.hasProvider ==> !phase.Admitted?)
  {
    var s1 := Apply(s, delay, Begin(id, token));
    var s2 := Apply(s1, delay, ReadState(id));
    after := Apply(s2, delay, ReadRow(id));
    ThreeSteps(s, delay, Begin(id, token), ReadState(id), ReadRow(id), after);
  }

  /** The session endpoint and the request path agree on every session, for one state of the tables. */
  lemma EndpointAgrees(t: Tables, now: Time, token: Token)
    ensures var Credential(userId, sid, claim) := token.credential;
      IsSessionUnusable(t, now, sid, userId, claim) <==> Decide(t, now, StateOf(t, userId), token).Rejected?
  {
  }

  /** The id was named the survivor of a revoke-all before any session had it. */
  predicate NamedTooEarly(state: AccountState, sid: Sid) {
    state.sessionEpoch > 0 && state.survivingSid == Some(sid)
  }

  lemma SignInReadsRow(s: System, delay: nat, c: Credential, id: RequestId) returns (after: System)
    requires IsFresh(s, c.sid) && c.userId != "" && id !in s.requests && c.claim == Epoch(StateOf(s.tables, c.userId).sessionEpoch)
    ensures var token := Token(c, s.now + SESSION_LIFETIME, true);
      && Run(s, delay, [Capture(c.userId, c.sid), Mint(c, true)] + [Begin(id, token), ReadState(id), ReadRow(id)], after)
      && id in after.requests && after.requests[id].token == token && after.requests[id].startedAt == s.now == after.now
    ensures after.tables.rows == s.tables.rows
    ensures StateOf(after.tables, c.userId) == StateOf(s.tables, c.userId).(rotationSessionSid := None)
    ensures if NamedTooEarly(StateOf(s.tables, c.userId), c.sid) then after.requests[id].phase.Rejected?
            else after.requests[id].phase.NeedsRow?
  {
    var token := Token(c, s.now + SESSION_LIFETIME, true);
    var s1 := Apply(s, delay, Capture(c.userId, c.sid));
    var s2 := Apply(s1, delay, Mint(c, true));
    assert token in s2.tokens;
    after := AdmittedIff(s2, delay, token, id);
    var tail := [Begin(id, token), ReadState(id), ReadRow(id)];
    RunFrom(s1, delay, Mint(c, true), tail, after);
    RunFrom(s, delay, Capture(c.userId, c.sid), [Mint(c, true)] + tail, after);
    assert [Capture(c.userId, c.sid)] + ([Mint(c, true)] + tail) == [Capture(c.userId, c.sid), Mint(c, true)] + tail;
  }

  /**
   * A fresh sign-in at any time: the captured epoch is the account's own, and the first request is admitted and gets
   * its row, unless the id had been named the survivor of a revoke-all before it existed.
   */
  lemma SignInIsAdmittedIff(s: System, delay: nat, c: Credential, id: RequestId) returns (after: System)
    requires IsFresh(s, c.sid) && c.userId != "" && id !in s.requests && c.claim == Epoch(StateOf(s.tables, c.userId).sessionEpoch)
    ensures var begin := Begin(id, Token(c, s.now + SESSION_LIFETIME, true));
      var early := NamedTooEarly(StateOf(s.tables, c.userId), c.sid);
      && Run(s, delay, [Capture(c.userId, c.sid), Mint(c, true)] + [begin, ReadState(id), ReadRow(id)]
                       + if early then [] else [CreateRow(id)], after)
      && id in after.requests && (after.requests[id].phase.Admitted? <==> !early)
      && (!early ==> c.sid in after.tables.rows
                     && after.tables.rows[c.sid] == Row(c.userId, s.now + SESSION_LIFETIME, false))
  {
    var mid := SignInReadsRow(s, delay, c, id);
    var actions := [Capture(c.userId, c.sid), Mint(c, true)]
                   + [Begin(id, Token(c, s.now + SESSION_LIFETIME, true)), ReadState(id), ReadRow(id)];
    if NamedTooEarly(StateOf(s.tables, c.userId), c.sid) {
      after := mid;
      assert actions + [] == actions;
    } else {
      after := Apply(mid, delay, CreateRow(id));
      RunOfOne(mid, delay, CreateRow(id));
      RunThenRun(s, delay, actions, mid, [CreateRow(id)], after);
    }
  }

  /**
   * Creating the row under the lock. A row that is already there is left as it is, and still lets its own live session
   * in when the claim is current: the second of two first requests is admitted like the first.
   */
  lemma CreateRowIff(t: Tables, now: Time, sid: Sid, userId: UserId, claim: EpochClaim)
    requires sid != ""
    ensures var (created, after) := UpsertSessionIfMissing(t, now, sid, userId, claim);
      var current := IsCurrent(StateOf(t, userId), sid, claim);
      && (sid in t.rows ==>
            && after.rows == t.rows
            && (created == Ok(false) <==>
                  current && t.rows[sid].userId == userId && !t.rows[sid].revoked && t.rows[sid].expiresAt > now))
      && (sid !in t.rows ==> (created == Ok(true) <==> current && !NamedTooEarly(StateOf(t, userId), sid)))
      && (created == Ok(true) ==> sid !in t.rows && after.rows == t.rows[sid := Row(userId, now + 7 * 24 * 60 * 60 * 1000, false)])
      && (created != Ok(true) ==> after.rows == t.rows)
      && forall u :: StateOf(after, u) == StateOf(t, u)
  {
  }

  /** A cookie is re-issued, for one more lifetime, exactly to a session a request would not be rejected for. */
  lemma ReissueIff(s: System, delay: nat, token: Token)
    ensures Enabled(s, delay, Reissue(token)) <==>
      token in s.tokens && token.expires > s.now
      && !Decide(s.tables, s.now, StateOf(s.tables, token.credential.userId), token).Rejected?
    ensures Enabled(s, delay, Reissue(token)) ==>
      Apply(s, delay, Reissue(token)) == s.(tokens := s.tokens + {token.(expires := s.now + 7 * 24 * 60 * 60 * 1000)})
  {
    EndpointAgrees(s.tables, s.now, token);
  }

  // ----- What the other statements touch -----

  /** Activity keeps a live session for one more lifetime from the caller's clock, and touches no other row. */
  lemma TouchTouches(t: Tables, clock: Time, target: Sid, sid: Sid)
    ensures var after := TouchSession(t, clock, target);
      && after.states == t.states
      && (sid in after.rows <==> sid in t.rows)
      && (sid in t.rows ==>
            after.rows[sid] == if sid == target && !t.rows[sid].revoked && t.rows[sid].expiresAt > clock
                               then t.rows[sid].(expiresAt := clock + 7 * 24 * 60 * 60 * 1000) else t.rows[sid])
  {
  }

  /** The sweep takes the rows expired for more than a lifetime. */
  lemma SweepTouches(t: Tables, clock: Time, sid: Sid)
    ensures var after := SweepSessions(t, clock);
      && after.states == t.states
      && (sid in after.rows <==> sid in t.rows && clock <= t.rows[sid].expiresAt + 7 * 24 * 60 * 60 * 1000)
      && (sid in after.rows ==> after.rows[sid] == t.rows[sid])
  {
  }

  /** Revoke-all ends every session of the account but the asking one, counts what it ends, and touches nobody else's. */
  lemma RevokeAllTouches(t: Tables, userId: UserId, exceptSid: Sid, sid: Sid)
    ensures var (count, after) := RevokeAllOtherSessions(t, userId, exceptSid);
      && after.rows.Keys == t.rows.Keys
      && (sid in t.rows ==>
            after.rows[sid] == if t.rows[sid].userId == userId && (exceptSid == "" || sid != exceptSid)
                               then t.rows[sid].(revoked := true) else t.rows[sid])
      && count == |set r | r in t.rows && after.rows[r] != t.rows[r]|
      && StateOf(after, userId).sessionEpoch == StateOf(t, userId).sessionEpoch + 1
      && StateOf(after, userId).survivingSid == StateOf(after, userId).rotationSessionSid
      && StateOf(after, userId).survivingSid == (if exceptSid == "" then None else Some(exceptSid))
      && forall u :: u != userId ==> StateOf(after, u) == StateOf(t, u)
  {
    var (count, after) := RevokeAllOtherSessions(t, userId, exceptSid);
    assert (set r | r in t.rows && after.rows[r] != t.rows[r])
        == set r | r in t.rows && RevokedByAll(t.rows[r], r, userId, exceptSid);
  }

  /** The account after one of its sessions has ended: it may no longer be the survivor. */
  ghost predicate IsDropped(after: AccountState, before: AccountState, sid: Sid) {
    after == if before.survivingSid == Some(sid) then AccountState(before.sessionEpoch, None, None) else before
  }

  /** Revoking a session ends it for its own user only, and touches no other. */
  lemma RevokeOneTouches(t: Tables, target: Sid, userId: UserId, sid: Sid)
    requires target != ""
    ensures var (revoked, after) := RevokeSession(t, target, userId);
      && (revoked <==> target in t.rows && t.rows[target].userId == userId && !t.rows[target].revoked)
      && (sid in after.rows <==> sid in t.rows)
      && (sid in t.rows ==> after.rows[sid] == if revoked && sid == target then t.rows[sid].(revoked := true) else t.rows[sid])
      && (revoked ==> IsDropped(StateOf(after, userId), StateOf(t, userId), target))
      && forall u :: u != userId || !revoked ==> StateOf(after, u) == StateOf(t, u)
  {
  }

  /** Signing out ends the session whoever it belongs to, and touches no other. */
  lemma SignOutTouches(t: Tables, target: Sid, sid: Sid)
    requires target != "" && target in t.rows
    ensures var (owner, after) := (t.rows[target].userId, RevokeSessionBySid(t, target, t.rows[target].userId));
      && (sid in after.rows <==> sid in t.rows)
      && (sid in t.rows ==> after.rows[sid] == if sid == target then t.rows[sid].(revoked := true) else t.rows[sid])
      && (!t.rows[target].revoked ==> IsDropped(StateOf(after, owner), StateOf(t, owner), target))
      && forall u :: u != owner || t.rows[target].revoked ==> StateOf(after, u) == StateOf(t, u)
  {
  }

  /** Ended by its user or signed out, a session with a row is refused from then on, whoever asks and at whatever time. */
  lemma EndedIsRejected(s: System, delay: nat, token: Token, now: Time, state: AccountState)
    ensures var Credential(userId, sid, _) := token.credential;
      sid in s.tables.rows ==>
        && Decide(Apply(s, delay, SignOut(sid)).tables, now, state, token).Rejected?
        && Decide(Apply(s, delay, RevokeOne(sid, userId)).tables, now, state, token).Rejected?
  {
    var Credential(userId, sid, _) := token.credential;
    if sid in s.tables.rows && sid != "" {
      SignOutTouches(s.tables, sid, sid);
      RevokeOneTouches(s.tables, sid, userId, sid);
    }
  }
}
