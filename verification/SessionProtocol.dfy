/**
 * The session protocol as a transition system: many requests in flight, each reading the account state, then the
 * audit row, then perhaps creating it under the lock, interleaved with sign-ins, cookie re-issues, touches,
 * revocations, sweeps and the passing of time.
 *
 * `delay` bounds how long an operation stays in flight: between starting a request, or reading the clock for a
 * touch, and its last write. With a delay of zero every operation is instantaneous.
 */
module SessionProtocol {
  import opened AuthSessions
  import opened Wrappers

  /** What a sign-in binds for ever: refreshing a token never changes these claims. */
  datatype Credential = Credential(userId: UserId, sid: Sid, claim: EpochClaim)

  datatype Token = Token(credential: Credential, expires: Time, hasProvider: bool)

  datatype Phase =
    | Started
    | HasState(state: AccountState)
    | NeedsRow
    | Admitted
    | Rejected

  datatype Request = Request(token: Token, startedAt: Time, phase: Phase)

  type RequestId = nat

  datatype System = System(
    tables: Tables,
    now: Time,
    pending: set<Credential>,   // epoch captured, token not minted yet
    known: set<Credential>,     // every credential ever captured
    tokens: set<Token>,
    requests: map<RequestId, Request>)

  datatype Action =
    | Tick(elapsed: nat)
    | Capture(userId: UserId, sid: Sid)
    | Mint(credential: Credential, hasProvider: bool)
    | Begin(id: RequestId, token: Token)
    | ReadState(id: RequestId)
    | ReadRow(id: RequestId)
    | CreateRow(id: RequestId)
    | Reissue(token: Token)
    | Touch(sid: Sid, clock: Time)
    | RevokeOne(sid: Sid, userId: UserId)
    | SignOut(sid: Sid)
    | RevokeOthers(userId: UserId, exceptSid: Sid)
    | Sweep(clock: Time)

  predicate InFlight(s: System, delay: nat, id: RequestId) {
    id in s.requests && s.now <= s.requests[id].startedAt + delay
  }

  /** A new session id was never used before. */
  predicate IsFresh(s: System, sid: Sid) {
    sid != "" && sid !in s.tables.rows && forall c :: c in s.known ==> c.sid != sid
  }

  predicate Enabled(s: System, delay: nat, a: Action) {
    match a
    case Tick(_) => true
    case Capture(userId, sid) => IsFresh(s, sid)
    case Mint(c, _) => c in s.pending
    case Begin(id, token) => id !in s.requests && token in s.tokens && token.expires > s.now
    case ReadState(id) => InFlight(s, delay, id) && s.requests[id].phase.Started?
    case ReadRow(id) => InFlight(s, delay, id) && s.requests[id].phase.HasState?
    case CreateRow(id) => InFlight(s, delay, id) && s.requests[id].phase.NeedsRow?
    case Reissue(token) =>
      && token in s.tokens && token.expires > s.now
      && !IsSessionUnusable(s.tables, s.now, token.credential.sid, token.credential.userId, token.credential.claim)
    case Touch(_, clock) => clock <= s.now <= clock + delay
    case RevokeOne(_, _) => true
    case SignOut(_) => true
    case RevokeOthers(_, _) => true
    case Sweep(clock) => clock <= s.now
  }

  function WithPhase(s: System, id: RequestId, phase: Phase): System
    requires id in s.requests
  {
    s.(requests := s.requests[id := s.requests[id].(phase := phase)])
  }

  /** The decision taken once the row has been read, in the order the source takes it. */
  function Decide(t: Tables, now: Time, state: AccountState, token: Token): Phase {
    var Credential(userId, sid, claim) := token.credential;
    if sid == "" || userId == "" then Rejected
    else if sid in t.rows && t.rows[sid].userId != userId then Rejected
    else if !IsSessionEpochAllowed(state, sid, claim) then Rejected
    else if SurvivorLostItsRow(t, state, sid) then Rejected
    else if sid in t.rows && IsDead(t.rows[sid], now) then Rejected
    else if sid !in t.rows && token.hasProvider then NeedsRow
    else Admitted
  }

  function Apply(s: System, delay: nat, a: Action): System
    requires Enabled(s, delay, a)
  {
    match a
    case Tick(elapsed) => s.(now := s.now + elapsed)
    case Capture(userId, sid) =>
      var (epoch, tables) := CaptureSessionEpoch(s.tables, userId, sid);
      var c := Credential(userId, sid, Epoch(epoch.value));
      s.(tables := tables, pending := s.pending + {c}, known := s.known + {c})
    case Mint(c, hasProvider) =>
      s.(pending := s.pending - {c}, tokens := s.tokens + {Token(c, s.now + SESSION_LIFETIME, hasProvider)})
    case Begin(id, token) => s.(requests := s.requests[id := Request(token, s.now, Started)])
    case ReadState(id) => WithPhase(s, id, HasState(StateOf(s.tables, s.requests[id].token.credential.userId)))
    case ReadRow(id) => WithPhase(s, id, Decide(s.tables, s.now, s.requests[id].phase.state, s.requests[id].token))
    case CreateRow(id) =>
      var c := s.requests[id].token.credential;
      var (created, tables) := UpsertSessionIfMissing(s.tables, s.now, c.sid, c.userId, c.claim);
      WithPhase(s.(tables := tables), id, if created.Ok? then Admitted else Rejected)
    case Reissue(token) => s.(tokens := s.tokens + {token.(expires := s.now + SESSION_LIFETIME)})
    case Touch(sid, clock) => s.(tables := TouchSession(s.tables, clock, sid))
    case RevokeOne(sid, userId) => s.(tables := RevokeSession(s.tables, sid, userId).1)
    case SignOut(sid) =>
      if sid == "" || sid !in s.tables.rows then s
      else s.(tables := RevokeSessionBySid(s.tables, sid, s.tables.rows[sid].userId))
    case RevokeOthers(userId, exceptSid) => s.(tables := RevokeAllOtherSessions(s.tables, userId, exceptSid).1)
    case Sweep(clock) => s.(tables := SweepSessions(s.tables, clock))
  }

  /** `after` is reached from `before` by these actions, each of them enabled in its turn. */
  ghost predicate Run(before: System, delay: nat, actions: seq<Action>, after: System)
    decreases |actions|
  {
    if actions == [] then before == after
    else Enabled(before, delay, actions[0]) && Run(Apply(before, delay, actions[0]), delay, actions[1..], after)
  }

  /**
   * Before anybody has signed in under the epoch scheme: no rows, epoch zero everywhere, and perhaps older tokens
   * that carry no claim at all.
   */
  ghost predicate Init(s: System) {
    && s.tables == Tables(map[], map[])
    && s.pending == {} && s.requests == map[]
    && (forall t :: t in s.tokens ==>
          t.credential in s.known && !t.credential.claim.Epoch? && t.expires <= s.now + SESSION_LIFETIME)
    && (forall c :: c in s.known ==> !c.claim.Epoch?)
  }

  ghost predicate Reachable(s: System, delay: nat) {
    exists s0: System, actions: seq<Action> :: Init(s0) && Run(s0, delay, actions, s)
  }

  // ----- The invariant -----

  /** No credential is ahead of its account's epoch, and the marker, when set, names the only admissible session. */
  ghost predicate EpochInvariant(s: System) {
    && (forall c :: c in s.known && c.claim.Epoch? ==> c.claim.epoch <= StateOf(s.tables, c.userId).sessionEpoch)
    && (forall u :: u in s.tables.states ==> MarkerInvariant(s, u))
  }

  ghost predicate MarkerInvariant(s: System, u: UserId) {
    var state := StateOf(s.tables, u);
    state.rotationSessionSid.Some? ==>
      && state.survivingSid == state.rotationSessionSid
      && state.sessionEpoch > 0
      && forall c :: c in s.known && c.userId == u && c.claim.Epoch? ==> c.claim.epoch < state.sessionEpoch
  }

  /** Tokens and requests only carry known credentials, and pending ones have no token yet. */
  ghost predicate ProvenanceInvariant(s: System) {
    && s.pending <= s.known
    && (forall t :: t in s.tokens ==> t.credential in s.known)
    && (forall id :: id in s.requests ==> s.requests[id].token in s.tokens && s.requests[id].startedAt < s.requests[id].token.expires)
    && (forall c, t :: c in s.pending && t in s.tokens ==> t.credential.sid != c.sid)
    && (forall c :: c in s.pending ==> c.sid !in s.tables.rows)
    && (forall c, d :: c in s.pending && d in s.known && c.sid == d.sid ==> c == d)
  }

  /** Every token is dead one lifetime after its row is. */
  ghost predicate ExpiryInvariant(s: System) {
    && (forall t :: t in s.tokens ==> t.expires <= s.now + SESSION_LIFETIME)
    && (forall t :: t in s.tokens && t.credential.sid in s.tables.rows ==>
          t.expires <= s.tables.rows[t.credential.sid].expiresAt + SESSION_LIFETIME)
  }

  ghost predicate Invariant(s: System) {
    EpochInvariant(s) && ProvenanceInvariant(s)
  }

  lemma InitHasInvariant(s: System)
    requires Init(s)
    ensures Invariant(s) && ExpiryInvariant(s)
  {
  }

  /** Epochs never go back, and captured claims never get ahead of them. */
  lemma EpochsOnlyAdvance(s: System, delay: nat, a: Action, u: UserId)
    requires Enabled(s, delay, a)
    ensures StateOf(s.tables, u).sessionEpoch <= StateOf(Apply(s, delay, a).tables, u).sessionEpoch
  {
  }

  lemma KnownStep(s: System, delay: nat, a: Action, c: Credential)
    requires EpochInvariant(s) && Enabled(s, delay, a) && c in Apply(s, delay, a).known && c.claim.Epoch?
    ensures c.claim.epoch <= StateOf(Apply(s, delay, a).tables, c.userId).sessionEpoch
  {
    EpochsOnlyAdvance(s, delay, a, c.userId);
  }

  lemma MarkerStep(s: System, delay: nat, a: Action, u: UserId)
    requires EpochInvariant(s) && Enabled(s, delay, a)
    ensures MarkerInvariant(Apply(s, delay, a), u)
  {
    assert MarkerInvariant(s, u);
  }

  lemma EpochStep(s: System, delay: nat, a: Action)
    requires EpochInvariant(s) && Enabled(s, delay, a)
    ensures EpochInvariant(Apply(s, delay, a))
  {
    var after := Apply(s, delay, a);
    forall c | c in after.known && c.claim.Epoch?
      ensures c.claim.epoch <= StateOf(after.tables, c.userId).sessionEpoch
    {
      KnownStep(s, delay, a, c);
    }
    forall u | u in after.tables.states
      ensures MarkerInvariant(after, u)
    {
      MarkerStep(s, delay, a, u);
    }
  }

  lemma ProvenanceStep(s: System, delay: nat, a: Action)
    requires Invariant(s) && Enabled(s, delay, a)
    ensures ProvenanceInvariant(Apply(s, delay, a))
  {
  }

  lemma ExpiryStep(s: System, delay: nat, a: Action)
    requires Invariant(s) && ExpiryInvariant(s) && Enabled(s, delay, a) && delay <= SESSION_LIFETIME
    ensures ExpiryInvariant(Apply(s, delay, a))
  {
  }

  lemma {:induction false} RunKeepsInvariant(before: System, delay: nat, actions: seq<Action>, after: System)
    requires Invariant(before) && Run(before, delay, actions, after)
    ensures Invariant(after)
    ensures ExpiryInvariant(before) && delay <= SESSION_LIFETIME ==> ExpiryInvariant(after)
    decreases |actions|
  {
    if actions != [] {
      EpochStep(before, delay, actions[0]);
      ProvenanceStep(before, delay, actions[0]);
      if ExpiryInvariant(before) && delay <= SESSION_LIFETIME {
        ExpiryStep(before, delay, actions[0]);
      }
      RunKeepsInvariant(Apply(before, delay, actions[0]), delay, actions[1..], after);
    }
  }

  lemma ReachableHasInvariant(s: System, delay: nat)
    requires Reachable(s, delay)
    ensures Invariant(s)
    ensures delay <= SESSION_LIFETIME ==> ExpiryInvariant(s)
  {
    var s0, actions :| Init(s0) && Run(s0, delay, actions, s);
    InitHasInvariant(s0);
    RunKeepsInvariant(s0, delay, actions, s);
  }

  /**
   * The exclusive-session marker: while it is set, no credential of that account other than the marked session's
   * can be admitted, in any reachable state.
   */
  lemma MarkedSessionIsExclusive(s: System, delay: nat, userId: UserId, sid: Sid)
    requires Reachable(s, delay)
    requires StateOf(s.tables, userId).rotationSessionSid == Some(sid)
    ensures StateOf(s.tables, userId).survivingSid == Some(sid) && StateOf(s.tables, userId).sessionEpoch > 0
    ensures forall c :: c in s.known && c.userId == userId ==>
      && (c.claim.Epoch? ==> c.claim.epoch < StateOf(s.tables, userId).sessionEpoch)
      && (IsSessionEpochAllowed(StateOf(s.tables, userId), c.sid, c.claim) ==> c.sid == sid)
  {
    ReachableHasInvariant(s, delay);
    assert MarkerInvariant(s, userId);
  }

  // ----- No resurrection -----

  /** Nothing captured for this session is at or past `epoch`, and its id will not be captured again. */
  ghost predicate IsOld(s: System, userId: UserId, sid: Sid, epoch: nat) {
    && (exists c :: c in s.known && c.userId == userId && c.sid == sid)
    && forall c :: c in s.known && c.userId == userId && c.sid == sid && c.claim.Epoch? ==> c.claim.epoch < epoch
  }

  /** The account has moved past `epoch` and this session has no row that is not revoked. */
  ghost predicate Killed(s: System, userId: UserId, sid: Sid, epoch: nat) {
    && epoch > 0 && epoch <= StateOf(s.tables, userId).sessionEpoch
    && IsOld(s, userId, sid, epoch)
    && !(sid in s.tables.rows && s.tables.rows[sid].userId == userId && !s.tables.rows[sid].revoked)
  }

  /** A request that started after the kill: it has seen the new epoch if it has seen any, and was not admitted. */
  ghost predicate LateRequest(r: Request, userId: UserId, sid: Sid, epoch: nat) {
    r.token.credential.userId == userId && r.token.credential.sid == sid ==>
      match r.phase
      case Started => true
      case HasState(state) => state.sessionEpoch >= epoch
      case NeedsRow => false
      case Admitted => false
      case Rejected => true
  }

  ghost predicate LateRequests(s: System, early: set<RequestId>, userId: UserId, sid: Sid, epoch: nat) {
    forall id :: id in s.requests && id !in early ==> LateRequest(s.requests[id], userId, sid, epoch)
  }

  lemma RevocationKills(s: System, delay: nat, userId: UserId, exceptSid: Sid, c: Credential)
    requires Invariant(s) && c in s.known && c.userId == userId && (exceptSid == "" || c.sid != exceptSid)
    ensures var after := Apply(s, delay, RevokeOthers(userId, exceptSid));
      Killed(after, userId, c.sid, StateOf(after.tables, userId).sessionEpoch)
  {
  }

  lemma IsOldStep(s: System, delay: nat, a: Action, userId: UserId, sid: Sid, epoch: nat)
    requires IsOld(s, userId, sid, epoch) && Enabled(s, delay, a)
    ensures IsOld(Apply(s, delay, a), userId, sid, epoch)
  {
  }

  /** No action brings a killed session back: not even a later revoke-all that names it as the survivor. */
  lemma KilledStep(s: System, delay: nat, a: Action, userId: UserId, sid: Sid, epoch: nat)
    requires ProvenanceInvariant(s) && Killed(s, userId, sid, epoch) && Enabled(s, delay, a)
    ensures Killed(Apply(s, delay, a), userId, sid, epoch)
  {
    EpochsOnlyAdvance(s, delay, a, userId);
    IsOldStep(s, delay, a, userId, sid, epoch);
  }

  lemma LateRequestStep(s: System, delay: nat, a: Action, id: RequestId, userId: UserId, sid: Sid, epoch: nat)
    requires ProvenanceInvariant(s) && Killed(s, userId, sid, epoch) && Enabled(s, delay, a)
    requires id in s.requests ==> LateRequest(s.requests[id], userId, sid, epoch)
    requires id in Apply(s, delay, a).requests
    ensures LateRequest(Apply(s, delay, a).requests[id], userId, sid, epoch)
  {
  }

  lemma LateRequestsStep(s: System, delay: nat, a: Action, early: set<RequestId>, userId: UserId, sid: Sid, epoch: nat)
    requires ProvenanceInvariant(s) && Killed(s, userId, sid, epoch) && Enabled(s, delay, a)
    requires LateRequests(s, early, userId, sid, epoch) && early <= s.requests.Keys
    ensures LateRequests(Apply(s, delay, a), early, userId, sid, epoch) && early <= Apply(s, delay, a).requests.Keys
  {
    var after := Apply(s, delay, a);
    forall id | id in after.requests && id !in early
      ensures LateRequest(after.requests[id], userId, sid, epoch)
    {
      LateRequestStep(s, delay, a, id, userId, sid, epoch);
    }
  }

  lemma {:induction false} RunKeepsKilled(before: System, delay: nat, actions: seq<Action>, after: System,
                                          early: set<RequestId>, userId: UserId, sid: Sid, epoch: nat)
    requires Invariant(before) && Run(before, delay, actions, after)
    requires Killed(before, userId, sid, epoch)
    requires LateRequests(before, early, userId, sid, epoch) && early <= before.requests.Keys
    ensures Killed(after, userId, sid, epoch) && LateRequests(after, early, userId, sid, epoch)
    decreases |actions|
  {
    if actions != [] {
      var a := actions[0];
      EpochStep(before, delay, a);
      ProvenanceStep(before, delay, a);
      KilledStep(before, delay, a, userId, sid, epoch);
      LateRequestsStep(before, delay, a, early, userId, sid, epoch);
      RunKeepsKilled(Apply(before, delay, a), delay, actions[1..], after, early, userId, sid, epoch);
    }
  }

  /**
   * No resurrection. Once revoke-all has committed for an account, every credential captured before it for another
   * session is dead for good, whatever happens afterwards in any order: no request that starts later is admitted,
   * the session endpoint refuses it, and its row is never alive.
   */
  lemma NoResurrection(s: System, delay: nat, userId: UserId, exceptSid: Sid, c: Credential, actions: seq<Action>, after: System)
    requires Reachable(s, delay)
    requires c in s.known && c.userId == userId && (exceptSid == "" || c.sid != exceptSid)
    requires Run(Apply(s, delay, RevokeOthers(userId, exceptSid)), delay, actions, after)
    ensures forall id :: id in after.requests && id !in s.requests && after.requests[id].token.credential == c ==>
      !after.requests[id].phase.Admitted?
    ensures IsSessionUnusable(after.tables, after.now, c.sid, userId, c.claim)
    ensures c.sid in after.tables.rows && after.tables.rows[c.sid].userId == userId ==> after.tables.rows[c.sid].revoked
  {
    ReachableHasInvariant(s, delay);
    var revoked := Apply(s, delay, RevokeOthers(userId, exceptSid));
    EpochStep(s, delay, RevokeOthers(userId, exceptSid));
    ProvenanceStep(s, delay, RevokeOthers(userId, exceptSid));
    RevocationKills(s, delay, userId, exceptSid, c);
    var epoch := StateOf(revoked.tables, userId).sessionEpoch;
    RunKeepsKilled(revoked, delay, actions, after, s.requests.Keys, userId, c.sid, epoch);
    RunKeepsInvariant(revoked, delay, actions, after);
    RunKeepsKnown(revoked, delay, actions, after, c);
  }

  /**
   * The same for the session endpoint when its two reads are taken apart: the row as it was at one later moment
   * and the account state as it was at another.
   */
  lemma NoResurrectionAcrossReads(s: System, delay: nat, userId: UserId, exceptSid: Sid, c: Credential,
                                  toRow: seq<Action>, atRow: System, toState: seq<Action>, atState: System, now: Time)
    requires Reachable(s, delay)
    requires c in s.known && c.userId == userId && (exceptSid == "" || c.sid != exceptSid)
    requires Run(Apply(s, delay, RevokeOthers(userId, exceptSid)), delay, toRow, atRow)
    requires Run(atRow, delay, toState, atState)
    ensures IsSessionUnusable(Tables(atState.tables.states, atRow.tables.rows), now, c.sid, userId, c.claim)
  {
    ReachableHasInvariant(s, delay);
    var revoked := Apply(s, delay, RevokeOthers(userId, exceptSid));
    EpochStep(s, delay, RevokeOthers(userId, exceptSid));
    ProvenanceStep(s, delay, RevokeOthers(userId, exceptSid));
    RevocationKills(s, delay, userId, exceptSid, c);
    var epoch := StateOf(revoked.tables, userId).sessionEpoch;
    RunKeepsKilled(revoked, delay, toRow, atRow, revoked.requests.Keys, userId, c.sid, epoch);
    RunKeepsInvariant(revoked, delay, toRow, atRow);
    RunKeepsKilled(atRow, delay, toState, atState, atRow.requests.Keys, userId, c.sid, epoch);
    RunKeepsKnown(revoked, delay, toRow, atRow, c);
    RunKeepsKnown(atRow, delay, toState, atState, c);
  }

  lemma {:induction false} RunKeepsKnown(before: System, delay: nat, actions: seq<Action>, after: System, c: Credential)
    requires Run(before, delay, actions, after) && c in before.known
    ensures c in after.known
    decreases |actions|
  {
    if actions != [] {
      RunKeepsKnown(Apply(before, delay, actions[0]), delay, actions[1..], after, c);
    }
  }

  // ----- The sweep is late enough -----

  /**
   * When the sweep deletes a session's row, every token naming that session has expired, at the latest by the
   * clock the sweep itself went by.
   */
  lemma SweepIsLateEnough(s: System, delay: nat, clock: Time, sid: Sid, t: Token)
    requires Reachable(s, delay) && delay <= SESSION_LIFETIME && Enabled(s, delay, Sweep(clock))
    requires sid in s.tables.rows && sid !in Apply(s, delay, Sweep(clock)).tables.rows
    requires t in s.tokens && t.credential.sid == sid
    ensures t.expires < clock <= s.now
  {
    ReachableHasInvariant(s, delay);
  }

  // ----- Admission still works -----

  /** The session is the account's survivor, and everything captured for it is older than `epoch`. */
  ghost predicate Survives(s: System, userId: UserId, sid: Sid, epoch: nat) {
    && epoch > 0 && StateOf(s.tables, userId).sessionEpoch == epoch && StateOf(s.tables, userId).survivingSid == Some(sid)
    && IsOld(s, userId, sid, epoch)
  }

  /** Short of another revoke-all, only the end of its own row takes the exception away. */
  lemma SurvivorStep(s: System, delay: nat, a: Action, userId: UserId, sid: Sid, epoch: nat)
    requires Survives(s, userId, sid, epoch) && Enabled(s, delay, a) && !(a.RevokeOthers? && a.userId == userId)
    ensures Survives(Apply(s, delay, a), userId, sid, epoch) || Killed(Apply(s, delay, a), userId, sid, epoch)
  {
    IsOldStep(s, delay, a, userId, sid, epoch);
  }

  ghost predicate NoRevokeAll(actions: seq<Action>, userId: UserId) {
    forall i :: 0 <= i < |actions| && actions[i].RevokeOthers? ==> actions[i].userId != userId
  }

  lemma {:induction false} RunKeepsSurvivor(before: System, delay: nat, actions: seq<Action>, after: System,
                                            userId: UserId, sid: Sid, epoch: nat)
    requires Invariant(before) && Run(before, delay, actions, after) && NoRevokeAll(actions, userId)
    requires Survives(before, userId, sid, epoch) || Killed(before, userId, sid, epoch)
    ensures Survives(after, userId, sid, epoch) || Killed(after, userId, sid, epoch)
    decreases |actions|
  {
    if actions != [] {
      var a := actions[0];
      EpochStep(before, delay, a);
      ProvenanceStep(before, delay, a);
      if Survives(before, userId, sid, epoch) {
        SurvivorStep(before, delay, a, userId, sid, epoch);
      } else {
        KilledStep(before, delay, a, userId, sid, epoch);
      }
      RunKeepsSurvivor(Apply(before, delay, a), delay, actions[1..], after, userId, sid, epoch);
    }
  }

  /**
   * The session that asked for the revocation keeps working, with any well-formed claim, whatever else happens: at
   * every later time short of another revoke-all of the account at which its row is alive, it is usable.
   */
  lemma SurvivorStaysUsable(s: System, delay: nat, userId: UserId, c: Credential, actions: seq<Action>, after: System,
                            claim: EpochClaim)
    requires Reachable(s, delay) && c in s.known && c.userId == userId && userId != "" && c.sid != "" && !claim.Malformed?
    requires Run(Apply(s, delay, RevokeOthers(userId, c.sid)), delay, actions, after) && NoRevokeAll(actions, userId)
    requires c.sid in after.tables.rows && after.tables.rows[c.sid].userId == userId && !IsDead(after.tables.rows[c.sid], after.now)
    ensures !IsSessionUnusable(after.tables, after.now, c.sid, userId, claim)
  {
    ReachableHasInvariant(s, delay);
    var revoked := Apply(s, delay, RevokeOthers(userId, c.sid));
    EpochStep(s, delay, RevokeOthers(userId, c.sid));
    ProvenanceStep(s, delay, RevokeOthers(userId, c.sid));
    RunKeepsSurvivor(revoked, delay, actions, after, userId, c.sid, StateOf(revoked.tables, userId).sessionEpoch);
  }

  lemma RunFrom(s: System, delay: nat, a: Action, rest: seq<Action>, after: System)
    requires Enabled(s, delay, a) && Run(Apply(s, delay, a), delay, rest, after)
    ensures Run(s, delay, [a] + rest, after)
  {
  }

  /** The first request of a session: the token carries the account's epoch and there is no row yet. */
  lemma FirstRequestIsAdmitted(s: System, delay: nat, token: Token, id: RequestId) returns (after: System)
    requires token in s.tokens && token.expires > s.now && token.hasProvider && id !in s.requests
    requires var Credential(userId, sid, claim) := token.credential;
      && userId != "" && sid != "" && sid !in s.tables.rows
      && claim == Epoch(StateOf(s.tables, userId).sessionEpoch)
      && StateOf(s.tables, userId).survivingSid != Some(sid)
    ensures Run(s, delay, [Begin(id, token), ReadState(id), ReadRow(id), CreateRow(id)], after)
    ensures id in after.requests && after.requests[id].phase == Admitted
    ensures token.credential.sid in after.tables.rows
    ensures after.tables.rows[token.credential.sid] == Row(token.credential.userId, s.now + SESSION_LIFETIME, false)
  {
    var s1 := Apply(s, delay, Begin(id, token));
    var s2 := Apply(s1, delay, ReadState(id));
    var s3 := Apply(s2, delay, ReadRow(id));
    assert s3.requests[id] == Request(token, s.now, NeedsRow);
    after := Apply(s3, delay, CreateRow(id));
    RunFrom(s3, delay, CreateRow(id), [], after);
    RunFrom(s2, delay, ReadRow(id), [CreateRow(id)], after);
    RunFrom(s1, delay, ReadState(id), [ReadRow(id), CreateRow(id)], after);
    RunFrom(s, delay, Begin(id, token), [ReadState(id), ReadRow(id), CreateRow(id)], after);
    assert [Begin(id, token)] + [ReadState(id), ReadRow(id), CreateRow(id)] == [Begin(id, token), ReadState(id), ReadRow(id), CreateRow(id)];
    assert [ReadState(id)] + [ReadRow(id), CreateRow(id)] == [ReadState(id), ReadRow(id), CreateRow(id)];
    assert [ReadRow(id)] + [CreateRow(id)] == [ReadRow(id), CreateRow(id)];
    assert [CreateRow(id)] + [] == [CreateRow(id)];
  }
}
