/**
 * When a dead session stays dead. Its row is dead once it is revoked or expired; it may still be revived by a touch in
 * flight, and after its row is swept, by a request in flight that has not yet found that out. Nothing else can.
 */
module SessionEnd {
  import opened AuthSessions
  import opened SessionProtocol
  import opened Wrappers

  /** Revoked, or expired for longer than any touch stays in flight. */
  ghost predicate IsGone(s: System, delay: nat, sid: Sid) {
    sid in s.tables.rows && (s.tables.rows[sid].revoked || s.tables.rows[sid].expiresAt + delay <= s.now)
  }

  ghost predicate HasDeadRow(s: System, sid: Sid) {
    sid in s.tables.rows && IsDead(s.tables.rows[sid], s.now)
  }

  ghost predicate Names(s: System, id: RequestId, sid: Sid) {
    id in s.requests && s.requests[id].token.credential.sid == sid
  }

  /** No request is admitted that had not been at the start, and the row, while there is one, is dead. */
  ghost predicate StaysDead(start: System, after: System, sid: Sid) {
    && (forall id :: Names(after, id, sid) && after.requests[id].phase.Admitted? ==>
          id in start.requests && start.requests[id].phase.Admitted?)
    && (sid in after.tables.rows ==> IsDead(after.tables.rows[sid], after.now))
  }

  /** Whether this account state lets a session without a row in. */
  predicate IsAdmissible(state: AccountState, c: Credential) {
    IsSessionEpochAllowed(state, c.sid, c.claim) && !(state.sessionEpoch > 0 && state.survivingSid == Some(c.sid))
  }

  /** A request in flight that would be admitted, were the row missing from now on. */
  predicate CanPass(s: System, delay: nat, id: RequestId) {
    id in s.requests && InFlight(s, delay, id) &&
    var Request(token, _, phase) := s.requests[id];
    var c, current := token.credential, StateOf(s.tables, token.credential.userId);
    match phase
    case Started => c.userId != "" && IsAdmissible(current, c)
    case HasState(state) => c.userId != "" && IsAdmissible(state, c) && (token.hasProvider ==> IsAdmissible(current, c))
    case NeedsRow => IsAdmissible(current, c)
    case Admitted => false
    case Rejected => false
  }

  /** The guard of the sweep's delete. */
  predicate TakesRow(s: System, clock: Time, sid: Sid) {
    sid in s.tables.rows && s.tables.rows[sid].expiresAt < clock - SESSION_LIFETIME
  }

  /** The sweep takes the row while a request could still pass without it. */
  ghost predicate IsHasty(s: System, delay: nat, clock: Time, sid: Sid) {
    TakesRow(s, clock, sid) && exists id :: Names(s, id, sid) && CanPass(s, delay, id)
  }

  ghost predicate CarefulRun(before: System, delay: nat, actions: seq<Action>, after: System, sid: Sid)
    decreases |actions|
  {
    if actions == [] then before == after
    else
      && Enabled(before, delay, actions[0])
      && (actions[0].Sweep? ==> !IsHasty(before, delay, actions[0].clock, sid))
      && CarefulRun(Apply(before, delay, actions[0]), delay, actions[1..], after, sid)
  }

  // ----- Before the sweep -----

  ghost predicate RowsAreNamed(s: System) {
    "" !in s.tables.rows
  }

  /** Requests for the session that are admitted were so before its end. */
  ghost predicate NoneElseAdmitted(s: System, admitted: set<RequestId>, sid: Sid) {
    forall id :: Names(s, id, sid) && s.requests[id].phase.Admitted? ==> id in admitted
  }

  lemma NamedStep(s: System, delay: nat, a: Action)
    requires RowsAreNamed(s) && Enabled(s, delay, a)
    ensures RowsAreNamed(Apply(s, delay, a))
  {
  }

  lemma GoneStep(s: System, delay: nat, a: Action, sid: Sid)
    requires Invariant(s) && IsGone(s, delay, sid) && Enabled(s, delay, a)
    requires a.Sweep? ==> !TakesRow(s, a.clock, sid)
    ensures IsGone(Apply(s, delay, a), delay, sid)
  {
  }

  lemma GoneAdmitsNone(s: System, delay: nat, a: Action, admitted: set<RequestId>, sid: Sid)
    requires RowsAreNamed(s) && IsGone(s, delay, sid) && Enabled(s, delay, a) && NoneElseAdmitted(s, admitted, sid)
    ensures NoneElseAdmitted(Apply(s, delay, a), admitted, sid)
  {
    forall id | Names(Apply(s, delay, a), id, sid) && Apply(s, delay, a).requests[id].phase.Admitted?
      ensures id in admitted
    {
      assert id in s.requests ==> Names(s, id, sid);
    }
  }

  // ----- After the sweep -----

  /** The row has been swept, no token for the session is left, and no request in flight can pass. */
  ghost predicate IsBuried(s: System, delay: nat, sid: Sid) {
    && sid != "" && sid !in s.tables.rows
    && (exists c :: c in s.known && c.sid == sid)
    && (forall c :: c in s.pending ==> c.sid != sid)
    && (forall t :: t in s.tokens && t.credential.sid == sid ==> t.expires <= s.now)
    && (forall id :: Names(s, id, sid) ==> !CanPass(s, delay, id))
  }

  /** An account state that keeps the session out without its row keeps it out for good. */
  lemma InadmissibleStep(s: System, delay: nat, a: Action, c: Credential)
    requires EpochInvariant(s) && c in s.known && c.sid !in s.tables.rows && Enabled(s, delay, a)
    requires !IsAdmissible(StateOf(s.tables, c.userId), c)
    ensures !IsAdmissible(StateOf(Apply(s, delay, a).tables, c.userId), c)
  {
    var before, after := StateOf(s.tables, c.userId), StateOf(Apply(s, delay, a).tables, c.userId);
    assert c.claim.Epoch? ==> c.claim.epoch <= before.sessionEpoch;
  }

  lemma BuriedRequestStep(s: System, delay: nat, a: Action, id: RequestId, sid: Sid)
    requires Invariant(s) && IsBuried(s, delay, sid) && Enabled(s, delay, a) && Names(Apply(s, delay, a), id, sid)
    ensures !CanPass(Apply(s, delay, a), delay, id)
    ensures Apply(s, delay, a).requests[id].phase.Admitted? ==> id in s.requests && s.requests[id].phase.Admitted?
  {
    assert Names(s, id, sid);
    var c := s.requests[id].token.credential;
    if !IsAdmissible(StateOf(s.tables, c.userId), c) {
      InadmissibleStep(s, delay, a, c);
    }
  }

  lemma BuriedStep(s: System, delay: nat, a: Action, sid: Sid)
    requires Invariant(s) && IsBuried(s, delay, sid) && Enabled(s, delay, a)
    ensures IsBuried(Apply(s, delay, a), delay, sid)
  {
    var c :| c in s.known && c.sid == sid;
    var after := Apply(s, delay, a);
    assert c in after.known;
    forall id | Names(after, id, sid)
      ensures !CanPass(after, delay, id)
    {
      BuriedRequestStep(s, delay, a, id, sid);
    }
    BuriedRowStep(s, delay, a, sid);
  }

  lemma BuriedRowStep(s: System, delay: nat, a: Action, sid: Sid)
    requires Invariant(s) && IsBuried(s, delay, sid) && Enabled(s, delay, a)
    ensures sid !in Apply(s, delay, a).tables.rows
  {
    if a.CreateRow? && s.requests[a.id].token.credential.sid == sid {
      assert Names(s, a.id, sid);
    }
  }

  lemma BuriedAdmitsNone(s: System, delay: nat, a: Action, admitted: set<RequestId>, sid: Sid)
    requires Invariant(s) && IsBuried(s, delay, sid) && Enabled(s, delay, a) && NoneElseAdmitted(s, admitted, sid)
    ensures NoneElseAdmitted(Apply(s, delay, a), admitted, sid)
  {
    var after := Apply(s, delay, a);
    forall id | Names(after, id, sid) && after.requests[id].phase.Admitted?
      ensures id in admitted
    {
      BuriedRequestStep(s, delay, a, id, sid);
      assert Names(s, id, sid);
    }
  }

  /** A sweep that is not hasty buries the session. */
  lemma SweepBuries(s: System, delay: nat, clock: Time, c: Credential)
    requires Invariant(s) && ExpiryInvariant(s) && RowsAreNamed(s) && c in s.known
    requires Enabled(s, delay, Sweep(clock)) && TakesRow(s, clock, c.sid) && !IsHasty(s, delay, clock, c.sid)
    ensures IsBuried(Apply(s, delay, Sweep(clock)), delay, c.sid)
  {
    var after := Apply(s, delay, Sweep(clock));
    forall id | Names(after, id, c.sid)
      ensures !CanPass(after, delay, id)
    {
      assert Names(s, id, c.sid);
    }
  }

  lemma EndStep(s: System, delay: nat, a: Action, admitted: set<RequestId>, c: Credential)
    requires Invariant(s) && ExpiryInvariant(s) && RowsAreNamed(s) && c in s.known && Enabled(s, delay, a)
    requires IsGone(s, delay, c.sid) || IsBuried(s, delay, c.sid)
    requires NoneElseAdmitted(s, admitted, c.sid) && (a.Sweep? ==> !IsHasty(s, delay, a.clock, c.sid))
    ensures IsGone(Apply(s, delay, a), delay, c.sid) || IsBuried(Apply(s, delay, a), delay, c.sid)
    ensures NoneElseAdmitted(Apply(s, delay, a), admitted, c.sid)
  {
    if IsBuried(s, delay, c.sid) {
      BuriedStep(s, delay, a, c.sid);
      BuriedAdmitsNone(s, delay, a, admitted, c.sid);
    } else {
      GoneAdmitsNone(s, delay, a, admitted, c.sid);
      if a.Sweep? && TakesRow(s, a.clock, c.sid) {
        SweepBuries(s, delay, a.clock, c);
      } else {
        GoneStep(s, delay, a, c.sid);
      }
    }
  }

  lemma {:induction false} RunKeepsGone(before: System, delay: nat, actions: seq<Action>, after: System,
                                        admitted: set<RequestId>, c: Credential)
    requires Invariant(before) && ExpiryInvariant(before) && RowsAreNamed(before) && delay <= SESSION_LIFETIME
    requires c in before.known && CarefulRun(before, delay, actions, after, c.sid)
    requires IsGone(before, delay, c.sid) || IsBuried(before, delay, c.sid)
    requires NoneElseAdmitted(before, admitted, c.sid)
    ensures IsGone(after, delay, c.sid) || IsBuried(after, delay, c.sid)
    ensures NoneElseAdmitted(after, admitted, c.sid)
    decreases |actions|
  {
    if actions != [] {
      var a, next := actions[0], Apply(before, delay, actions[0]);
      EpochStep(before, delay, a);
      ProvenanceStep(before, delay, a);
      ExpiryStep(before, delay, a);
      NamedStep(before, delay, a);
      EndStep(before, delay, a, admitted, c);
      RunKeepsGone(next, delay, actions[1..], after, admitted, c);
    }
  }

  lemma {:induction false} RunKeepsNamed(before: System, delay: nat, actions: seq<Action>, after: System)
    requires RowsAreNamed(before) && Run(before, delay, actions, after)
    ensures RowsAreNamed(after)
    decreases |actions|
  {
    if actions != [] {
      NamedStep(before, delay, actions[0]);
      RunKeepsNamed(Apply(before, delay, actions[0]), delay, actions[1..], after);
    }
  }

  lemma ReachableIsNamed(s: System, delay: nat)
    requires Reachable(s, delay)
    ensures RowsAreNamed(s)
  {
    var s0, actions :| Init(s0) && Run(s0, delay, actions, s);
    RunKeepsNamed(s0, delay, actions, s);
  }

  /**
   * A dead session is never admitted again, before or after its row is swept, in any run whose sweeps do not take the
   * row from under a request that could still pass. `HastySweepReadmits` says that no other sweep will do.
   */
  lemma DeadSessionStaysDead(s: System, delay: nat, c: Credential, actions: seq<Action>, after: System)
    requires Reachable(s, delay) && delay <= SESSION_LIFETIME && c in s.known && IsGone(s, delay, c.sid)
    requires CarefulRun(s, delay, actions, after, c.sid)
    ensures StaysDead(s, after, c.sid)
  {
    ReachableHasInvariant(s, delay);
    ReachableIsNamed(s, delay);
    var admitted := set id | id in s.requests && s.requests[id].phase.Admitted?;
    RunKeepsGone(s, delay, actions, after, admitted, c);
  }

  /** A sweep that lets every request in flight finish between reading its clock and deleting is never hasty. */
  lemma PatientSweepIsCareful(s: System, delay: nat, clock: Time, sid: Sid)
    requires Reachable(s, delay) && delay <= SESSION_LIFETIME && Enabled(s, delay, Sweep(clock)) && clock + delay <= s.now
    ensures !IsHasty(s, delay, clock, sid)
  {
    ReachableHasInvariant(s, delay);
    forall id | Names(s, id, sid) && TakesRow(s, clock, sid)
      ensures !CanPass(s, delay, id)
    {
      assert s.requests[id].startedAt < s.requests[id].token.expires;
    }
  }

  // ----- The converse: a hasty sweep lets the request through -----

  lemma {:induction false} RunKeepsAdmitted(before: System, delay: nat, actions: seq<Action>, after: System, id: RequestId)
    requires Run(before, delay, actions, after) && id in before.requests && before.requests[id].phase.Admitted?
    ensures id in after.requests && after.requests[id].phase.Admitted?
    decreases |actions|
  {
    if actions != [] {
      RunKeepsAdmitted(Apply(before, delay, actions[0]), delay, actions[1..], after, id);
    }
  }

  lemma {:induction false} RunThenRun(a: System, delay: nat, x: seq<Action>, b: System, y: seq<Action>, c: System)
    requires Run(a, delay, x, b) && Run(b, delay, y, c)
    ensures Run(a, delay, x + y, c)
    decreases |x|
  {
    if x == [] {
      assert x + y == y;
    } else {
      assert (x + y)[0] == x[0] && (x + y)[1..] == x[1..] + y;
      RunThenRun(Apply(a, delay, x[0]), delay, x[1..], b, y, c);
    }
  }

  lemma RunOfOne(s: System, delay: nat, a: Action)
    requires Enabled(s, delay, a)
    ensures Run(s, delay, [a], Apply(s, delay, a))
  {
    assert [a][1..] == [];
    assert Run(Apply(s, delay, a), delay, [], Apply(s, delay, a));
  }

  /** The request's remaining steps, taken at once, end in admission or in a live row. */
  lemma PassThrough(s: System, delay: nat, id: RequestId) returns (rest: seq<Action>, after: System)
    requires CanPass(s, delay, id) && s.requests[id].token.credential.sid != ""
    requires s.requests[id].token.credential.sid !in s.tables.rows
    ensures Run(s, delay, rest, after) && id in after.requests
    ensures after.requests[id].token == s.requests[id].token && after.requests[id].phase.Admitted?
    decreases match s.requests[id].phase case Started => 2 case HasState(_) => 1 case _ => 0
  {
    var a := match s.requests[id].phase case Started => ReadState(id) case HasState(_) => ReadRow(id) case _ => CreateRow(id);
    var next := Apply(s, delay, a);
    RunOfOne(s, delay, a);
    if next.requests[id].phase.Admitted? {
      rest, after := [a], next;
    } else {
      var more;
      more, after := PassThrough(next, delay, id);
      RunThenRun(s, delay, [a], next, more, after);
      rest := [a] + more;
    }
  }

  /** So every hasty sweep can be followed by an admission that no dead session should see. */
  lemma HastySweepReadmits(s: System, delay: nat, sid: Sid, actions: seq<Action>, mid: System, clock: Time)
    returns (more: seq<Action>, after: System)
    requires RowsAreNamed(s) && Run(s, delay, actions, mid)
    requires Enabled(mid, delay, Sweep(clock)) && IsHasty(mid, delay, clock, sid)
    ensures Run(s, delay, actions + more, after) && !StaysDead(s, after, sid)
  {
    var swept := Apply(mid, delay, Sweep(clock));
    RunKeepsNamed(s, delay, actions, mid);
    var id :| Names(mid, id, sid) && CanPass(mid, delay, id);
    var rest;
    rest, after := PassThrough(swept, delay, id);
    RunOfOne(mid, delay, Sweep(clock));
    RunThenRun(mid, delay, [Sweep(clock)], swept, rest, after);
    more := [Sweep(clock)] + rest;
    RunThenRun(s, delay, actions, mid, more, after);
    assert Names(after, id, sid);
    if id in s.requests && s.requests[id].phase.Admitted? {
      RunKeepsAdmitted(s, delay, actions, mid, id);
    }
  }

  // ----- Which dead sessions stay dead in every run -----

  /** A dead row comes alive again by some touch in flight exactly when it is not gone yet. */
  lemma TouchRevivesIff(s: System, delay: nat, sid: Sid)
    requires HasDeadRow(s, sid) && delay < SESSION_LIFETIME
    ensures (exists clock :: Enabled(s, delay, Touch(sid, clock)) && !HasDeadRow(Apply(s, delay, Touch(sid, clock)), sid))
        <==> !IsGone(s, delay, sid)
  {
    var clock := s.tables.rows[sid].expiresAt - 1;
    if !IsGone(s, delay, sid) {
      assert Enabled(s, delay, Touch(sid, clock)) && !HasDeadRow(Apply(s, delay, Touch(sid, clock)), sid);
    }
  }

  ghost predicate LeadsTo(s: System, delay: nat, after: System) {
    exists actions :: Run(s, delay, actions, after)
  }

  ghost predicate AlwaysStaysDead(s: System, delay: nat, sid: Sid) {
    forall after :: LeadsTo(s, delay, after) ==> StaysDead(s, after, sid)
  }

  ghost predicate CanBeSweptHastily(s: System, delay: nat, sid: Sid) {
    exists mid, clock :: LeadsTo(s, delay, mid) && Enabled(mid, delay, Sweep(clock)) && IsHasty(mid, delay, clock, sid)
  }

  lemma {:induction false} NeverHastyIsCareful(s: System, delay: nat, sid: Sid, past: seq<Action>, before: System,
                                               actions: seq<Action>, after: System)
    requires !CanBeSweptHastily(s, delay, sid) && Run(s, delay, past, before) && Run(before, delay, actions, after)
    ensures CarefulRun(before, delay, actions, after, sid)
    decreases |actions|
  {
    if actions != [] {
      var next := Apply(before, delay, actions[0]);
      assert LeadsTo(s, delay, before);
      RunOfOne(before, delay, actions[0]);
      RunThenRun(s, delay, past, before, [actions[0]], next);
      NeverHastyIsCareful(s, delay, sid, past + [actions[0]], next, actions[1..], after);
    }
  }

  lemma NeverHastyStaysDead(s: System, delay: nat, c: Credential)
    requires Reachable(s, delay) && delay <= SESSION_LIFETIME && c in s.known && IsGone(s, delay, c.sid)
    requires !CanBeSweptHastily(s, delay, c.sid)
    ensures AlwaysStaysDead(s, delay, c.sid)
  {
    forall after | LeadsTo(s, delay, after)
      ensures StaysDead(s, after, c.sid)
    {
      var actions :| Run(s, delay, actions, after);
      NeverHastyIsCareful(s, delay, c.sid, [], s, actions, after);
      DeadSessionStaysDead(s, delay, c, actions, after);
    }
  }

  lemma HastyDoesNot(s: System, delay: nat, sid: Sid)
    requires Reachable(s, delay) && CanBeSweptHastily(s, delay, sid)
    ensures !AlwaysStaysDead(s, delay, sid)
  {
    ReachableIsNamed(s, delay);
    var mid, clock :| LeadsTo(s, delay, mid) && Enabled(mid, delay, Sweep(clock)) && IsHasty(mid, delay, clock, sid);
    var actions :| Run(s, delay, actions, mid);
    var more, after := HastySweepReadmits(s, delay, sid, actions, mid, clock);
    assert LeadsTo(s, delay, after);
  }

  lemma TouchedDoesNot(s: System, delay: nat, sid: Sid, clock: Time)
    requires Enabled(s, delay, Touch(sid, clock)) && HasDeadRow(s, sid)
    requires !HasDeadRow(Apply(s, delay, Touch(sid, clock)), sid)
    ensures !AlwaysStaysDead(s, delay, sid)
  {
    RunOfOne(s, delay, Touch(sid, clock));
    assert LeadsTo(s, delay, Apply(s, delay, Touch(sid, clock)));
  }

  /** A dead session stays dead in every run if and only if no touch can revive it and no sweep can be hasty. */
  lemma StaysDeadIff(s: System, delay: nat, c: Credential)
    requires Reachable(s, delay) && delay < SESSION_LIFETIME && c in s.known && HasDeadRow(s, c.sid)
    ensures AlwaysStaysDead(s, delay, c.sid) <==> IsGone(s, delay, c.sid) && !CanBeSweptHastily(s, delay, c.sid)
  {
    TouchRevivesIff(s, delay, c.sid);
    if !IsGone(s, delay, c.sid) {
      var clock :| Enabled(s, delay, Touch(c.sid, clock)) && !HasDeadRow(Apply(s, delay, Touch(c.sid, clock)), c.sid);
      TouchedDoesNot(s, delay, c.sid, clock);
    } else if CanBeSweptHastily(s, delay, c.sid) {
      HastyDoesNot(s, delay, c.sid);
    } else {
      NeverHastyStaysDead(s, delay, c);
    }
  }

  // ----- For which delays that is all of them -----

  /** The strict form of the expiry invariant: re-issue needs a row that is still alive. */
  ghost predicate TokensEndEarlier(s: System) {
    forall t :: t in s.tokens && t.credential.sid in s.tables.rows ==>
      t.expires < s.tables.rows[t.credential.sid].expiresAt + SESSION_LIFETIME
  }

  lemma TokensStep(s: System, delay: nat, a: Action)
    requires Invariant(s) && ExpiryInvariant(s) && TokensEndEarlier(s) && Enabled(s, delay, a) && delay < SESSION_LIFETIME
    ensures TokensEndEarlier(Apply(s, delay, a))
  {
  }

  lemma {:induction false} RunKeepsTokens(before: System, delay: nat, actions: seq<Action>, after: System)
    requires Invariant(before) && ExpiryInvariant(before) && TokensEndEarlier(before)
    requires Run(before, delay, actions, after) && delay < SESSION_LIFETIME
    ensures TokensEndEarlier(after)
    decreases |actions|
  {
    if actions != [] {
      var a := actions[0];
      EpochStep(before, delay, a);
      ProvenanceStep(before, delay, a);
      ExpiryStep(before, delay, a);
      TokensStep(before, delay, a);
      RunKeepsTokens(Apply(before, delay, a), delay, actions[1..], after);
    }
  }

  /** A sweep comes at least three milliseconds after the last request that named the row could begin. */
  lemma QuickRequestsAreOver(s: System, delay: nat, clock: Time, sid: Sid)
    requires Reachable(s, delay) && delay <= 2 && Enabled(s, delay, Sweep(clock))
    ensures !IsHasty(s, delay, clock, sid)
  {
    var s0, actions :| Init(s0) && Run(s0, delay, actions, s);
    InitHasInvariant(s0);
    RunKeepsInvariant(s0, delay, actions, s);
    RunKeepsTokens(s0, delay, actions, s);
    forall id | Names(s, id, sid) && TakesRow(s, clock, sid)
      ensures !CanPass(s, delay, id)
    {
      assert s.requests[id].startedAt < s.requests[id].token.expires;
    }
  }

  lemma ReachableRun(s: System, delay: nat, actions: seq<Action>, after: System)
    requires Reachable(s, delay) && Run(s, delay, actions, after)
    ensures Reachable(after, delay)
  {
    var s0, past :| Init(s0) && Run(s0, delay, past, s);
    RunThenRun(s0, delay, past, s, actions, after);
  }

  lemma QuickNeverHasty(s: System, delay: nat, sid: Sid)
    requires Reachable(s, delay) && delay <= 2
    ensures !CanBeSweptHastily(s, delay, sid)
  {
    forall mid, clock | LeadsTo(s, delay, mid) && Enabled(mid, delay, Sweep(clock))
      ensures !IsHasty(mid, delay, clock, sid)
    {
      var actions :| Run(s, delay, actions, mid);
      ReachableRun(s, delay, actions, mid);
      QuickRequestsAreOver(mid, delay, clock, sid);
    }
  }

  // ----- The runs on which it fails -----

  lemma ReachableThen(s: System, delay: nat, a: Action)
    requires Reachable(s, delay) && Enabled(s, delay, a)
    ensures Reachable(Apply(s, delay, a), delay)
  {
    RunOfOne(s, delay, a);
    ReachableRun(s, delay, [a], Apply(s, delay, a));
  }

  const CREDENTIAL := Credential("u", "s", Epoch(0))

  function FirstToken(hasProvider: bool): Token {
    Token(CREDENTIAL, SESSION_LIFETIME, hasProvider)
  }

  /** Signed in at time zero, first request admitted, one millisecond before the row expires. */
  ghost function LateInLife(state: AccountState): System {
    System(Tables(map["u" := state], map["s" := Row("u", SESSION_LIFETIME, false)]), SESSION_LIFETIME - 1, {}, {CREDENTIAL},
           {FirstToken(true)}, map[0 := Request(FirstToken(true), 0, Admitted)])
  }

  lemma SignedIn(delay: nat) returns (s: System)
    ensures Reachable(s, delay) && s.now == 0 && s.pending == {} && s.known == {CREDENTIAL} && s.tokens == {FirstToken(true)}
    ensures s.tables == Tables(map["u" := INITIAL], map[]) && s.requests == map[]
  {
    var s0 := System(Tables(map[], map[]), 0, {}, {}, {}, map[]);
    assert Init(s0) && Run(s0, delay, [], s0);
    ReachableThen(s0, delay, Capture("u", "s"));
    var s1 := Apply(s0, delay, Capture("u", "s"));
    assert s1.pending == {CREDENTIAL} && s1.known == {CREDENTIAL};
    ReachableThen(s1, delay, Mint(CREDENTIAL, true));
    s := Apply(s1, delay, Mint(CREDENTIAL, true));
  }

  lemma LateInLifeIsReachable(delay: nat)
    ensures Reachable(LateInLife(INITIAL), delay)
  {
    var s := SignedIn(delay);
    var t := FirstToken(true);
    ReachableThen(s, delay, Begin(0, t));
    var s1 := Apply(s, delay, Begin(0, t));
    ReachableThen(s1, delay, ReadState(0));
    var s2 := Apply(s1, delay, ReadState(0));
    ReachableThen(s2, delay, ReadRow(0));
    var s3 := Apply(s2, delay, ReadRow(0));
    assert s3.requests == map[0 := Request(t, 0, NeedsRow)];
    ReachableThen(s3, delay, CreateRow(0));
    var s4 := Apply(s3, delay, CreateRow(0));
    assert s4.requests == map[0 := Request(t, 0, Admitted)];
    assert s4.tables == Tables(map["u" := INITIAL], map["s" := Row("u", SESSION_LIFETIME, false)]);
    ReachableThen(s4, delay, Tick(SESSION_LIFETIME - 1));
    assert Apply(s4, delay, Tick(SESSION_LIFETIME - 1)) == LateInLife(INITIAL);
  }

  /** A touch that read its clock while the row was alive runs one millisecond after it expired. */
  lemma ExpiredRowRevived(delay: nat) returns (s: System, touch: Action)
    requires delay >= 1
    ensures Reachable(s, delay) && CREDENTIAL in s.known && HasDeadRow(s, "s") && Enabled(s, delay, touch)
    ensures touch.Touch? && touch.sid == "s" && !HasDeadRow(Apply(s, delay, touch), "s")
  {
    LateInLifeIsReachable(delay);
    s, touch := Apply(LateInLife(INITIAL), delay, Tick(1)), Touch("s", SESSION_LIFETIME - 1);
    ReachableThen(LateInLife(INITIAL), delay, Tick(1));
  }

  /** Re-issued one millisecond before the row expires, then revoked. */
  lemma ReissuedThenRevoked(delay: nat) returns (s: System)
    ensures Reachable(s, delay) && CREDENTIAL in s.known && IsGone(s, delay, "s") && HasDeadRow(s, "s")
    ensures s.now == SESSION_LIFETIME - 1 && StateOf(s.tables, "u") == INITIAL && s.requests.Keys == {0}
    ensures s.tables.rows == map["s" := Row("u", SESSION_LIFETIME, true)]
    ensures Token(CREDENTIAL, 2 * SESSION_LIFETIME - 1, true) in s.tokens
  {
    LateInLifeIsReachable(delay);
    var s0 := LateInLife(INITIAL);
    ReachableThen(s0, delay, Reissue(FirstToken(true)));
    var s1 := Apply(s0, delay, Reissue(FirstToken(true)));
    assert FirstToken(true).(expires := 2 * SESSION_LIFETIME - 1) in s1.tokens;
    ReachableThen(s1, delay, RevokeOne("s", "u"));
    s := Apply(s1, delay, RevokeOne("s", "u"));
  }

  /**
   * A request begins in the last millisecond of the token, reads the account state, and is still in flight three
   * milliseconds later when a prompt sweep takes the row of the revoked session.
   */
  lemma SweptHastily(delay: nat) returns (s: System)
    requires delay >= 3
    ensures Reachable(s, delay) && CREDENTIAL in s.known && IsGone(s, delay, "s") && HasDeadRow(s, "s")
    ensures CanBeSweptHastily(s, delay, "s")
  {
    s := ReissuedThenRevoked(delay);
    var t, late := Token(CREDENTIAL, 2 * SESSION_LIFETIME - 1, true), 2 * SESSION_LIFETIME + 1;
    var s1 := Apply(s, delay, Tick(SESSION_LIFETIME - 1));
    RunOfOne(s, delay, Tick(SESSION_LIFETIME - 1));
    var s2 := Apply(s1, delay, Begin(7, t));
    RunOfOne(s1, delay, Begin(7, t));
    RunThenRun(s, delay, [Tick(SESSION_LIFETIME - 1)], s1, [Begin(7, t)], s2);
    var s3 := Apply(s2, delay, Tick(3));
    RunOfOne(s2, delay, Tick(3));
    RunThenRun(s, delay, [Tick(SESSION_LIFETIME - 1)] + [Begin(7, t)], s2, [Tick(3)], s3);
    assert LeadsTo(s, delay, s3);
    assert Names(s3, 7, "s") && CanPass(s3, delay, 7);
    assert Enabled(s3, delay, Sweep(late)) && IsHasty(s3, delay, late, "s");
  }

  /**
   * Revoked sessions, and those expired for as long as a touch can take, stay dead in all runs if and only if
   * operations take at most two milliseconds.
   */
  lemma GoneStaysDeadIff(delay: nat)
    ensures (forall s, c | Reachable(s, delay) && c in s.known && IsGone(s, delay, c.sid) :: AlwaysStaysDead(s, delay, c.sid))
        <==> delay <= 2
  {
    if delay <= 2 {
      forall s, c | Reachable(s, delay) && c in s.known && IsGone(s, delay, c.sid)
        ensures AlwaysStaysDead(s, delay, c.sid)
      {
        QuickNeverHasty(s, delay, c.sid);
        NeverHastyStaysDead(s, delay, c);
      }
    } else {
      var s := SweptHastily(delay);
      HastyDoesNot(s, delay, CREDENTIAL.sid);
    }
  }

  /** All dead sessions stay dead in all runs if and only if no time passes within an operation. */
  lemma DeadStaysDeadIff(delay: nat)
    ensures (forall s, c | Reachable(s, delay) && c in s.known && HasDeadRow(s, c.sid) :: AlwaysStaysDead(s, delay, c.sid))
        <==> delay == 0
  {
    if delay == 0 {
      forall s, c | Reachable(s, delay) && c in s.known && HasDeadRow(s, c.sid)
        ensures AlwaysStaysDead(s, delay, c.sid)
      {
        QuickNeverHasty(s, delay, c.sid);
        NeverHastyStaysDead(s, delay, c);
      }
    } else {
      var s, touch := ExpiredRowRevived(delay);
      TouchedDoesNot(s, delay, CREDENTIAL.sid, touch.clock);
    }
  }
}
