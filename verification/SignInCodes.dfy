/**
 * One-time codes for signing in by email: issuing with its two quotas, checking with its attempt limit, and the sweep.
 * A request's quota locks make its count and insert one step, and a row lock makes a check one step.
 */
module SignInCodes {
  import opened Wrappers

  type Id = string

  const MAX_ATTEMPTS: nat := 5
  const CODE_TTL_MS: int := 10 * 60000
  const RATE_WINDOW_MS: int := 15 * 60000

  /** Codes one address, and one IP, may request per window; both can be configured. */
  datatype Caps = Caps(perEmail: nat, perIp: nat)

  /** `digest` is the keyed hash of the code. */
  datatype Row = Row(email: string, ip: string, digest: string, attempts: nat, consumed: bool, created: int, expires: int)
  type Rows = map<Id, Row>

  datatype Who = Email(address: string) | Ip(address: string)

  datatype RequestOutcome = Issued | RateLimited
  datatype ConsumeOutcome = Ok | Invalid | Expired | TooManyAttempts

  predicate Matches(email: string, ip: string, who: Who) {
    match who
    case Email(address) => email == address
    case Ip(address) => ip == address
  }

  function CapOf(caps: Caps, who: Who): nat {
    if who.Email? then caps.perEmail else caps.perIp
  }

  /** The rows a quota counts. */
  function Counted(rows: Rows, who: Who, now: int): set<Id> {
    set id | id in rows && Matches(rows[id].email, rows[id].ip, who) && rows[id].created > now - RATE_WINDOW_MS
  }

  predicate IsLimited(rows: Rows, caps: Caps, email: string, ip: string, now: int) {
    || |Counted(rows, Email(email), now)| >= caps.perEmail
    || (if ip == "" then 0 >= caps.perIp else |Counted(rows, Ip(ip), now)| >= caps.perIp)
  }

  function Retire(rows: Rows, email: string): Rows {
    map id | id in rows :: if rows[id].email == email then rows[id].(consumed := true) else rows[id]
  }

  /** Quotas are measured at `now`; the row is stamped when it is inserted. */
  function Request(rows: Rows, caps: Caps, email: string, ip: string, id: Id, digest: string, now: int, stamp: int): (Rows, RequestOutcome) {
    if IsLimited(rows, caps, email, ip, now) then (rows, RateLimited)
    else (Retire(rows, email)[id := Row(email, ip, digest, 0, false, stamp, stamp + CODE_TTL_MS)], Issued)
  }

  predicate IsLive(rows: Rows, email: string, id: Id) {
    id in rows && rows[id].email == email && !rows[id].consumed
  }

  ghost predicate OneLive(rows: Rows) {
    forall a, b, email :: IsLive(rows, email, a) && IsLive(rows, email, b) ==> a == b
  }

  ghost function LiveId(rows: Rows, email: string): (live: Option<Id>)
    ensures live.Some? ==> IsLive(rows, email, live.value)
    ensures live.None? ==> forall id :: !IsLive(rows, email, id)
  {
    if id :| IsLive(rows, email, id) then Some(id) else None
  }

  /** Whether the submitted code gets as far as being compared with the row's. */
  predicate IsCompared(row: Row, now: int) {
    row.expires >= now && row.attempts < MAX_ATTEMPTS
  }

  function Refuse(row: Row, now: int): ConsumeOutcome {
    if row.expires < now then Expired else TooManyAttempts
  }

  function Compare(row: Row, digest: string): (Row, ConsumeOutcome) {
    if row.digest == digest then (row.(consumed := true), Ok)
    else (row.(attempts := row.attempts + 1), if row.attempts + 1 >= MAX_ATTEMPTS then TooManyAttempts else Invalid)
  }

  ghost function Consume(rows: Rows, email: string, digest: string, now: int): (Rows, ConsumeOutcome) {
    var live := LiveId(rows, email);
    if live.None? then (rows, Invalid)
    else
      var row := rows[live.value];
      if !IsCompared(row, now) then (rows, Refuse(row, now))
      else (rows[live.value := Compare(row, digest).0], Compare(row, digest).1)
  }

  function Sweep(rows: Rows, now: int): Rows {
    map id | id in rows && rows[id].expires >= now :: rows[id]
  }
}

module SignInRuns {
  import opened SignInCodes
  import opened Sets
  import opened Wrappers

  datatype Action =
    | Requesting(email: string, ip: string, id: Id, digest: string, now: int, stamp: int)
    | Consuming(email: string, digest: string, at: int)
    | Sweeping(now: int, at: int)

  datatype Issue = Issue(email: string, ip: string, created: int)

  /** The table, the clock, and a record of every code ever issued, compared or accepted. */
  datatype System = System(rows: Rows, clock: int, issued: map<Id, Issue>, comparisons: map<Id, nat>, accepted: seq<Id>)

  /** Time goes forward; an instance reads its clock before its statement takes effect; a new row has a new id. */
  predicate Enabled(s: System, a: Action) {
    match a
    case Requesting(_, _, id, _, now, stamp) => now <= stamp && s.clock <= stamp && id !in s.issued
    case Consuming(_, _, at) => s.clock <= at
    case Sweeping(now, at) => now <= at && s.clock <= at
  }

  ghost function Compared(rows: Rows, email: string, now: int): Option<Id> {
    var live := LiveId(rows, email);
    if live.Some? && IsCompared(rows[live.value], now) then live else None
  }

  function CountOf(counts: map<Id, nat>, id: Id): nat {
    if id in counts then counts[id] else 0
  }

  ghost function Apply(s: System, caps: Caps, a: Action): System {
    match a
    case Requesting(email, ip, id, digest, now, stamp) =>
      var (rows, outcome) := Request(s.rows, caps, email, ip, id, digest, now, stamp);
      s.(rows := rows, clock := stamp, issued := if outcome.Issued? then s.issued[id := Issue(email, ip, stamp)] else s.issued)
    case Consuming(email, digest, at) =>
      var (rows, outcome) := Consume(s.rows, email, digest, at);
      var compared := Compared(s.rows, email, at);
      s.(rows := rows, clock := at,
         comparisons := if compared.Some? then s.comparisons[compared.value := CountOf(s.comparisons, compared.value) + 1] else s.comparisons,
         accepted := if outcome.Ok? && compared.Some? then s.accepted + [compared.value] else s.accepted)
    case Sweeping(now, at) => s.(rows := Sweep(s.rows, now), clock := at)
  }

  ghost predicate Possible(s: System, caps: Caps, run: seq<Action>)
    decreases |run|
  {
    run == [] || (Enabled(s, run[0]) && Possible(Apply(s, caps, run[0]), caps, run[1..]))
  }

  ghost function Run(s: System, caps: Caps, run: seq<Action>): System
    decreases |run|
  {
    if run == [] then s else Run(Apply(s, caps, run[0]), caps, run[1..])
  }

  const START := System(map[], 0, map[], map[], [])

  // ----- One live code, accepted once, compared at most five times -----

  ghost predicate Limited(s: System) {
    && OneLive(s.rows)
    && (forall id :: id in s.rows ==> id in s.issued && s.rows[id].attempts <= MAX_ATTEMPTS)
    && (forall id :: id in s.rows && id !in s.accepted ==> CountOf(s.comparisons, id) == s.rows[id].attempts)
    && (forall id :: id in s.accepted ==> id in s.issued && (id in s.rows ==> s.rows[id].consumed))
    && (forall id :: id in s.comparisons ==> id in s.issued && s.comparisons[id] <= MAX_ATTEMPTS)
    && (forall i, j :: 0 <= i < j < |s.accepted| ==> s.accepted[i] != s.accepted[j])
  }

  lemma RequestOneLive(rows: Rows, email: string, id: Id, row: Row)
    requires OneLive(rows) && id !in rows && row.email == email
    ensures OneLive(Retire(rows, email)[id := row])
  {
    var after := Retire(rows, email)[id := row];
    forall a, e | IsLive(after, e, a)
      ensures if e == email then a == id else IsLive(rows, e, a)
    {
    }
  }

  lemma ConsumeOneLive(rows: Rows, id: Id, row: Row)
    requires OneLive(rows) && id in rows && row.email == rows[id].email && !rows[id].consumed
    ensures OneLive(rows[id := row])
  {
    var after := rows[id := row];
    forall a, b, e | IsLive(after, e, a) && IsLive(after, e, b)
      ensures a == b
    {
      assert IsLive(rows, e, a) && IsLive(rows, e, b);
    }
  }

  lemma SweepOneLive(rows: Rows, now: int)
    requires OneLive(rows)
    ensures OneLive(Sweep(rows, now))
  {
    forall a, e | IsLive(Sweep(rows, now), e, a)
      ensures IsLive(rows, e, a)
    {
    }
  }

  lemma RequestKeeps(s: System, caps: Caps, a: Action)
    requires Limited(s) && Enabled(s, a) && a.Requesting?
    ensures Limited(Apply(s, caps, a))
  {
    RequestOneLive(s.rows, a.email, a.id, Row(a.email, a.ip, a.digest, 0, false, a.stamp, a.stamp + CODE_TTL_MS));
  }

  lemma ConsumeKeeps(s: System, caps: Caps, a: Action)
    requires Limited(s) && Enabled(s, a) && a.Consuming?
    ensures Limited(Apply(s, caps, a))
  {
    var compared := Compared(s.rows, a.email, a.at);
    if compared.Some? {
      var row := s.rows[compared.value];
      ConsumeOneLive(s.rows, compared.value, Compare(row, a.digest).0);
    }
  }

  lemma SweepKeeps(s: System, caps: Caps, a: Action)
    requires Limited(s) && Enabled(s, a) && a.Sweeping?
    ensures Limited(Apply(s, caps, a))
  {
    SweepOneLive(s.rows, a.now);
  }

  /** At every point of every run, sweeps included. */
  lemma {:induction false} RunKeepsLimited(s: System, caps: Caps, run: seq<Action>)
    requires Limited(s) && Possible(s, caps, run)
    ensures Limited(Run(s, caps, run))
    decreases |run|
  {
    if run != [] {
      match run[0] {
        case Requesting(_, _, _, _, _, _) => RequestKeeps(s, caps, run[0]);
        case Consuming(_, _, _) => ConsumeKeeps(s, caps, run[0]);
        case Sweeping(_, _) => SweepKeeps(s, caps, run[0]);
      }
      RunKeepsLimited(Apply(s, caps, run[0]), caps, run[1..]);
    }
  }

  /** One live code an address, each accepted once at most, each compared five times at most. */
  lemma CodesAreLimited(caps: Caps, run: seq<Action>)
    requires Possible(START, caps, run)
    ensures var s := Run(START, caps, run);
      && (forall email, a, b :: IsLive(s.rows, email, a) && IsLive(s.rows, email, b) ==> a == b)
      && (forall i, j :: 0 <= i < j < |s.accepted| ==> s.accepted[i] != s.accepted[j])
      && (forall id :: id in s.comparisons ==> s.comparisons[id] <= MAX_ATTEMPTS)
  {
    RunKeepsLimited(START, caps, run);
  }

  // ----- Sliding windows -----

  /** The codes issued to someone in the `length` milliseconds up to and including `end`. */
  function Window(issued: map<Id, Issue>, who: Who, end: int, length: int): set<Id> {
    set id | id in issued && Matches(issued[id].email, issued[id].ip, who) && end - length < issued[id].created <= end
  }

  /** Every issued code is still in the table unless a sweep found it expired. */
  ghost predicate Recorded(s: System, swept: bool) {
    forall id :: id in s.issued ==>
      var x := s.issued[id];
      && x.created <= s.clock
      && if id in s.rows then s.rows[id].email == x.email && s.rows[id].ip == x.ip && s.rows[id].created == x.created
           && s.rows[id].expires == x.created + CODE_TTL_MS
         else swept && x.created + CODE_TTL_MS < s.clock
  }

  ghost predicate WithinCap(s: System, caps: Caps, who: Who, length: int) {
    forall end :: |Window(s.issued, who, end, length)| <= CapOf(caps, who)
  }

  ghost predicate HasSweep(run: seq<Action>) {
    exists i :: 0 <= i < |run| && run[i].Sweeping?
  }

  lemma ConsumeRecorded(s: System, caps: Caps, a: Action, swept: bool)
    requires Recorded(s, swept) && Enabled(s, a) && a.Consuming?
    ensures Recorded(Apply(s, caps, a), swept)
  {
  }

  lemma StepRecorded(s: System, caps: Caps, a: Action, swept: bool)
    requires Recorded(s, swept) && Enabled(s, a) && (a.Sweeping? ==> swept)
    requires forall id :: id in s.rows ==> id in s.issued
    ensures Recorded(Apply(s, caps, a), swept)
  {
    if a.Consuming? {
      ConsumeRecorded(s, caps, a, swept);
    }
  }

  /** A window ending at or after a request holds only codes that request has counted. */
  lemma WindowIsCounted(s: System, who: Who, now: int, stamp: int, end: int, length: int, swept: bool)
    requires Recorded(s, swept) && now <= stamp <= end && s.clock <= stamp
    requires length <= RATE_WINDOW_MS && (swept ==> length <= CODE_TTL_MS + 1)
    ensures |Window(s.issued, who, end, length)| <= |Counted(s.rows, who, now)|
  {
    forall id | id in Window(s.issued, who, end, length)
      ensures id in Counted(s.rows, who, now)
    {
    }
    SubsetIsSmaller(Window(s.issued, who, end, length), Counted(s.rows, who, now));
  }

  lemma IssueWithinCap(s: System, caps: Caps, a: Action, who: Who, end: int, length: int, swept: bool)
    requires Recorded(s, swept) && Enabled(s, a) && a.Requesting? && who != Ip("")
    requires length <= RATE_WINDOW_MS && (swept ==> length <= CODE_TTL_MS + 1)
    requires !IsLimited(s.rows, caps, a.email, a.ip, a.now) && |Window(s.issued, who, end, length)| <= CapOf(caps, who)
    ensures |Window(s.issued[a.id := Issue(a.email, a.ip, a.stamp)], who, end, length)| <= CapOf(caps, who)
  {
    var before, now := Window(s.issued, who, end, length), Window(s.issued[a.id := Issue(a.email, a.ip, a.stamp)], who, end, length);
    if a.id in now {
      assert now == before + {a.id};
      WindowIsCounted(s, who, a.now, a.stamp, end, length, swept);
    } else {
      assert now == before;
    }
  }

  lemma RequestWithinCap(s: System, caps: Caps, a: Action, who: Who, length: int, swept: bool)
    requires Recorded(s, swept) && WithinCap(s, caps, who, length) && Enabled(s, a) && a.Requesting? && who != Ip("")
    requires length <= RATE_WINDOW_MS && (swept ==> length <= CODE_TTL_MS + 1)
    ensures WithinCap(Apply(s, caps, a), caps, who, length)
  {
    if !IsLimited(s.rows, caps, a.email, a.ip, a.now) {
      var issued := s.issued[a.id := Issue(a.email, a.ip, a.stamp)];
      forall end
        ensures |Window(issued, who, end, length)| <= CapOf(caps, who)
      {
        IssueWithinCap(s, caps, a, who, end, length, swept);
      }
    }
  }

  lemma {:induction false} RunWithinCap(s: System, caps: Caps, run: seq<Action>, who: Who, length: int, swept: bool)
    requires Limited(s) && Recorded(s, swept) && WithinCap(s, caps, who, length) && who != Ip("")
    requires Possible(s, caps, run) && (HasSweep(run) ==> swept)
    requires length <= RATE_WINDOW_MS && (swept ==> length <= CODE_TTL_MS + 1)
    ensures WithinCap(Run(s, caps, run), caps, who, length)
    decreases |run|
  {
    if run != [] {
      var a, next := run[0], Apply(s, caps, run[0]);
      StepRecorded(s, caps, a, swept);
      if a.Requesting? {
        RequestWithinCap(s, caps, a, who, length, swept);
      } else {
        assert next.issued == s.issued;
      }
      RunKeepsLimited(s, caps, [a]);
      assert Run(s, caps, [a]) == next;
      assert HasSweep(run[1..]) ==> HasSweep(run);
      RunWithinCap(next, caps, run[1..], who, length, swept);
    }
  }

  /**
   * No window of the limiter's length ever exceeds its quota while nothing is swept; with sweeps this holds of every
   * window up to a code's lifetime.
   */
  lemma WindowsHold(caps: Caps, run: seq<Action>, who: Who, length: int)
    requires Possible(START, caps, run) && who != Ip("")
    requires length <= if HasSweep(run) then CODE_TTL_MS + 1 else RATE_WINDOW_MS
    ensures WithinCap(Run(START, caps, run), caps, who, length)
  {
    assert forall end :: Window(START.issued, who, end, length) == {};
    RunWithinCap(START, caps, run, who, length, HasSweep(run));
  }

  // ----- The sweep forgets codes the window still holds -----

  function Name(i: nat): Id {
    seq(i, _ => 'x')
  }

  function Names(n: nat): set<Id> {
    set i | 0 <= i < n :: Name(i)
  }

  lemma NewName(n: nat)
    ensures Name(n) !in Names(n) && Names(n + 1) == Names(n) + {Name(n)}
  {
    assert |Name(n)| == n && forall i :: 0 <= i < n ==> |Name(i)| == i;
  }

  lemma {:induction false} NamesDiffer(n: nat)
    ensures |Names(n)| == n && Name(n) !in Names(n)
  {
    NewName(n);
    if n == 0 {
      assert Names(0) == {};
    } else {
      NamesDiffer(n - 1);
      NewName(n - 1);
    }
  }

  function Burst(k: nat, n: nat): seq<Action>
    decreases n - k
  {
    if k >= n then [] else [Requesting("a", "", Name(k), "", 0, 0)] + Burst(k + 1, n)
  }

  /** The state after `k` requests at time zero. */
  ghost predicate Burnt(s: System, k: nat) {
    s.clock == 0 && IssuesBurnt(s.issued, k) && RowsBurnt(s.rows, k)
  }

  ghost predicate IssuesBurnt(issued: map<Id, Issue>, k: nat) {
    issued.Keys == Names(k) && forall id :: id in issued ==> issued[id] == Issue("a", "", 0)
  }

  ghost predicate RowsBurnt(rows: Rows, k: nat) {
    && rows.Keys == Names(k)
    && forall id :: id in rows ==>
         rows[id].email == "a" && rows[id].ip == "" && rows[id].created == 0 && rows[id].expires == CODE_TTL_MS
  }

  lemma NotLimited(rows: Rows, caps: Caps, k: nat)
    requires rows.Keys == Names(k) && k < caps.perEmail && caps.perIp > 0
    ensures !IsLimited(rows, caps, "a", "", 0)
  {
    NamesDiffer(k);
    SubsetIsSmaller(Counted(rows, Email("a"), 0), Names(k));
  }

  lemma OneMoreRow(rows: Rows, k: nat, row: Row)
    requires RowsBurnt(rows, k) && RowsBurnt(map[Name(0) := row], 1)
    ensures RowsBurnt(Retire(rows, "a")[Name(k) := row], k + 1)
  {
    NewName(k);
    assert Name(0) in map[Name(0) := row];
  }

  lemma OneMoreIssue(issued: map<Id, Issue>, k: nat)
    requires IssuesBurnt(issued, k)
    ensures IssuesBurnt(issued[Name(k) := Issue("a", "", 0)], k + 1) && Name(k) !in issued
  {
    NewName(k);
  }

  lemma RequestBurns(s: System, caps: Caps, k: nat)
    requires Burnt(s, k) && k < caps.perEmail && caps.perIp > 0
    ensures var a := Requesting("a", "", Name(k), "", 0, 0); Enabled(s, a) && Burnt(Apply(s, caps, a), k + 1)
  {
    NotLimited(s.rows, caps, k);
    OneMoreIssue(s.issued, k);
    var row := Row("a", "", "", 0, false, 0, CODE_TTL_MS);
    assert Names(1) == {Name(0)};
    OneMoreRow(s.rows, k, row);
  }

  lemma {:induction false} BurstRuns(s: System, caps: Caps, k: nat, n: nat)
    requires Burnt(s, k) && k <= n <= caps.perEmail && caps.perIp > 0
    ensures Possible(s, caps, Burst(k, n)) && Burnt(Run(s, caps, Burst(k, n)), n)
    decreases n - k
  {
    if k < n {
      RequestBurns(s, caps, k);
      var a := Requesting("a", "", Name(k), "", 0, 0);
      BurstRuns(Apply(s, caps, a), caps, k + 1, n);
      var run := Burst(k, n);
      assert run[0] == a && run[1..] == Burst(k + 1, n);
    }
  }

  lemma {:induction false} RunsFollow(s: System, caps: Caps, a: seq<Action>, b: seq<Action>)
    ensures Run(s, caps, a + b) == Run(Run(s, caps, a), caps, b)
    ensures Possible(s, caps, a) && Possible(Run(s, caps, a), caps, b) ==> Possible(s, caps, a + b)
    decreases |a|
  {
    if a == [] {
      assert a + b == b;
    } else {
      var all := a + b;
      assert all[0] == a[0] && all[1..] == a[1..] + b;
      RunsFollow(Apply(s, caps, a[0]), caps, a[1..], b);
    }
  }

  /** Once the codes have expired and been swept, the quota is free again. */
  lemma SweptAndAsked(full: System, caps: Caps, n: nat, length: int)
    requires Burnt(full, n) && 0 < n == caps.perEmail && caps.perIp > 0 && length >= CODE_TTL_MS + 2
    ensures var late := CODE_TTL_MS + 1;
      var (sweep, last) := (Sweeping(late, late), Requesting("a", "", Name(n), "", late, late));
      var end := Apply(Apply(full, caps, sweep), caps, last);
      Enabled(full, sweep) && Enabled(Apply(full, caps, sweep), last) && |Window(end.issued, Email("a"), late, length)| == n + 1
  {
    NamesDiffer(n);
    var late := CODE_TTL_MS + 1;
    var swept := Apply(full, caps, Sweeping(late, late));
    assert swept.rows == map[];
    assert Counted(swept.rows, Email("a"), late) == {};
    var issued := full.issued[Name(n) := Issue("a", "", late)];
    assert issued.Keys == Names(n) + {Name(n)};
    assert Window(issued, Email("a"), late, length) == issued.Keys;
  }

  lemma TwoSteps(s: System, caps: Caps, a: Action, b: Action)
    requires Enabled(s, a) && Enabled(Apply(s, caps, a), b)
    ensures Possible(s, caps, [a, b]) && Run(s, caps, [a, b]) == Apply(Apply(s, caps, a), caps, b)
  {
    assert [a, b][1..] == [b] && [b][1..] == [];
    assert Possible(Apply(s, caps, a), caps, [b]) && Run(Apply(s, caps, a), caps, [b]) == Apply(Apply(s, caps, a), caps, b);
  }

  /** Fill the quota, sweep as soon as the codes have expired, and ask once more. */
  lemma SweepOpensWindow(caps: Caps, length: int) returns (run: seq<Action>)
    requires caps.perEmail > 0 && caps.perIp > 0 && length >= CODE_TTL_MS + 2
    ensures Possible(START, caps, run) && !WithinCap(Run(START, caps, run), caps, Email("a"), length)
  {
    var n, late := caps.perEmail, CODE_TTL_MS + 1;
    var sweep, last := Sweeping(late, late), Requesting("a", "", Name(n), "", late, late);
    assert Names(0) == {};
    BurstRuns(START, caps, 0, n);
    var full := Run(START, caps, Burst(0, n));
    SweptAndAsked(full, caps, n, length);
    TwoSteps(full, caps, sweep, last);
    RunsFollow(START, caps, Burst(0, n), [sweep, last]);
    run := Burst(0, n) + [sweep, last];
  }

  /** With sweeps in play, the quotas bind exactly the windows no longer than a code's lifetime, both ends included. */
  lemma WindowHoldsIff(caps: Caps, length: int)
    requires caps.perEmail > 0 && caps.perIp > 0 && length <= RATE_WINDOW_MS
    ensures (forall run, who :: Possible(START, caps, run) && who != Ip("") ==> WithinCap(Run(START, caps, run), caps, who, length))
       <==> length <= CODE_TTL_MS + 1
  {
    if length <= CODE_TTL_MS + 1 {
      forall run, who | Possible(START, caps, run) && who != Ip("")
        ensures WithinCap(Run(START, caps, run), caps, who, length)
      {
        WindowsHold(caps, run, who, length);
      }
    } else {
      var run := SweepOpensWindow(caps, length);
    }
  }
}
