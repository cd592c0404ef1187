/** The code table as the controller and the sweep update it. */
module SignInController {
  import opened SignInCodes
  import opened SignInRuns
  import opened Wrappers

  /** A code signs in exactly when it is the live one of its address, in time, and short of its attempt limit. */
  lemma AcceptedIff(rows: Rows, email: string, digest: string, now: int)
    requires OneLive(rows)
    ensures Consume(rows, email, digest, now).1.Ok? <==>
      exists id :: IsLive(rows, email, id) && rows[id].digest == digest && rows[id].expires >= now && rows[id].attempts < MAX_ATTEMPTS
  {
  }

  /** Codes of the last fifteen minutes that a request by this address counts against it. */
  ghost predicate IsRecent(rows: Rows, id: Id, now: int) {
    id in rows && rows[id].created > now - 15 * 60000
  }

  /**
   * A request is turned down exactly when the address, or the IP it gave, has used its quota up, and then nothing
   * changes. Otherwise the new code is stored unused for ten minutes, the address's other codes are used up, and every
   * code of another address is as it was.
   */
  lemma RequestTouches(rows: Rows, caps: Caps, email: string, ip: string, id: Id, digest: string, now: int, stamp: int)
    requires id !in rows
    ensures var (after, outcome) := Request(rows, caps, email, ip, id, digest, now, stamp);
      var (byEmail, byIp) := (set r | r in rows && IsRecent(rows, r, now) && rows[r].email == email,
                              set r | r in rows && IsRecent(rows, r, now) && rows[r].ip == ip);
      && (outcome.RateLimited? <==> |byEmail| >= caps.perEmail || (if ip == "" then 0 else |byIp|) >= caps.perIp)
      && (outcome.RateLimited? ==> after == rows)
      && (outcome.Issued? ==>
            && after.Keys == rows.Keys + {id}
            && after[id] == Row(email, ip, digest, 0, false, stamp, stamp + 10 * 60000)
            && (forall r :: r in rows && rows[r].email == email ==> after[r] == rows[r].(consumed := true))
            && (forall r :: r in rows && rows[r].email != email ==> after[r] == rows[r]))
  {
    assert Counted(rows, Email(email), now) == set r | r in rows && IsRecent(rows, r, now) && rows[r].email == email;
    assert Counted(rows, Ip(ip), now) == set r | r in rows && IsRecent(rows, r, now) && rows[r].ip == ip;
  }

  /** What a check answers, and that it changes the live code of the address only. */
  lemma ConsumeTouches(rows: Rows, email: string, digest: string, now: int, id: Id)
    requires OneLive(rows) && id in rows
    ensures var (after, outcome) := Consume(rows, email, digest, now);
      var row := rows[id];
      && after.Keys == rows.Keys
      && (!(row.email == email && !row.consumed) ==> after[id] == row)
      && (row.email == email && !row.consumed ==>
            if now > row.expires then outcome == Expired && after[id] == row
            else if row.attempts >= 5 then outcome == TooManyAttempts && after[id] == row
            else if row.digest == digest then outcome == Ok && after[id] == row.(consumed := true)
            else outcome == (if row.attempts == 4 then TooManyAttempts else Invalid)
                 && after[id] == row.(attempts := row.attempts + 1))
      && ((forall r :: r in rows && rows[r].email == email ==> rows[r].consumed) ==> outcome == Invalid && after == rows)
  {
    var live := LiveId(rows, email);
    if rows[id].email == email && !rows[id].consumed {
      assert IsLive(rows, email, id);
      assert live == Some(id);
    }
    if live.Some? {
      assert IsLive(rows, email, live.value);
    }
  }

  class CodeTable {
    var rows: Rows
    const caps: Caps

    constructor (caps: Caps)
      ensures rows == map[] && this.caps == caps
    {
      rows := map[];
      this.caps := caps;
    }

    method RequestSignInCode(email: string, ip: string, id: Id, digest: string, now: int, stamp: int) returns (outcome: RequestOutcome)
      requires OneLive(rows) && id !in rows
      modifies this
      ensures (rows, outcome) == Request(old(rows), caps, email, ip, id, digest, now, stamp) && OneLive(rows)
      ensures forall r :: r in old(rows) && old(rows)[r].email != email ==> r in rows && rows[r] == old(rows)[r]
    {
      var byEmail := |Counted(rows, Email(email), now)|;
      var byIp := if ip == "" then 0 else |Counted(rows, Ip(ip), now)|;
      if byEmail >= caps.perEmail || byIp >= caps.perIp {
        return RateLimited;
      }
      RequestOneLive(rows, email, id, Row(email, ip, digest, 0, false, stamp, stamp + CODE_TTL_MS));
      rows := Retire(rows, email);
      rows := rows[id := Row(email, ip, digest, 0, false, stamp, stamp + CODE_TTL_MS)];
      outcome := Issued;
    }

    /** The query takes the newest unconsumed row of the address; there is never a second one. */
    method ConsumeSignInCode(email: string, digest: string, now: int) returns (outcome: ConsumeOutcome)
      requires OneLive(rows)
      modifies this
      ensures (rows, outcome) == Consume(old(rows), email, digest, now) && OneLive(rows)
    {
      var live := set id | id in rows && IsLive(rows, email, id);
      if live == {} {
        assert forall id :: IsLive(rows, email, id) ==> id in live;
        return Invalid;
      }
      var id :| id in live;
      assert LiveId(rows, email) == Some(id) by {
        assert IsLive(rows, email, id);
      }
      var row := rows[id];
      if row.expires < now {
        return Expired;
      }
      if row.attempts >= MAX_ATTEMPTS {
        return TooManyAttempts;
      }
      ConsumeOneLive(rows, id, Compare(row, digest).0);
      if row.digest != digest {
        var attempts := row.attempts + 1;
        rows := rows[id := row.(attempts := attempts)];
        return if attempts >= MAX_ATTEMPTS then TooManyAttempts else Invalid;
      }
      rows := rows[id := row.(consumed := true)];
      outcome := Ok;
    }

    method RemoveExpired(now: int) returns (removed: nat)
      requires OneLive(rows)
      modifies this
      ensures rows == Sweep(old(rows), now) && OneLive(rows)
      ensures removed + |rows| == |old(rows)|
    {
      SweepOneLive(rows, now);
      var gone := set id | id in rows && rows[id].expires < now;
      assert rows.Keys == Sweep(rows, now).Keys + gone;
      removed := |gone|;
      rows := rows - gone;
    }
  }
}
