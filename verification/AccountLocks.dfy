/**
 * Account locks taken by concurrent transactions, each nesting one lock inside another, and the check that refuses a
 * new id smaller than a held one.
 */
module AccountLocks {
  import opened Sets
  import opened Wrappers

  type UserId = string
  type TxId = nat

  /** A transaction keeps every row lock until it ends; it may be blocked on one more. */
  datatype Tx = Tx(held: set<UserId>, waiting: Option<UserId>)
  type System = map<TxId, Tx>

  datatype Action =
    | Ask(tx: TxId, user: UserId)
    | Wake(tx: TxId)
    | End(tx: TxId)

  datatype Answer = Granted | Blocked | LockOrder

  // ----- The order of ids -----

  /** Strings compare character by character, a prefix first. */
  predicate Before(a: UserId, b: UserId) {
    if b == "" then false
    else if a == "" then true
    else a[0] < b[0] || (a[0] == b[0] && Before(a[1..], b[1..]))
  }

  lemma {:induction false} BeforeIsIrreflexive(a: UserId)
    ensures !Before(a, a)
  {
    if a != "" {
      BeforeIsIrreflexive(a[1..]);
    }
  }

  lemma {:induction false} BeforeIsTransitive(a: UserId, b: UserId, c: UserId)
    requires Before(a, b) && Before(b, c)
    ensures Before(a, c)
  {
    if a != "" && a[0] == b[0] == c[0] {
      BeforeIsTransitive(a[1..], b[1..], c[1..]);
    }
  }

  lemma {:induction false} BeforeIsTotal(a: UserId, b: UserId)
    ensures Before(a, b) || a == b || Before(b, a)
  {
    if a != "" && b != "" && a[0] == b[0] {
      BeforeIsTotal(a[1..], b[1..]);
      assert a == [a[0]] + a[1..] && b == [b[0]] + b[1..];
    }
  }

  // ----- One transaction's request -----

  predicate IsFree(s: System, tx: TxId, user: UserId) {
    forall t :: t in s && t != tx ==> user !in s[t].held
  }

  /** Re-entering a held account is safe; a new one must not be smaller than any held one. */
  predicate OutOfOrder(held: set<UserId>, user: UserId) {
    user !in held && exists h :: h in held && Before(user, h)
  }

  /** Taking a lock without looking at the order. */
  function Take(s: System, tx: TxId, user: UserId): (System, Answer)
    requires tx in s
  {
    if IsFree(s, tx, user) then (s[tx := Tx(s[tx].held + {user}, None)], Granted)
    else (s[tx := s[tx].(waiting := Some(user))], Blocked)
  }

  function Acquire(s: System, tx: TxId, user: UserId): (System, Answer)
    requires tx in s
  {
    if OutOfOrder(s[tx].held, user) then (s, LockOrder) else Take(s, tx, user)
  }

  /** A blocked transaction does nothing else until it is woken; one that ends releases everything. */
  predicate Enabled(s: System, a: Action) {
    match a
    case Ask(tx, _) => tx in s ==> s[tx].waiting.None?
    case Wake(tx) => tx in s && s[tx].waiting.Some? && IsFree(s, tx, s[tx].waiting.value)
    case End(tx) => tx in s && s[tx].waiting.None?
  }

  function Open(s: System, tx: TxId): System {
    if tx in s then s else s[tx := Tx({}, None)]
  }

  function Apply(s: System, a: Action): System
    requires Enabled(s, a)
  {
    match a
    case Ask(tx, user) => Acquire(Open(s, tx), tx, user).0
    case Wake(tx) => s[tx := Tx(s[tx].held + {s[tx].waiting.value}, None)]
    case End(tx) => s - {tx}
  }

  ghost predicate Possible(s: System, run: seq<Action>)
    decreases |run|
  {
    run == [] || (Enabled(s, run[0]) && Possible(Apply(s, run[0]), run[1..]))
  }

  ghost function Run(s: System, run: seq<Action>): System
    requires Possible(s, run)
    decreases |run|
  {
    if run == [] then s else Run(Apply(s, run[0]), run[1..])
  }

  // ----- What every step keeps -----

  ghost predicate Exclusive(s: System) {
    forall t, u, x :: t in s && u in s && x in s[t].held && x in s[u].held ==> t == u
  }

  /** Whoever waits, waits for an id after all those it holds. */
  ghost predicate Ascending(s: System) {
    forall t, h :: t in s && s[t].waiting.Some? && h in s[t].held ==> Before(h, s[t].waiting.value)
  }

  lemma AskKeeps(s: System, tx: TxId, user: UserId)
    requires Exclusive(s) && Ascending(s) && Enabled(s, Ask(tx, user))
    ensures Exclusive(Apply(s, Ask(tx, user))) && Ascending(Apply(s, Ask(tx, user)))
  {
    var open := Open(s, tx);
    forall h | h in open[tx].held && user !in open[tx].held && !OutOfOrder(open[tx].held, user)
      ensures Before(h, user)
    {
      BeforeIsTotal(h, user);
    }
  }

  lemma StepKeeps(s: System, a: Action)
    requires Exclusive(s) && Ascending(s) && Enabled(s, a)
    ensures Exclusive(Apply(s, a)) && Ascending(Apply(s, a))
  {
    if a.Ask? {
      AskKeeps(s, a.tx, a.user);
    }
  }

  lemma {:induction false} RunKeeps(s: System, run: seq<Action>)
    requires Exclusive(s) && Ascending(s) && Possible(s, run)
    ensures Exclusive(Run(s, run)) && Ascending(Run(s, run))
    decreases |run|
  {
    if run != [] {
      StepKeeps(s, run[0]);
      RunKeeps(Apply(s, run[0]), run[1..]);
    }
  }

  // ----- No deadlock -----

  /** `t` cannot go on before `u` ends. */
  ghost predicate WaitsFor(s: System, t: TxId, u: TxId) {
    t in s && u in s && t != u && s[t].waiting.Some? && s[t].waiting.value in s[u].held
  }

  ghost predicate IsPath(s: System, path: seq<TxId>) {
    |path| >= 2 && forall i :: 0 <= i < |path| - 1 ==> WaitsFor(s, path[i], path[i + 1])
  }

  ghost predicate IsWaiting(s: System, t: TxId) {
    t in s && s[t].waiting.Some?
  }

  function Awaited(s: System, t: TxId): UserId {
    if t in s && s[t].waiting.Some? then s[t].waiting.value else ""
  }

  /** Along a path of waits the ids waited for grow. */
  lemma {:induction false} WaitsAscend(s: System, path: seq<TxId>)
    requires Ascending(s) && IsPath(s, path) && IsWaiting(s, path[|path| - 1])
    ensures Before(Awaited(s, path[0]), Awaited(s, path[|path| - 1]))
  {
    assert WaitsFor(s, path[0], path[1]);
    if |path| > 2 {
      var rest := path[1..];
      forall i | 0 <= i < |rest| - 1
        ensures WaitsFor(s, rest[i], rest[i + 1])
      {
        assert WaitsFor(s, path[i + 1], path[i + 2]);
      }
      WaitsAscend(s, rest);
      assert WaitsFor(s, path[1], path[2]);
      BeforeIsTransitive(Awaited(s, path[0]), Awaited(s, path[1]), Awaited(s, path[|path| - 1]));
    }
  }

  /** No transaction ever waits for itself, directly or through others. */
  lemma WaitsNeverCycle(run: seq<Action>, path: seq<TxId>)
    requires Possible(map[], run) && IsPath(Run(map[], run), path)
    ensures path[0] != path[|path| - 1]
  {
    var s := Run(map[], run);
    RunKeeps(map[], run);
    assert WaitsFor(s, path[0], path[1]);
    BeforeIsIrreflexive(Awaited(s, path[0]));
    if path[0] == path[|path| - 1] {
      WaitsAscend(s, path);
    }
  }

  lemma {:induction false} LastWait(s: System, among: set<TxId>) returns (t: TxId)
    requires among != {} && forall x :: x in among ==> x in s && s[x].waiting.Some?
    ensures t in among && forall x :: x in among ==> !Before(s[t].waiting.value, s[x].waiting.value)
    decreases |among|
  {
    var y :| y in among;
    var rest := among - {y};
    BeforeIsIrreflexive(s[y].waiting.value);
    if rest == {} {
      t := y;
      assert among == {y};
    } else {
      var z := LastWait(s, rest);
      t := if Before(s[z].waiting.value, s[y].waiting.value) then y else z;
      forall x | x in rest
        ensures !Before(s[t].waiting.value, s[x].waiting.value)
      {
        if t == y && Before(s[y].waiting.value, s[x].waiting.value) {
          BeforeIsTransitive(s[z].waiting.value, s[y].waiting.value, s[x].waiting.value);
        }
      }
    }
  }

  /** Whenever someone waits, some waiter can be woken at once or waits for a transaction that is free to end. */
  lemma SomeoneCanGoOn(run: seq<Action>)
    requires Possible(map[], run)
    requires exists t :: t in Run(map[], run) && Run(map[], run)[t].waiting.Some?
    ensures var s := Run(map[], run);
      exists t :: t in s && s[t].waiting.Some?
        && (Enabled(s, Wake(t)) || exists u :: WaitsFor(s, t, u) && Enabled(s, End(u)))
  {
    var s := Run(map[], run);
    RunKeeps(map[], run);
    var waiting := set t | t in s && s[t].waiting.Some?;
    var t0 :| t0 in s && s[t0].waiting.Some?;
    assert t0 in waiting;
    var t := LastWait(s, waiting);
    if !Enabled(s, Wake(t)) {
      var u :| u in s && u != t && s[t].waiting.value in s[u].held;
      assert WaitsFor(s, t, u);
      assert s[u].waiting.Some? ==> u in waiting;
    }
  }

  /** A run of asks with nobody looking at the order; a blocked transaction asks no more. */
  function TakeAll(s: System, asks: seq<(TxId, UserId)>): System
    decreases |asks|
  {
    if asks == [] then s
    else
      var (tx, user) := asks[0];
      TakeAll(if tx in s && s[tx].waiting.Some? then s else Take(Open(s, tx), tx, user).0, asks[1..])
  }

  /**
   * The check is what prevents it: two transactions that ask for two accounts in opposite orders end up waiting for
   * each other without it, while with it the ask that would close the circle is refused.
   */
  lemma OppositeOrdersDeadlock()
    ensures var asks := [(0, "b"), (1, "a"), (1, "b"), (0, "a")];
      var (open, end) := (TakeAll(map[], asks[..3]), TakeAll(map[], asks));
      && IsPath(end, [0, 1, 0])
      && 0 in open && open[0].waiting.None? && Acquire(open, 0, "a").1 == LockOrder
  {
    var asks := [(0, "b"), (1, "a"), (1, "b"), (0, "a")];
    var s1: System := map[0 := Tx({"b"}, None)];
    var s2 := s1[1 := Tx({"a"}, None)];
    var s3 := s2[1 := Tx({"a"}, Some("b"))];
    var s4 := s3[0 := Tx({"b"}, Some("a"))];
    var none: set<UserId> := {};
    assert none + {"b"} == {"b"} && none + {"a"} == {"a"};
    assert Take(Open(map[], 0), 0, "b").0 == s1;
    assert IsFree(Open(s1, 1), 1, "a") && Take(Open(s1, 1), 1, "a").0 == s2;
    assert "b" in s2[0].held && !IsFree(s2, 1, "b");
    assert "a" in s3[1].held && !IsFree(s3, 0, "a");
    assert Take(Open(s2, 1), 1, "b").0 == s3 && Take(Open(s3, 0), 0, "a").0 == s4;
    TakeFour(asks, s1, s2, s3, s4);
    assert WaitsFor(s4, 0, 1) && WaitsFor(s4, 1, 0);
    assert Before("a", "b");
  }

  lemma TakeFour(asks: seq<(TxId, UserId)>, s1: System, s2: System, s3: System, s4: System)
    requires |asks| == 4
    requires s1 == TakeAll(map[], [asks[0]]) && s2 == TakeAll(s1, [asks[1]])
    requires s3 == TakeAll(s2, [asks[2]]) && s4 == TakeAll(s3, [asks[3]])
    ensures TakeAll(map[], asks[..3]) == s3 && TakeAll(map[], asks) == s4
  {
    TakesFollow(map[], [asks[0]], [asks[1]]);
    TakesFollow(map[], [asks[0], asks[1]], [asks[2]]);
    TakesFollow(map[], [asks[0], asks[1], asks[2]], [asks[3]]);
    assert [asks[0]] + [asks[1]] == [asks[0], asks[1]];
    assert [asks[0], asks[1]] + [asks[2]] == [asks[0], asks[1], asks[2]] == asks[..3];
    assert asks[..3] + [asks[3]] == asks;
  }

  lemma {:induction false} TakesFollow(s: System, a: seq<(TxId, UserId)>, b: seq<(TxId, UserId)>)
    ensures TakeAll(s, a + b) == TakeAll(TakeAll(s, a), b)
    decreases |a|
  {
    if a == [] {
      assert a + b == b;
    } else {
      assert (a + b)[0] == a[0] && (a + b)[1..] == a[1..] + b;
      var (tx, user) := a[0];
      TakesFollow(if tx in s && s[tx].waiting.Some? then s else Take(Open(s, tx), tx, user).0, a[1..], b);
    }
  }

  // ----- Who never trips the check -----

  /** Nested locks in ascending order, repeats included, are never refused... */
  lemma AscendingNeverTrips(users: seq<UserId>, i: nat)
    requires i < |users| && forall j, k :: 0 <= j < k < |users| ==> users[j] == users[k] || Before(users[j], users[k])
    ensures !OutOfOrder(Elements(users[..i]), users[i])
  {
    forall h | h in Elements(users[..i]) && Before(users[i], h)
      ensures users[i] == h
    {
      var j :| 0 <= j < i && users[j] == h;
      if h != users[i] {
        BeforeIsTransitive(h, users[i], h);
        BeforeIsIrreflexive(h);
      }
    }
  }

  /** The two accounts of a merge as it sorts them. */
  function Sorted(primary: UserId, secondary: UserId): (UserId, UserId) {
    if Before(secondary, primary) then (secondary, primary) else (primary, secondary)
  }

  /** ...so the merge never is, while the opposite order always would be. */
  lemma MergeNeverTrips(primary: UserId, secondary: UserId)
    ensures var (first, second) := Sorted(primary, secondary);
      && {first, second} == {primary, secondary}
      && !OutOfOrder({}, first) && !OutOfOrder({first}, second)
      && (primary != secondary ==> OutOfOrder({second}, first))
  {
    var (first, second) := Sorted(primary, secondary);
    BeforeIsTotal(primary, secondary);
    if Before(second, first) {
      BeforeIsTransitive(second, first, second);
      BeforeIsIrreflexive(second);
    }
  }

  // ----- The lock as the code takes it -----

  /** The database knows who owns a row; each transaction's own context knows what it holds. */
  class LockTable {
    var owners: map<UserId, TxId>
    var contexts: System

    ghost predicate Valid()
      reads this
    {
      && (forall u :: u in owners ==> owners[u] in contexts && u in contexts[owners[u]].held)
      && (forall t, u :: t in contexts && u in contexts[t].held ==> u in owners && owners[u] == t)
    }

    constructor ()
      ensures Valid() && contexts == map[]
    {
      owners, contexts := map[], map[];
    }

    /** The context decides about the order, the row about the waiting; a refusal takes nothing. */
    method WithAccountLock(tx: TxId, user: UserId) returns (answer: Answer)
      requires Valid() && (tx in contexts ==> contexts[tx].waiting.None?)
      modifies this
      ensures Valid() && (contexts, answer) == Acquire(Open(old(contexts), tx), tx, user)
      ensures answer == Granted <==> user in contexts[tx].held
    {
      if tx !in contexts {
        contexts := contexts[tx := Tx({}, None)];
      }
      var users := contexts[tx].held;
      if user !in users && exists id :: id in users && Before(user, id) {
        return LockOrder;
      }
      if user in owners && owners[user] != tx {
        assert !IsFree(contexts, tx, user) by {
          assert user in contexts[owners[user]].held;
        }
        contexts := contexts[tx := Tx(users, Some(user))];
        return Blocked;
      }
      owners := owners[user := tx];
      contexts := contexts[tx := Tx(users + {user}, None)];
      answer := Granted;
    }

    /** Committing or rolling back releases every row. */
    method Finish(tx: TxId)
      requires Valid() && tx in contexts && contexts[tx].waiting.None?
      modifies this
      ensures Valid() && contexts == Apply(old(contexts), End(tx))
      ensures forall u :: u in owners <==> u in old(owners) && old(owners)[u] != tx
    {
      owners := map u | u in owners && owners[u] != tx :: owners[u];
      contexts := contexts - {tx};
    }
  }
}
