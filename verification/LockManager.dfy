/** One node of internal/distlock: expiring, reentrant locks held under a token. */
module LockManager {

  datatype Entry = Entry(token: string, expiresAt: int, reentrancy: int)

  datatype Error = NoError | LockNotHeld | LockAlreadyHeld | InvalidToken | LockExpired | EmptyKey | EmptyToken
                 | InvalidTTL | MaxReentrancy | Stopped

  /** A node: its locks and whether it was stopped.  An entry is expired strictly after expiresAt. */
  datatype Node = Node(locks: map<string, Entry>, stopped: bool)

  predicate Live(n: Node, key: string, now: int) {
    key in n.locks && now <= n.locks[key].expiresAt
  }

  predicate HeldBy(n: Node, key: string, token: string, now: int) {
    Live(n, key, now) && n.locks[key].token == token
  }

  /** Nothing but the entry of one key differs. */
  predicate OnlyKey(n: Node, n': Node, key: string) {
    n'.locks - {key} == n.locks - {key} && n'.stopped == n.stopped
  }

  /** A call the node looks at: the arguments are in order and it was not stopped. */
  predicate Heard(n: Node, key: string, token: string, ttl: int) { key != "" && token != "" && ttl > 0 && !n.stopped }

  /** A call that is not heard is refused for the first thing wrong with it. */
  predicate Unheard(n: Node, key: string, token: string, ttl: int, err: Error) {
    && (err == EmptyKey <==> key == "") && (err == EmptyToken <==> key != "" && token == "")
    && (err == InvalidTTL <==> key != "" && token != "" && ttl <= 0)
    && (err == Stopped <==> key != "" && token != "" && ttl > 0 && n.stopped)
  }

  /** The node is untouched if the key is held, live, by another token. */
  predicate Respects(n: Node, n': Node, key: string, token: string, now: int) {
    OnlyKey(n, n', key) && (Live(n, key, now) && n.locks[key].token != token ==> n' == n)
  }

  function AfterLock(n: Node, key: string, token: string, ttl: int, now: int, maxReentrancy: int): (r: (Node, Error))
    ensures Unheard(n, key, token, ttl, r.1) && Respects(n, r.0, key, token, now)
    ensures r.1 == NoError <==>
      Heard(n, key, token, ttl) && (!Live(n, key, now) || (HeldBy(n, key, token, now) && n.locks[key].reentrancy < maxReentrancy))
    ensures r.1 == NoError ==> HeldBy(r.0, key, token, now) && r.0.locks[key].expiresAt == now + ttl
    ensures r.1 == NoError ==> r.0.locks[key].reentrancy == if Live(n, key, now) then n.locks[key].reentrancy + 1 else 1
    ensures r.1 == LockAlreadyHeld <==> Heard(n, key, token, ttl) && Live(n, key, now) && n.locks[key].token != token
    ensures r.1 != NoError ==> r.0 == n
  {
    if key == "" then (n, EmptyKey)
    else if token == "" then (n, EmptyToken)
    else if ttl <= 0 then (n, InvalidTTL)
    else if n.stopped then (n, Stopped)
    else if !Live(n, key, now) then (n.(locks := n.locks[key := Entry(token, now + ttl, 1)]), NoError)
    else
      var e := n.locks[key];
      if e.token == token then
        if e.reentrancy >= maxReentrancy then (n, MaxReentrancy)
        else (n.(locks := n.locks[key := Entry(token, now + ttl, e.reentrancy + 1)]), NoError)
      else (n, LockAlreadyHeld)
  }

  function AfterUnlock(n: Node, key: string, token: string, now: int): (r: (Node, Error))
    ensures Unheard(n, key, token, 1, r.1) && Respects(n, r.0, key, token, now)
    ensures r.1 == NoError <==> Heard(n, key, token, 1) && HeldBy(n, key, token, now)
    ensures r.1 == NoError ==>
      if n.locks[key].reentrancy <= 1 then key !in r.0.locks
      else key in r.0.locks && r.0.locks[key] == n.locks[key].(reentrancy := n.locks[key].reentrancy - 1)
    ensures r.1 == LockExpired <==> Heard(n, key, token, 1) && key in n.locks && !Live(n, key, now)
    ensures r.1 == InvalidToken <==> Heard(n, key, token, 1) && Live(n, key, now) && n.locks[key].token != token
    ensures r.1 != NoError ==> if r.1 == LockExpired then key !in r.0.locks else r.0 == n
  {
    if key == "" then (n, EmptyKey)
    else if token == "" then (n, EmptyToken)
    else if n.stopped then (n, Stopped)
    else if key !in n.locks then (n, LockNotHeld)
    else if !Live(n, key, now) then (n.(locks := n.locks - {key}), LockExpired)
    else
      var e := n.locks[key];
      if e.token != token then (n, InvalidToken)
      else if e.reentrancy - 1 <= 0 then (n.(locks := n.locks - {key}), NoError)
      else (n.(locks := n.locks[key := e.(reentrancy := e.reentrancy - 1)]), NoError)
  }

  function AfterHeartbeat(n: Node, key: string, token: string, ttl: int, now: int): (r: (Node, Error))
    ensures Unheard(n, key, token, ttl, r.1) && Respects(n, r.0, key, token, now)
    ensures r.1 == NoError <==> Heard(n, key, token, ttl) && HeldBy(n, key, token, now)
    ensures r.1 == NoError ==> key in r.0.locks && r.0.locks[key] == n.locks[key].(expiresAt := now + ttl)
    ensures r.1 == LockExpired <==> Heard(n, key, token, ttl) && key in n.locks && !Live(n, key, now)
    ensures r.1 == InvalidToken <==> Heard(n, key, token, ttl) && Live(n, key, now) && n.locks[key].token != token
    ensures r.1 != NoError ==> if r.1 == LockExpired then key !in r.0.locks else r.0 == n
  {
    if key == "" then (n, EmptyKey)
    else if token == "" then (n, EmptyToken)
    else if ttl <= 0 then (n, InvalidTTL)
    else if n.stopped then (n, Stopped)
    else if key !in n.locks then (n, LockNotHeld)
    else if !Live(n, key, now) then (n.(locks := n.locks - {key}), LockExpired)
    else
      var e := n.locks[key];
      if e.token != token then (n, InvalidToken)
      else (n.(locks := n.locks[key := e.(expiresAt := now + ttl)]), NoError)
  }

  /** CleanExpired, and the lazy removal done by IsLocked and GetHolder for one key. */
  function Clean(n: Node, keys: set<string>, now: int): (r: Node)
    ensures forall k :: Live(n, k, now) ==> k in r.locks && r.locks[k] == n.locks[k]
    ensures forall k :: k in r.locks ==> k in n.locks && r.locks[k] == n.locks[k]
    ensures forall k :: k in keys && k in r.locks ==> Live(n, k, now)
    ensures forall k :: k in n.locks && k !in keys ==> k in r.locks
    ensures r.stopped == n.stopped
  {
    n.(locks := map k | k in n.locks && (k !in keys || Live(n, k, now)) :: n.locks[k])
  }

  /** Every entry is held under a real key and token, between once and maxReentrancy times. */
  predicate WellFormed(n: Node, maxReentrancy: int) {
    forall k :: k in n.locks ==> k != "" && n.locks[k].token != "" && 1 <= n.locks[k].reentrancy <= maxReentrancy
  }

  lemma OperationsKeepWellFormed(n: Node, key: string, token: string, ttl: int, now: int, maxReentrancy: int)
    requires WellFormed(n, maxReentrancy) && maxReentrancy >= 1
    ensures WellFormed(AfterLock(n, key, token, ttl, now, maxReentrancy).0, maxReentrancy)
    ensures WellFormed(AfterUnlock(n, key, token, now).0, maxReentrancy)
    ensures WellFormed(AfterHeartbeat(n, key, token, ttl, now).0, maxReentrancy)
  {
  }

  /** One call to the node, at the time it reads its clock. */
  datatype Call = LockCall(key: string, token: string, ttl: int, now: int) | UnlockCall(key: string, token: string, now: int)
                | HeartbeatCall(key: string, token: string, ttl: int, now: int) | CleanCall(keys: set<string>, now: int)

  function After(n: Node, c: Call, maxReentrancy: int): Node {
    match c
    case LockCall(key, token, ttl, now) => AfterLock(n, key, token, ttl, now, maxReentrancy).0
    case UnlockCall(key, token, now) => AfterUnlock(n, key, token, now).0
    case HeartbeatCall(key, token, ttl, now) => AfterHeartbeat(n, key, token, ttl, now).0
    case CleanCall(keys, now) => Clean(n, keys, now)
  }

  function Run(n: Node, calls: seq<Call>, maxReentrancy: int): Node {
    if calls == [] then n else After(Run(n, calls[..|calls| - 1], maxReentrancy), calls[|calls| - 1], maxReentrancy)
  }

  /** Whatever is called, the entries stay well formed. */
  lemma {:induction false} RunKeepsWellFormed(n: Node, calls: seq<Call>, maxReentrancy: int)
    requires WellFormed(n, maxReentrancy) && maxReentrancy >= 1
    ensures WellFormed(Run(n, calls, maxReentrancy), maxReentrancy)
    decreases |calls|
  {
    if calls != [] {
      var init, last := calls[..|calls| - 1], calls[|calls| - 1];
      RunKeepsWellFormed(n, init, maxReentrancy);
      hide AfterLock, AfterUnlock, AfterHeartbeat;
      var m := Run(n, init, maxReentrancy);
      if !last.CleanCall? {
        OperationsKeepWellFormed(m, last.key, last.token, if last.UnlockCall? then 0 else last.ttl, last.now, maxReentrancy);
      }
    }
  }

  /** A call that is not the token's own on the key. */
  predicate Foreign(c: Call, key: string, token: string) { c.CleanCall? || c.key != key || c.token != token }

  lemma ForeignCallKeeps(n: Node, c: Call, key: string, maxReentrancy: int)
    requires key in n.locks && Foreign(c, key, n.locks[key].token) && c.now <= n.locks[key].expiresAt
    ensures key in After(n, c, maxReentrancy).locks && After(n, c, maxReentrancy).locks[key] == n.locks[key]
  {
    assert Live(n, key, c.now);
    if !c.CleanCall? && c.key != key {
      var n' := After(n, c, maxReentrancy);
      assert OnlyKey(n, n', c.key);
      assert key in n.locks - {c.key};
      assert key in n'.locks - {c.key} && (n'.locks - {c.key})[key] == (n.locks - {c.key})[key];
    }
  }

  /** Until it expires, a lock is its holder's alone: no run of others' calls changes its entry. */
  lemma {:induction false} HolderKeeps(n: Node, calls: seq<Call>, key: string, maxReentrancy: int)
    requires key in n.locks
    requires forall c :: c in calls ==> Foreign(c, key, n.locks[key].token) && c.now <= n.locks[key].expiresAt
    ensures var m := Run(n, calls, maxReentrancy); key in m.locks && m.locks[key] == n.locks[key]
    decreases |calls|
  {
    if calls != [] {
      var init, last := calls[..|calls| - 1], calls[|calls| - 1];
      assert forall c :: c in init ==> c in calls;
      HolderKeeps(n, init, key, maxReentrancy);
      ForeignCallKeeps(Run(n, init, maxReentrancy), last, key, maxReentrancy);
    }
  }

  /** The token's own locks of the key, less its unlocks. */
  function Net(calls: seq<Call>, key: string, token: string): int {
    if calls == [] then 0
    else
      var c := calls[|calls| - 1];
      Net(calls[..|calls| - 1], key, token)
      + (if Foreign(c, key, token) then 0 else if c.LockCall? then 1 else if c.UnlockCall? then -1 else 0)
  }

  /** The token holds the key so many times, at least until the given time. */
  predicate HeldTimes(n: Node, key: string, token: string, times: int, till: int) {
    && key in n.locks && key != "" && token != "" && !n.stopped
    && n.locks[key].token == token && n.locks[key].reentrancy == times && till <= n.locks[key].expiresAt
  }

  /** Calls up to the given time, of which the token's own keep the lock until then. */
  predicate Timely(c: Call, key: string, token: string, till: int) {
    c.now <= till && (!Foreign(c, key, token) && !c.UnlockCall? ==> c.ttl > 0 && till <= c.now + c.ttl)
  }

  lemma OwnCallCounts(n: Node, c: Call, key: string, token: string, times: int, till: int, maxReentrancy: int)
    requires HeldTimes(n, key, token, times, till) && Timely(c, key, token, till)
    requires 1 <= times + Net([c], key, token) <= maxReentrancy
    ensures HeldTimes(After(n, c, maxReentrancy), key, token, times + Net([c], key, token), till)
  {
    assert [c][..0] == [] && Live(n, key, c.now);
    if Foreign(c, key, token) {
      ForeignCallKeeps(n, c, key, maxReentrancy);
      assert After(n, c, maxReentrancy).stopped == n.stopped;
    }
  }

  /** Locks nest: as long as the unlocks do not outnumber them the key stays held, and the count
      in the entry is the locks less the unlocks, whoever else calls in between. */
  lemma {:induction false} LocksNest(n: Node, calls: seq<Call>, key: string, token: string, times: int, till: int, maxReentrancy: int)
    requires HeldTimes(n, key, token, times, till) && (forall c :: c in calls ==> Timely(c, key, token, till))
    requires forall i :: 0 <= i <= |calls| ==> 1 <= times + Net(calls[..i], key, token) <= maxReentrancy
    ensures HeldTimes(Run(n, calls, maxReentrancy), key, token, times + Net(calls, key, token), till)
    decreases |calls|
  {
    if calls != [] {
      var init, c := calls[..|calls| - 1], calls[|calls| - 1];
      forall i | 0 <= i <= |init| ensures 1 <= times + Net(init[..i], key, token) <= maxReentrancy {
        assert init[..i] == calls[..i];
      }
      LocksNest(n, init, key, token, times, till, maxReentrancy);
      assert calls[..|calls|] == calls && init[..|init|] == init && [c][..0] == [];
      OwnCallCounts(Run(n, init, maxReentrancy), c, key, token, times + Net(init, key, token), till, maxReentrancy);
    }
  }

  /** While the lock lasts, Unlock undoes Lock: a first acquisition leaves the key free, a
      reentrant one leaves the earlier hold with its count, at the renewed expiry. */
  lemma {:induction false} UnlockUndoesLock(n: Node, key: string, token: string, ttl: int, now: int, later: int, maxReentrancy: int)
    requires WellFormed(n, maxReentrancy) && AfterLock(n, key, token, ttl, now, maxReentrancy).1 == NoError
    requires now <= later <= now + ttl
    ensures var (u, err) := AfterUnlock(AfterLock(n, key, token, ttl, now, maxReentrancy).0, key, token, later);
      && err == NoError && OnlyKey(n, u, key)
      && (Live(n, key, now) ==> key in u.locks && u.locks[key] == n.locks[key].(expiresAt := now + ttl))
      && (!Live(n, key, now) ==> key !in u.locks)
  {
  }

  lemma CleanOne(n: Node, keys: set<string>, key: string, now: int)
    requires key in n.locks && key !in keys
    ensures var was, next := Clean(n, keys, now), Clean(n, keys + {key}, now);
      && key in was.locks && was.locks[key] == n.locks[key]
      && (now <= n.locks[key].expiresAt ==> next == was)
      && (now > n.locks[key].expiresAt ==> next == was.(locks := was.locks - {key}) && |next.locks| == |was.locks| - 1)
  {
    var was, next := Clean(n, keys, now), Clean(n, keys + {key}, now);
    if Live(n, key, now) {
      assert next.locks == was.locks;
    } else {
      assert next.locks == was.locks - {key};
      assert was.locks.Keys == next.locks.Keys + {key};
    }
  }

  lemma CleanNothing(n: Node, now: int)
    ensures Clean(n, {}, now) == n
  {
    assert Clean(n, {}, now).locks == n.locks;
  }

  /** The lock manager itself; every method runs under its mutex and reads the clock once. */
  class Manager {
    var locks: map<string, Entry>
    var stopped: bool
    const maxReentrancy: int

    ghost function View(): Node
      reads this
    {
      Node(locks, stopped)
    }

    constructor (maxReentrancy: int)
      ensures View() == Node(map[], false) && this.maxReentrancy == maxReentrancy
    {
      locks, stopped := map[], false;
      this.maxReentrancy := maxReentrancy;
    }

    method Lock(key: string, token: string, ttl: int, now: int) returns (err: Error)
      modifies this
      ensures (View(), err) == AfterLock(old(View()), key, token, ttl, now, maxReentrancy)
    {
      if key == "" { return EmptyKey; }
      if token == "" { return EmptyToken; }
      if ttl <= 0 { return InvalidTTL; }
      if stopped { return Stopped; }
      if key !in locks || now > locks[key].expiresAt {
        locks := locks[key := Entry(token, now + ttl, 1)];
        return NoError;
      }
      var entry := locks[key];
      if entry.token == token {
        if entry.reentrancy >= maxReentrancy { return MaxReentrancy; }
        locks := locks[key := entry.(reentrancy := entry.reentrancy + 1, expiresAt := now + ttl)];
        return NoError;
      }
      return LockAlreadyHeld;
    }

    method Unlock(key: string, token: string, now: int) returns (err: Error)
      modifies this
      ensures (View(), err) == AfterUnlock(old(View()), key, token, now)
    {
      if key == "" { return EmptyKey; }
      if token == "" { return EmptyToken; }
      if stopped { return Stopped; }
      if key !in locks { return LockNotHeld; }
      var entry := locks[key];
      if now > entry.expiresAt {
        locks := locks - {key};
        return LockExpired;
      }
      if entry.token != token { return InvalidToken; }
      entry := entry.(reentrancy := entry.reentrancy - 1);
      if entry.reentrancy <= 0 {
        locks := locks - {key};
      } else {
        locks := locks[key := entry];
      }
      return NoError;
    }

    method Heartbeat(key: string, token: string, ttl: int, now: int) returns (err: Error)
      modifies this
      ensures (View(), err) == AfterHeartbeat(old(View()), key, token, ttl, now)
    {
      if key == "" { return EmptyKey; }
      if token == "" { return EmptyToken; }
      if ttl <= 0 { return InvalidTTL; }
      if stopped { return Stopped; }
      if key !in locks { return LockNotHeld; }
      var entry := locks[key];
      if now > entry.expiresAt {
        locks := locks - {key};
        return LockExpired;
      }
      if entry.token != token { return InvalidToken; }
      locks := locks[key := entry.(expiresAt := now + ttl)];
      return NoError;
    }

    /** Removes the expired entries, in whatever order the map yields them. */
    method CleanExpired(now: int) returns (cleaned: int, err: Error)
      modifies this
      ensures stopped == old(stopped) && (err == Stopped <==> stopped) && (err == NoError <==> !stopped)
      ensures View() == if stopped then old(View()) else Clean(old(View()), old(locks.Keys), now)
      ensures cleaned == |old(locks)| - |locks|
    {
      if stopped { return 0, Stopped; }
      cleaned, err := 0, NoError;
      var keys := locks.Keys;
      ghost var before, done := View(), {};
      CleanNothing(before, now);
      hide Clean, Live;
      while keys != {}
        invariant keys <= before.locks.Keys && done == before.locks.Keys - keys
        invariant View() == Clean(before, done, now)
        invariant cleaned == |before.locks| - |locks|
      {
        var key :| key in keys;
        CleanOne(before, done, key, now);
        keys, done := keys - {key}, done + {key};
        assert done == before.locks.Keys - keys;
        if now > locks[key].expiresAt {
          locks := locks - {key};
          cleaned := cleaned + 1;
        }
      }
    }
  }
}
