/** How late a client of the majority lock may read its clock.  Every run is safe exactly when
    the stamps come at most one nanosecond later than ClockDrift allows for, or when no lock
    is ever granted; with later stamps, for any number of nodes, two tokens come to own one key. */
module RedlockLimits {
  import opened LockManager
  import opened Redlock

  ghost predicate Alone(s: State) {
    forall t1, t2, k :: Owns(s, t1, k) && Owns(s, t2, k) ==> t1 == t2
  }

  ghost predicate Safe(c: Config) {
    forall states, actions, n :: IsRun(c, states, actions) && 0 <= n < |states| ==> Alone(states[n])
  }

  // ------------------------------------------------------------ locks too short to grant

  ghost predicate NeverGranted(c: Config, s: State, t: Token) {
    t in s.clients ==>
      match s.clients[t].phase
      case Acquiring(_, got) => Past(c, s, got)
      case Stamping(_, _, got) => Past(c, s, got)
      case Undoing(_) => true
      case Finished => true
      case _ => false
  }

  lemma {:induction false} NothingGranted(c: Config, states: seq<State>, actions: seq<Action>, n: int)
    requires Sensible(c) && IsRun(c, states, actions) && 0 <= n < |states| && c.ttl <= c.drift
    ensures forall t :: NeverGranted(c, states[n], t)
    decreases n
  {
    if n > 0 {
      NothingGranted(c, states, actions, n - 1);
      var s, a, s' := states[n - 1], actions[n - 1], states[n];
      assert Step(c, s, a, s');
      forall t ensures NeverGranted(c, s', t) {
        assert NeverGranted(c, s, t);
        StillNotGranted(c, s, a, s', t);
      }
    }
  }

  lemma StillNotGranted(c: Config, s: State, a: Action, s': State, t: Token)
    requires Sensible(c) && Step(c, s, a, s') && c.ttl <= c.drift && forall u :: NeverGranted(c, s, u)
    ensures NeverGranted(c, s', t)
  {
    assert NeverGranted(c, s, t);
  }

  // ---------------------------------------------------------------------- building runs

  ghost predicate Reachable(c: Config, s: State) {
    exists states, actions :: IsRun(c, states, actions) && states[|states| - 1] == s
  }

  lemma OneMore(c: Config, s: State, a: Action, s': State)
    requires Reachable(c, s) && Step(c, s, a, s')
    ensures Reachable(c, s')
  {
    var states, actions :| IsRun(c, states, actions) && states[|states| - 1] == s;
    assert IsRun(c, states + [s'], actions + [a]);
  }

  const K: Key := "k"
  const EARLY: Token := "a"
  const BLOCKER: Token := "b"
  const LATE: Token := "c"

  predicate Free(n: Node, now: int) { !n.stopped && !Live(n, K, now) }

  predicate Taken(n: Node, t: Token, till: int) { !n.stopped && K in n.locks && n.locks[K] == Entry(t, till, 1) }

  predicate Busy(n: Node, t: Token, now: int) { !n.stopped && Live(n, K, now) && n.locks[K].token != t }

  /** The same stamp for the nodes from i up to j. */
  function Stamped(got: Expiries, i: int, j: int, v: int): Expiries
    decreases j - i
  {
    if i >= j then got else Stamped(got[i := v], i + 1, j, v)
  }

  /** Every stamp is v, and they are n. */
  ghost predicate Even(got: Expiries, n: int, v: int) { |got| == n && forall x :: x in got ==> got[x] == v }

  lemma {:induction false} StampedEven(got: Expiries, i: int, j: int, n: int, v: int)
    requires i <= j && Even(got, n, v) && forall x :: x in got ==> x < i
    ensures Even(Stamped(got, i, j, v), n + j - i, v)
    decreases j - i
  {
    if i < j { StampedEven(got[i := v], i + 1, j, n + 1, v); }
  }

  ghost predicate Asks(c: Config, s: State, t: Token, i: int, got: Expiries) {
    Reachable(c, s) && t in s.clients && t != "" && s.clients[t] == Client(K, Acquiring(i, got)) && 0 <= i
  }

  /** What a client's calls on the nodes from i up to j leave alone. */
  ghost predicate Apart(s: State, s': State, t: Token, i: int, j: int, p: Phase) {
    && s'.now == s.now && |s'.nodes| == |s.nodes| && s'.clients == s.clients[t := Client(K, p)]
    && (forall x :: 0 <= x < |s.nodes| && !(i <= x < j) ==> s'.nodes[x] == s.nodes[x])
  }

  lemma TakeNode(c: Config, s: State, t: Token, i: int, got: Expiries) returns (s': State)
    requires Sensible(c) && Asks(c, s, t, i, got) && i < |s.nodes| && Free(s.nodes[i], s.now)
    ensures Asks(c, s', t, i + 1, got[i := s.now + c.ttl])
    ensures Apart(s, s', t, i, i + 1, Acquiring(i + 1, got[i := s.now + c.ttl])) && Taken(s'.nodes[i], t, s.now + c.ttl)
  {
    var (n, err) := AfterLock(s.nodes[i], K, t, c.ttl, s.now, c.maxReentrancy);
    var mid := Become(s.(nodes := s.nodes[i := n]), t, Stamping(i, s.now, got));
    OneMore(c, s, CallLock(t), mid);
    s' := Become(mid, t, Acquiring(i + 1, got[i := s.now + c.ttl]));
    OneMore(c, mid, StampLock(t), s');
    assert s'.clients == s.clients[t := Client(K, Acquiring(i + 1, got[i := s.now + c.ttl]))];
  }

  lemma {:induction false} TakeNodes(c: Config, s: State, t: Token, i: int, j: int, got: Expiries) returns (s': State)
    requires Sensible(c) && Asks(c, s, t, i, got) && i <= j <= |s.nodes|
    requires forall x :: i <= x < j ==> Free(s.nodes[x], s.now)
    ensures Asks(c, s', t, j, Stamped(got, i, j, s.now + c.ttl))
    ensures Apart(s, s', t, i, j, Acquiring(j, Stamped(got, i, j, s.now + c.ttl)))
    ensures forall x :: i <= x < j ==> Taken(s'.nodes[x], t, s.now + c.ttl)
    decreases j - i
  {
    var v := s.now + c.ttl;
    hide Reachable;
    if i == j {
      s' := s;
      assert s.clients == s.clients[t := Client(K, Acquiring(i, got))];
    } else {
      var mid := TakeNode(c, s, t, i, got);
      s' := TakeNodes(c, mid, t, i + 1, j, got[i := v]);
    }
  }

  lemma {:induction false} SkipNodes(c: Config, s: State, t: Token, i: int, j: int, got: Expiries) returns (s': State)
    requires Sensible(c) && Asks(c, s, t, i, got) && i <= j <= |s.nodes|
    requires forall x :: i <= x < j ==> Busy(s.nodes[x], t, s.now)
    ensures Asks(c, s', t, j, got) && Apart(s, s', t, i, i, Acquiring(j, got))
    decreases j - i
  {
    if i == j {
      s' := s;
      assert s.clients == s.clients[t := Client(K, Acquiring(i, got))];
    } else {
      var mid := Become(s, t, Acquiring(i + 1, got));
      assert s.nodes[i := s.nodes[i]] == s.nodes;
      OneMore(c, s, CallLock(t), mid);
      s' := SkipNodes(c, mid, t, i + 1, j, got);
    }
  }

  /** Stamps that all agree are a quorum's worth of time. */
  lemma Grant(c: Config, s: State, t: Token, got: Expiries, v: int) returns (s': State)
    requires Sensible(c) && Asks(c, s, t, |s.nodes|, got) && Even(got, |got|, v) && |got| >= Majority(c) && v - c.drift > s.now
    ensures Reachable(c, s') && Apart(s, s', t, 0, 0, Holding(v - c.drift, got))
  {
    assert (forall i :: i !in got) ==> got == map[];
    assert IsMin(got, v);
    s' := Become(s, t, Holding(v - c.drift, got));
    OneMore(c, s, Decide(t, v), s');
  }

  ghost predicate Leaves(c: Config, s: State, t: Token, i: int) {
    Reachable(c, s) && t in s.clients && t != "" && s.clients[t] == Client(K, Releasing(i)) && 0 <= i
  }

  lemma DropNode(c: Config, s: State, t: Token, i: int) returns (s': State)
    requires Leaves(c, s, t, i) && i < |s.nodes|
    ensures Leaves(c, s', t, i + 1) && Apart(s, s', t, i, i + 1, Releasing(i + 1))
    ensures s'.nodes[i] == AfterUnlock(s.nodes[i], K, t, s.now).0
  {
    s' := Become(s.(nodes := s.nodes[i := AfterUnlock(s.nodes[i], K, t, s.now).0]), t, Releasing(i + 1));
    OneMore(c, s, CallRelease(t), s');
  }

  predicate Cleared(n: Node) { !n.stopped && K !in n.locks }

  lemma {:induction false} DropNodes(c: Config, s: State, t: Token, i: int, j: int, till: int) returns (s': State)
    requires Leaves(c, s, t, i) && i <= j <= |s.nodes| && s.now <= till
    requires forall x :: i <= x < j ==> Taken(s.nodes[x], t, till)
    ensures Leaves(c, s', t, j) && Apart(s, s', t, i, j, Releasing(j)) && forall x :: i <= x < j ==> Cleared(s'.nodes[x])
    decreases j - i
  {
    if i == j {
      s' := s;
      assert s.clients == s.clients[t := Client(K, Releasing(i))];
    } else {
      var mid := DropNode(c, s, t, i);
      s' := DropNodes(c, mid, t, i + 1, j, till);
    }
  }

  // --------------------------------------------------------------------- the late stamp

  /** EARLY's stamp comes this late. */
  function Wait(c: Config): int { c.drift + 2 }

  predicate LateAllowed(c: Config) { Sensible(c) && c.ttl > c.drift && c.lag >= Wait(c) }

  ghost predicate Rows(c: Config, s: State, now: int) {
    Reachable(c, s) && s.now == now && |s.nodes| == c.count > 0
  }

  /** The entry of node 0, if any, lasts as long as EARLY's first lock. */
  predicate Brief(c: Config, n: Node) { !n.stopped && (K in n.locks ==> n.locks[K].expiresAt <= c.ttl) }

  /** EARLY has locked node 0, and now hesitates. */
  ghost predicate Hesitates(c: Config, s: State) {
    && Rows(c, s, Wait(c)) && s.clients == map[EARLY := Client(K, Stamping(0, 0, map[]))]
    && Taken(s.nodes[0], EARLY, c.ttl) && forall x :: 1 <= x < c.count ==> Cleared(s.nodes[x])
  }

  lemma Hesitate(c: Config) returns (s: State)
    requires LateAllowed(c)
    ensures Hesitates(c, s)
  {
    var start := State(0, seq(c.count, _ => Node(map[], false)), map[]);
    assert IsRun(c, [start], []) && [start][0] == start;
    var asked := start.(clients := map[EARLY := Client(K, Acquiring(0, map[]))]);
    OneMore(c, start, Begin(EARLY, K), asked);
    var (n, err) := AfterLock(asked.nodes[0], K, EARLY, c.ttl, 0, c.maxReentrancy);
    var locked := Become(asked.(nodes := asked.nodes[0 := n]), EARLY, Stamping(0, 0, map[]));
    OneMore(c, asked, CallLock(EARLY), locked);
    s := locked.(now := Wait(c));
    OneMore(c, locked, Tick(Wait(c)), s);
  }

  /** The nodes behind the first majority are BLOCKER's. */
  ghost predicate Blocked(c: Config, s: State, now: int) {
    && Rows(c, s, now) && LATE !in s.clients && EARLY in s.clients && Brief(c, s.nodes[0])
    && (forall x :: Majority(c) <= x < c.count ==> Taken(s.nodes[x], BLOCKER, Wait(c) + c.ttl))
    && (c.count > 1 ==> BLOCKER in s.clients && s.clients[BLOCKER] == Client(K, Releasing(Majority(c))))
  }

  lemma BlockerStarts(c: Config, s: State) returns (s': State, got: Expiries)
    requires LateAllowed(c) && Hesitates(c, s)
    ensures Asks(c, s', BLOCKER, 1, got) && Apart(s, s', BLOCKER, 0, 1, Acquiring(1, got))
    ensures Taken(s'.nodes[0], EARLY, c.ttl) || Taken(s'.nodes[0], BLOCKER, Wait(c) + c.ttl)
    ensures got == map[] || got == map[0 := Wait(c) + c.ttl]
  {
    var asked := s.(clients := s.clients[BLOCKER := Client(K, Acquiring(0, map[]))]);
    OneMore(c, s, Begin(BLOCKER, K), asked);
    hide Reachable, Step;
    if Live(s.nodes[0], K, s.now) {
      got := map[];
      s' := SkipNodes(c, asked, BLOCKER, 0, 1, got);
    } else {
      got := map[0 := s.now + c.ttl];
      s' := TakeNode(c, asked, BLOCKER, 0, map[]);
    }
  }

  /** BLOCKER takes every node from the second on, and the first if it is free by now. */
  lemma BlockerTakes(c: Config, s: State) returns (s': State, got: Expiries)
    requires LateAllowed(c) && Hesitates(c, s) && c.count > 1
    ensures Reachable(c, s') && Apart(s, s', BLOCKER, 0, c.count, Holding(Wait(c) + c.ttl - c.drift, got))
    ensures Taken(s'.nodes[0], EARLY, c.ttl) || Taken(s'.nodes[0], BLOCKER, Wait(c) + c.ttl)
    ensures forall x :: 1 <= x < c.count ==> Taken(s'.nodes[x], BLOCKER, Wait(c) + c.ttl)
  {
    hide Reachable, Step, Stamped;
    var v := s.now + c.ttl;
    var first;
    first, got := BlockerStarts(c, s);
    var all := TakeNodes(c, first, BLOCKER, 1, c.count, got);
    StampedEven(got, 1, c.count, |got|, v);
    got := Stamped(got, 1, c.count, v);
    s' := Grant(c, all, BLOCKER, got, v);
  }

  /** BLOCKER gives back the nodes of the first majority. */
  lemma Block(c: Config, s: State) returns (s': State)
    requires LateAllowed(c) && Hesitates(c, s)
    ensures Blocked(c, s', Wait(c)) && s'.clients[EARLY] == s.clients[EARLY]
    ensures forall x :: 1 <= x < Majority(c) ==> Cleared(s'.nodes[x])
  {
    if c.count == 1 {
      s' := s;
    } else {
      var held, got := BlockerTakes(c, s);
      var leaving := Become(held, BLOCKER, Releasing(0));
      OneMore(c, held, BeginRelease(BLOCKER), leaving);
      hide Reachable, Step;
      var one := DropNode(c, leaving, BLOCKER, 0);
      s' := DropNodes(c, one, BLOCKER, 1, Majority(c), Wait(c) + c.ttl);
    }
  }

  /** EARLY has the first majority, and believes in it until ttl + 2. */
  ghost predicate Early(c: Config, s: State, got: Expiries) {
    && EARLY in s.clients && s.clients[EARLY] == Client(K, Holding(c.ttl + 2, got))
    && |s.nodes| == c.count > 0
    && forall x :: 1 <= x < Majority(c) ==> Taken(s.nodes[x], EARLY, Wait(c) + c.ttl)
  }

  /** EARLY stamps at last, and goes on to the other nodes. */
  lemma StampLate(c: Config, s: State) returns (s': State, got: Expiries)
    requires LateAllowed(c) && Blocked(c, s, Wait(c)) && s.clients[EARLY] == Client(K, Stamping(0, 0, map[]))
    requires forall x :: 1 <= x < Majority(c) ==> Cleared(s.nodes[x])
    ensures Blocked(c, s', Wait(c)) && Early(c, s', got)
  {
    var v, m := Wait(c) + c.ttl, Majority(c);
    var stamped := Become(s, EARLY, Acquiring(1, map[][0 := v]));
    OneMore(c, s, StampLock(EARLY), stamped);
    hide Reachable, Step, Stamped;
    var mine := TakeNodes(c, stamped, EARLY, 1, m, map[0 := v]);
    got := Stamped(map[0 := v], 1, m, v);
    StampedEven(map[0 := v], 1, m, 1, v);
    var past := SkipNodes(c, mine, EARLY, m, c.count, got);
    s' := Grant(c, past, EARLY, got, v);
  }

  /** BLOCKER lets go of the rest, and node 0 expires, a nanosecond before EARLY's time is up. */
  lemma LetGo(c: Config, s: State, got: Expiries) returns (s': State)
    requires LateAllowed(c) && Blocked(c, s, Wait(c)) && Early(c, s, got)
    ensures Rows(c, s', c.ttl + 1) && LATE !in s'.clients && Early(c, s', got)
    ensures Free(s'.nodes[0], s'.now) && forall x :: Majority(c) <= x < c.count ==> Cleared(s'.nodes[x])
  {
    var free := s;
    if c.count > 1 { free := DropNodes(c, s, BLOCKER, Majority(c), c.count, Wait(c) + c.ttl); }
    s' := free.(now := c.ttl + 1);
    OneMore(c, free, Tick(c.ttl + 1 - Wait(c)), s');
  }

  /** LATE takes node 0 and the rest, which is a majority as well. */
  lemma TakeOver(c: Config, s: State, got: Expiries) returns (s': State)
    requires LateAllowed(c) && Rows(c, s, c.ttl + 1) && LATE !in s.clients && Early(c, s, got)
    requires Free(s.nodes[0], s.now) && forall x :: Majority(c) <= x < c.count ==> Cleared(s.nodes[x])
    ensures Reachable(c, s') && Owns(s', EARLY, K) && Owns(s', LATE, K)
  {
    var v, m := s.now + c.ttl, Majority(c);
    var asked := s.(clients := s.clients[LATE := Client(K, Acquiring(0, map[]))]);
    OneMore(c, s, Begin(LATE, K), asked);
    hide Reachable, Step, Stamped;
    var first := TakeNode(c, asked, LATE, 0, map[]);
    var past := SkipNodes(c, first, LATE, 1, m, map[0 := v]);
    var all := TakeNodes(c, past, LATE, m, c.count, map[0 := v]);
    StampedEven(map[0 := v], m, c.count, 1, v);
    s' := Grant(c, all, LATE, Stamped(map[0 := v], m, c.count, v), v);
  }

  /** A stamp two nanoseconds later than ClockDrift is enough to break mutual exclusion. */
  lemma LateStampBreaks(c: Config)
    requires LateAllowed(c)
    ensures !Safe(c)
  {
    var s := Hesitate(c);
    s := Block(c, s);
    var got;
    s, got := StampLate(c, s);
    s := LetGo(c, s, got);
    s := TakeOver(c, s, got);
    var states, actions :| IsRun(c, states, actions) && states[|states| - 1] == s;
    assert !Alone(states[|states| - 1]);
  }

  /** Mutual exclusion holds over all runs exactly when stamps are prompt, or when the ttl is
      so short that nothing is ever granted. */
  lemma SafeExactly(c: Config)
    requires Sensible(c)
    ensures Safe(c) <==> c.ttl <= c.drift || c.lag <= c.drift + 1
  {
    hide IsRun, Inv;
    if c.ttl <= c.drift {
      forall states, actions, n | IsRun(c, states, actions) && 0 <= n < |states| ensures Alone(states[n]) {
        NothingGranted(c, states, actions, n);
        forall t, k ensures !Owns(states[n], t, k) { assert NeverGranted(c, states[n], t); }
      }
    } else if c.lag <= c.drift + 1 {
      forall states, actions, n | IsRun(c, states, actions) && 0 <= n < |states| ensures Alone(states[n]) {
        RedlockSafety(c, states, actions, n);
      }
    } else {
      LateStampBreaks(c);
    }
  }
}
