/** The majority lock of internal/distlock as a protocol: any number of clients, each
    running attemptLock, rollback, Heartbeat and Unlock one node call at a time, over nodes
    that share a clock.  Between any two steps every other client, the clock, clean-up and
    Stop may move.

    Assumed, as the design needs: a token serves one acquisition at a time, node IDs are
    distinct (they are positions here), and one ttl.  How late a client may read its clock
    after the node did is a parameter. */
module Redlock {
  import opened LockManager

  type Token = string
  type Key = string

  /** lag bounds how long after the node's clock read a client may take its stamp. */
  datatype Config = Config(count: int, ttl: int, drift: int, maxReentrancy: int, lag: int)

  predicate Sensible(c: Config) { c.count > 0 && c.count % 2 == 1 && c.ttl > 0 && c.drift >= 0 && c.lag >= 0 }

  /** Clocks count whole nanoseconds, and an entry is still held at its expiry. */
  predicate Prompt(c: Config) { c.lag <= c.drift + 1 }

  function Majority(c: Config): int { c.count / 2 + 1 }

  /** NodeExpiries: per node, the client's stamp plus ttl. */
  type Expiries = map<int, int>

  datatype Phase =
    | Acquiring(next: int, got: Expiries)
    | Stamping(next: int, at: int, got: Expiries)
    | Undoing(left: set<int>)
    | Holding(expiry: int, got: Expiries)
    | Beating(expiry: int, got: Expiries, left: set<int>, renewed: Expiries)
    | BeatStamping(expiry: int, got: Expiries, left: set<int>, node: int, at: int, renewed: Expiries)
    | Releasing(next: int)
    | Finished

  datatype Client = Client(key: Key, phase: Phase)

  datatype State = State(now: int, nodes: seq<Node>, clients: map<Token, Client>)

  ghost predicate Init(c: Config, s: State) {
    |s.nodes| == c.count && s.clients == map[] && forall i :: 0 <= i < |s.nodes| ==> s.nodes[i].locks == map[]
  }

  predicate IsMin(e: Expiries, m: int) {
    (exists i :: i in e && e[i] == m) && forall i :: i in e ==> m <= e[i]
  }

  datatype Action =
    | Tick(elapsed: int)
    | CleanUp(node: int, keys: set<Key>)
    | Stop(node: int)
    | Begin(token: Token, key: Key)
    | CallLock(token: Token)
    | StampLock(token: Token)
    | Decide(token: Token, min: int)
    | Undo(token: Token, node: int)
    | Retry(token: Token)
    | GiveUp(token: Token)
    | BeginBeat(token: Token)
    | CallBeat(token: Token, node: int)
    | StampBeat(token: Token)
    | DecideBeat(token: Token, min: int)
    | BeginRelease(token: Token)
    | CallRelease(token: Token)

  ghost predicate Phased(s: State, t: Token, p: Phase) { t in s.clients && s.clients[t].phase == p }

  function Become(s: State, t: Token, p: Phase): State
    requires t in s.clients
  {
    s.(clients := s.clients[t := s.clients[t].(phase := p)])
  }

  /** The test at the end of attemptLock and Heartbeat; min is ignored when there is no quorum. */
  predicate Granted(c: Config, now: int, e: Expiries, min: int) {
    |e| >= Majority(c) && min - c.drift > now
  }

  /** One step of the system. */
  ghost predicate Step(c: Config, s: State, a: Action, s': State) {
    match a
    case Tick(d) => d >= 0 && s' == s.(now := s.now + d)
    case CleanUp(i, keys) =>
      0 <= i < |s.nodes| && s' == s.(nodes := s.nodes[i := Clean(s.nodes[i], keys, s.now)])
    case Stop(i) => 0 <= i < |s.nodes| && s' == s.(nodes := s.nodes[i := s.nodes[i].(stopped := true)])
    case Begin(t, k) =>
      t !in s.clients && t != "" && k != "" && s' == s.(clients := s.clients[t := Client(k, Acquiring(0, map[]))])
    case CallLock(t) =>
      t in s.clients && s.clients[t].phase.Acquiring? && 0 <= s.clients[t].phase.next < |s.nodes| &&
      (var p, i := s.clients[t].phase, s.clients[t].phase.next;
       var (n, err) := AfterLock(s.nodes[i], s.clients[t].key, t, c.ttl, s.now, c.maxReentrancy);
       s' == Become(s.(nodes := s.nodes[i := n]), t,
                    if err == NoError then Stamping(i, s.now, p.got) else Acquiring(i + 1, p.got)))
    case StampLock(t) =>
      t in s.clients && s.clients[t].phase.Stamping? &&
      (var p := s.clients[t].phase;
       s.now - p.at <= c.lag && s' == Become(s, t, Acquiring(p.next + 1, p.got[p.next := s.now + c.ttl])))
    case Decide(t, m) =>
      t in s.clients && s.clients[t].phase.Acquiring? && s.clients[t].phase.next == |s.nodes| &&
      (var p := s.clients[t].phase;
       (p.got != map[] ==> IsMin(p.got, m)) &&
       s' == Become(s, t, if Granted(c, s.now, p.got, m) then Holding(m - c.drift, p.got) else Undoing(p.got.Keys)))
    case Undo(t, i) =>
      t in s.clients && s.clients[t].phase.Undoing? && i in s.clients[t].phase.left && 0 <= i < |s.nodes| &&
      s' == Become(s.(nodes := s.nodes[i := AfterUnlock(s.nodes[i], s.clients[t].key, t, s.now).0]), t,
                   Undoing(s.clients[t].phase.left - {i}))
    case Retry(t) => Phased(s, t, Undoing({})) && s' == Become(s, t, Acquiring(0, map[]))
    case GiveUp(t) => Phased(s, t, Undoing({})) && s' == Become(s, t, Finished)
    case BeginBeat(t) =>
      t in s.clients && s.clients[t].phase.Holding? &&
      (var p := s.clients[t].phase; s' == Become(s, t, Beating(p.expiry, p.got, p.got.Keys, map[])))
    case CallBeat(t, i) =>
      t in s.clients && s.clients[t].phase.Beating? && i in s.clients[t].phase.left && 0 <= i < |s.nodes| &&
      (var p := s.clients[t].phase;
       var (n, err) := AfterHeartbeat(s.nodes[i], s.clients[t].key, t, c.ttl, s.now);
       s' == Become(s.(nodes := s.nodes[i := n]), t,
                    if err == NoError then BeatStamping(p.expiry, p.got, p.left - {i}, i, s.now, p.renewed)
                    else Beating(p.expiry, p.got, p.left - {i}, p.renewed)))
    case StampBeat(t) =>
      t in s.clients && s.clients[t].phase.BeatStamping? &&
      (var p := s.clients[t].phase;
       s.now - p.at <= c.lag &&
       s' == Become(s, t, Beating(p.expiry, p.got, p.left, p.renewed[p.node := s.now + c.ttl])))
    case DecideBeat(t, m) =>
      t in s.clients && s.clients[t].phase.Beating? && s.clients[t].phase.left == {} &&
      (var p := s.clients[t].phase;
       (p.renewed != map[] ==> IsMin(p.renewed, m)) &&
       s' == Become(s, t, if Granted(c, s.now, p.renewed, m) then Holding(m - c.drift, p.renewed) else Holding(p.expiry, p.got)))
    case BeginRelease(t) =>
      t in s.clients && s.clients[t].phase.Holding? && s' == Become(s, t, Releasing(0))
    case CallRelease(t) =>
      t in s.clients && s.clients[t].phase.Releasing? &&
      (var i := s.clients[t].phase.next;
       if 0 <= i < |s.nodes| then
         s' == Become(s.(nodes := s.nodes[i := AfterUnlock(s.nodes[i], s.clients[t].key, t, s.now).0]), t, Releasing(i + 1))
       else s' == Become(s, t, Finished))
  }

  // ------------------------------------------------------------------- invariant

  /** Before e, node i is held for t. */
  ghost predicate Claim(s: State, t: Token, k: Key, i: int, e: int) {
    0 <= i < |s.nodes| && (s.now < e ==> HeldBy(s.nodes[i], k, t, s.now) && e <= s.nodes[i].locks[k].expiresAt + 1)
  }

  ghost predicate Claims(s: State, t: Token, k: Key, e: Expiries, drift: int) {
    forall i {:trigger e[i]} :: i in e ==> Claim(s, t, k, i, e[i] - drift)
  }

  /** Before e, every node of the set is held for t. */
  ghost predicate ClaimsUntil(s: State, t: Token, k: Key, nodes: set<int>, e: int) {
    forall i {:trigger Claim(s, t, k, i, e)} :: i in nodes ==> Claim(s, t, k, i, e)
  }

  ghost predicate Held(c: Config, s: State, t: Token, k: Key, e: int, got: Expiries) {
    |got| >= Majority(c) && ClaimsUntil(s, t, k, got.Keys, e) && e + c.drift <= s.now + c.ttl
  }

  ghost predicate Past(c: Config, s: State, e: Expiries) {
    forall i :: i in e ==> e[i] <= s.now + c.ttl
  }

  ghost predicate NoLower(c: Config, e: Expiries, low: int) {
    forall i :: i in e ==> low + c.drift <= e[i]
  }

  ghost predicate Gathered(c: Config, s: State, t: Token, k: Key, next: int, got: Expiries) {
    0 <= next && (forall i :: i in got ==> i < next) && Claims(s, t, k, got, c.drift) && Past(c, s, got)
  }

  ghost predicate Renewing(c: Config, s: State, t: Token, k: Key, e: int, got: Expiries, left: set<int>, renewed: Expiries) {
    && Held(c, s, t, k, e, got) && left !! renewed.Keys
    && Claims(s, t, k, renewed, c.drift) && Past(c, s, renewed) && NoLower(c, renewed, e)
  }

  ghost predicate ClientOk(c: Config, s: State, t: Token, k: Key, p: Phase) {
    match p
    case Acquiring(next, got) => Gathered(c, s, t, k, next, got)
    case Stamping(next, at, got) =>
      Gathered(c, s, t, k, next, got) && at <= s.now && Claim(s, t, k, next, at + c.ttl + 1)
    case Holding(e, got) => Held(c, s, t, k, e, got)
    case Beating(e, got, left, renewed) => Renewing(c, s, t, k, e, got, left, renewed)
    case BeatStamping(e, got, left, node, at, renewed) =>
      && Renewing(c, s, t, k, e, got, left, renewed) && node !in left && node !in renewed
      && at <= s.now && Claim(s, t, k, node, at + c.ttl + 1) && e + c.drift <= at + c.ttl
    case _ => true
  }

  ghost predicate Inv(c: Config, s: State) {
    && |s.nodes| == c.count
    && (forall t {:trigger s.clients[t]} :: t in s.clients ==> ClientOk(c, s, t, s.clients[t].key, s.clients[t].phase))
  }

  // ---------------------------------------------------------------- preservation

  /** What a step does to the entries of token t: live ones stay, at least as long. */
  ghost predicate Spares(s: State, s': State, t: Token, k: Key) {
    && |s'.nodes| == |s.nodes| && s.now <= s'.now
    && (forall i {:trigger s'.nodes[i]} :: 0 <= i < |s.nodes| && HeldBy(s.nodes[i], k, t, s'.now) ==>
          HeldBy(s'.nodes[i], k, t, s'.now) && s.nodes[i].locks[k].expiresAt <= s'.nodes[i].locks[k].expiresAt)
  }

  lemma SparedClaim(s: State, s': State, t: Token, k: Key, i: int, e: int)
    requires Spares(s, s', t, k) && Claim(s, t, k, i, e)
    ensures Claim(s', t, k, i, e)
  {
    if s'.now < e {
      assert HeldBy(s.nodes[i], k, t, s.now);
      assert s'.nodes[i] == s'.nodes[i];
    }
  }

  lemma SparedClaims(s: State, s': State, t: Token, k: Key, e: Expiries, drift: int)
    requires Spares(s, s', t, k) && Claims(s, t, k, e, drift)
    ensures Claims(s', t, k, e, drift)
  {
    forall i | i in e ensures Claim(s', t, k, i, e[i] - drift) {
      assert Claim(s, t, k, i, e[i] - drift);
      SparedClaim(s, s', t, k, i, e[i] - drift);
    }
  }

  lemma SparedHeld(c: Config, s: State, s': State, t: Token, k: Key, e: int, got: Expiries)
    requires Spares(s, s', t, k) && Held(c, s, t, k, e, got)
    ensures Held(c, s', t, k, e, got)
  {
    forall i | i in got.Keys ensures Claim(s', t, k, i, e) {
      assert Claim(s, t, k, i, e);
      SparedClaim(s, s', t, k, i, e);
    }
  }

  /** A client that a step spares keeps all its claims. */
  lemma SparedClient(c: Config, s: State, s': State, t: Token, k: Key, p: Phase)
    requires Spares(s, s', t, k) && ClientOk(c, s, t, k, p)
    ensures ClientOk(c, s', t, k, p)
  {
    match p
    case Acquiring(next, got) => SparedClaims(s, s', t, k, got, c.drift);
    case Stamping(next, at, got) =>
      SparedClaims(s, s', t, k, got, c.drift);
      SparedClaim(s, s', t, k, next, at + c.ttl + 1);
    case Holding(e, got) => SparedHeld(c, s, s', t, k, e, got);
    case Beating(e, got, left, renewed) =>
      SparedHeld(c, s, s', t, k, e, got);
      SparedClaims(s, s', t, k, renewed, c.drift);
    case BeatStamping(e, got, left, node, at, renewed) =>
      SparedHeld(c, s, s', t, k, e, got);
      SparedClaims(s, s', t, k, renewed, c.drift);
      SparedClaim(s, s', t, k, node, at + c.ttl + 1);
    case _ =>
  }

  /** A node call by one token spares every other token. */
  lemma CallSpares(s: State, s': State, i: int, key: Key, caller: Token, t: Token, k: Key)
    requires 0 <= i < |s.nodes| && s'.now == s.now && t != caller
    requires |s'.nodes| == |s.nodes| && s'.nodes == s.nodes[i := s'.nodes[i]]
    requires Respects(s.nodes[i], s'.nodes[i], key, caller, s.now)
    ensures Spares(s, s', t, k)
  {
    if HeldBy(s.nodes[i], k, t, s.now) && k != key {
      assert k in s.nodes[i].locks - {key};
      assert k in s'.nodes[i].locks - {key} && (s'.nodes[i].locks - {key})[k] == (s.nodes[i].locks - {key})[k];
    }
  }

  /** It is enough to look at the acting client when the others are spared. */
  lemma OthersKeep(c: Config, s: State, s': State, actor: Token)
    requires Inv(c, s) && |s'.nodes| == |s.nodes|
    requires forall t :: t in s'.clients && t != actor ==> t in s.clients && s'.clients[t] == s.clients[t]
    requires forall t :: t in s.clients && t != actor ==> Spares(s, s', t, s.clients[t].key)
    requires actor in s'.clients ==> ClientOk(c, s', actor, s'.clients[actor].key, s'.clients[actor].phase)
    ensures Inv(c, s')
  {
    forall t | t in s'.clients
      ensures ClientOk(c, s', t, s'.clients[t].key, s'.clients[t].phase)
    {
      if t != actor { SparedClient(c, s, s', t, s.clients[t].key, s.clients[t].phase); }
    }
  }

  /** Steps of the environment. */
  lemma EnvironmentKeeps(c: Config, s: State, a: Action, s': State)
    requires Inv(c, s) && Step(c, s, a, s') && (a.Tick? || a.CleanUp? || a.Stop?)
    ensures Inv(c, s')
  {
    forall t | t in s'.clients
      ensures ClientOk(c, s', t, s'.clients[t].key, s'.clients[t].phase)
    {
      SparedClient(c, s, s', t, s.clients[t].key, s.clients[t].phase);
    }
  }

  /** Claims on nodes other than i survive a change of node i alone. */
  lemma ClaimsElsewhere(s: State, s': State, i: int, t: Token, k: Key, e: Expiries, drift: int)
    requires 0 <= i < |s.nodes| && s'.now == s.now && |s'.nodes| == |s.nodes| && s'.nodes == s.nodes[i := s'.nodes[i]]
    requires Claims(s, t, k, e, drift) && i !in e
    ensures Claims(s', t, k, e, drift)
  {
    forall j | j in e ensures Claim(s', t, k, j, e[j] - drift) {
      assert Claim(s, t, k, j, e[j] - drift);
    }
  }

  lemma CallLockKeeps(c: Config, s: State, t: Token, s': State)
    requires Sensible(c) && Inv(c, s) && Step(c, s, CallLock(t), s')
    ensures Inv(c, s')
  {
    var k, p := s.clients[t].key, s.clients[t].phase;
    assert ClientOk(c, s, t, k, p);
    ClaimsElsewhere(s, s', p.next, t, k, p.got, c.drift);
    forall t' | t' in s.clients && t' != t ensures Spares(s, s', t', s.clients[t'].key) {
      CallSpares(s, s', p.next, k, t, t', s.clients[t'].key);
    }
    OthersKeep(c, s, s', t);
  }

  /** Steps that only change the acting client's own record. */
  lemma QuietKeeps(c: Config, s: State, s': State, t: Token)
    requires Inv(c, s) && s'.nodes == s.nodes && s'.now == s.now
    requires t in s'.clients && s'.clients == s.clients[t := s'.clients[t]]
    requires ClientOk(c, s', t, s'.clients[t].key, s'.clients[t].phase)
    ensures Inv(c, s')
  {
    OthersKeep(c, s, s', t);
  }

  lemma StampKeeps(c: Config, s: State, t: Token, s': State)
    requires Prompt(c) && Inv(c, s) && Step(c, s, StampLock(t), s')
    ensures Inv(c, s')
  {
    var k, p := s.clients[t].key, s.clients[t].phase;
    assert ClientOk(c, s, t, k, p);
    var got := p.got[p.next := s.now + c.ttl];
    forall i | i in got ensures Claim(s', t, k, i, got[i] - c.drift) {
      if i != p.next { assert Claim(s, t, k, i, p.got[i] - c.drift); }
    }
    QuietKeeps(c, s, s', t);
  }

  lemma DecideKeeps(c: Config, s: State, t: Token, m: int, s': State)
    requires Sensible(c) && Inv(c, s) && Step(c, s, Decide(t, m), s')
    ensures Inv(c, s')
  {
    var k, p := s.clients[t].key, s.clients[t].phase;
    assert ClientOk(c, s, t, k, p);
    if Granted(c, s.now, p.got, m) {
      LowerClaims(s, s', t, k, p.got, c.drift, m - c.drift);
    }
    QuietKeeps(c, s, s', t);
  }

  /** Claims may be lowered to the least of them. */
  lemma LowerClaims(s: State, s': State, t: Token, k: Key, e: Expiries, drift: int, m: int)
    requires s'.nodes == s.nodes && s'.now == s.now
    requires Claims(s, t, k, e, drift) && forall i :: i in e ==> m + drift <= e[i]
    ensures ClaimsUntil(s', t, k, e.Keys, m)
  {
    forall i | i in e.Keys ensures Claim(s', t, k, i, m) {
      assert Claim(s, t, k, i, e[i] - drift);
    }
  }

  lemma UnlockKeeps(c: Config, s: State, t: Token, i: int, s': State)
    requires Inv(c, s) && t in s.clients && t in s'.clients && 0 <= i < |s.nodes| && |s'.nodes| == |s.nodes|
    requires s'.now == s.now && s'.nodes == s.nodes[i := AfterUnlock(s.nodes[i], s.clients[t].key, t, s.now).0]
    requires s'.clients == s.clients[t := s'.clients[t]]
    requires s'.clients[t].phase.Undoing? || s'.clients[t].phase.Releasing?
    ensures Inv(c, s')
  {
    forall t' | t' in s.clients && t' != t ensures Spares(s, s', t', s.clients[t'].key) {
      CallSpares(s, s', i, s.clients[t].key, t, t', s.clients[t'].key);
    }
    OthersKeep(c, s, s', t);
  }

  lemma CallBeatKeeps(c: Config, s: State, t: Token, i: int, s': State)
    requires Sensible(c) && Inv(c, s) && Step(c, s, CallBeat(t, i), s')
    ensures Inv(c, s')
  {
    var k, p := s.clients[t].key, s.clients[t].phase;
    assert ClientOk(c, s, t, k, p);
    ClaimsElsewhere(s, s', i, t, k, p.renewed, c.drift);
    forall j | j in p.got.Keys ensures Claim(s', t, k, j, p.expiry) {
      assert Claim(s, t, k, j, p.expiry);
    }
    forall t' | t' in s.clients && t' != t ensures Spares(s, s', t', s.clients[t'].key) {
      CallSpares(s, s', i, k, t, t', s.clients[t'].key);
    }
    OthersKeep(c, s, s', t);
  }

  lemma StampBeatKeeps(c: Config, s: State, t: Token, s': State)
    requires Prompt(c) && Inv(c, s) && Step(c, s, StampBeat(t), s')
    ensures Inv(c, s')
  {
    var k, p := s.clients[t].key, s.clients[t].phase;
    assert ClientOk(c, s, t, k, p);
    var renewed := p.renewed[p.node := s.now + c.ttl];
    forall i | i in renewed ensures Claim(s', t, k, i, renewed[i] - c.drift) {
      if i != p.node { assert Claim(s, t, k, i, p.renewed[i] - c.drift); }
    }
    SparedHeld(c, s, s', t, k, p.expiry, p.got);
    QuietKeeps(c, s, s', t);
  }

  lemma DecideBeatKeeps(c: Config, s: State, t: Token, m: int, s': State)
    requires Sensible(c) && Inv(c, s) && Step(c, s, DecideBeat(t, m), s')
    ensures Inv(c, s') && s'.clients[t].phase.Holding? && s.clients[t].phase.expiry <= s'.clients[t].phase.expiry
  {
    var k, p := s.clients[t].key, s.clients[t].phase;
    assert ClientOk(c, s, t, k, p);
    SparedHeld(c, s, s', t, k, p.expiry, p.got);
    if Granted(c, s.now, p.renewed, m) {
      LowerClaims(s, s', t, k, p.renewed, c.drift, m - c.drift);
    }
    QuietKeeps(c, s, s', t);
  }

  lemma BeginBeatKeeps(c: Config, s: State, t: Token, s': State)
    requires Inv(c, s) && Step(c, s, BeginBeat(t), s')
    ensures Inv(c, s')
  {
    var k, p := s.clients[t].key, s.clients[t].phase;
    assert ClientOk(c, s, t, k, p);
    SparedHeld(c, s, s', t, k, p.expiry, p.got);
    QuietKeeps(c, s, s', t);
  }

  /** Every step keeps the invariant. */
  lemma StepKeeps(c: Config, s: State, a: Action, s': State)
    requires Sensible(c) && Prompt(c) && Inv(c, s) && Step(c, s, a, s')
    ensures Inv(c, s')
  {
    match a
    case Tick(_) => EnvironmentKeeps(c, s, a, s');
    case CleanUp(_, _) => EnvironmentKeeps(c, s, a, s');
    case Stop(_) => EnvironmentKeeps(c, s, a, s');
    case Begin(t, _) => QuietKeeps(c, s, s', t);
    case CallLock(t) => CallLockKeeps(c, s, t, s');
    case StampLock(t) => StampKeeps(c, s, t, s');
    case Decide(t, m) => DecideKeeps(c, s, t, m, s');
    case Undo(t, i) => UnlockKeeps(c, s, t, i, s');
    case Retry(t) => QuietKeeps(c, s, s', t);
    case GiveUp(t) => QuietKeeps(c, s, s', t);
    case BeginBeat(t) => BeginBeatKeeps(c, s, t, s');
    case CallBeat(t, i) => CallBeatKeeps(c, s, t, i, s');
    case StampBeat(t) => StampBeatKeeps(c, s, t, s');
    case DecideBeat(t, m) => DecideBeatKeeps(c, s, t, m, s');
    case BeginRelease(t) => QuietKeeps(c, s, s', t);
    case CallRelease(t) =>
      if s.clients[t].phase.next < |s.nodes| && 0 <= s.clients[t].phase.next {
        UnlockKeeps(c, s, t, s.clients[t].phase.next, s');
      } else {
        QuietKeeps(c, s, s', t);
      }
  }

  // ---------------------------------------------------------------------- safety

  /** t has an unreleased acquisition of k whose Expiry is after now. */
  ghost predicate Owns(s: State, t: Token, k: Key) {
    && t in s.clients && s.clients[t].key == k
    && (s.clients[t].phase.Holding? || s.clients[t].phase.Beating? || s.clients[t].phase.BeatStamping?)
    && s.clients[t].phase.expiry > s.now
  }

  ghost function UpTo(n: int): (r: set<int>)
    requires n >= 0
    ensures |r| == n && forall i :: i in r <==> 0 <= i < n
  {
    if n == 0 then {} else UpTo(n - 1) + {n - 1}
  }

  /** Two majorities meet. */
  lemma QuorumsMeet(n: int, a: set<int>, b: set<int>) returns (i: int)
    requires n >= 0 && a <= UpTo(n) && b <= UpTo(n) && |a| >= n / 2 + 1 && |b| >= n / 2 + 1
    ensures i in a && i in b
  {
    var rest := UpTo(n) - (a + b);
    assert UpTo(n) == (a + b) + rest;
    assert |a + b| == |a| + |b| - |a * b|;
    assert |a * b| > 0;
    i :| i in a * b;
  }

  /** In a state that satisfies the invariant no two tokens own one key. */
  lemma Exclusive(c: Config, s: State, t1: Token, t2: Token, k: Key)
    requires Sensible(c) && Inv(c, s) && Owns(s, t1, k) && Owns(s, t2, k)
    ensures t1 == t2
  {
    var p1, p2 := s.clients[t1].phase, s.clients[t2].phase;
    assert ClientOk(c, s, t1, k, p1) && ClientOk(c, s, t2, k, p2);
    forall i | i in p1.got.Keys ensures i in UpTo(c.count) { assert Claim(s, t1, k, i, p1.expiry); }
    forall i | i in p2.got.Keys ensures i in UpTo(c.count) { assert Claim(s, t2, k, i, p2.expiry); }
    var i := QuorumsMeet(c.count, p1.got.Keys, p2.got.Keys);
    assert Claim(s, t1, k, i, p1.expiry) && Claim(s, t2, k, i, p2.expiry);
  }

  ghost predicate IsRun(c: Config, states: seq<State>, actions: seq<Action>) {
    && |states| == |actions| + 1
    && Init(c, states[0])
    && (forall i :: 0 <= i < |actions| ==> Step(c, states[i], actions[i], states[i + 1]))
  }

  /** Mutual exclusion over whole runs, whatever the interleaving. */
  lemma {:induction false} RedlockSafety(c: Config, states: seq<State>, actions: seq<Action>, n: int)
    requires Sensible(c) && Prompt(c) && IsRun(c, states, actions) && 0 <= n < |states|
    ensures Inv(c, states[n])
    ensures forall t1, t2, k :: Owns(states[n], t1, k) && Owns(states[n], t2, k) ==> t1 == t2
  {
    if n > 0 {
      RedlockSafety(c, states, actions, n - 1);
      StepKeeps(c, states[n - 1], actions[n - 1], states[n]);
    }
    forall t1, t2, k | Owns(states[n], t1, k) && Owns(states[n], t2, k)
      ensures t1 == t2
    {
      Exclusive(c, states[n], t1, t2, k);
    }
  }
}
