/** What the majority lock gives back, and what it grants.  In every run a node that still holds
    a client's lock is one the client accounts for, so nothing is left behind by an attempt that
    failed or a lock that was released; and a client alone is granted the lock exactly when a
    majority of the nodes is free. */
module RedlockRollback {
  import opened LockManager
  import opened Redlock

  // ------------------------------------------------------------------ locks accounted for

  /** In this phase the client may hold its key on node i. */
  ghost predicate Accounted(p: Phase, i: int) {
    match p
    case Acquiring(_, got) => i in got
    case Stamping(next, _, got) => i in got || i == next
    case Undoing(left) => i in left
    case Holding(_, got) => i in got
    case Beating(_, _, left, renewed) => i in left || i in renewed
    case BeatStamping(_, _, left, node, _, renewed) => i in left || i in renewed || i == node
    case Releasing(next) => next <= i
    case Finished => false
  }

  /** The client's stamp for node i comes at most lag after the node's own. */
  ghost predicate NearStamp(c: Config, p: Phase, i: int, expiresAt: int) {
    match p
    case Acquiring(_, got) => i in got ==> expiresAt <= got[i] <= expiresAt + c.lag
    case Stamping(next, at, got) =>
      (i in got ==> expiresAt <= got[i] <= expiresAt + c.lag) && (i == next ==> expiresAt == at + c.ttl)
    case Beating(_, _, _, renewed) => i in renewed ==> expiresAt <= renewed[i] <= expiresAt + c.lag
    case BeatStamping(_, _, _, node, at, renewed) =>
      (i in renewed ==> expiresAt <= renewed[i] <= expiresAt + c.lag) && (i == node ==> expiresAt == at + c.ttl)
    case _ => true
  }

  /** Nodes are asked in order, and a heartbeat only goes to nodes of the acquisition. */
  ghost predicate Shaped(p: Phase, now: int) {
    match p
    case Acquiring(next, got) => forall i :: i in got ==> i < next
    case Stamping(next, at, got) => at <= now && forall i :: i in got ==> i < next
    case Beating(_, got, left, renewed) => left <= got.Keys && renewed.Keys <= got.Keys && left !! renewed.Keys
    case BeatStamping(_, got, left, node, at, renewed) =>
      && left <= got.Keys && renewed.Keys <= got.Keys && left !! renewed.Keys
      && at <= now && node in got && node !in left && node !in renewed
    case Releasing(next) => 0 <= next
    case _ => true
  }

  /** An entry belongs to a client that asked for its key; while it lasts, on a node that works,
      the client holds it once and accounts for it. */
  ghost predicate EntryOk(c: Config, s: State, i: int, k: Key)
    requires 0 <= i < |s.nodes|
  {
    k in s.nodes[i].locks ==>
      var e := s.nodes[i].locks[k];
      && e.token in s.clients && s.clients[e.token].key == k
      && (Live(s.nodes[i], k, s.now) && !s.nodes[i].stopped ==>
            e.reentrancy == 1 && Accounted(s.clients[e.token].phase, i) && NearStamp(c, s.clients[e.token].phase, i, e.expiresAt))
  }

  ghost predicate OfClients(s: State) {
    forall t {:trigger s.clients[t]} :: t in s.clients ==> t != "" && s.clients[t].key != "" && Shaped(s.clients[t].phase, s.now)
  }

  ghost predicate Tidy(c: Config, s: State) {
    OfClients(s) && (forall i, k {:trigger EntryOk(c, s, i, k)} :: 0 <= i < |s.nodes| ==> EntryOk(c, s, i, k))
  }

  // ----------------------------------------------------------------------- preservation

  lemma ClientStays(c: Config, s: State, a: Action, s': State, t: Token)
    requires Sensible(c) && OfClients(s) && Step(c, s, a, s') && t in s'.clients
    ensures t != "" && s'.clients[t].key != "" && Shaped(s'.clients[t].phase, s'.now)
  {
    hide AfterLock, AfterUnlock, AfterHeartbeat, Clean;
    if t in s.clients { assert Shaped(s.clients[t].phase, s.now); }
  }

  lemma NodesStay(c: Config, s: State, a: Action, s': State)
    requires Step(c, s, a, s')
    ensures |s'.nodes| == |s.nodes|
  {
    hide AfterLock, AfterUnlock, AfterHeartbeat, Clean;
  }

  lemma ClientsStay(c: Config, s: State, a: Action, s': State)
    requires Sensible(c) && Tidy(c, s) && Step(c, s, a, s')
    ensures OfClients(s') && |s'.nodes| == |s.nodes|
  {
    hide Step, EntryOk;
    NodesStay(c, s, a, s');
    forall t | t in s'.clients ensures t != "" && s'.clients[t].key != "" && Shaped(s'.clients[t].phase, s'.now) {
      ClientStays(c, s, a, s', t);
    }
  }

  lemma EnvironmentTidy(c: Config, s: State, a: Action, s': State, i: int, k: Key)
    requires Tidy(c, s) && Step(c, s, a, s') && (a.Tick? || a.CleanUp? || a.Stop?) && 0 <= i < |s'.nodes|
    ensures EntryOk(c, s', i, k)
  {
    assert EntryOk(c, s, i, k);
  }

  /** Steps in which one client moves on and no node changes. */
  lemma QuietTidy(c: Config, s: State, s': State, t: Token, i: int, k: Key)
    requires Tidy(c, s) && s'.nodes == s.nodes && s'.now == s.now && t in s'.clients
    requires s'.clients == s.clients[t := s'.clients[t]] && (t in s.clients ==> s'.clients[t].key == s.clients[t].key)
    requires 0 <= i < |s.nodes|
    requires t in s.clients ==> forall e :: Accounted(s.clients[t].phase, i) && NearStamp(c, s.clients[t].phase, i, e) ==>
      Accounted(s'.clients[t].phase, i) && NearStamp(c, s'.clients[t].phase, i, e)
    ensures EntryOk(c, s', i, k)
  {
    assert EntryOk(c, s, i, k);
  }

  lemma StampTidy(c: Config, s: State, a: Action, s': State, i: int, k: Key)
    requires Tidy(c, s) && Step(c, s, a, s') && (a.StampLock? || a.StampBeat?) && 0 <= i < |s'.nodes|
    ensures EntryOk(c, s', i, k)
  {
    assert Shaped(s.clients[a.token].phase, s.now);
    QuietTidy(c, s, s', a.token, i, k);
  }

  lemma MoveTidy(c: Config, s: State, a: Action, s': State, i: int, k: Key)
    requires Tidy(c, s) && Step(c, s, a, s') && 0 <= i < |s'.nodes|
    requires a.Begin? || a.Decide? || a.Retry? || a.GiveUp? || a.BeginBeat? || a.DecideBeat? || a.BeginRelease?
    ensures EntryOk(c, s', i, k)
  {
    if !a.Begin? { assert Shaped(s.clients[a.token].phase, s.now); }
    QuietTidy(c, s, s', a.token, i, k);
  }

  /** An entry that a node call leaves alone, because it is elsewhere or under another key. */
  lemma UntouchedTidy(c: Config, s: State, s': State, t: Token, j: int, i: int, k: Key)
    requires Tidy(c, s) && t in s.clients && s'.now == s.now && 0 <= j < |s.nodes| && 0 <= i < |s.nodes|
    requires |s'.nodes| == |s.nodes| && s'.nodes == s.nodes[j := s'.nodes[j]] && OnlyKey(s.nodes[j], s'.nodes[j], s.clients[t].key)
    requires t in s'.clients && s'.clients == s.clients[t := s'.clients[t]] && s'.clients[t].key == s.clients[t].key
    requires i != j || k != s.clients[t].key
    requires forall e :: i != j && Accounted(s.clients[t].phase, i) && NearStamp(c, s.clients[t].phase, i, e) ==>
      Accounted(s'.clients[t].phase, i) && NearStamp(c, s'.clients[t].phase, i, e)
    ensures EntryOk(c, s', i, k)
  {
    assert EntryOk(c, s, i, k);
    if i == j && k in s'.nodes[j].locks {
      var key := s.clients[t].key;
      assert k in s'.nodes[j].locks - {key} && (s'.nodes[j].locks - {key})[k] == (s.nodes[j].locks - {key})[k];
    }
  }

  lemma LockTidy(c: Config, s: State, t: Token, s': State, i: int, k: Key)
    requires Sensible(c) && Tidy(c, s) && Step(c, s, CallLock(t), s') && 0 <= i < |s'.nodes|
    ensures EntryOk(c, s', i, k)
  {
    var j := s.clients[t].phase.next;
    assert Shaped(s.clients[t].phase, s.now);
    if i == j && k == s.clients[t].key {
      assert EntryOk(c, s, i, k);
    } else {
      UntouchedTidy(c, s, s', t, j, i, k);
    }
  }

  lemma UnlockTidy(c: Config, s: State, a: Action, s': State, i: int, k: Key)
    requires Tidy(c, s) && Step(c, s, a, s') && (a.Undo? || a.CallRelease?) && 0 <= i < |s'.nodes|
    ensures EntryOk(c, s', i, k)
  {
    var t := a.token;
    var j := if a.Undo? then a.node else s.clients[t].phase.next;
    assert t != "" && s.clients[t].key != "" && Shaped(s.clients[t].phase, s.now);
    if j >= |s.nodes| {
      QuietTidy(c, s, s', t, i, k);
    } else if i == j && k == s.clients[t].key {
      assert EntryOk(c, s, i, k);
    } else {
      UntouchedTidy(c, s, s', t, j, i, k);
    }
  }

  lemma BeatTidy(c: Config, s: State, t: Token, j: int, s': State, i: int, k: Key)
    requires Sensible(c) && Tidy(c, s) && Step(c, s, CallBeat(t, j), s') && 0 <= i < |s'.nodes|
    ensures EntryOk(c, s', i, k)
  {
    assert Shaped(s.clients[t].phase, s.now);
    if i == j && k == s.clients[t].key {
      assert EntryOk(c, s, i, k);
    } else {
      UntouchedTidy(c, s, s', t, j, i, k);
    }
  }

  lemma StepTidy(c: Config, s: State, a: Action, s': State)
    requires Sensible(c) && Tidy(c, s) && Step(c, s, a, s')
    ensures Tidy(c, s')
  {
    ClientsStay(c, s, a, s');
    forall i, k | 0 <= i < |s'.nodes| ensures EntryOk(c, s', i, k) {
      match a
      case Tick(_) => EnvironmentTidy(c, s, a, s', i, k);
      case CleanUp(_, _) => EnvironmentTidy(c, s, a, s', i, k);
      case Stop(_) => EnvironmentTidy(c, s, a, s', i, k);
      case CallLock(t) => LockTidy(c, s, t, s', i, k);
      case StampLock(_) => StampTidy(c, s, a, s', i, k);
      case StampBeat(_) => StampTidy(c, s, a, s', i, k);
      case Undo(_, _) => UnlockTidy(c, s, a, s', i, k);
      case CallRelease(_) => UnlockTidy(c, s, a, s', i, k);
      case CallBeat(t, j) => BeatTidy(c, s, t, j, s', i, k);
      case _ => MoveTidy(c, s, a, s', i, k);
    }
  }

  // --------------------------------------------------------------------- nothing left behind

  /** The client has given back node i: it rolled an attempt back there, or released there. */
  ghost predicate GaveBack(p: Phase, i: int) {
    match p
    case Undoing(left) => i !in left
    case Releasing(next) => i < next
    case Finished => true
    case _ => false
  }

  lemma {:induction false} RunTidy(c: Config, states: seq<State>, actions: seq<Action>, n: int)
    requires Sensible(c) && IsRun(c, states, actions) && 0 <= n < |states|
    ensures Tidy(c, states[n])
    decreases n
  {
    if n > 0 {
      RunTidy(c, states, actions, n - 1);
      StepTidy(c, states[n - 1], actions[n - 1], states[n]);
    }
  }

  /** In every state of every run, however late the stamps: on a node that was not stopped no
      token holds a key it did not ask for, none holds it twice, and none holds it where it gave
      it back. */
  lemma NothingLeftBehind(c: Config, states: seq<State>, actions: seq<Action>, n: int)
    requires Sensible(c) && IsRun(c, states, actions) && 0 <= n < |states|
    ensures forall i, k, t :: 0 <= i < |states[n].nodes| && !states[n].nodes[i].stopped && HeldBy(states[n].nodes[i], k, t, states[n].now) ==>
      && t in states[n].clients && states[n].clients[t].key == k && states[n].nodes[i].locks[k].reentrancy == 1
      && !GaveBack(states[n].clients[t].phase, i)
  {
    RunTidy(c, states, actions, n);
    var s := states[n];
    forall i, k, t | 0 <= i < |s.nodes| && !s.nodes[i].stopped && HeldBy(s.nodes[i], k, t, s.now)
      ensures t in s.clients && s.clients[t].key == k && s.nodes[i].locks[k].reentrancy == 1 && !GaveBack(s.clients[t].phase, i)
    {
      assert EntryOk(c, s, i, k);
    }
  }

  // ------------------------------------------------------------------------- what is granted

  /** What the quorum test leaves of the stamps e: the least of them less the drift. */
  ghost predicate Earned(c: Config, e: Expiries, expiry: int) {
    (exists i :: i in e && expiry == e[i] - c.drift) && forall i :: i in e ==> expiry <= e[i] - c.drift
  }

  /** More than half of the nodes answered, and every stamp lasts longer than the drift. */
  ghost predicate InTime(c: Config, s: State, e: Expiries) {
    2 * |e| > |s.nodes| && forall i :: i in e ==> s.now < e[i] - c.drift
  }

  lemma TestIsExact(c: Config, s: State, e: Expiries, m: int)
    requires Sensible(c) && |s.nodes| == c.count && (e != map[] ==> IsMin(e, m))
    ensures Granted(c, s.now, e, m) <==> InTime(c, s, e)
    ensures InTime(c, s, e) ==> Earned(c, e, m - c.drift)
  {
    if e == map[] { assert |e| == 0; }
  }

  /** An attempt is granted exactly when more than half of the nodes answered in time, until the
      least stamp less the drift; otherwise every node that answered is to be given back. */
  lemma DecidesExactly(c: Config, s: State, t: Token, m: int, s': State)
    requires Sensible(c) && |s.nodes| == c.count && Step(c, s, Decide(t, m), s')
    ensures var got, p := s.clients[t].phase.got, s'.clients[t].phase;
      if InTime(c, s, got) then p.Holding? && p.got == got && Earned(c, got, p.expiry) else p == Undoing(got.Keys)
  {
    TestIsExact(c, s, s.clients[t].phase.got, m);
  }

  /** A heartbeat renewed in time at more than half of the nodes moves the expiry to the least
      new stamp less the drift; any other leaves the acquisition as it was. */
  lemma BeatsExactly(c: Config, s: State, t: Token, m: int, s': State)
    requires Sensible(c) && |s.nodes| == c.count && Step(c, s, DecideBeat(t, m), s')
    ensures var was, p := s.clients[t].phase, s'.clients[t].phase;
      p.Holding? && if InTime(c, s, was.renewed) then p.got == was.renewed && Earned(c, was.renewed, p.expiry)
                    else p.got == was.got && p.expiry == was.expiry
  {
    TestIsExact(c, s, s.clients[t].phase.renewed, m);
  }

  // ---------------------------------------------------------------------- a client alone

  /** The node grants the token the key. */
  predicate Opens(c: Config, n: Node, key: Key, t: Token, now: int) {
    !n.stopped && (!Live(n, key, now) || (n.locks[key].token == t && n.locks[key].reentrancy < c.maxReentrancy))
  }

  /** The nodes before the given one that grant the key, all with one stamp. */
  ghost function Gains(c: Config, s: State, t: Token, next: int): Expiries
    requires t in s.clients
  {
    map i | 0 <= i < next && i < |s.nodes| && Opens(c, s.nodes[i], s.clients[t].key, t, s.now) :: s.now + c.ttl
  }

  ghost predicate Starts(s: State, t: Token) {
    t in s.clients && s.clients[t].phase == Acquiring(0, map[]) && t != "" && s.clients[t].key != ""
  }

  /** Only t has moved since s0, and no time has passed. */
  ghost predicate SoFar(c: Config, s0: State, s: State, t: Token)
    requires t in s0.clients
  {
    && t in s.clients && s.clients[t].key == s0.clients[t].key && s.now == s0.now && |s.nodes| == |s0.nodes|
    && match s.clients[t].phase
       case Acquiring(next, got) =>
         0 <= next && got == Gains(c, s0, t, next) && forall i :: next <= i < |s.nodes| ==> s.nodes[i] == s0.nodes[i]
       case Stamping(next, at, got) =>
         && 0 <= next < |s.nodes| && at == s.now && got == Gains(c, s0, t, next)
         && Opens(c, s0.nodes[next], s0.clients[t].key, t, s.now) && forall i :: next < i < |s.nodes| ==> s.nodes[i] == s0.nodes[i]
       case _ => false
  }

  lemma GainsMore(c: Config, s: State, t: Token, next: int)
    requires t in s.clients && 0 <= next < |s.nodes|
    ensures Gains(c, s, t, next + 1) ==
      if Opens(c, s.nodes[next], s.clients[t].key, t, s.now) then Gains(c, s, t, next)[next := s.now + c.ttl] else Gains(c, s, t, next)
  {
  }

  lemma CallAlone(c: Config, s0: State, s: State, s': State, t: Token)
    requires Sensible(c) && Starts(s0, t) && SoFar(c, s0, s, t) && Step(c, s, CallLock(t), s')
    ensures SoFar(c, s0, s', t)
  {
    hide Gains;
    GainsMore(c, s0, t, s.clients[t].phase.next);
  }

  lemma StampAlone(c: Config, s0: State, s: State, s': State, t: Token)
    requires Starts(s0, t) && SoFar(c, s0, s, t) && Step(c, s, StampLock(t), s')
    ensures SoFar(c, s0, s', t)
  {
    hide Gains;
    GainsMore(c, s0, t, s.clients[t].phase.next);
  }

  /** The states of an attempt that runs alone. */
  ghost predicate Attempt(c: Config, states: seq<State>, actions: seq<Action>, t: Token) {
    && |states| == |actions| + 1
    && (forall i :: 0 <= i < |actions| ==>
          Step(c, states[i], actions[i], states[i + 1]) && (actions[i] == CallLock(t) || actions[i] == StampLock(t)))
  }

  lemma {:induction false} AttemptAlone(c: Config, states: seq<State>, actions: seq<Action>, t: Token, n: int)
    requires Sensible(c) && Attempt(c, states, actions, t) && Starts(states[0], t) && 0 <= n < |states|
    ensures SoFar(c, states[0], states[n], t)
    decreases n
  {
    if n == 0 {
      assert Gains(c, states[0], t, 0) == map[];
    } else {
      AttemptAlone(c, states, actions, t, n - 1);
      assert Step(c, states[n - 1], actions[n - 1], states[n]);
      if actions[n - 1] == CallLock(t) {
        CallAlone(c, states[0], states[n - 1], states[n], t);
      } else {
        StampAlone(c, states[0], states[n - 1], states[n], t);
      }
    }
  }

  /** A first attempt and a retry ask every node, from the first on. */
  lemma AttemptsStart(c: Config, before: State, a: Action, s: State, t: Token)
    requires OfClients(before) && Step(c, before, a, s) && (a == Retry(t) || (a.Begin? && a.token == t))
    ensures Starts(s, t) && s.nodes == before.nodes && s.now == before.now && (a.Begin? ==> s.clients[t].key == a.key)
  {
  }

  /** A client alone is granted the key exactly when more than half of the nodes were free for it
      and the ttl exceeds the drift, and then for all of the ttl but the drift. */
  lemma GrantedAlone(c: Config, before: State, a: Action, states: seq<State>, actions: seq<Action>, t: Token, m: int, s': State)
    requires Sensible(c) && OfClients(before) && |before.nodes| == c.count
    requires Attempt(c, states, actions, t) && Step(c, before, a, states[0]) && (a == Retry(t) || (a.Begin? && a.token == t))
    requires Step(c, states[|states| - 1], Decide(t, m), s')
    ensures var free := Gains(c, states[0], t, c.count);
      s'.clients[t].phase ==
        if 2 * |free| > c.count && c.ttl > c.drift then Holding(before.now + c.ttl - c.drift, free) else Undoing(free.Keys)
  {
    var s := states[|states| - 1];
    AttemptsStart(c, before, a, states[0], t);
    AttemptAlone(c, states, actions, t, |actions|);
    DecidesExactly(c, s, t, m, s');
    hide Step;
    var free := s.clients[t].phase.got;
    if 2 * |free| > c.count {
      assert free.Keys != {} by { assert |free.Keys| == |free|; }
    }
  }

  // ------------------------------------------------------------------------- never stuck

  ghost predicate Below(keys: set<int>, n: int) { forall i :: i in keys ==> 0 <= i < n }

  /** A client only speaks of nodes there are. */
  ghost predicate Within(p: Phase, n: int) {
    match p
    case Acquiring(next, got) => 0 <= next <= n && Below(got.Keys, next)
    case Stamping(next, _, got) => 0 <= next < n && Below(got.Keys, next)
    case Undoing(left) => Below(left, n)
    case Holding(_, got) => Below(got.Keys, n)
    case Beating(_, got, left, renewed) => Below(got.Keys, n) && Below(left, n) && Below(renewed.Keys, n)
    case BeatStamping(_, got, left, node, _, renewed) =>
      Below(got.Keys, n) && Below(left, n) && Below(renewed.Keys, n) && 0 <= node < n
    case Releasing(next) => 0 <= next <= n
    case Finished => true
  }

  ghost predicate AllWithin(s: State) {
    forall t {:trigger s.clients[t]} :: t in s.clients ==> Within(s.clients[t].phase, |s.nodes|)
  }

  lemma ClientWithin(c: Config, s: State, a: Action, s': State, t: Token)
    requires AllWithin(s) && Step(c, s, a, s') && t in s'.clients
    ensures Within(s'.clients[t].phase, |s'.nodes|)
  {
    hide AfterLock, AfterUnlock, AfterHeartbeat, Clean;
    if t in s.clients { assert Within(s.clients[t].phase, |s.nodes|); }
  }

  lemma StepWithin(c: Config, s: State, a: Action, s': State)
    requires AllWithin(s) && Step(c, s, a, s')
    ensures AllWithin(s')
  {
    hide Step;
    forall t | t in s'.clients ensures Within(s'.clients[t].phase, |s'.nodes|) { ClientWithin(c, s, a, s', t); }
  }

  lemma {:induction false} RunWithin(c: Config, states: seq<State>, actions: seq<Action>, n: int)
    requires IsRun(c, states, actions) && 0 <= n < |states|
    ensures AllWithin(states[n])
    decreases n
  {
    if n > 0 {
      RunWithin(c, states, actions, n - 1);
      StepWithin(c, states[n - 1], actions[n - 1], states[n]);
    }
  }

  lemma AnyOf<T>(s: set<T>) returns (x: T)
    requires s != {}
    ensures x in s
  {
    x :| x in s;
  }

  lemma {:induction false} LeastOf(e: Expiries, keys: set<int>) returns (least: int)
    requires keys != {} && keys <= e.Keys
    ensures least in keys && forall i :: i in keys ==> e[least] <= e[i]
    decreases keys
  {
    least := AnyOf(keys);
    var rest := keys - {least};
    if rest != {} {
      var other := LeastOf(e, rest);
      if e[other] < e[least] { least := other; }
    }
  }

  lemma LeastStamp(e: Expiries) returns (m: int)
    ensures e != map[] ==> IsMin(e, m)
  {
    m := 0;
    if e.Keys != {} {
      var i := LeastOf(e, e.Keys);
      m := e[i];
    }
  }

  predicate MoveOf(a: Action, t: Token) { !a.Tick? && !a.CleanUp? && !a.Stop? && a.token == t }

  /** The client has let more time pass than the lag before it read its clock. */
  predicate Late(c: Config, p: Phase, now: int) {
    (p.Stamping? || p.BeatStamping?) && now - p.at > c.lag
  }

  /** In every state of every run a client that is not finished can go on, unless it is too late
      to read its clock. */
  lemma NeverStuck(c: Config, states: seq<State>, actions: seq<Action>, n: int, t: Token) returns (a: Action, s': State)
    requires IsRun(c, states, actions) && 0 <= n < |states| && t in states[n].clients
    requires !states[n].clients[t].phase.Finished? && !Late(c, states[n].clients[t].phase, states[n].now)
    ensures MoveOf(a, t) && Step(c, states[n], a, s')
  {
    RunWithin(c, states, actions, n);
    a, s' := NextMove(c, states[n], t);
  }

  lemma NextMove(c: Config, s: State, t: Token) returns (a: Action, s': State)
    requires t in s.clients && Within(s.clients[t].phase, |s.nodes|)
    requires !s.clients[t].phase.Finished? && !Late(c, s.clients[t].phase, s.now)
    ensures MoveOf(a, t) && Step(c, s, a, s')
  {
    match s.clients[t].phase
    case Acquiring(_, _) => a, s' := MoveAcquiring(c, s, t);
    case Stamping(next, _, got) =>
      a, s' := StampLock(t), Become(s, t, Acquiring(next + 1, got[next := s.now + c.ttl]));
    case Undoing(_) => a, s' := MoveUndoing(c, s, t);
    case Holding(_, _) => a, s' := BeginRelease(t), Become(s, t, Releasing(0));
    case Beating(_, _, _, _) => a, s' := MoveBeating(c, s, t);
    case BeatStamping(expiry, got, left, node, _, renewed) =>
      a, s' := StampBeat(t), Become(s, t, Beating(expiry, got, left, renewed[node := s.now + c.ttl]));
    case Releasing(_) => a, s' := MoveReleasing(c, s, t);
  }

  lemma MoveAcquiring(c: Config, s: State, t: Token) returns (a: Action, s': State)
    requires t in s.clients && s.clients[t].phase.Acquiring? && Within(s.clients[t].phase, |s.nodes|)
    ensures MoveOf(a, t) && Step(c, s, a, s')
  {
    var got, i := s.clients[t].phase.got, s.clients[t].phase.next;
    if i < |s.nodes| {
      var (n, err) := AfterLock(s.nodes[i], s.clients[t].key, t, c.ttl, s.now, c.maxReentrancy);
      a := CallLock(t);
      s' := Become(s.(nodes := s.nodes[i := n]), t, if err == NoError then Stamping(i, s.now, got) else Acquiring(i + 1, got));
    } else {
      var m := LeastStamp(got);
      a := Decide(t, m);
      s' := Become(s, t, if Granted(c, s.now, got, m) then Holding(m - c.drift, got) else Undoing(got.Keys));
    }
  }

  lemma MoveUndoing(c: Config, s: State, t: Token) returns (a: Action, s': State)
    requires t in s.clients && s.clients[t].phase.Undoing? && Within(s.clients[t].phase, |s.nodes|)
    ensures MoveOf(a, t) && Step(c, s, a, s')
  {
    var left := s.clients[t].phase.left;
    if left != {} {
      var i := AnyOf(left);
      a := Undo(t, i);
      s' := Become(s.(nodes := s.nodes[i := AfterUnlock(s.nodes[i], s.clients[t].key, t, s.now).0]), t, Undoing(left - {i}));
    } else {
      a, s' := GiveUp(t), Become(s, t, Finished);
    }
  }

  lemma MoveBeating(c: Config, s: State, t: Token) returns (a: Action, s': State)
    requires t in s.clients && s.clients[t].phase.Beating? && Within(s.clients[t].phase, |s.nodes|)
    ensures MoveOf(a, t) && Step(c, s, a, s')
  {
    var p := s.clients[t].phase;
    if p.left != {} {
      var i := AnyOf(p.left);
      var (n, err) := AfterHeartbeat(s.nodes[i], s.clients[t].key, t, c.ttl, s.now);
      a := CallBeat(t, i);
      s' := Become(s.(nodes := s.nodes[i := n]), t,
                   if err == NoError then BeatStamping(p.expiry, p.got, p.left - {i}, i, s.now, p.renewed)
                   else Beating(p.expiry, p.got, p.left - {i}, p.renewed));
    } else {
      var m := LeastStamp(p.renewed);
      a := DecideBeat(t, m);
      s' := Become(s, t, if Granted(c, s.now, p.renewed, m) then Holding(m - c.drift, p.renewed) else Holding(p.expiry, p.got));
    }
  }

  lemma MoveReleasing(c: Config, s: State, t: Token) returns (a: Action, s': State)
    requires t in s.clients && s.clients[t].phase.Releasing? && Within(s.clients[t].phase, |s.nodes|)
    ensures MoveOf(a, t) && Step(c, s, a, s')
  {
    var i := s.clients[t].phase.next;
    a := CallRelease(t);
    if i < |s.nodes| {
      s' := Become(s.(nodes := s.nodes[i := AfterUnlock(s.nodes[i], s.clients[t].key, t, s.now).0]), t, Releasing(i + 1));
    } else {
      s' := Become(s, t, Finished);
    }
  }
}
