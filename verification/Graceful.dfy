/** Drain on shutdown in internal/graceful: any number of BeginRequest and EndRequest callers,
    one atomic read, swap or locked check at a time, against a shutdown that stops accepting
    and then waits for the count of active requests to be seen at zero. */
module Graceful {

  type Caller = nat

  /** Where a caller is in BeginRequest, or after it. */
  datatype Phase =
    | Starting
    | Checked
    | Loaded(cur: int)
    | Counted
    | BackingOut
    | Admitted
    | Refused
    | Ended

  /** The manager's fields, its callers, and whether the wait has seen zero. */
  datatype State = State(accepting: bool, running: bool, active: int, callers: map<Caller, Phase>, stopped: bool, drained: bool)

  datatype Action =
    | Begin(c: Caller)
    | Check(c: Caller)
    | Load(c: Caller)
    | Swap(c: Caller)
    | Recheck(c: Caller)
    | TakeBack(c: Caller)
    | End(c: Caller)
    | LeaveRunning
    | StopAccepting
    | Poll

  ghost predicate Init(s: State) {
    s.active == 0 && s.callers == map[] && !s.stopped && !s.drained
  }

  ghost predicate In(s: State, c: Caller, p: Phase) { c in s.callers && s.callers[c] == p }

  function Move(s: State, c: Caller, p: Phase): State { s.(callers := s.callers[c := p]) }

  /** One step.  StopAccepting is phaseStopAccepting's locked write; Poll is a look of
      phaseWaitRequests, or of the loop before it, at the counter. */
  ghost predicate Step(s: State, a: Action, s': State) {
    match a
    case Begin(c) => c !in s.callers && s' == Move(s, c, Starting)
    case Check(c) => In(s, c, Starting) && s' == Move(s, c, if s.accepting && s.running then Checked else Refused)
    case Load(c) => In(s, c, Checked) && s' == Move(s, c, Loaded(s.active))
    case Swap(c) =>
      c in s.callers && s.callers[c].Loaded? &&
      s' == if s.active == s.callers[c].cur then Move(s, c, Counted).(active := s.active + 1) else Move(s, c, Starting)
    case Recheck(c) => In(s, c, Counted) && s' == Move(s, c, if s.accepting && s.running then Admitted else BackingOut)
    case TakeBack(c) => In(s, c, BackingOut) && s' == Move(s, c, Refused).(active := s.active - 1)
    case End(c) => In(s, c, Admitted) && s' == Move(s, c, Ended).(active := s.active - 1)
    case LeaveRunning => s' == s.(running := false)
    case StopAccepting => s' == s.(accepting := false, stopped := true)
    case Poll => s.stopped && s' == s.(drained := s.drained || s.active == 0)
  }

  /** Callers that the counter counts. */
  predicate Counts(p: Phase) { p.Counted? || p.BackingOut? || p.Admitted? }

  function Inside(callers: map<Caller, Phase>): set<Caller> { set c | c in callers && Counts(callers[c]) }

  /** The counter is exact; once it was seen at zero nobody is admitted. */
  ghost predicate Inv(s: State) {
    && s.active == |Inside(s.callers)|
    && (s.stopped ==> !s.accepting) && (s.drained ==> s.stopped)
    && (s.drained ==> NobodyAdmitted(s))
  }

  ghost predicate NobodyAdmitted(s: State) { forall c :: c in s.callers ==> !s.callers[c].Admitted? }

  lemma InsideMove(callers: map<Caller, Phase>, c: Caller, p: Phase)
    ensures var was := c in callers && Counts(callers[c]);
      |Inside(callers[c := p])| == |Inside(callers)| + (if Counts(p) then 1 else 0) - (if was then 1 else 0)
  {
    var a, b := Inside(callers), Inside(callers[c := p]);
    assert b == if Counts(p) then a + {c} else a - {c};
  }

  lemma NobodyInside(s: State)
    requires s.active == 0 == |Inside(s.callers)|
    ensures NobodyAdmitted(s)
  {
    assert Inside(s.callers) == {};
    forall c | c in s.callers ensures !s.callers[c].Admitted? {
      assert c !in Inside(s.callers);
    }
  }

  lemma {:induction false} StepKeeps(s: State, a: Action, s': State)
    requires Inv(s) && Step(s, a, s')
    ensures Inv(s') && (s.drained ==> s'.drained)
  {
    match a
    case Begin(c) => InsideMove(s.callers, c, Starting);
    case Check(c) => InsideMove(s.callers, c, s'.callers[c]);
    case Load(c) => InsideMove(s.callers, c, Loaded(s.active));
    case Swap(c) => InsideMove(s.callers, c, s'.callers[c]);
    case Recheck(c) => InsideMove(s.callers, c, s'.callers[c]);
    case TakeBack(c) => InsideMove(s.callers, c, Refused);
    case End(c) => InsideMove(s.callers, c, Ended);
    case LeaveRunning =>
    case StopAccepting =>
    case Poll => if s.active == 0 { NobodyInside(s); }
  }

  ghost predicate IsRun(states: seq<State>, actions: seq<Action>) {
    && |states| == |actions| + 1 && Init(states[0])
    && (forall i :: 0 <= i < |actions| ==> Step(states[i], actions[i], states[i + 1]))
  }

  lemma {:induction false} RunKeeps(states: seq<State>, actions: seq<Action>, n: nat)
    requires IsRun(states, actions) && n < |states|
    ensures Inv(states[n])
    decreases n
  {
    if n > 0 {
      RunKeeps(states, actions, n - 1);
      StepKeeps(states[n - 1], actions[n - 1], states[n]);
    } else {
      assert Inside(states[0].callers) == {};
    }
  }

  /** Once the wait has seen zero after accepting stopped, no admitted request is outstanding,
      then or ever later, however the callers interleave. */
  lemma {:induction false} Drained(states: seq<State>, actions: seq<Action>, n: nat, m: nat)
    requires IsRun(states, actions) && n <= m < |states| && states[n].drained
    ensures states[m].drained && NobodyAdmitted(states[m])
    decreases m - n
  {
    RunKeeps(states, actions, m);
    if n < m {
      Drained(states, actions, n, m - 1);
      RunKeeps(states, actions, m - 1);
      StepKeeps(states[m - 1], actions[m - 1], states[m]);
    }
  }

  /** In between, the counter never falls short of the requests that are being served. */
  lemma {:induction false} NeverUndercounted(states: seq<State>, actions: seq<Action>, n: nat)
    requires IsRun(states, actions) && n < |states|
    ensures states[n].active >= |Served(states[n].callers)|
  {
    RunKeeps(states, actions, n);
    Smaller(Served(states[n].callers), Inside(states[n].callers));
  }

  function Served(callers: map<Caller, Phase>): set<Caller> { set c | c in callers && callers[c].Admitted? }

  lemma {:induction false} Smaller(a: set<Caller>, b: set<Caller>)
    requires a <= b
    ensures |a| <= |b|
  {
    assert b == a + (b - a);
  }

  // ------------------------------------------------------------------------- admission

  predicate Turned(p: Phase) { p.BackingOut? || p.Refused? }

  predicate Open(s: State) { s.accepting && s.running }

  /** Nobody is refused before the manager stopped accepting or running. */
  lemma {:induction false} RefusedOnlyAfter(states: seq<State>, actions: seq<Action>, n: nat, c: Caller) returns (k: nat)
    requires IsRun(states, actions) && n < |states| && c in states[n].callers && Turned(states[n].callers[c])
    ensures k < n && !Open(states[k])
    decreases n
  {
    if n == 0 {
      assert false;
    } else {
      var s, a := states[n - 1], actions[n - 1];
      assert Step(s, a, states[n]);
      if c in s.callers && Turned(s.callers[c]) {
        k := RefusedOnlyAfter(states, actions, n - 1, c);
      } else {
        k := n - 1;
      }
    }
  }

  /** A newcomer that nobody disturbs is admitted and counted while the manager is open, and
      otherwise refused. */
  lemma AnsweredAlone(s: State, c: Caller) returns (path: seq<State>)
    requires c !in s.callers
    ensures Open(s) ==>
      && |path| == 6 && path[0] == s && Step(path[0], Begin(c), path[1]) && Step(path[1], Check(c), path[2])
      && Step(path[2], Load(c), path[3]) && Step(path[3], Swap(c), path[4]) && Step(path[4], Recheck(c), path[5])
      && In(path[5], c, Admitted) && path[5].active == s.active + 1
    ensures !Open(s) ==>
      && |path| == 3 && path[0] == s && Step(path[0], Begin(c), path[1]) && Step(path[1], Check(c), path[2])
      && In(path[2], c, Refused) && path[2].active == s.active
  {
    var s1 := Move(s, c, Starting);
    if Open(s) {
      var s2 := Move(s1, c, Checked);
      var s3 := Move(s2, c, Loaded(s.active));
      var s4 := Move(s3, c, Counted).(active := s.active + 1);
      path := [s, s1, s2, s3, s4, Move(s4, c, Admitted)];
    } else {
      path := [s, s1, Move(s1, c, Refused)];
    }
  }

  /** Once the manager stops accepting or running, nobody is admitted any more. */
  lemma {:induction false} NoneAfterStop(states: seq<State>, actions: seq<Action>, n: nat, m: nat)
    requires IsRun(states, actions) && n < m < |states| && (actions[n].StopAccepting? || actions[n].LeaveRunning?)
    ensures !Open(states[m]) && Served(states[m].callers) <= Served(states[n].callers)
    decreases m
  {
    assert Step(states[m - 1], actions[m - 1], states[m]);
    if n < m - 1 { NoneAfterStop(states, actions, n, m - 1); }
  }

  /** Polling sees that nobody is inside exactly when nobody is. */
  lemma PollSees(s: State, s': State)
    requires Inv(s) && !s.drained && Step(s, Poll, s')
    ensures s'.drained <==> forall c :: c in s.callers ==> !Counts(s.callers[c])
  {
    var inside := Inside(s.callers);
    if inside != {} {
      var c :| c in inside;
      assert c in s.callers && Counts(s.callers[c]);
    } else {
      forall c | c in s.callers ensures !Counts(s.callers[c]) { assert c !in inside; }
    }
  }
}
