/** The reusable barrier of internal/barrier.  Each method is one section under the mutex; the
    work a release leaves to do outside it (the callback, then one send per waiter) is a step
    of its own, so any other call may come in between. */
module Barrier {
  import opened Options

  /** What is sent on a waiter's channel, or returned. */
  datatype Result = Callback(error: Option<string>) | TimedOut | BarrierReset | Broken

  datatype Error = NoError | InvalidParticipants | ResetWhileWaiting

  datatype Arrival = Refused | Waits(id: nat) | Releases(release: nat)

  /** The waiters' channels and the releases under way: the waiters of a past release that have
      not been sent its result yet, the callback's result for each release once it has run, and
      what each channel was sent before it was closed. */
  datatype Channels = Channels(pending: map<nat, nat>, outcomes: seq<Option<Result>>, results: map<nat, Result>)

  /** Who waits, who was released by which release, and what was sent to whom. */
  datatype Ledger = Ledger(next: nat, waiters: set<nat>, pending: map<nat, nat>, results: map<nat, Result>, releases: nat)

  /** Every waiter is waiting, released, or has its one result. */
  ghost predicate Balanced(l: Ledger) {
    && (forall i: nat {:trigger Known(l, i)} :: i < l.next <==> Known(l, i))
    && l.waiters !! l.pending.Keys && l.waiters !! l.results.Keys && l.pending.Keys !! l.results.Keys
    && (forall i :: i in l.pending ==> l.pending[i] < l.releases)
  }

  predicate Known(l: Ledger, i: nat) { i in l.waiters || i in l.pending || i in l.results }

  lemma Joins(l: Ledger)
    requires Balanced(l)
    ensures !Known(l, l.next) && Balanced(l.(next := l.next + 1, waiters := l.waiters + {l.next}))
  {
    var l' := l.(next := l.next + 1, waiters := l.waiters + {l.next});
    assert !Known(l, l.next);
    forall i: nat ensures i < l'.next <==> Known(l', i) { assert i < l.next <==> Known(l, i); }
  }

  function Enlist(pending: map<nat, nat>, waiters: set<nat>, release: nat): map<nat, nat> {
    pending + (map i | i in waiters :: release)
  }

  function Release(l: Ledger): Ledger {
    l.(waiters := {}, pending := Enlist(l.pending, l.waiters, l.releases), releases := l.releases + 1)
  }

  lemma ReleaseBalances(l: Ledger)
    requires Balanced(l)
    ensures Balanced(Release(l)) && Release(l).pending.Keys == l.pending.Keys + l.waiters
    ensures forall i :: i in Release(l).pending ==> Release(l).pending[i] == if i in l.pending then l.pending[i] else l.releases
  {
    var l' := Release(l);
    forall i: nat ensures i < l'.next <==> Known(l', i) { assert i < l.next <==> Known(l, i); }
  }

  lemma Settles(l: Ledger, id: nat, r: Result)
    requires Balanced(l) && (id in l.waiters || id in l.pending)
    ensures id !in l.results && (id in l.waiters ==> l.pending - {id} == l.pending) && (id in l.pending ==> l.waiters - {id} == l.waiters)
    ensures Balanced(l.(waiters := l.waiters - {id}, pending := l.pending - {id}, results := l.results[id := r]))
  {
    var l' := l.(waiters := l.waiters - {id}, pending := l.pending - {id}, results := l.results[id := r]);
    forall i: nat ensures i < l'.next <==> Known(l', i) { assert i < l.next <==> Known(l, i); }
  }

  /** Everybody in ids, and nobody else, was sent r. */
  ghost predicate Sent(before: map<nat, Result>, ids: set<nat>, r: Result, after: map<nat, Result>) {
    && after.Keys == before.Keys + ids && before.Keys !! ids
    && (forall i :: i in ids ==> after[i] == r)
    && (forall i :: i in before ==> after[i] == before[i])
  }

  lemma SentNone(before: map<nat, Result>, r: Result)
    ensures Sent(before, {}, r, before)
  {
  }

  lemma SentOne(before: map<nat, Result>, ids: set<nat>, r: Result, after: map<nat, Result>, id: nat)
    requires Sent(before, ids, r, after) && id !in before && id !in ids
    ensures id !in after && Sent(before, ids + {id}, r, after[id := r])
  {
  }

  /** One send to each channel, none of which has had any. */
  method SendEach(before: map<nat, Result>, ids: set<nat>, r: Result) returns (after: map<nat, Result>)
    requires before.Keys !! ids
    ensures Sent(before, ids, r, after)
  {
    hide Sent;
    after := before;
    var rest := ids;
    ghost var done := {};
    SentNone(before, r);
    while rest != {}
      invariant rest !! done && rest + done == ids && Sent(before, done, r, after)
    {
      var id :| id in rest;
      SentOne(before, done, r, after, id);
      after, rest, done := after[id := r], rest - {id}, done + {id};
    }
    assert done == ids;
  }

  lemma SettlesAll(l: Ledger, r: Result, results: map<nat, Result>)
    requires Balanced(l) && Sent(l.results, l.waiters, r, results)
    ensures Balanced(l.(waiters := {}, results := results))
  {
    var l' := l.(waiters := {}, results := results);
    forall i: nat ensures i < l'.next <==> Known(l', i) { assert i < l.next <==> Known(l, i); }
  }

  // ------------------------------------------------------- what a release tells its waiters

  /** of gives the release of every waiter ever released: it waits for that release's outcome
      or has been sent it, and nobody else was sent an outcome. */
  ghost predicate Told(c: Channels, of: map<nat, nat>) {
    && (forall i {:trigger of[i]} :: i in of ==> ToldOne(c, i, of[i]))
    && (forall i :: i in c.pending ==> i in of)
    && (forall i :: i in c.results && c.results[i].Callback? ==> i in of)
  }

  predicate ToldOne(c: Channels, i: nat, release: nat) {
    && release < |c.outcomes|
    && ((i in c.pending && c.pending[i] == release) || (i in c.results && c.outcomes[release] == Some(c.results[i])))
  }

  /** Waiters of one release that have their answer have the same, the callback's. */
  lemma SameAnswer(c: Channels, of: map<nat, nat>, i: nat, j: nat)
    requires Told(c, of) && i in of && j in of && of[i] == of[j]
    requires i in c.results && j in c.results && i !in c.pending && j !in c.pending
    ensures c.results[i] == c.results[j] && c.outcomes[of[i]] == Some(c.results[i])
  {
    assert ToldOne(c, i, of[i]) && ToldOne(c, j, of[j]);
  }

  /** The channels with the waiters handed to a new release. */
  function Handed(c: Channels, waiters: set<nat>): Channels {
    c.(outcomes := c.outcomes + [None], pending := Enlist(c.pending, waiters, |c.outcomes|))
  }

  lemma ReleaseTells(c: Channels, of: map<nat, nat>, waiters: set<nat>)
    requires Told(c, of) && waiters !! c.pending.Keys && waiters !! c.results.Keys
    ensures Told(Handed(c, waiters), Enlist(of, waiters, |c.outcomes|))
  {
    var c' := Handed(c, waiters);
    var of' := Enlist(of, waiters, |c.outcomes|);
    forall i | i in of' ensures ToldOne(c', i, of'[i]) {
      if i !in waiters { assert ToldOne(c, i, of[i]); }
    }
  }

  lemma ReleaseKeeps(l: Ledger, c: Channels, of: map<nat, nat>)
    requires Balanced(l) && Told(c, of) && l == Ledger(l.next, l.waiters, c.pending, c.results, |c.outcomes|)
    ensures Balanced(Release(l)) && Told(Handed(c, l.waiters), Enlist(of, l.waiters, |c.outcomes|))
    ensures Release(l) == Ledger(l.next, {}, Handed(c, l.waiters).pending, c.results, |c.outcomes| + 1)
  {
    ReleaseBalances(l);
    ReleaseTells(c, of, l.waiters);
  }

  lemma OutcomeTells(c: Channels, of: map<nat, nat>, release: nat, r: Result)
    requires Told(c, of) && release < |c.outcomes| && c.outcomes[release] == None
    ensures Told(c.(outcomes := c.outcomes[release := Some(r)]), of)
  {
    var c' := c.(outcomes := c.outcomes[release := Some(r)]);
    forall i | i in of ensures ToldOne(c', i, of[i]) { assert ToldOne(c, i, of[i]); }
  }

  lemma DeliveryTells(c: Channels, of: map<nat, nat>, id: nat)
    requires Told(c, of) && id in c.pending && c.pending[id] < |c.outcomes| && c.outcomes[c.pending[id]].Some? && id !in c.results
    ensures Told(c.(pending := c.pending - {id}, results := c.results[id := c.outcomes[c.pending[id]].value]), of)
  {
    var c' := c.(pending := c.pending - {id}, results := c.results[id := c.outcomes[c.pending[id]].value]);
    forall i | i in of ensures ToldOne(c', i, of[i]) { assert ToldOne(c, i, of[i]); }
  }

  /** Answers to waiters that were not released change nothing for those that were. */
  lemma OthersTold(c: Channels, of: map<nat, nat>, ids: set<nat>, r: Result, results: map<nat, Result>)
    requires Told(c, of) && !r.Callback? && Sent(c.results, ids, r, results)
    ensures Told(c.(results := results), of)
  {
    var c' := c.(results := results);
    forall i | i in of ensures ToldOne(c', i, of[i]) { assert ToldOne(c, i, of[i]); }
  }

  lemma TimeoutTells(c: Channels, of: map<nat, nat>, id: nat)
    requires Told(c, of) && id !in c.results
    ensures Told(c.(results := c.results[id := TimedOut]), of)
  {
    var c' := c.(results := c.results[id := TimedOut]);
    forall i | i in of ensures ToldOne(c', i, of[i]) { assert ToldOne(c, i, of[i]); }
  }

  class Barrier {
    var participants: int
    var effectiveNeeded: int
    var arrived: int
    var waiting: int
    var generation: nat
    var broken: bool
    var released: bool
    var waiters: set<nat>
    var nextWaiterID: nat

    var channels: Channels

    /** Arrivals and timeouts of the current generation. */
    ghost var arrivals: int
    ghost var timeouts: int

    /** The release of every waiter ever released. */
    ghost var releaseOf: map<nat, nat>

    ghost predicate Counted()
      reads this
    {
      && arrived == waiting == |waiters|
      && 0 <= timeouts && arrivals == arrived + timeouts && arrivals < participants
      && effectiveNeeded == participants - timeouts
    }

    ghost function Books(): Ledger
      reads this`nextWaiterID, this`waiters, this`channels
    {
      Ledger(nextWaiterID, waiters, channels.pending, channels.results, |channels.outcomes|)
    }

    ghost predicate Valid()
      reads this
    {
      Counted() && Balanced(Books()) && Told(channels, releaseOf)
    }

    constructor (participants: int)
      requires participants > 0
      ensures Valid() && this.participants == participants && channels.results == map[] && !broken && arrivals == 0 && waiters == {}
    {
      this.participants, effectiveNeeded := participants, participants;
      arrived, waiting, generation, broken, released, waiters, nextWaiterID := 0, 0, 0, false, false, {}, 0;
      channels := Channels(map[], [], map[]);
      arrivals, timeouts, releaseOf := 0, 0, map[];
    }

    /** A send on a waiter's channel, which is then closed: a second one would panic. */
    method Send(id: nat, r: Result)
      requires id !in channels.results
      modifies this`channels
      ensures channels == old(channels).(results := old(channels.results)[id := r])
    {
      channels := channels.(results := channels.results[id := r]);
    }

    /** Wait up to the point where it blocks or leaves to run the callback.  The release comes
        with the last of the generation's participants, however many have timed out. */
    method Arrive() returns (r: Arrival)
      requires Valid()
      modifies this
      ensures Valid() && channels.results == old(channels.results) && participants == old(participants) && broken == old(broken)
      ensures r.Refused? <==> broken
      ensures r.Refused? ==> Books() == old(Books())
      ensures r.Waits? <==> !broken && old(arrivals) + 1 < participants
      ensures r.Waits? ==> r.id == old(nextWaiterID) && waiters == old(waiters) + {r.id} && arrivals == old(arrivals) + 1
      ensures r.Releases? <==> !broken && old(arrivals) + 1 == participants
      ensures r.Releases? ==>
        && generation == old(generation) + 1 && arrivals == 0 && timeouts == 0
        && r.release == |old(channels.outcomes)| && channels.outcomes == old(channels.outcomes) + [None]
        && Books() == Release(old(Books()).(next := old(nextWaiterID) + 1, waiters := old(waiters) + {old(nextWaiterID)}))
        && |old(waiters) + {old(nextWaiterID)}| == participants - old(timeouts)
        && releaseOf == Enlist(old(releaseOf), old(waiters) + {old(nextWaiterID)}, r.release)
      ensures !r.Releases? ==> releaseOf == old(releaseOf)
    {
      hide Balanced, Enlist, Told;
      if broken { return Refused; }
      released := false;
      var id := nextWaiterID;
      Joins(Books());
      nextWaiterID := nextWaiterID + 1;
      waiters := waiters + {id};
      arrived, waiting, arrivals := arrived + 1, waiting + 1, arrivals + 1;
      if arrived >= effectiveNeeded {
        Transition();
        return Arrival.Releases(|channels.outcomes| - 1);
      }
      return Waits(id);
    }

    /** snapshotAndTransitionLocked: the waiters become the new release's. */
    method Transition()
      requires Balanced(Books()) && Told(channels, releaseOf) && arrived == waiting == |waiters| && participants > 0
      modifies this
      ensures releaseOf == Enlist(old(releaseOf), old(waiters), |old(channels.outcomes)|)
      ensures Valid() && channels.results == old(channels.results) && participants == old(participants) && broken == old(broken)
      ensures generation == old(generation) + 1 && arrivals == 0 && timeouts == 0 && released
      ensures channels.outcomes == old(channels.outcomes) + [None] && Books() == Release(old(Books()))
    {
      hide Balanced, Enlist, Told, Known, Sent, Release;
      ReleaseKeeps(Books(), channels, releaseOf);
      releaseOf := Enlist(releaseOf, waiters, |channels.outcomes|);
      channels := Handed(channels, waiters);
      waiters, generation, released := {}, generation + 1, true;
      StartOver();
    }

    /** The callback of a release, run once and outside the lock. */
    method RunCallback(release: nat, error: Option<string>)
      requires Valid() && release < |channels.outcomes| && channels.outcomes[release] == None
      modifies this`channels
      ensures Valid() && channels == old(channels).(outcomes := old(channels.outcomes)[release := Some(Callback(error))])
    {
      OutcomeTells(channels, releaseOf, release, Callback(error));
      channels := channels.(outcomes := channels.outcomes[release := Some(Callback(error))]);
    }

    /** The send to one waiter of a release whose callback has run. */
    method Deliver(id: nat)
      requires Valid() && id in channels.pending && channels.outcomes[channels.pending[id]].Some?
      modifies this`channels
      ensures Valid() && id !in old(channels.results)
      ensures channels == old(channels).(pending := old(channels.pending) - {id},
                                         results := old(channels.results)[id := old(channels.outcomes[channels.pending[id]]).value])
    {
      hide Known, Told;
      Settles(Books(), id, channels.outcomes[channels.pending[id]].value);
      DeliveryTells(channels, releaseOf, id);
      Send(id, channels.outcomes[channels.pending[id]].value);
      channels := channels.(pending := channels.pending - {id});
    }

    /** The timer of a waiter that arrived in the given generation goes off.  It never finds
        enough waiters left to release, nor does the number needed fall to nothing. */
    method Fire(id: nat, gen: nat)
      requires Valid()
      modifies this
      ensures Valid() && generation == old(generation) && participants == old(participants) && broken == old(broken)
      ensures arrivals == old(arrivals) && channels.outcomes == old(channels.outcomes) && releaseOf == old(releaseOf)
      ensures if old(generation) == gen && id in old(waiters)
              then Books() == old(Books()).(waiters := old(waiters) - {id}, results := old(channels.results)[id := TimedOut]) &&
                   timeouts == old(timeouts) + 1
              else Books() == old(Books()) && timeouts == old(timeouts)
    {
      hide Balanced, Told, Known, Sent, Enlist, Release;
      if generation != gen { return; }
      if id !in waiters { return; }
      Settles(Books(), id, TimedOut);
      TimeoutTells(channels, releaseOf, id);
      waiters := waiters - {id};
      arrived, waiting, effectiveNeeded, timeouts := arrived - 1, waiting - 1, effectiveNeeded - 1, timeouts + 1;
      if effectiveNeeded <= 0 { assert false; }
      Send(id, TimedOut);
      if arrived >= effectiveNeeded && arrived > 0 { assert false; }
    }

    /** Sends one result to everybody who waits. */
    method SendAll(r: Result)
      requires Balanced(Books()) && Told(channels, releaseOf) && !r.Callback?
      modifies this`waiters, this`channels
      ensures Balanced(Books()) && Told(channels, releaseOf) && waiters == {} && channels == old(channels).(results := channels.results)
      ensures Sent(old(channels.results), old(waiters), r, channels.results)
    {
      var results := SendEach(channels.results, waiters, r);
      SettlesAll(Books(), r, results);
      OthersTold(channels, releaseOf, waiters, r, results);
      channels, waiters := channels.(results := results), {};
    }

    /** Everybody who waits is sent the result, and the counts start again. */
    method Dismiss(r: Result)
      requires Balanced(Books()) && Told(channels, releaseOf) && !r.Callback? && waiting == arrived && participants > 0
      modifies this`waiters, this`channels, this`waiting, this`arrived, this`effectiveNeeded, this`arrivals, this`timeouts
      ensures Valid() && waiters == {} && arrivals == 0 && channels == old(channels).(results := channels.results)
      ensures Sent(old(channels.results), old(waiters), r, channels.results)
    {
      hide Balanced, Sent, Told;
      SendAll(r);
      StartOver();
    }

    method Break()
      requires Valid()
      modifies this
      ensures Valid() && broken && waiters == {} && arrivals == 0 && releaseOf == old(releaseOf) && channels == old(channels).(results := channels.results)
      ensures Sent(old(channels.results), old(waiters), Broken, channels.results)
    {
      hide Balanced, Sent, Told;
      broken, released, generation := true, false, generation + 1;
      Dismiss(Result.Broken);
    }

    /** Nobody waits any more. */
    method StartOver()
      requires waiters == {} && waiting == arrived && participants > 0
      modifies this`waiting, this`arrived, this`effectiveNeeded, this`arrivals, this`timeouts
      ensures Counted() && arrivals == 0 && timeouts == 0
    {
      waiting := waiting - arrived;
      arrived, effectiveNeeded, arrivals, timeouts := 0, participants, 0, 0;
    }

    /** Refused while anyone waits; otherwise a fresh generation, perhaps of another size. */
    method Reset(newParticipants: Option<int>) returns (err: Error)
      requires Valid()
      modifies this
      ensures Valid() && Books() == old(Books()) && channels == old(channels) && releaseOf == old(releaseOf)
      ensures err == (if old(waiters) != {} then ResetWhileWaiting
                      else if newParticipants.Some? && newParticipants.value <= 0 then InvalidParticipants else NoError)
      ensures err == NoError ==>
        && !broken && arrivals == 0
        && participants == if newParticipants.Some? then newParticipants.value else old(participants)
      ensures err != NoError ==> participants == old(participants) && broken == old(broken) && arrivals == old(arrivals)
    {
      hide Balanced, Told;
      if waiting > 0 { return ResetWhileWaiting; }
      if newParticipants.Some? {
        if newParticipants.value <= 0 { return InvalidParticipants; }
        participants := newParticipants.value;
      }
      effectiveNeeded, generation, arrived, broken, released := participants, generation + 1, 0, false, false;
      arrivals, timeouts := 0, 0;
      return NoError;
    }

    method ForceReset(newParticipants: Option<int>) returns (err: Error)
      requires Valid()
      modifies this
      ensures Valid() && channels == old(channels).(results := channels.results) && releaseOf == old(releaseOf)
      ensures err == if newParticipants.Some? && newParticipants.value <= 0 then InvalidParticipants else NoError
      ensures err != NoError ==> channels.results == old(channels.results) && waiters == old(waiters) && participants == old(participants)
      ensures err == NoError ==>
        && !broken && waiters == {} && arrivals == 0 && Sent(old(channels.results), old(waiters), BarrierReset, channels.results)
        && participants == if newParticipants.Some? then newParticipants.value else old(participants)
    {
      hide Balanced, Sent, Told;
      if newParticipants.Some? {
        if newParticipants.value <= 0 { return InvalidParticipants; }
        participants := newParticipants.value;
      }
      effectiveNeeded, generation := participants, generation + 1;
      Dismiss(BarrierReset);
      broken, released := false, false;
      return NoError;
    }
  }

  method New(participants: int) returns (b: Barrier?, err: Error)
    ensures err == if participants <= 0 then InvalidParticipants else NoError
    ensures b == null <==> err != NoError
    ensures b != null ==> fresh(b) && b.Valid() && b.participants == participants && b.waiters == {} && b.arrivals == 0 && !b.broken
  {
    if participants <= 0 { return null, InvalidParticipants; }
    b := new Barrier(participants);
    err := NoError;
  }
}
