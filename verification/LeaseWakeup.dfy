/**
How the revocation worker goes to sleep: it reads the clock, pulls, peeks at the earliest
lease, reads the clock again, and then waits for a notification or for the earliest lease
to expire. Registrations, renewals and deletions happen between any two of these steps.
*/
module LeaseWakeup {
  import opened Wrappers
  import opened Leases

  datatype Worker =
    | Starting
    | Ready(now: Time)                            // has read the clock
    | PulledEmpty(now: Time)                      // the pull found nothing due
    | Peeked(now: Time, earliest: Option<Time>)   // knows the earliest expiry
    | Blocked(wake: Option<Time>)                 // sleeps; None: only a notification wakes it
    | Working

  // `registering` holds the leases that are stored but not yet announced; `permit` is a
  // notification nobody has received yet.
  datatype State = State(clock: Time, expiries: map<LeaseKey, Time>, permit: bool, registering: set<LeaseKey>, worker: Worker)

  datatype Event =
    | Tick(elapsed: nat)
    | RegisterInsert(key: LeaseKey, expiresAt: Time)
    | RegisterNotify(key: LeaseKey)
    | Rewrite(key: LeaseKey, expiresAt: Time)  // a renewal, or a failed revocation put off
    | Remove(key: LeaseKey)
    | ReadClock
    | Pull
    | Peek
    | Block
    | WakeByNotification
    | WakeByTimer
    | WorkDone

  function Start(clock: Time, expiries: map<LeaseKey, Time>): State {
    State(clock, expiries, false, {}, Starting)
  }

  predicate Enabled(s: State, e: Event) {
    match e
    case Tick(_) => true
    case RegisterInsert(key, _) => key !in s.expiries && key !in s.registering
    case RegisterNotify(key) => key in s.registering
    case Rewrite(key, _) => key in s.expiries
    case Remove(key) => key in s.expiries
    case ReadClock => s.worker.Starting?
    case Pull => s.worker.Ready?
    case Peek => s.worker.PulledEmpty?
    case Block => s.worker.Peeked?
    case WakeByNotification => s.worker.Blocked? && s.permit
    case WakeByTimer => s.worker.Blocked? && s.worker.wake.Some? && s.worker.wake.value <= s.clock
    case WorkDone => s.worker.Working?
  }

  ghost function EarliestOf(expiries: map<LeaseKey, Time>, keys: set<LeaseKey>): (r: Option<Time>)
    requires keys <= expiries.Keys
    ensures r.None? <==> keys == {}
    ensures r.Some? ==> (exists k :: k in keys && expiries[k] == r.value) && forall k | k in keys :: r.value <= expiries[k]
    decreases |keys|
  {
    if keys == {} then None
    else
      var k :| k in keys;
      var rest := EarliestOf(expiries, keys - {k});
      assert keys == (keys - {k}) + {k};
      if rest.Some? && rest.value < expiries[k] then rest else Some(expiries[k])
  }

  ghost function Next(s: State, e: Event): State
    requires Enabled(s, e)
  {
    match e
    case Tick(elapsed) => s.(clock := s.clock + elapsed)
    case RegisterInsert(key, expiresAt) =>
      s.(expiries := s.expiries[key := expiresAt], registering := s.registering + {key})
    case RegisterNotify(key) => s.(registering := s.registering - {key}, permit := true)
    case Rewrite(key, expiresAt) => s.(expiries := s.expiries[key := expiresAt])
    case Remove(key) => s.(expiries := s.expiries - {key})
    case ReadClock => s.(worker := Ready(s.clock))
    case Pull =>
      if exists k | k in s.expiries :: s.expiries[k] <= s.worker.now then s.(worker := Working)
      else s.(worker := PulledEmpty(s.worker.now))
    case Peek => s.(worker := Peeked(s.worker.now, EarliestOf(s.expiries, s.expiries.Keys)))
    case Block =>
      // A lease that has expired since the pull makes the duration negative, and the
      // conversion of a negative duration fails: nothing is left to wait for.
      var earliest := s.worker.earliest;
      s.(worker := Blocked(if earliest.Some? && earliest.value - s.clock >= 0 then earliest else None))
    case WakeByNotification => s.(permit := false, worker := Starting)
    case WakeByTimer => s.(worker := Starting)
    case WorkDone => s.(worker := Starting)
  }

  ghost function Run(start: State, events: seq<Event>): Option<State> {
    if events == [] then Some(start)
    else
      var before := Run(start, events[..|events| - 1]);
      var e := events[|events| - 1];
      if before.Some? && Enabled(before.value, e) then Some(Next(before.value, e)) else None
  }

  // ---------- What is to be shown ----------

  predicate NotificationPending(s: State) {
    s.permit || s.registering != {}
  }

  predicate NoLaterThanAny(t: Option<Time>, expiries: map<LeaseKey, Time>) {
    t.Some? && forall k | k in expiries :: t.value <= expiries[k]
  }

  // A sleeping worker has a notification on its way, or nothing to wait for, or wakes in
  // time for every lease.
  predicate SleepsSafely(s: State) {
    s.worker.Blocked? ==>
      NotificationPending(s) || s.expiries == map[] || NoLaterThanAny(s.worker.wake, s.expiries)
  }

  // The two things the design relies on: no time passes between the two clock reads of an
  // iteration, and no expiry is brought forward.
  predicate Careful(s: State, e: Event) {
    match e
    case Rewrite(_, _) => NotForward(s, e)
    case Block => s.worker.Peeked? && s.clock == s.worker.now
    case _ => true
  }

  predicate NotForward(s: State, e: Event) {
    e.Rewrite? ==> e.key in s.expiries && s.expiries[e.key] <= e.expiresAt
  }

  // The run can be taken, and each of its steps is as it should be.
  ghost predicate EachStep(ok: (State, Event) -> bool, start: State, events: seq<Event>) {
    events == [] ||
    (var before := events[..|events| - 1];
     var e := events[|events| - 1];
     EachStep(ok, start, before)
     && var s := Run(start, before);
        s.Some? && Enabled(s.value, e) && ok(s.value, e))
  }

  // The worker has slept safely in every state of the run.
  ghost predicate SafeThroughout(start: State, events: seq<Event>) {
    && (events == [] || SafeThroughout(start, events[..|events| - 1]))
    && var s := Run(start, events);
       s.Some? && SleepsSafely(s.value)
  }

  // ---------- The invariant ----------

  predicate Inv(s: State) {
    NotificationPending(s) ||
    match s.worker
    case PulledEmpty(now) => forall k | k in s.expiries :: now < s.expiries[k]
    case Peeked(now, earliest) =>
      s.expiries == map[] || (NoLaterThanAny(earliest, s.expiries) && now < earliest.value)
    case Blocked(wake) => s.expiries == map[] || NoLaterThanAny(wake, s.expiries)
    case _ => true
  }

  lemma StepKeepsInv(s: State, e: Event)
    requires Inv(s) && Enabled(s, e) && Careful(s, e)
    ensures Inv(Next(s, e))
  {
    var s' := Next(s, e);
    if e.RegisterInsert? {
      assert e.key in s'.registering;
    } else if e.Remove? && !NotificationPending(s) {
      assert s'.expiries.Keys <= s.expiries.Keys;
    } else if e.Peek? && !NotificationPending(s) && s.expiries != map[] {
      assert s.expiries.Keys != {};
    }
  }

  lemma {:induction false} CarefulRunKeepsInv(start: State, events: seq<Event>)
    requires Inv(start) && EachStep(Careful, start, events)
    ensures Run(start, events).Some? && Inv(Run(start, events).value)
  {
    if events != [] {
      var before := events[..|events| - 1];
      CarefulRunKeepsInv(start, before);
      StepKeepsInv(Run(start, before).value, events[|events| - 1]);
    }
  }

  // ---------- Main results ----------

  lemma NeverSleepsPastADueLease(clock: Time, expiries: map<LeaseKey, Time>, events: seq<Event>)
    requires EachStep(Careful, Start(clock, expiries), events)
    ensures var s := Run(Start(clock, expiries), events); s.Some? && SleepsSafely(s.value)
  {
    CarefulRunKeepsInv(Start(clock, expiries), events);
  }

  // When a lease is due while the worker sleeps safely, it can be woken at once or after a
  // registration under way has announced itself.
  lemma DueLeaseWakes(s: State, k: LeaseKey)
    requires SleepsSafely(s) && s.worker.Blocked? && k in s.expiries && s.expiries[k] <= s.clock
    ensures
      || Enabled(s, WakeByTimer) || Enabled(s, WakeByNotification)
      || exists j :: Enabled(s, RegisterNotify(j)) && Enabled(Next(s, RegisterNotify(j)), WakeByNotification)
  {
    if !Enabled(s, WakeByTimer) && !s.permit {
      var j :| j in s.registering;
      assert Enabled(s, RegisterNotify(j)) && Enabled(Next(s, RegisterNotify(j)), WakeByNotification);
    }
  }

  // The steps that matter to a sleeper: it goes to sleep before the earliest lease has
  // expired, knowing which one that is, and no lease is then brought forward past the wake-up.
  predicate Timely(s: State, e: Event) {
    NotificationPending(s) ||
    match e
    case Block =>
      s.expiries == map[] ||
      (s.worker.Peeked? && NoLaterThanAny(s.worker.earliest, s.expiries) && s.clock <= s.worker.earliest.value)
    case Rewrite(_, expiresAt) =>
      s.worker.Blocked? ==> s.worker.wake.Some? && s.worker.wake.value <= expiresAt
    case _ => true
  }

  lemma TimelyIff(s: State, e: Event)
    requires SleepsSafely(s) && Enabled(s, e)
    ensures SleepsSafely(Next(s, e)) <==> Timely(s, e)
  {
    var s' := Next(s, e);
    match e
    case RegisterInsert(key, _) => assert key in s'.registering;
    case RegisterNotify(_) => assert s'.permit;
    case Rewrite(key, expiresAt) => assert key in s'.expiries && s'.expiries[key] == expiresAt;
    case Remove(_) => assert s'.expiries.Keys <= s.expiries.Keys;
    case _ =>
  }

  // EXACTLY WHEN THE WORKER SLEEPS SAFELY, over all runs: it does so in every state of a run
  // if and only if every step of the run is timely.
  lemma {:induction false} SafeThroughoutIff(start: State, events: seq<Event>)
    requires Run(start, events).Some? && SleepsSafely(start)
    ensures SafeThroughout(start, events) <==> EachStep(Timely, start, events)
  {
    if events != [] {
      var before := events[..|events| - 1];
      SafeThroughoutIff(start, before);
      if SafeThroughout(start, before) {
        TimelyIff(Run(start, before).value, events[|events| - 1]);
      }
    }
  }

  // Going to sleep is punctual if the earliest lease known has not expired by then.
  predicate Punctual(s: State, e: Event) {
    e.Block? ==>
      || NotificationPending(s) || s.expiries == map[]
      || (s.worker.Peeked? && s.worker.earliest.Some? && s.clock <= s.worker.earliest.value)
  }

  lemma PunctualStep(s: State, e: Event)
    requires Inv(s) && Enabled(s, e) && NotForward(s, e)
    ensures Punctual(s, e) <==> Timely(s, e)
    ensures Punctual(s, e) ==> Inv(Next(s, e))
  {
    if e.Rewrite? && !NotificationPending(s) && s.worker.Blocked? {
      assert s.expiries != map[] by { assert e.key in s.expiries; }
    }
    if !e.Block? { StepKeepsInv(s, e); }
  }

  lemma {:induction false} PunctualRunIff(start: State, events: seq<Event>)
    requires Inv(start) && EachStep(NotForward, start, events)
    ensures EachStep(Punctual, start, events) <==> EachStep(Timely, start, events)
    ensures EachStep(Punctual, start, events) ==> Run(start, events).Some? && Inv(Run(start, events).value)
  {
    if events != [] {
      var before := events[..|events| - 1];
      PunctualRunIff(start, before);
      if EachStep(Punctual, start, before) {
        PunctualStep(Run(start, before).value, events[|events| - 1]);
      }
    }
  }

  // With any gaps between the clock reads, but no expiry brought forward, the worker sleeps
  // safely in every state of a run if and only if it never goes to sleep after the earliest
  // lease it knows has expired, unless a notification is pending or the store is empty.
  lemma SafeIffPunctual(clock: Time, expiries: map<LeaseKey, Time>, events: seq<Event>)
    requires EachStep(NotForward, Start(clock, expiries), events)
    ensures SafeThroughout(Start(clock, expiries), events) <==> EachStep(Punctual, Start(clock, expiries), events)
  {
    var start := Start(clock, expiries);
    EachStepRuns(NotForward, start, events);
    SafeThroughoutIff(start, events);
    PunctualRunIff(start, events);
  }

  lemma {:induction false} EachStepRuns(ok: (State, Event) -> bool, start: State, events: seq<Event>)
    requires EachStep(ok, start, events)
    ensures Run(start, events).Some?
  {}

  // A worker that goes to sleep as soon as it has peeked, and wakes for a single lease.
  lemma SleepsForOneLease(k: LeaseKey, due: Time)
    requires 0 < due
    ensures Run(Start(0, map[k := due]), [ReadClock, Pull, Peek]) == Some(State(0, map[k := due], false, {}, Peeked(0, Some(due))))
  {
    var rows := map[k := due];
    var start := Start(0, rows);
    RunSnoc(start, [], ReadClock);
    assert [] + [ReadClock] == [ReadClock];
    assert Run(start, [ReadClock]) == Some(start.(worker := Ready(0)));
    RunSnoc(start, [ReadClock], Pull);
    assert [ReadClock] + [Pull] == [ReadClock, Pull];
    assert Run(start, [ReadClock, Pull]) == Some(start.(worker := PulledEmpty(0)));
    RunSnoc(start, [ReadClock, Pull], Peek);
    assert [ReadClock, Pull] + [Peek] == [ReadClock, Pull, Peek];
    assert rows.Keys == {k};
  }

  // The lost wake-up: the only lease expires between the two clock reads, and the worker
  // waits for a notification that nobody owes it.
  lemma LostWakeup(k: LeaseKey)
    ensures
      var s := Run(Start(0, map[k := 1]), [ReadClock, Pull, Peek, Tick(2), Block]);
      s == Some(State(2, map[k := 1], false, {}, Blocked(None))) && !SleepsSafely(s.value)
  {
    var start, e := Start(0, map[k := 1]), [ReadClock, Pull, Peek];
    SleepsForOneLease(k, 1);
    RunSnoc(start, e, Tick(2));
    RunSnoc(start, e + [Tick(2)], Block);
    assert e + [Tick(2)] + [Block] == [ReadClock, Pull, Peek, Tick(2), Block];
    assert k in map[k := 1];
  }

  // A renewal for a shorter time is not announced: the worker sleeps past the lease, although
  // it read the clock in time.
  lemma ShortenedLease(k: LeaseKey)
    ensures
      var s := Run(Start(0, map[k := 10]), [ReadClock, Pull, Peek, Block, Rewrite(k, 5)]);
      s == Some(State(0, map[k := 5], false, {}, Blocked(Some(10)))) && !SleepsSafely(s.value)
  {
    var start, e := Start(0, map[k := 10]), [ReadClock, Pull, Peek];
    SleepsForOneLease(k, 10);
    RunSnoc(start, e, Block);
    RunSnoc(start, e + [Block], Rewrite(k, 5));
    assert e + [Block] + [Rewrite(k, 5)] == [ReadClock, Pull, Peek, Block, Rewrite(k, 5)];
    assert map[k := 10][k := 5] == map[k := 5];
    assert map[k := 5][k] == 5;
  }

  lemma RunSnoc(start: State, events: seq<Event>, e: Event)
    ensures
      var before := Run(start, events);
      Run(start, events + [e]) ==
        if before.Some? && Enabled(before.value, e) then Some(Next(before.value, e)) else None
  {
    assert (events + [e])[..|events|] == events;
  }
}
