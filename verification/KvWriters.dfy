/**
Writers of one key of the versioned store. Adding a secret is a read, an insert, a load of
the configuration and a prune, with no transaction around them: writers interleave between
any two of these statements, and a writer may fail at any of them.
*/
module KvWriters {
  import opened Wrappers
  import opened KvStore

  type Writer = nat

  datatype Progress =
    | HasRead(newest: Version)       // about to insert newest + 1
    | Inserted(version: Version)     // about to load the configuration
    | Loaded(version: Version, maxVersions: nat)

  // `unpruned` records that a writer failed after its insert and nobody has pruned since.
  datatype State = State(live: set<Version>, writers: map<Writer, Progress>, unpruned: bool)

  datatype Event =
    | Read(w: Writer)
    | Insert(w: Writer)
    | LoadConfig(w: Writer)
    | Prune(w: Writer)
    | Fail(w: Writer)

  const START := State({}, map[], false)

  predicate Enabled(s: State, e: Event) {
    match e
    case Read(w) => w !in s.writers
    case Insert(w) => w in s.writers && s.writers[w].HasRead?
    case LoadConfig(w) => w in s.writers && s.writers[w].Inserted?
    case Prune(w) => w in s.writers && s.writers[w].Loaded?
    case Fail(w) => w in s.writers
  }

  ghost function PrunedVersions(live: set<Version>, maxVersions: nat): set<Version> {
    set v | v in live && v > NewestOf(live) - maxVersions
  }

  ghost function Next(max: nat, s: State, e: Event): State
    requires Enabled(s, e)
  {
    match e
    case Read(w) => s.(writers := s.writers[w := HasRead(NewestOf(s.live))])
    case Insert(w) =>
      var v := s.writers[w].newest + 1;
      // The primary key refuses the version, and the request fails.
      if v in s.live then s.(writers := s.writers - {w})
      else s.(live := s.live + {v}, writers := s.writers[w := Inserted(v)])
    case LoadConfig(w) => s.(writers := s.writers[w := Loaded(s.writers[w].version, max)])
    case Prune(w) =>
      State(PrunedVersions(s.live, s.writers[w].maxVersions), s.writers - {w}, false)
    case Fail(w) => s.(writers := s.writers - {w}, unpruned := s.unpruned || !s.writers[w].HasRead?)
  }

  ghost function Run(max: nat, events: seq<Event>): Option<State> {
    if events == [] then Some(START)
    else
      var before := Run(max, events[..|events| - 1]);
      var e := events[|events| - 1];
      if before.Some? && Enabled(before.value, e) then Some(Next(max, before.value, e)) else None
  }

  // One statement of the machine is one statement of the store.
  lemma PruneIsPruned(rows: Rows, key: string, max: nat)
    ensures Versions(Pruned(rows, key, max), key) == PrunedVersions(Versions(rows, key), max)
  {
    forall v: Version ensures v in Versions(Pruned(rows, key, max), key) <==> v in PrunedVersions(Versions(rows, key), max) {
      InVersions(Pruned(rows, key, max), key, v);
      InVersions(rows, key, v);
    }
  }

  // ---------- The invariant ----------

  predicate InWindow(v: int, newest: Version, max: nat) {
    1 <= v <= newest && newest - max < v
  }

  predicate BetweenInsertAndPrune(s: State) {
    s.unpruned || exists w :: w in s.writers && !s.writers[w].HasRead?
  }

  ghost predicate WindowLive(max: nat, s: State) {
    forall v: Version :: InWindow(v, NewestOf(s.live), max) ==> v in s.live
  }

  ghost predicate Inv(max: nat, s: State) {
    && WindowLive(max, s)
    && (forall v | v in s.live :: 1 <= v <= NewestOf(s.live))
    && ((exists v :: v in s.live && v <= NewestOf(s.live) - max) ==> BetweenInsertAndPrune(s))
    && (forall w | w in s.writers ::
          match s.writers[w]
          case HasRead(newest) => newest <= NewestOf(s.live)
          case Inserted(version) => 1 <= version <= NewestOf(s.live)
          case Loaded(version, n) => 1 <= version <= NewestOf(s.live) && n == max)
  }

  lemma NewestAfterInsert(live: set<Version>, v: Version)
    requires 1 <= v <= NewestOf(live) + 1
    ensures NewestOf(live + {v}) == if v == NewestOf(live) + 1 then v else NewestOf(live)
  {
    var m := NewestOf(live);
    if v == m + 1 {
      NewestIs(live + {v}, v);
    } else {
      NewestIs(live + {v}, m);
    }
  }

  lemma NewestAfterPrune(live: set<Version>, max: nat)
    requires max >= 1
    ensures NewestOf(PrunedVersions(live, max)) == NewestOf(live)
  {
    NewestIs(PrunedVersions(live, max), NewestOf(live));
  }

  lemma StepInsert(max: nat, s: State, w: Writer)
    requires max >= 1 && Inv(max, s) && Enabled(s, Insert(w))
    ensures Inv(max, Next(max, s, Insert(w)))
    ensures NewestOf(s.live) <= NewestOf(Next(max, s, Insert(w)).live)
  {
    var s' := Next(max, s, Insert(w));
    var v := s.writers[w].newest + 1;
    if v in s.live {
      if BetweenInsertAndPrune(s) && !s.unpruned {
        var u :| u in s.writers && !s.writers[u].HasRead?;
        assert u in s'.writers && !s'.writers[u].HasRead?;
      }
    } else {
      NewestAfterInsert(s.live, v);
      assert w in s'.writers && !s'.writers[w].HasRead?;
    }
  }

  lemma StepPrune(max: nat, s: State, w: Writer)
    requires max >= 1 && Inv(max, s) && Enabled(s, Prune(w))
    ensures Inv(max, Next(max, s, Prune(w)))
    ensures NewestOf(Next(max, s, Prune(w)).live) == NewestOf(s.live)
  {
    NewestAfterPrune(s.live, max);
  }

  lemma StepOther(max: nat, s: State, e: Event)
    requires max >= 1 && Inv(max, s) && Enabled(s, e) && !e.Insert? && !e.Prune?
    ensures Inv(max, Next(max, s, e)) && Next(max, s, e).live == s.live
  {
    var s' := Next(max, s, e);
    if BetweenInsertAndPrune(s) && !s.unpruned {
      var u :| u in s.writers && !s.writers[u].HasRead?;
      assert s'.unpruned || (u in s'.writers && !s'.writers[u].HasRead?);
    }
  }

  lemma StepKeepsInv(max: nat, s: State, e: Event)
    requires max >= 1 && Inv(max, s) && Enabled(s, e)
    ensures Inv(max, Next(max, s, e))
    ensures NewestOf(s.live) <= NewestOf(Next(max, s, e).live)
  {
    match e
    case Insert(w) => StepInsert(max, s, w);
    case Prune(w) => StepPrune(max, s, w);
    case _ => StepOther(max, s, e);
  }

  lemma {:induction false} RunKeepsInv(max: nat, events: seq<Event>)
    requires max >= 1
    ensures Run(max, events).Some? ==> Inv(max, Run(max, events).value)
  {
    if events != [] {
      RunKeepsInv(max, events[..|events| - 1]);
      if Run(max, events).Some? {
        StepKeepsInv(max, Run(max, events[..|events| - 1]).value, events[|events| - 1]);
      }
    }
  }

  // ---------- Main results ----------

  // In every interleaving the newest `max` versions are live.
  lemma NewestVersionsLive(max: nat, events: seq<Event>)
    requires max >= 1 && Run(max, events).Some?
    ensures WindowLive(max, Run(max, events).value)
  {
    RunKeepsInv(max, events);
  }

  // Once no writer is between its insert and its prune, and none has failed there since the
  // last prune, nothing else is live.
  lemma QuietStoreHoldsTheWindow(max: nat, events: seq<Event>, v: Version)
    requires max >= 1 && Run(max, events).Some?
    requires !BetweenInsertAndPrune(Run(max, events).value)
    ensures var live := Run(max, events).value.live; v in live <==> InWindow(v, NewestOf(live), max)
  {
    RunKeepsInv(max, events);
  }

  lemma {:induction false} NewestNeverDecreases(max: nat, events: seq<Event>, more: seq<Event>)
    requires max >= 1 && Run(max, events + more).Some?
    ensures Run(max, events).Some?
    ensures NewestOf(Run(max, events).value.live) <= NewestOf(Run(max, events + more).value.live)
  {
    if more == [] {
      assert events + more == events;
    } else {
      var init := more[..|more| - 1];
      assert (events + more)[..|events + more| - 1] == events + init;
      NewestNeverDecreases(max, events, init);
      RunKeepsInv(max, events + init);
      StepKeepsInv(max, Run(max, events + init).value, more[|more| - 1]);
    }
  }

  // After its prune the version that a writer has inserted is live exactly if it is still
  // within the window, whoever else has pruned in between.
  lemma OwnPruneKeepsIff(max: nat, events: seq<Event>, w: Writer)
    requires max >= 1 && Run(max, events).Some? && Enabled(Run(max, events).value, Prune(w))
    ensures
      var s := Run(max, events).value;
      var v := s.writers[w].version;
      v in Next(max, s, Prune(w)).live <==> NewestOf(s.live) < v + max
  {
    RunKeepsInv(max, events);
  }

  // A slow writer: every one of its statements succeeds, and the version it inserts is gone.
  const SLOW_WRITER: seq<Event> :=
    [Read(0), Read(1), Insert(1), LoadConfig(1), Prune(1), Read(1), Insert(1), LoadConfig(1), Prune(1),
     Insert(0), LoadConfig(0), Prune(0)]

  lemma RunStep(events: seq<Event>, s: State, e: Event, s': State)
    requires Run(1, events) == Some(s) && Enabled(s, e) && Next(1, s, e) == s'
    ensures Run(1, events + [e]) == Some(s')
  {
    assert (events + [e])[..|events|] == events;
  }

  lemma OneWriterAdds(events: seq<Event>, s: State, v: Version)
    requires Run(1, events) == Some(s)
    requires s == State(if v == 0 then {} else {v}, map[0 := HasRead(0)], false)
    ensures Run(1, events + [Read(1), Insert(1), LoadConfig(1), Prune(1)]) == Some(s.(live := {v + 1}))
  {
    NewestIs(s.live, v);
    NewestIs(s.live + {v + 1}, v + 1);
    var s1 := s.(writers := map[0 := HasRead(0), 1 := HasRead(v)]);
    var s2 := State(s.live + {v + 1}, map[0 := HasRead(0), 1 := Inserted(v + 1)], false);
    var s3 := s2.(writers := map[0 := HasRead(0), 1 := Loaded(v + 1, 1)]);
    RunStep(events, s, Read(1), s1);
    RunStep(events + [Read(1)], s1, Insert(1), s2);
    RunStep(events + [Read(1)] + [Insert(1)], s2, LoadConfig(1), s3);
    assert PrunedVersions(s3.live, 1) == {v + 1};
    RunStep(events + [Read(1)] + [Insert(1)] + [LoadConfig(1)], s3, Prune(1), s.(live := {v + 1}));
    assert events + [Read(1), Insert(1), LoadConfig(1), Prune(1)]
        == events + [Read(1)] + [Insert(1)] + [LoadConfig(1)] + [Prune(1)];
  }

  lemma TwoWritersAhead()
    ensures Run(1, SLOW_WRITER[..9]) == Some(State({2}, map[0 := HasRead(0)], false))
  {
    var one := [Read(1), Insert(1), LoadConfig(1), Prune(1)];
    NewestIs({}, 0);
    RunStep([], START, Read(0), State({}, map[0 := HasRead(0)], false));
    assert [] + [Read(0)] == [Read(0)];
    OneWriterAdds([Read(0)], State({}, map[0 := HasRead(0)], false), 0);
    OneWriterAdds([Read(0)] + one, State({1}, map[0 := HasRead(0)], false), 1);
    assert SLOW_WRITER[..9] == [Read(0)] + one + one;
  }

  lemma SlowWriterLosesItsVersion()
    ensures Run(1, SLOW_WRITER[..11]) == Some(State({1, 2}, map[0 := Loaded(1, 1)], false))
    ensures Run(1, SLOW_WRITER) == Some(State({2}, map[], false))
  {
    var behind := SLOW_WRITER[..9];
    var s := State({2}, map[0 := HasRead(0)], false);
    var s1 := State({1, 2}, map[0 := Inserted(1)], false);
    var s2 := State({1, 2}, map[0 := Loaded(1, 1)], false);
    TwoWritersAhead();
    NewestIs({1, 2}, 2);
    RunStep(behind, s, Insert(0), s1);
    RunStep(behind + [Insert(0)], s1, LoadConfig(0), s2);
    assert PrunedVersions(s2.live, 1) == {2};
    RunStep(behind + [Insert(0)] + [LoadConfig(0)], s2, Prune(0), State({2}, map[], false));
    assert SLOW_WRITER[..11] == behind + [Insert(0)] + [LoadConfig(0)];
    assert SLOW_WRITER == behind + [Insert(0)] + [LoadConfig(0)] + [Prune(0)];
  }
}
