/**
Leases under concurrency. Every statement on the lease table, every answer of a backend and
every clock read is one atomic step; registrations, renewals, manual revocations, mount
revocations and the worker interleave in any order, each working on the copy of the row
that it once read.
*/
module LeaseProtocol {
  import opened Wrappers
  import opened Leases

  type Op = nat

  // `delta` bounds the time between the two clock reads of a renewal.
  datatype Params = Params(configs: map<string, MountConfig>, maxRetries: nat, retryTimeout: nat, delta: nat)

  datatype Revocation =
    | Snapshotted(key: LeaseKey, lease: Lease)
    | Answered(key: LeaseKey, lease: Lease, ok: bool)

  datatype Renewal =
    | Looked(key: LeaseKey, lease: Lease)
    | Computed(key: LeaseKey, lease: Lease, at: Time, ttl: nat)
    | Stamped(key: LeaseKey, lease: Lease, expiresAt: Time, at: Time)

  // `inserted` and `answers` are the history: the keys ever stored, and what the backend
  // answered to the one revoke request of each revocation.
  datatype State = State(
    clock: Time,
    rows: Rows,
    creating: map<Op, (LeaseKey, Lease)>,
    revocations: map<Op, Revocation>,
    renewals: map<Op, Renewal>,
    inserted: set<LeaseKey>,
    answers: map<Op, (LeaseKey, bool)>
  )

  datatype Event =
    | Tick(elapsed: nat)
    | Register(op: Op, key: LeaseKey, mountPath: string, requested: Option<nat>)
    | RegisterInsert(op: Op)
    | RegisterFails(op: Op)
    | RevokeStart(op: Op, key: LeaseKey)
    | BackendAnswers(op: Op, ok: bool)
    | RevokeStore(op: Op)
    | RevokeStoreFails(op: Op)
    | RenewLookup(op: Op, key: LeaseKey)
    | RenewCompute(op: Op, backendTtl: nat)
    | RenewStamp(op: Op)
    | RenewStore(op: Op)
    | RenewFails(op: Op)

  function Start(clock: Time): State {
    State(clock, map[], map[], map[], map[], {}, map[])
  }

  predicate FreshKey(s: State, k: LeaseKey) {
    k !in s.inserted && forall o | o in s.creating :: s.creating[o].0 != k
  }

  predicate Enabled(p: Params, s: State, e: Event) {
    match e
    case Tick(_) => true
    case Register(op, key, mountPath, _) => op !in s.creating && FreshKey(s, key) && mountPath in p.configs
    case RegisterInsert(op) => op in s.creating
    case RegisterFails(op) => op in s.creating
    case RevokeStart(op, key) => op !in s.revocations && op !in s.answers && key in s.rows
    case BackendAnswers(op, _) => op in s.revocations && s.revocations[op].Snapshotted?
    case RevokeStore(op) => op in s.revocations && s.revocations[op].Answered?
    case RevokeStoreFails(op) => op in s.revocations && s.revocations[op].Answered?
    case RenewLookup(op, key) => op !in s.renewals && key in s.rows
    case RenewCompute(op, _) => op in s.renewals && s.renewals[op].Looked? && s.renewals[op].lease.issuedMountPath in p.configs
    case RenewStamp(op) => op in s.renewals && s.renewals[op].Computed? && s.clock - s.renewals[op].at <= p.delta
    case RenewStore(op) => op in s.renewals && s.renewals[op].Stamped?
    case RenewFails(op) => op in s.renewals
  }

  function Next(p: Params, s: State, e: Event): State
    requires Enabled(p, s, e)
  {
    match e
    case Tick(elapsed) => s.(clock := s.clock + elapsed)
    case Register(op, key, mountPath, requested) =>
      var ttl := CalculateTtl(s.clock, s.clock, p.configs[mountPath], requested);
      s.(creating := s.creating[op := (key, NewLease(mountPath, s.clock, ttl))])
    case RegisterInsert(op) =>
      var (key, lease) := s.creating[op];
      s.(rows := s.rows[key := lease], creating := s.creating - {op}, inserted := s.inserted + {key})
    case RegisterFails(op) => s.(creating := s.creating - {op})
    case RevokeStart(op, key) => s.(revocations := s.revocations[op := Snapshotted(key, s.rows[key])])
    case BackendAnswers(op, ok) =>
      var r := s.revocations[op];
      s.(revocations := s.revocations[op := Answered(r.key, r.lease, ok)], answers := s.answers[op := (r.key, ok)])
    case RevokeStore(op) =>
      var r := s.revocations[op];
      s.(rows := Revoked(s.rows, r.key, r.lease, r.ok, p.maxRetries, p.retryTimeout), revocations := s.revocations - {op})
    case RevokeStoreFails(op) => s.(revocations := s.revocations - {op})
    case RenewLookup(op, key) => s.(renewals := s.renewals[op := Looked(key, s.rows[key])])
    case RenewCompute(op, backendTtl) =>
      var r := s.renewals[op];
      var ttl := CalculateTtl(s.clock, r.lease.issuedAt, p.configs[r.lease.issuedMountPath], Some(backendTtl));
      s.(renewals := s.renewals[op := Computed(r.key, r.lease, s.clock, ttl)])
    case RenewStamp(op) =>
      var r := s.renewals[op];
      s.(renewals := s.renewals[op := Stamped(r.key, r.lease, s.clock + r.ttl, s.clock)])
    case RenewStore(op) =>
      var r := s.renewals[op];
      s.(rows := Renewed(s.rows, r.key, r.expiresAt, r.at), renewals := s.renewals - {op})
    case RenewFails(op) => s.(renewals := s.renewals - {op})
  }

  // The state after a run, if each of its steps was enabled.
  function Run(p: Params, clock: Time, events: seq<Event>): Option<State> {
    if events == [] then Some(Start(clock))
    else
      var before := Run(p, clock, events[..|events| - 1]);
      var e := events[|events| - 1];
      if before.Some? && Enabled(p, before.value, e) then Some(Next(p, before.value, e)) else None
  }

  // ---------- What is to be shown ----------

  function Lifetime(p: Params, clock: Time, le: Lease): Time
    requires le.issuedMountPath in p.configs
  {
    Max(clock, le.issuedAt + p.configs[le.issuedMountPath].maxLeaseTtl + p.delta) + le.failedAttempts * p.retryTimeout
  }

  ghost function Failed(s: State, k: LeaseKey): set<Op> {
    set o | o in s.answers && s.answers[o] == (k, false)
  }

  ghost predicate Justified(p: Params, s: State, k: LeaseKey) {
    (exists o :: o in s.answers && s.answers[o] == (k, true)) || |Failed(s, k)| >= p.maxRetries
  }

  // ---------- The invariant ----------

  // The failed requests whose outcome has reached the table, or failed to.
  ghost function Done(s: State, k: LeaseKey): set<Op> {
    set o | o in s.answers && o !in s.revocations && s.answers[o] == (k, false)
  }

  predicate SameLease(a: Lease, b: Lease) {
    a.issuedMountPath == b.issuedMountPath && a.issuedAt == b.issuedAt
  }

  // A copy of the row of k, however old.
  ghost predicate Copy(p: Params, s: State, k: LeaseKey, le: Lease) {
    && k in s.inserted
    && le.issuedMountPath in p.configs
    && le.expiresAt <= Lifetime(p, s.clock, le)
    && le.failedAttempts <= |Done(s, k)|
    && (k in s.rows ==> SameLease(le, s.rows[k]) && le.failedAttempts <= s.rows[k].failedAttempts)
  }

  ghost predicate RowsOk(p: Params, s: State) {
    forall k | k in s.rows :: Copy(p, s, k, s.rows[k])
  }

  ghost predicate RevocationOk(p: Params, s: State, o: Op, r: Revocation) {
    && Copy(p, s, r.key, r.lease)
    && (r.Snapshotted? ==> o !in s.answers)
    && (r.Answered? ==> o in s.answers && s.answers[o] == (r.key, r.ok))
  }

  ghost predicate RevocationsOk(p: Params, s: State) {
    forall o | o in s.revocations :: RevocationOk(p, s, o, s.revocations[o])
  }

  predicate RenewalOk(p: Params, s: State, r: Renewal) {
    var le := r.lease;
    && r.key in s.inserted
    && le.issuedMountPath in p.configs
    && (r.key in s.rows ==> SameLease(le, s.rows[r.key]))
    && var end := le.issuedAt + p.configs[le.issuedMountPath].maxLeaseTtl;
       match r
       case Looked(_, _) => true
       case Computed(_, _, at, ttl) => at <= s.clock && at + ttl <= Max(at, end)
       case Stamped(_, _, expiresAt, _) => expiresAt <= Max(s.clock, end + p.delta)
  }

  predicate RenewalsOk(p: Params, s: State) {
    forall o | o in s.renewals :: RenewalOk(p, s, s.renewals[o])
  }

  predicate NewOk(p: Params, s: State, k: LeaseKey, le: Lease) {
    && k !in s.inserted
    && le.issuedMountPath in p.configs
    && le.failedAttempts == 0
    && le.expiresAt <= Lifetime(p, s.clock, le)
  }

  predicate CreatingOk(p: Params, s: State) {
    && (forall o | o in s.creating :: NewOk(p, s, s.creating[o].0, s.creating[o].1))
    && (forall o, o' | o in s.creating && o' in s.creating && o != o' :: s.creating[o].0 != s.creating[o'].0)
  }

  ghost predicate GoneOk(p: Params, s: State) {
    forall k | k in s.inserted && k !in s.rows :: Justified(p, s, k)
  }

  ghost predicate Inv(p: Params, s: State) {
    RowsOk(p, s) && RevocationsOk(p, s) && RenewalsOk(p, s) && CreatingOk(p, s) && GoneOk(p, s)
  }

  // ---------- Every step keeps it ----------

  // How a state may change as far as old copies are concerned.
  ghost predicate Evolves(s: State, s': State) {
    && s.clock <= s'.clock
    && s.inserted <= s'.inserted
    && (forall k :: Done(s, k) <= Done(s', k))
    && (forall k | k in s'.rows && k in s.inserted ::
          k in s.rows && SameLease(s.rows[k], s'.rows[k]) && s.rows[k].failedAttempts <= s'.rows[k].failedAttempts)
  }

  lemma {:induction false} SubsetSize<T>(a: set<T>, b: set<T>)
    requires a <= b
    ensures |a| <= |b|
  {
    assert b == a + (b - a);
  }

  lemma CopyEvolves(p: Params, s: State, s': State, k: LeaseKey, le: Lease)
    requires Copy(p, s, k, le) && Evolves(s, s')
    ensures Copy(p, s', k, le)
  {
    SubsetSize(Done(s, k), Done(s', k));
  }

  lemma EvolvesKeepsCopies(p: Params, s: State, s': State)
    requires Inv(p, s) && Evolves(s, s')
    ensures forall k | k in s.rows :: Copy(p, s', k, s.rows[k])
    ensures forall o | o in s.revocations :: Copy(p, s', s.revocations[o].key, s.revocations[o].lease)
    ensures forall o | o in s.renewals :: RenewalOk(p, s', s.renewals[o])
  {
    forall k | k in s.rows ensures Copy(p, s', k, s.rows[k]) {
      CopyEvolves(p, s, s', k, s.rows[k]);
    }
    forall o | o in s.revocations ensures Copy(p, s', s.revocations[o].key, s.revocations[o].lease) {
      assert RevocationOk(p, s, o, s.revocations[o]);
      CopyEvolves(p, s, s', s.revocations[o].key, s.revocations[o].lease);
    }
    forall o | o in s.renewals ensures RenewalOk(p, s', s.renewals[o]) {
      assert RenewalOk(p, s, s.renewals[o]);
    }
  }

  lemma JustifiedStays(p: Params, s: State, s': State, k: LeaseKey)
    requires Justified(p, s, k)
    requires forall o | o in s.answers :: o in s'.answers && s'.answers[o] == s.answers[o]
    ensures Justified(p, s', k)
  {
    SubsetSize(Failed(s, k), Failed(s', k));
    if o :| o in s.answers && s.answers[o] == (k, true) {
      assert o in s'.answers && s'.answers[o] == (k, true);
    }
  }

  lemma GoneStays(p: Params, s: State, s': State)
    requires GoneOk(p, s)
    requires forall o | o in s.answers :: o in s'.answers && s'.answers[o] == s.answers[o]
    requires forall k | k in s'.inserted && k !in s'.rows :: k in s.inserted && k !in s.rows
    ensures GoneOk(p, s')
  {
    forall k | k in s'.inserted && k !in s'.rows ensures Justified(p, s', k) {
      JustifiedStays(p, s, s', k);
    }
  }

  lemma StepRegister(p: Params, s: State, e: Event)
    requires Inv(p, s) && e.Register? && Enabled(p, s, e)
    ensures Inv(p, Next(p, s, e))
  {
    var s' := Next(p, s, e);
    assert Evolves(s, s');
    EvolvesKeepsCopies(p, s, s');
    GoneStays(p, s, s');
  }

  lemma StepRegisterInsert(p: Params, s: State, e: Event)
    requires Inv(p, s) && e.RegisterInsert? && Enabled(p, s, e)
    ensures Inv(p, Next(p, s, e))
  {
    var s' := Next(p, s, e);
    assert Evolves(s, s');
    EvolvesKeepsCopies(p, s, s');
    GoneStays(p, s, s');
  }

  lemma StepClock(p: Params, s: State, e: Event)
    requires Inv(p, s) && (e.Tick? || e.RegisterFails?) && Enabled(p, s, e)
    ensures Inv(p, Next(p, s, e))
  {
    var s' := Next(p, s, e);
    assert Evolves(s, s');
    EvolvesKeepsCopies(p, s, s');
    GoneStays(p, s, s');
  }

  lemma StepRevocation(p: Params, s: State, e: Event)
    requires Inv(p, s) && (e.RevokeStart? || e.RevokeStoreFails?) && Enabled(p, s, e)
    ensures Inv(p, Next(p, s, e))
  {
    var s' := Next(p, s, e);
    assert Evolves(s, s');
    EvolvesKeepsCopies(p, s, s');
    GoneStays(p, s, s');
  }

  // Steps of a renewal before it writes.
  lemma OnlyRenewals(p: Params, s: State, s': State)
    requires Inv(p, s) && s' == s.(renewals := s'.renewals) && RenewalsOk(p, s')
    ensures Inv(p, s')
  {
    assert Evolves(s, s');
    EvolvesKeepsCopies(p, s, s');
    GoneStays(p, s, s');
  }

  lemma RenewalStepOk(p: Params, s: State, e: Event)
    requires Inv(p, s) && Enabled(p, s, e)
    requires e.RenewLookup? || e.RenewCompute? || e.RenewStamp? || e.RenewFails?
    ensures RenewalsOk(p, Next(p, s, e))
  {
    if e.RenewLookup? {
      assert Copy(p, s, e.key, s.rows[e.key]);
    } else {
      assert RenewalOk(p, s, s.renewals[e.op]);
    }
  }

  lemma StepRenewal(p: Params, s: State, e: Event)
    requires Inv(p, s) && Enabled(p, s, e)
    requires e.RenewLookup? || e.RenewCompute? || e.RenewStamp? || e.RenewFails?
    ensures Inv(p, Next(p, s, e))
  {
    RenewalStepOk(p, s, e);
    OnlyRenewals(p, s, Next(p, s, e));
  }

  lemma AnswersEvolve(p: Params, s: State, op: Op, ok: bool)
    requires Inv(p, s) && Enabled(p, s, BackendAnswers(op, ok))
    ensures Evolves(s, Next(p, s, BackendAnswers(op, ok))) && GoneOk(p, Next(p, s, BackendAnswers(op, ok)))
  {
    assert RevocationOk(p, s, op, s.revocations[op]);
    GoneStays(p, s, Next(p, s, BackendAnswers(op, ok)));
  }

  lemma StepAnswers(p: Params, s: State, op: Op, ok: bool)
    requires Inv(p, s) && Enabled(p, s, BackendAnswers(op, ok))
    ensures Inv(p, Next(p, s, BackendAnswers(op, ok)))
  {
    var s' := Next(p, s, BackendAnswers(op, ok));
    assert RevocationOk(p, s, op, s.revocations[op]);
    AnswersEvolve(p, s, op, ok);
    EvolvesKeepsCopies(p, s, s');
    forall o | o in s'.revocations ensures RevocationOk(p, s', o, s'.revocations[o]) {
      assert RevocationOk(p, s, o, s.revocations[o]);
    }
  }

  lemma RenewalEvolves(p: Params, s: State, op: Op)
    requires Inv(p, s) && Enabled(p, s, RenewStore(op))
    ensures Evolves(s, Next(p, s, RenewStore(op))) && GoneOk(p, Next(p, s, RenewStore(op)))
  {
    GoneStays(p, s, Next(p, s, RenewStore(op)));
  }

  lemma RenewedCopy(p: Params, s: State, s': State, r: Renewal)
    requires RenewalOk(p, s, r) && r.Stamped? && r.key in s.rows
    requires s'.clock == s.clock && Copy(p, s', r.key, s.rows[r.key])
    requires s'.rows == Renewed(s.rows, r.key, r.expiresAt, r.at)
    ensures Copy(p, s', r.key, s'.rows[r.key])
  {
    assert s.rows[r.key].failedAttempts * p.retryTimeout >= 0;
  }

  lemma StepRenewStore(p: Params, s: State, op: Op)
    requires Inv(p, s) && Enabled(p, s, RenewStore(op))
    ensures Inv(p, Next(p, s, RenewStore(op)))
  {
    var s' := Next(p, s, RenewStore(op));
    var r := s.renewals[op];
    assert RenewalOk(p, s, r);
    RenewalEvolves(p, s, op);
    EvolvesKeepsCopies(p, s, s');
    if r.key in s.rows {
      RenewedCopy(p, s, s', r);
    }
  }

  lemma LaterAttempt(f: nat, g: nat, retry: nat)
    requires f <= g
    ensures f * retry + retry <= (g + 1) * retry
  {
    assert (g + 1) * retry == g * retry + retry;
    assert (g - f) * retry >= 0;
  }

  // The outcome of a request: the row goes, or counts one more failure.
  lemma StoreCounts(p: Params, s: State, op: Op)
    requires Inv(p, s) && Enabled(p, s, RevokeStore(op))
    requires !s.revocations[op].ok
    ensures
      var r := s.revocations[op];
      |Done(Next(p, s, RevokeStore(op)), r.key)| == |Done(s, r.key)| + 1
  {
    var r := s.revocations[op];
    assert RevocationOk(p, s, op, r);
    assert Done(Next(p, s, RevokeStore(op)), r.key) == Done(s, r.key) + {op};
  }

  // A failed request that is not the last puts the lease off.
  lemma StepPutOff(p: Params, s: State, op: Op)
    requires Inv(p, s) && Enabled(p, s, RevokeStore(op))
    requires !s.revocations[op].ok && s.revocations[op].lease.failedAttempts + 1 < p.maxRetries
    ensures Inv(p, Next(p, s, RevokeStore(op)))
  {
    var s' := Next(p, s, RevokeStore(op));
    var r := s.revocations[op];
    assert RevocationOk(p, s, op, r);
    assert Evolves(s, s');
    EvolvesKeepsCopies(p, s, s');
    StoreCounts(p, s, op);
    GoneStays(p, s, s');
    if r.key in s.rows {
      assert Copy(p, s, r.key, s.rows[r.key]);
      LaterAttempt(r.lease.failedAttempts, s.rows[r.key].failedAttempts, p.retryTimeout);
      assert Copy(p, s', r.key, s'.rows[r.key]);
    }
  }

  lemma StepRevokeStore(p: Params, s: State, op: Op)
    requires Inv(p, s) && Enabled(p, s, RevokeStore(op))
    ensures Inv(p, Next(p, s, RevokeStore(op)))
  {
    var s' := Next(p, s, RevokeStore(op));
    var r := s.revocations[op];
    assert RevocationOk(p, s, op, r);
    assert Evolves(s, s');
    EvolvesKeepsCopies(p, s, s');
    if r.ok {
      forall k | k in s'.inserted && k !in s'.rows ensures Justified(p, s', k) {
        if k != r.key { JustifiedStays(p, s, s', k); }
      }
    } else {
      StoreCounts(p, s, op);
      if r.lease.failedAttempts + 1 >= p.maxRetries {
        SubsetSize(Done(s', r.key), Failed(s', r.key));
        forall k | k in s'.inserted && k !in s'.rows ensures Justified(p, s', k) {
          if k != r.key { JustifiedStays(p, s, s', k); }
        }
      } else {
        StepPutOff(p, s, op);
      }
    }
  }

  lemma StepKeepsInv(p: Params, s: State, e: Event)
    requires Inv(p, s) && Enabled(p, s, e)
    ensures Inv(p, Next(p, s, e))
  {
    match e
    case Register(_, _, _, _) => StepRegister(p, s, e);
    case RegisterInsert(_) => StepRegisterInsert(p, s, e);
    case BackendAnswers(op, ok) => StepAnswers(p, s, op, ok);
    case RenewStore(op) => StepRenewStore(p, s, op);
    case RevokeStore(op) => StepRevokeStore(p, s, op);
    case Tick(_) => StepClock(p, s, e);
    case RegisterFails(_) => StepClock(p, s, e);
    case RevokeStart(_, _) => StepRevocation(p, s, e);
    case RevokeStoreFails(_) => StepRevocation(p, s, e);
    case _ => StepRenewal(p, s, e);
  }

  lemma {:induction false} RunKeepsInv(p: Params, clock: Time, events: seq<Event>)
    ensures var r := Run(p, clock, events); r.Some? ==> Inv(p, r.value)
  {
    if events != [] {
      RunKeepsInv(p, clock, events[..|events| - 1]);
      if Run(p, clock, events).Some? {
        StepKeepsInv(p, Run(p, clock, events[..|events| - 1]).value, events[|events| - 1]);
      }
    }
  }

  // ---------- Main results ----------

  // Whatever lifetimes the backends return, and whatever old copies are written back, no
  // stored lease outlives its maximal life by more than delta and one timeout a failure; a
  // lease whose life is over by then may at most be set to expire at once.
  lemma LifetimeBound(p: Params, clock: Time, events: seq<Event>, k: LeaseKey)
    requires Run(p, clock, events).Some? && k in Run(p, clock, events).value.rows
    ensures
      var s := Run(p, clock, events).value;
      s.rows[k].issuedMountPath in p.configs && s.rows[k].expiresAt <= Lifetime(p, s.clock, s.rows[k])
  {
    RunKeepsInv(p, clock, events);
    assert Copy(p, Run(p, clock, events).value, k, Run(p, clock, events).value.rows[k]);
  }

  // A lease leaves the table only after its backend accepted a revocation, or after at
  // least maxRetries requests for it failed.
  lemma JustifiedDeletion(p: Params, clock: Time, events: seq<Event>, k: LeaseKey)
    requires Run(p, clock, events).Some?
    requires var s := Run(p, clock, events).value; k in s.inserted && k !in s.rows
    ensures Justified(p, Run(p, clock, events).value, k)
  {
    RunKeepsInv(p, clock, events);
  }

  // ---------- The bound is the best there is ----------

  // A run in which the backend asks for the full lifetime and the clock moves on by delta
  // between the two reads of the renewal: `failures` revocations later the lease sits
  // exactly on the bound.
  function OneFailure(op: Op, key: LeaseKey): seq<Event> {
    [RevokeStart(op, key), BackendAnswers(op, false), RevokeStore(op)]
  }

  function LateRenewal(p: Params, key: LeaseKey, mountPath: string): seq<Event>
    requires mountPath in p.configs
  {
    [Register(0, key, mountPath, None), RegisterInsert(0), RenewLookup(0, key),
     RenewCompute(0, p.configs[mountPath].maxLeaseTtl), Tick(p.delta), RenewStamp(0), RenewStore(0)]
  }

  function Failures(n: nat, key: LeaseKey): seq<Event> {
    if n == 0 then [] else Failures(n - 1, key) + OneFailure(n, key)
  }

  // On the bound after n failures, none of the operations still running.
  predicate OnTheBound(p: Params, s: State, key: LeaseKey, mountPath: string, n: nat) {
    && mountPath in p.configs
    && key in s.rows && s.rows[key].issuedMountPath == mountPath
    && s.rows[key].failedAttempts == n
    && s.rows[key].expiresAt == Lifetime(p, s.clock, s.rows[key])
    && s.revocations == map[]
    && forall o | o in s.answers :: o <= n
  }

  lemma RunSnoc(p: Params, clock: Time, events: seq<Event>, e: Event)
    ensures
      var before := Run(p, clock, events);
      Run(p, clock, events + [e]) ==
        if before.Some? && Enabled(p, before.value, e) then Some(Next(p, before.value, e)) else None
  {
    assert (events + [e])[..|events|] == events;
  }

  predicate OnlyLease(s: State, clock: Time, key: LeaseKey, le: Lease) {
    s.clock == clock && s.rows == map[key := le] && s.revocations == map[] && s.answers == map[]
  }

  lemma LateRenewalStored(p: Params, clock: Time, key: LeaseKey, mountPath: string) returns (s: State, le: Lease)
    requires mountPath in p.configs
    ensures Run(p, clock, LateRenewal(p, key, mountPath)[..2]) == Some(s)
    ensures OnlyLease(s, clock, key, le) && s.renewals == map[]
    ensures le.issuedMountPath == mountPath && le.issuedAt == clock && le.failedAttempts == 0
  {
    var e := LateRenewal(p, key, mountPath);
    RunSnoc(p, clock, [], e[0]);
    RunSnoc(p, clock, [e[0]], e[1]);
    assert e[..2] == [e[0]] + [e[1]];
    assert [e[0]] == [] + [e[0]];
    s := Run(p, clock, e[..2]).value;
    le := s.rows[key];
  }

  lemma LateRenewalComputed(p: Params, clock: Time, key: LeaseKey, mountPath: string) returns (s: State, le: Lease)
    requires mountPath in p.configs
    ensures Run(p, clock, LateRenewal(p, key, mountPath)[..4]) == Some(s)
    ensures OnlyLease(s, clock, key, le)
    ensures s.renewals == map[0 := Computed(key, le, clock, p.configs[mountPath].maxLeaseTtl)]
    ensures le.issuedMountPath == mountPath && le.issuedAt == clock && le.failedAttempts == 0
  {
    var e := LateRenewal(p, key, mountPath);
    s, le := LateRenewalStored(p, clock, key, mountPath);
    RunSnoc(p, clock, e[..2], e[2]);
    RunSnoc(p, clock, e[..3], e[3]);
    assert e[..3] == e[..2] + [e[2]];
    assert e[..4] == e[..3] + [e[3]];
    s := Next(p, Next(p, s, e[2]), e[3]);
  }

  lemma LateRenewalReaches(p: Params, clock: Time, key: LeaseKey, mountPath: string)
    requires mountPath in p.configs
    ensures
      var r := Run(p, clock, LateRenewal(p, key, mountPath));
      r.Some? && OnTheBound(p, r.value, key, mountPath, 0)
  {
    var e := LateRenewal(p, key, mountPath);
    var s, le := LateRenewalComputed(p, clock, key, mountPath);
    RunSnoc(p, clock, e[..4], e[4]);
    RunSnoc(p, clock, e[..5], e[5]);
    RunSnoc(p, clock, e[..6], e[6]);
    assert e[..5] == e[..4] + [e[4]];
    assert e[..6] == e[..5] + [e[5]];
    assert e == e[..6] + [e[6]];
  }

  lemma OneFailureStaysOnTheBound(p: Params, s: State, key: LeaseKey, mountPath: string, n: nat)
    requires OnTheBound(p, s, key, mountPath, n) && n + 1 < p.maxRetries
    ensures
      var s1 := s.(revocations := map[n + 1 := Snapshotted(key, s.rows[key])]);
      var s2 := s1.(revocations := map[n + 1 := Answered(key, s.rows[key], false)], answers := s.answers[n + 1 := (key, false)]);
      var s3 := Next(p, s2, RevokeStore(n + 1));
      && Enabled(p, s, RevokeStart(n + 1, key)) && Next(p, s, RevokeStart(n + 1, key)) == s1
      && Enabled(p, s1, BackendAnswers(n + 1, false)) && Next(p, s1, BackendAnswers(n + 1, false)) == s2
      && OnTheBound(p, s3, key, mountPath, n + 1)
  {
    assert (n + 1) * p.retryTimeout == n * p.retryTimeout + p.retryTimeout;
  }

  lemma RunFailure(p: Params, clock: Time, events: seq<Event>, key: LeaseKey, mountPath: string, n: nat)
    requires var r := Run(p, clock, events); r.Some? && OnTheBound(p, r.value, key, mountPath, n)
    requires n + 1 < p.maxRetries
    ensures
      var r := Run(p, clock, events + OneFailure(n + 1, key));
      r.Some? && OnTheBound(p, r.value, key, mountPath, n + 1)
  {
    var e := OneFailure(n + 1, key);
    OneFailureStaysOnTheBound(p, Run(p, clock, events).value, key, mountPath, n);
    RunSnoc(p, clock, events, e[0]);
    RunSnoc(p, clock, events + [e[0]], e[1]);
    RunSnoc(p, clock, events + [e[0]] + [e[1]], e[2]);
    assert events + e == events + [e[0]] + [e[1]] + [e[2]];
  }

  lemma {:induction false} BoundAttained(p: Params, clock: Time, key: LeaseKey, mountPath: string, failures: nat)
    requires mountPath in p.configs
    requires failures == 0 || failures < p.maxRetries
    ensures
      var r := Run(p, clock, LateRenewal(p, key, mountPath) + Failures(failures, key));
      r.Some? && OnTheBound(p, r.value, key, mountPath, failures)
  {
    var start := LateRenewal(p, key, mountPath);
    if failures == 0 {
      assert start + Failures(0, key) == start;
      LateRenewalReaches(p, clock, key, mountPath);
    } else {
      BoundAttained(p, clock, key, mountPath, failures - 1);
      RunFailure(p, clock, start + Failures(failures - 1, key), key, mountPath, failures - 1);
      assert start + Failures(failures, key) == start + Failures(failures - 1, key) + OneFailure(failures, key);
    }
  }
}
