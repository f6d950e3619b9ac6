/** The operations on a lease are runs of the protocol. */
module LeaseRefinement {
  import opened Wrappers
  import opened Leases
  import opened LeaseProtocol
  import LeaseWorker

  // The state after a run from any state, if each of its steps was enabled.
  function RunFrom(p: Params, s: State, events: seq<Event>): Option<State>
    decreases |events|
  {
    if events == [] then Some(s)
    else if Enabled(p, s, events[0]) then RunFrom(p, Next(p, s, events[0]), events[1..])
    else None
  }

  lemma RunStep(p: Params, s: State, e: Event, rest: seq<Event>)
    requires Enabled(p, s, e)
    ensures RunFrom(p, s, [e] + rest) == RunFrom(p, Next(p, s, e), rest)
  {
    assert ([e] + rest)[1..] == rest;
  }

  lemma RunLast(p: Params, s: State, e: Event)
    requires Enabled(p, s, e)
    ensures RunFrom(p, s, [e]) == Some(Next(p, s, e))
  {
    RunStep(p, s, e, []);
    assert [e] + [] == [e];
  }

  // Running on where a run has ended is running all of it.
  lemma {:induction false} RunContinues(p: Params, clock: Time, before: seq<Event>, events: seq<Event>)
    requires Run(p, clock, before).Some?
    ensures Run(p, clock, before + events) == RunFrom(p, Run(p, clock, before).value, events)
    decreases |events|
  {
    if events == [] {
      assert before + events == before;
    } else {
      RunSnoc(p, clock, before, events[0]);
      assert before + events == (before + [events[0]]) + events[1..];
      if Run(p, clock, before + [events[0]]).Some? {
        RunContinues(p, clock, before + [events[0]], events[1..]);
      } else {
        NoWayBack(p, clock, before + [events[0]], events[1..]);
      }
    }
  }

  lemma {:induction false} NoWayBack(p: Params, clock: Time, before: seq<Event>, events: seq<Event>)
    requires Run(p, clock, before).None?
    ensures Run(p, clock, before + events).None?
  {
    if events == [] {
      assert before + events == before;
    } else {
      var n := |events| - 1;
      NoWayBack(p, clock, before, events[..n]);
      assert before + events == (before + events[..n]) + [events[n]];
      RunSnoc(p, clock, before + events[..n], events[n]);
    }
  }

  // ---------- Registering ----------

  // A new lease lives for what was asked, or the default, but not beyond its maximal life.
  lemma RegistrationRun(p: Params, s: State, op: Op, k: LeaseKey, mountPath: string, requested: Option<nat>)
    requires op !in s.creating && FreshKey(s, k) && mountPath in p.configs
    ensures
      var r := RunFrom(p, s, [Register(op, k, mountPath, requested), RegisterInsert(op)]);
      var config := p.configs[mountPath];
      var life := Min(requested.GetOr(config.defaultLeaseTtl), config.maxLeaseTtl);
      r.Some? && r.value.rows == s.rows[k := Lease(mountPath, s.clock, s.clock + life, s.clock, 0)]
  {
    var first := Register(op, k, mountPath, requested);
    RunStep(p, s, first, [RegisterInsert(op)]);
    RunLast(p, Next(p, s, first), RegisterInsert(op));
    assert [first] + [RegisterInsert(op)] == [first, RegisterInsert(op)];
  }

  // ---------- Renewing ----------

  // Three clock reads, with the backend's grant in between.
  function RenewalEvents(op: Op, k: LeaseKey, grant: nat, wait: nat, gap: nat): seq<Event> {
    [RenewLookup(op, k), Tick(wait), RenewCompute(op, grant), Tick(gap), RenewStamp(op), RenewStore(op)]
  }

  lemma RenewalRun(p: Params, s: State, op: Op, k: LeaseKey, grant: nat, wait: nat, gap: nat)
    requires op !in s.renewals && k in s.rows && s.rows[k].issuedMountPath in p.configs && gap <= p.delta
    ensures
      var r := RunFrom(p, s, RenewalEvents(op, k, grant, wait, gap));
      var le := s.rows[k];
      var granted := s.clock + wait;
      var expiry := gap + Max(granted, Min(granted + grant, le.issuedAt + p.configs[le.issuedMountPath].maxLeaseTtl));
      && r.Some? && r.value.clock == granted + gap
      && r.value.rows == s.rows[k := le.(expiresAt := expiry, lastRenewal := granted + gap)]
  {
    var e := RenewalEvents(op, k, grant, wait, gap);
    var le := s.rows[k];
    var s2 := RenewalComputed(p, s, op, k, grant, wait);
    RenewalFinished(p, s2, op, k, le, gap);
    assert e == [e[0]] + ([e[1]] + ([e[2]] + [Tick(gap), RenewStamp(op), RenewStore(op)]));
  }

  lemma RenewalComputed(p: Params, s: State, op: Op, k: LeaseKey, grant: nat, wait: nat) returns (s': State)
    requires op !in s.renewals && k in s.rows && s.rows[k].issuedMountPath in p.configs
    ensures forall rest :: RunFrom(p, s, [RenewLookup(op, k)] + ([Tick(wait)] + ([RenewCompute(op, grant)] + rest))) == RunFrom(p, s', rest)
    ensures
      var le, granted := s.rows[k], s.clock + wait;
      var ttl := Max(granted, Min(granted + grant, le.issuedAt + p.configs[le.issuedMountPath].maxLeaseTtl)) - granted;
      s'.rows == s.rows && s'.clock == granted && op in s'.renewals && s'.renewals[op] == Computed(k, le, granted, ttl)
  {
    var s1 := Next(p, s, RenewLookup(op, k));
    var s2 := Next(p, s1, Tick(wait));
    s' := Next(p, s2, RenewCompute(op, grant));
    forall rest: seq<Event>
      ensures RunFrom(p, s, [RenewLookup(op, k)] + ([Tick(wait)] + ([RenewCompute(op, grant)] + rest))) == RunFrom(p, s', rest)
    {
      RunStep(p, s, RenewLookup(op, k), [Tick(wait)] + ([RenewCompute(op, grant)] + rest));
      RunStep(p, s1, Tick(wait), [RenewCompute(op, grant)] + rest);
      RunStep(p, s2, RenewCompute(op, grant), rest);
    }
  }

  lemma RenewalFinished(p: Params, s: State, op: Op, k: LeaseKey, le: Lease, gap: nat)
    requires op in s.renewals && s.renewals[op].Computed? && s.renewals[op].key == k && s.renewals[op].at == s.clock
    requires k in s.rows && s.rows[k] == le && gap <= p.delta
    ensures
      var r := RunFrom(p, s, [Tick(gap), RenewStamp(op), RenewStore(op)]);
      var stamped := s.clock + gap;
      && r.Some? && r.value.clock == stamped
      && r.value.rows == s.rows[k := le.(expiresAt := stamped + s.renewals[op].ttl, lastRenewal := stamped)]
  {
    var s1 := Next(p, s, Tick(gap));
    var s2 := Next(p, s1, RenewStamp(op));
    RunStep(p, s, Tick(gap), [RenewStamp(op), RenewStore(op)]);
    RunStep(p, s1, RenewStamp(op), [RenewStore(op)]);
    RunLast(p, s2, RenewStore(op));
    assert [Tick(gap)] + [RenewStamp(op), RenewStore(op)] == [Tick(gap), RenewStamp(op), RenewStore(op)];
    assert [RenewStamp(op)] + [RenewStore(op)] == [RenewStamp(op), RenewStore(op)];
  }

  // What RenewLeaseEntry leaves in the table is what such a run leaves, with the grant that it
  // got and its clock reads.
  lemma RenewalRefines(p: Params, s: State, op: Op, k: LeaseKey, requested: Option<nat>, backend: nat -> Option<nat>,
                       granted: Time, stamped: Time, expiresAt: Time)
    returns (grant: nat)
    requires op !in s.renewals && k in s.rows && s.rows[k].issuedMountPath in p.configs
    requires s.clock <= granted <= stamped <= granted + p.delta
    requires LeaseWorker.Renewal(s.rows[k], p.configs, requested, backend, s.clock, granted, stamped) == Some(expiresAt)
    ensures exists t :: backend(t) == Some(grant)
    ensures
      var r := RunFrom(p, s, RenewalEvents(op, k, grant, granted - s.clock, stamped - granted));
      r.Some? && r.value.clock == stamped && r.value.rows == Renewed(s.rows, k, expiresAt, stamped)
  {
    var le := s.rows[k];
    var t := CalculateTtl(s.clock, le.issuedAt, p.configs[le.issuedMountPath], requested);
    grant := backend(t).value;
    RenewalRun(p, s, op, k, grant, granted - s.clock, stamped - granted);
  }

  // ---------- Revoking ----------

  // RevokeLeaseEntry, from the row as it is, is a run of the three steps of a revocation.
  lemma RevocationRun(p: Params, s: State, op: Op, k: LeaseKey, ok: bool)
    requires op !in s.revocations && op !in s.answers && k in s.rows
    ensures
      var r := RunFrom(p, s, [RevokeStart(op, k), BackendAnswers(op, ok), RevokeStore(op)]);
      var le := s.rows[k];
      && r.Some?
      && r.value.rows == (
           if ok || le.failedAttempts + 1 >= p.maxRetries then s.rows - {k}
           else s.rows[k := le.(failedAttempts := le.failedAttempts + 1, expiresAt := le.expiresAt + p.retryTimeout)])
      && r.value.rows == Revoked(s.rows, k, le, ok, p.maxRetries, p.retryTimeout)
  {
    var s1 := Next(p, s, RevokeStart(op, k));
    var s2 := Next(p, s1, BackendAnswers(op, ok));
    RunStep(p, s, RevokeStart(op, k), [BackendAnswers(op, ok), RevokeStore(op)]);
    RunStep(p, s1, BackendAnswers(op, ok), [RevokeStore(op)]);
    RunLast(p, s2, RevokeStore(op));
    assert [RevokeStart(op, k)] + [BackendAnswers(op, ok), RevokeStore(op)] == [RevokeStart(op, k), BackendAnswers(op, ok), RevokeStore(op)];
    assert [BackendAnswers(op, ok)] + [RevokeStore(op)] == [BackendAnswers(op, ok), RevokeStore(op)];
  }
}
