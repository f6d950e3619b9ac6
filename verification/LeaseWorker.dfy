/**
The expiration manager. Its operations are here one at a time: registering, revoking,
renewing; and the revocation worker while it is the only one to revoke, its writes succeed
and the clock stands still: it asks each due lease's backend again and again, a batch at a
time, until no lease is due.
*/
module LeaseWorker {
  import opened Wrappers
  import opened Leases

  const REVOCATION_RETRY_TIMEOUT: nat := 5
  const REVOCATION_MAX_RETRIES: nat := 10
  const REVOCATION_WORKER_CONCURRENCY: nat := 100

  // The backends' answer to the n-th revoke request for a lease.
  type Answers = (LeaseKey, nat) -> bool

  // ---------- What becomes of one lease ----------

  // The requests a lease still has to its name.
  function Remaining(le: Lease): (n: nat)
    ensures n > 0
  {
    if le.failedAttempts + 1 >= REVOCATION_MAX_RETRIES then 1 else REVOCATION_MAX_RETRIES - le.failedAttempts
  }

  function AfterAnswer(le: Lease, ok: bool): Option<Lease> {
    if ok || le.failedAttempts + 1 >= REVOCATION_MAX_RETRIES then None
    else Some(le.(failedAttempts := le.failedAttempts + 1, expiresAt := le.expiresAt + REVOCATION_RETRY_TIMEOUT))
  }

  // What is left of a lease once it is no longer due, `asked` requests having been sent
  // before.
  function Settled(k: LeaseKey, le: Lease, answers: Answers, asked: nat, now: Time): Option<Lease>
    decreases Remaining(le)
  {
    if le.expiresAt > now then Some(le)
    else
      var next := AfterAnswer(le, answers(k, asked));
      if next.None? then None else Settled(k, next.value, answers, asked + 1, now)
  }

  function Requests(k: LeaseKey, le: Lease, answers: Answers, asked: nat, now: Time): nat
    decreases Remaining(le)
  {
    if le.expiresAt > now then 0
    else
      var next := AfterAnswer(le, answers(k, asked));
      1 + if next.None? then 0 else Requests(k, next.value, answers, asked + 1, now)
  }

  // The retry bound, and what a lease that survives or leaves has gone through: all its
  // requests failed; or one was accepted, or they used up the retries.
  lemma {:induction false} SettledWithinRetries(k: LeaseKey, le: Lease, answers: Answers, asked: nat, now: Time)
    ensures
      var n := Requests(k, le, answers, asked, now);
      var end := Settled(k, le, answers, asked, now);
      && n <= Remaining(le)
      && (n == 0 <==> le.expiresAt > now)
      && (forall i | asked <= i < asked + n - 1 :: !answers(k, i))
      && (end.Some? ==>
            && (n > 0 ==> !answers(k, asked + n - 1))
            && end.value == le.(failedAttempts := le.failedAttempts + n, expiresAt := le.expiresAt + n * REVOCATION_RETRY_TIMEOUT)
            && end.value.expiresAt > now)
      && (end.None? ==> n > 0 && (answers(k, asked + n - 1) || le.failedAttempts + n >= REVOCATION_MAX_RETRIES))
    decreases Remaining(le)
  {
    if le.expiresAt <= now {
      var next := AfterAnswer(le, answers(k, asked));
      if next.Some? {
        SettledWithinRetries(k, next.value, answers, asked + 1, now);
      }
    }
  }

  // ---------- The measure of the loop ----------

  ghost function Budget(rows: Rows): nat
    decreases |rows|
  {
    if rows == map[] then 0
    else
      var k :| k in rows;
      Remaining(rows[k]) + Budget(rows - {k})
  }

  lemma {:induction false} BudgetRemove(rows: Rows, k: LeaseKey)
    requires k in rows
    ensures Budget(rows) == Remaining(rows[k]) + Budget(rows - {k})
    decreases |rows|
  {
    var j :| j in rows && Budget(rows) == Remaining(rows[j]) + Budget(rows - {j});
    if j != k {
      BudgetRemove(rows - {j}, k);
      BudgetRemove(rows - {k}, j);
      assert rows - {j} - {k} == rows - {k} - {j};
    }
  }

  // Each request costs: what AfterAnswer makes of a row is worth less than the row.
  lemma BudgetShrinks(rows: Rows, k: LeaseKey, ok: bool, rows': Rows)
    requires Asked(rows, k, ok, rows')
    ensures Budget(rows') < Budget(rows)
  {
    BudgetRemove(rows, k);
    if k in rows' {
      BudgetRemove(rows', k);
      assert rows' - {k} == rows - {k};
    }
  }

  // ---------- Renewing ----------

  // The expiry that a renewal comes to: what the backend grants of the lifetime that is
  // left, cut again, counted from the last clock read.
  function Renewal(le: Lease, configs: map<string, MountConfig>, requested: Option<nat>, backend: nat -> Option<nat>,
                   asked: Time, granted: Time, stamped: Time): Option<Time>
    requires le.issuedMountPath in configs
  {
    var config := configs[le.issuedMountPath];
    var answer := backend(CalculateTtl(asked, le.issuedAt, config, requested));
    if answer.None? then None else Some(stamped + CalculateTtl(granted, le.issuedAt, config, answer))
  }

  // However much the backend grants, a renewed lease ends no later than its maximal life
  // and the time between the last two clock reads allow.
  lemma RenewalBound(le: Lease, configs: map<string, MountConfig>, requested: Option<nat>, backend: nat -> Option<nat>,
                     asked: Time, granted: Time, stamped: Time)
    requires le.issuedMountPath in configs && granted <= stamped
    ensures
      var r := Renewal(le, configs, requested, backend, asked, granted, stamped);
      var end := le.issuedAt + configs[le.issuedMountPath].maxLeaseTtl;
      r.Some? ==> stamped <= r.value <= Max(stamped, end + (stamped - granted))
  {}

  // ---------- The worker ----------

  // A lease on its way from its row at the start to its end: the rest of the way is that
  // from its present row.
  ghost predicate LeaseOnTheWay(start: Rows, rows: Rows, answers: Answers, asked: map<LeaseKey, nat>, now: Time, k: LeaseKey)
    requires k in start && k in asked
  {
    var n := asked[k];
    if k in rows then
      && Settled(k, start[k], answers, 0, now) == Settled(k, rows[k], answers, n, now)
      && Requests(k, start[k], answers, 0, now) == n + Requests(k, rows[k], answers, n, now)
    else
      Settled(k, start[k], answers, 0, now).None? && Requests(k, start[k], answers, 0, now) == n
  }

  ghost predicate OnTheWay(start: Rows, rows: Rows, answers: Answers, asked: map<LeaseKey, nat>, now: Time) {
    && rows.Keys <= start.Keys
    && asked.Keys == start.Keys
    && forall k {:trigger LeaseOnTheWay(start, rows, answers, asked, now, k)} | k in start ::
         LeaseOnTheWay(start, rows, answers, asked, now, k)
  }

  // The table after the answer to a request for k.
  ghost predicate Asked(rows: Rows, k: LeaseKey, ok: bool, rows': Rows) {
    k in rows
    && var next := AfterAnswer(rows[k], ok);
       rows' == if next.None? then rows - {k} else rows[k := next.value]
  }

  lemma AskedOnTheWay(start: Rows, rows: Rows, answers: Answers, asked: map<LeaseKey, nat>, now: Time, k: LeaseKey, rows': Rows)
    requires OnTheWay(start, rows, answers, asked, now)
    requires Due(rows, k, now)
    requires k in asked && Asked(rows, k, answers(k, asked[k]), rows')
    ensures OnTheWay(start, rows', answers, asked[k := asked[k] + 1], now)
  {
    var asked' := asked[k := asked[k] + 1];
    forall j | j in start ensures LeaseOnTheWay(start, rows', answers, asked', now, j) {
      assert LeaseOnTheWay(start, rows, answers, asked, now, j);
    }
  }

  // The leases of the batch that have not been asked about yet are as they were pulled.
  ghost predicate Waiting(rows: Rows, pulled: Rows, batch: seq<LeaseKey>, i: nat) {
    forall j | i <= j < |batch| :: batch[j] in pulled && batch[j] in rows && rows[batch[j]] == pulled[batch[j]]
  }

  lemma AskedWaiting(rows: Rows, pulled: Rows, batch: seq<LeaseKey>, i: nat, ok: bool, rows': Rows, now: Time)
    requires Waiting(rows, pulled, batch, i) && i < |batch| && DueInOrder(pulled, batch, now)
    requires Asked(rows, batch[i], ok, rows')
    ensures Waiting(rows', pulled, batch, i + 1)
  {}

  // Where the worker is when it has asked about the first i leases of its batch.
  ghost predicate InBatch(start: Rows, rows: Rows, pulled: Rows, batch: seq<LeaseKey>, i: nat, answers: Answers,
                          asked: map<LeaseKey, nat>, now: Time) {
    && OnTheWay(start, rows, answers, asked, now)
    && Waiting(rows, pulled, batch, i)
    && Budget(rows) <= Budget(pulled)
    && (i > 0 ==> Budget(rows) < Budget(pulled))
  }

  lemma NextInBatch(start: Rows, rows: Rows, pulled: Rows, batch: seq<LeaseKey>, i: nat, answers: Answers,
                    asked: map<LeaseKey, nat>, now: Time, rows': Rows)
    requires InBatch(start, rows, pulled, batch, i, answers, asked, now)
    requires i < |batch| && DueInOrder(pulled, batch, now)
    requires batch[i] in asked && Asked(rows, batch[i], answers(batch[i], asked[batch[i]]), rows')
    ensures InBatch(start, rows', pulled, batch, i + 1, answers, asked[batch[i] := asked[batch[i]] + 1], now)
  {
    BudgetShrinks(rows, batch[i], answers(batch[i], asked[batch[i]]), rows');
    AskedOnTheWay(start, rows, answers, asked, now, batch[i], rows');
    AskedWaiting(rows, pulled, batch, i, answers(batch[i], asked[batch[i]]), rows', now);
  }

  // ---------- Revoking the leases of a mount ----------

  // The table after one revocation of each of the given leases.
  ghost function RevokedAll(rows: Rows, keys: set<LeaseKey>, answers: LeaseKey -> bool): Rows {
    map k | k in rows && (k in keys ==> AfterAnswer(rows[k], answers(k)).Some?) ::
      if k in keys then AfterAnswer(rows[k], answers(k)).value else rows[k]
  }

  lemma RevokedAllOneMore(rows: Rows, keys: set<LeaseKey>, k: LeaseKey, answers: LeaseKey -> bool)
    requires k in rows && k !in keys
    ensures RevokedAll(rows, keys + {k}, answers) ==
      Revoked(RevokedAll(rows, keys, answers), k, rows[k], answers(k), REVOCATION_MAX_RETRIES, REVOCATION_RETRY_TIMEOUT)
  {
    assert k in RevokedAll(rows, keys, answers);
  }

  datatype RenewError = NotFound | MountNotFound | RenewLease

  class ExpirationManager {
    const repo: LeaseRepo
    // A notification that the worker has not received yet.
    var notified: bool

    constructor (repo: LeaseRepo)
      ensures this.repo == repo && !notified
    {
      this.repo := repo;
      notified := false;
    }

    method Register(k: LeaseKey, le: Lease)
      requires k !in repo.rows
      modifies repo, this`notified
      ensures repo.rows == old(repo.rows)[k := le] && notified
    {
      repo.Create(k, le);
      notified := true;
    }

    // `ok` is the outcome of the request that was sent to the backend.
    method RevokeLeaseEntry(k: LeaseKey, le: Lease, ok: bool)
      modifies repo
      ensures repo.rows == Revoked(old(repo.rows), k, le, ok, REVOCATION_MAX_RETRIES, REVOCATION_RETRY_TIMEOUT)
      ensures forall j | j != k :: (j in repo.rows <==> j in old(repo.rows)) && (j in repo.rows ==> repo.rows[j] == old(repo.rows)[j])
      ensures k in repo.rows <==> k in old(repo.rows) && !ok && le.failedAttempts + 1 < REVOCATION_MAX_RETRIES
      ensures k in repo.rows ==>
        var row := old(repo.rows)[k];
        repo.rows[k] == row.(failedAttempts := row.failedAttempts + 1, expiresAt := le.expiresAt + REVOCATION_RETRY_TIMEOUT)
    {
      if ok {
        var _ := repo.Delete(k);
      } else if le.failedAttempts + 1 >= REVOCATION_MAX_RETRIES {
        var _ := repo.Delete(k);
      } else {
        var _ := repo.IncrementFailedRevocationAttempts(k, le.expiresAt + REVOCATION_RETRY_TIMEOUT);
      }
    }

    // Each lease of the mounts under the prefix is asked about once, from the copy read at
    // the start; those whose backend accepted come back.
    method RevokeLeasesByMountPrefix(prefix: string, namespaceId: string, answers: LeaseKey -> bool)
      returns (revoked: set<LeaseKey>)
      modifies repo
      ensures var listed := IssuedUnder(old(repo.rows), prefix, namespaceId);
        && revoked == (set k | k in listed && answers(k))
        && repo.rows == RevokedAll(old(repo.rows), listed, answers)
    {
      var leases := repo.rows;
      var keys := repo.ListByMountPrefix(prefix, namespaceId);
      ghost var listed := keys;
      revoked := {};
      while keys != {}
        invariant keys <= listed && revoked == set k | k in listed - keys && answers(k)
        invariant repo.rows == RevokedAll(leases, listed - keys, answers)
        decreases keys
      {
        var k :| k in keys;
        RevokedAllOneMore(leases, listed - keys, k, answers);
        assert listed - (keys - {k}) == (listed - keys) + {k};
        RevokeLeaseEntry(k, leases[k], answers(k));
        if answers(k) {
          revoked := revoked + {k};
        }
        keys := keys - {k};
      }
      assert listed - keys == listed;
    }

    // `backend` is what the backend grants when asked for a lifetime, if it agrees;
    // `asked`, `granted` and `stamped` are the three clock reads.
    method RenewLeaseEntry(k: LeaseKey, configs: map<string, MountConfig>, requested: Option<nat>, backend: nat -> Option<nat>,
                           asked: Time, granted: Time, stamped: Time)
      returns (r: Result<Lease, RenewError>)
      modifies repo
      ensures r == Err(NotFound) <==> k !in old(repo.rows)
      ensures r == Err(MountNotFound) <==> k in old(repo.rows) && old(repo.rows)[k].issuedMountPath !in configs
      ensures r.Err? ==> repo.rows == old(repo.rows)
      ensures r.Ok? ==>
        && repo.rows == Renewed(old(repo.rows), k, r.value.expiresAt, stamped)
        && r.value == repo.rows[k]
        && Renewal(old(repo.rows)[k], configs, requested, backend, asked, granted, stamped) == Some(r.value.expiresAt)
      ensures r == Err(RenewLease) ==> Renewal(old(repo.rows)[k], configs, requested, backend, asked, granted, stamped) == None
      // The backend is asked for what the request, or the mount, and the maximal life allow,
      // and its grant is what the expiry is made of.
      ensures k in old(repo.rows) && old(repo.rows)[k].issuedMountPath in configs ==>
        var le := old(repo.rows)[k];
        var config := configs[le.issuedMountPath];
        var end := le.issuedAt + config.maxLeaseTtl;
        exists t: nat ::
          && asked + t == Max(asked, Min(asked + requested.GetOr(config.defaultLeaseTtl), end))
          && (backend(t).None? <==> r == Err(RenewLease))
          && (r.Ok? ==> r.value.expiresAt == stamped - granted + Max(granted, Min(granted + backend(t).value, end)))
      ensures r.Ok? ==> r.value == old(repo.rows)[k].(expiresAt := r.value.expiresAt, lastRenewal := stamped)
      ensures r.Ok? ==> repo.rows == old(repo.rows)[k := r.value]
    {
      var found := repo.Lookup(k);
      if found.None? {
        return Err(NotFound);
      }
      var le := found.value;
      if le.issuedMountPath !in configs {
        return Err(MountNotFound);
      }
      var config := configs[le.issuedMountPath];
      var ttl := CalculateTtl(asked, le.issuedAt, config, requested);
      var answer := backend(ttl);
      if answer.None? {
        return Err(RenewLease);
      }
      ttl := CalculateTtl(granted, le.issuedAt, config, answer);
      le := le.(expiresAt := stamped + ttl, lastRenewal := stamped);
      var _ := repo.Renew(k, le.expiresAt, le.lastRenewal);
      r := Ok(le);
    }

    // One batch: every lease of it is asked about once.
    method RevokeBatch(batch: seq<LeaseKey>, now: Time, answers: Answers, ghost start: Rows, asked: map<LeaseKey, nat>)
      returns (asked': map<LeaseKey, nat>)
      requires DueInOrder(repo.rows, batch, now)
      requires OnTheWay(start, repo.rows, answers, asked, now)
      modifies repo
      ensures OnTheWay(start, repo.rows, answers, asked', now)
      ensures batch != [] ==> Budget(repo.rows) < Budget(old(repo.rows))
    {
      var pulled := repo.rows;
      asked' := asked;
      var i := 0;
      while i < |batch|
        invariant 0 <= i <= |batch|
        invariant InBatch(start, repo.rows, pulled, batch, i, answers, asked', now)
      {
        var k := batch[i];
        ghost var before := repo.rows;
        assert k in asked' && k in before && pulled[k] == before[k];
        var ok := answers(k, asked'[k]);
        RevokeLeaseEntry(k, pulled[k], ok);
        assert Asked(before, k, ok, repo.rows);
        NextInBatch(start, before, pulled, batch, i, answers, asked', now, repo.rows);
        asked' := asked'[k := asked'[k] + 1];
        i := i + 1;
      }
    }

    // The loop of the worker, up to the first empty pull.
    method Drain(now: Time, answers: Answers) returns (asked: map<LeaseKey, nat>)
      modifies repo
      ensures asked.Keys == old(repo.rows).Keys
      ensures forall k | k in old(repo.rows) :: asked[k] == Requests(k, old(repo.rows)[k], answers, 0, now)
      ensures forall k :: k in repo.rows <==>
        k in old(repo.rows) && Settled(k, old(repo.rows)[k], answers, 0, now).Some?
      ensures forall k | k in repo.rows :: Settled(k, old(repo.rows)[k], answers, 0, now) == Some(repo.rows[k])
      ensures forall k | k in repo.rows :: repo.rows[k].expiresAt > now
    {
      ghost var start := repo.rows;
      asked := map k | k in repo.rows :: 0;
      var more := true;
      while more
        invariant OnTheWay(start, repo.rows, answers, asked, now)
        invariant !more ==> forall k | k in repo.rows :: now < repo.rows[k].expiresAt
        decreases more, Budget(repo.rows)
      {
        var batch := repo.Pull(REVOCATION_WORKER_CONCURRENCY, now);
        if |batch| == 0 {
          more := false;
        } else {
          asked := RevokeBatch(batch, now, answers, start, asked);
        }
      }
      assert forall k | k in start :: LeaseOnTheWay(start, repo.rows, answers, asked, now, k);
    }
  }
}
