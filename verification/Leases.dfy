/** Leases, their time to live, and the table that stores them. */
module Leases {
  import opened Wrappers
  import Like

  type Time = int

  datatype MountConfig = MountConfig(defaultLeaseTtl: nat, maxLeaseTtl: nat)

  datatype LeaseKey = LeaseKey(id: string, namespaceId: string)

  datatype Lease = Lease(
    issuedMountPath: string,
    issuedAt: Time,
    expiresAt: Time,
    lastRenewal: Time,
    failedAttempts: nat
  )

  function Max(a: int, b: int): int {
    if a > b then a else b
  }

  function Min(a: int, b: int): int {
    if a < b then a else b
  }

  // ---------- Time to live ----------

  // The expiry the result leads to is the requested one, brought back to the end of the
  // lease's maximal life, but never before now.
  function CalculateTtl(now: Time, issuedAt: Time, config: MountConfig, requested: Option<nat>): (ttl: nat)
    ensures now + ttl == Max(now, Min(now + requested.GetOr(config.defaultLeaseTtl), issuedAt + config.maxLeaseTtl))
  {
    var ttl := if requested.Some? then requested.value else config.defaultLeaseTtl;
    var maxExpiresAt := issuedAt + config.maxLeaseTtl;
    var newExpiresAt := now + ttl;
    if newExpiresAt > maxExpiresAt then
      if maxExpiresAt > now then maxExpiresAt - now else 0
    else if newExpiresAt > now then newExpiresAt - now
    else 0
  }

  function NewLease(mountPath: string, now: Time, ttl: nat): Lease {
    Lease(mountPath, now, now + ttl, now, 0)
  }

  // ---------- The table ----------

  type Rows = map<LeaseKey, Lease>

  predicate Due(rows: Rows, k: LeaseKey, before: Time) {
    k in rows && rows[k].expiresAt <= before
  }

  function Incremented(rows: Rows, k: LeaseKey, expiresAt: Time): Rows {
    if k in rows
    then rows[k := rows[k].(failedAttempts := rows[k].failedAttempts + 1, expiresAt := expiresAt)]
    else rows
  }

  function Renewed(rows: Rows, k: LeaseKey, expiresAt: Time, at: Time): Rows {
    if k in rows then rows[k := rows[k].(expiresAt := expiresAt, lastRenewal := at)] else rows
  }

  // The table after the backend has answered a revoke request that was made from the copy
  // `le` of the row.
  function Revoked(rows: Rows, k: LeaseKey, le: Lease, ok: bool, maxRetries: nat, retryTimeout: nat): Rows {
    if ok || le.failedAttempts + 1 >= maxRetries then rows - {k}
    else Incremented(rows, k, le.expiresAt + retryTimeout)
  }

  // A batch of distinct due leases, the earliest first.
  predicate DueInOrder(rows: Rows, batch: seq<LeaseKey>, before: Time) {
    && (forall i | 0 <= i < |batch| :: Due(rows, batch[i], before))
    && (forall i, j | 0 <= i < j < |batch| :: batch[i] != batch[j] && rows[batch[i]].expiresAt <= rows[batch[j]].expiresAt)
  }

  // No lease of `others` expires before a lease of the batch.
  predicate NoneEarlier(rows: Rows, batch: seq<LeaseKey>, others: set<LeaseKey>) {
    && (forall i | 0 <= i < |batch| :: batch[i] in rows)
    && others <= rows.Keys
    && (forall i, k | 0 <= i < |batch| && k in others :: rows[batch[i]].expiresAt <= rows[k].expiresAt)
  }

  predicate IsIssuedUnder(le: Lease, k: LeaseKey, prefix: string, namespaceId: string) {
    k.namespaceId == namespaceId && Like.Matches(prefix + "%", le.issuedMountPath)
  }

  // The leases of a namespace whose mount path is LIKE the prefix.
  function IssuedUnder(rows: Rows, prefix: string, namespaceId: string): set<LeaseKey> {
    set k | k in rows && IsIssuedUnder(rows[k], k, prefix, namespaceId)
  }

  // The earliest of the given keys.
  method Earliest(rows: Rows, keys: set<LeaseKey>) returns (k: LeaseKey)
    requires keys != {} && keys <= rows.Keys
    ensures k in keys && forall j | j in keys :: rows[k].expiresAt <= rows[j].expiresAt
  {
    k :| k in keys;
    var rest := keys - {k};
    while rest != {}
      invariant rest <= keys && k in keys
      invariant forall j | j in keys - rest :: rows[k].expiresAt <= rows[j].expiresAt
      decreases rest
    {
      var j :| j in rest;
      if rows[j].expiresAt < rows[k].expiresAt {
        k := j;
      }
      rest := rest - {j};
    }
  }

  class LeaseRepo {
    var rows: Rows

    constructor ()
      ensures rows == map[]
    {
      rows := map[];
    }

    method Create(k: LeaseKey, le: Lease)
      requires k !in rows
      modifies this
      ensures rows == old(rows)[k := le]
    {
      rows := rows[k := le];
    }

    method Lookup(k: LeaseKey) returns (r: Option<Lease>)
      ensures r.Some? <==> k in rows
      ensures r.Some? ==> r.value == rows[k]
    {
      r := if k in rows then Some(rows[k]) else None;
    }

    // The first `count` (at most 100) due leases, in the order in which they expire.
    method Pull(count: nat, before: Time) returns (batch: seq<LeaseKey>)
      ensures |batch| <= Min(count, 100)
      ensures DueInOrder(rows, batch, before)
      ensures |batch| < Min(count, 100) ==> forall k | k in rows && k !in batch :: before < rows[k].expiresAt
      ensures NoneEarlier(rows, batch, rows.Keys - (set k | k in batch))
    {
      batch := [];
      var rest := set k | k in rows && rows[k].expiresAt <= before;
      while |batch| < Min(count, 100) && rest != {}
        invariant rest == (set k | k in rows && rows[k].expiresAt <= before && k !in batch)
        invariant |batch| <= Min(count, 100)
        invariant DueInOrder(rows, batch, before)
        invariant NoneEarlier(rows, batch, rest)
        decreases |rest|
      {
        var k := Earliest(rows, rest);
        batch := batch + [k];
        rest := rest - {k};
      }
      if |batch| < Min(count, 100) {
        forall k | k in rows && k !in batch ensures before < rows[k].expiresAt {
          assert k !in rest;
        }
      }
      forall i, k | 0 <= i < |batch| && k in rows.Keys - (set k | k in batch)
        ensures rows[batch[i]].expiresAt <= rows[k].expiresAt
      {
        if rows[k].expiresAt <= before { assert k in rest; }
      }
    }

    method Peek() returns (r: Option<LeaseKey>)
      ensures r.None? <==> rows == map[]
      ensures r.Some? ==> r.value in rows && forall k | k in rows :: rows[r.value].expiresAt <= rows[k].expiresAt
    {
      if rows == map[] {
        return None;
      }
      assert rows.Keys != {};
      var k := Earliest(rows, rows.Keys);
      r := Some(k);
    }

    method IncrementFailedRevocationAttempts(k: LeaseKey, expiresAt: Time) returns (ok: bool)
      modifies this
      ensures ok <==> k in old(rows)
      ensures rows == Incremented(old(rows), k, expiresAt)
      ensures rows.Keys == old(rows).Keys && forall j | j in rows && j != k :: rows[j] == old(rows)[j]
      ensures ok ==> rows[k] == old(rows)[k].(failedAttempts := old(rows)[k].failedAttempts + 1, expiresAt := expiresAt)
    {
      ok := k in rows;
      if ok {
        rows := rows[k := rows[k].(failedAttempts := rows[k].failedAttempts + 1, expiresAt := expiresAt)];
      }
    }

    method Renew(k: LeaseKey, expiresAt: Time, at: Time) returns (ok: bool)
      modifies this
      ensures ok <==> k in old(rows)
      ensures rows == Renewed(old(rows), k, expiresAt, at)
      ensures rows.Keys == old(rows).Keys && forall j | j in rows && j != k :: rows[j] == old(rows)[j]
      ensures ok ==> rows[k] == old(rows)[k].(expiresAt := expiresAt, lastRenewal := at)
    {
      ok := k in rows;
      if ok {
        rows := rows[k := rows[k].(expiresAt := expiresAt, lastRenewal := at)];
      }
    }

    method Delete(k: LeaseKey) returns (ok: bool)
      modifies this
      ensures ok <==> k in old(rows)
      ensures rows == old(rows) - {k}
    {
      ok := k in rows;
      rows := rows - {k};
    }

    method ListByMountPrefix(prefix: string, namespaceId: string) returns (ks: set<LeaseKey>)
      ensures ks == IssuedUnder(rows, prefix, namespaceId)
    {
      ks := {};
      var rest := rows.Keys;
      while rest != {}
        invariant rest <= rows.Keys
        invariant ks == set k | k in rows.Keys - rest && IsIssuedUnder(rows[k], k, prefix, namespaceId)
        decreases rest
      {
        var k :| k in rest;
        if IsIssuedUnder(rows[k], k, prefix, namespaceId) {
          ks := ks + {k};
        }
        rest := rest - {k};
      }
    }
  }
}
