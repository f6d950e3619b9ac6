/** Removing a mount together with the leases that it has issued. */
module MountRemoval {
  import opened Wrappers
  import opened Leases
  import Like
  import LeaseWorker
  import Mounts

  // ---------- Leases and mounts ----------

  predicate IsOwn(le: Lease, k: LeaseKey, path: string, ns: string) {
    k.namespaceId == ns && le.issuedMountPath == path
  }

  // The leases of the mount at this path: those its foreign key protects.
  function OwnLeases(leases: Rows, path: string, ns: string): set<LeaseKey> {
    set k | k in leases && IsOwn(leases[k], k, path, ns)
  }

  // The foreign key of the leases: each belongs to a mount.
  ghost predicate Issued(leases: Rows, mounts: Mounts.Rows) {
    forall k | k in leases :: exists id :: Mounts.At(mounts, id, leases[k].issuedMountPath, k.namespaceId)
  }

  predicate Known(mounts: Mounts.Rows, id: string, path: string, ns: string) {
    Mounts.At(mounts, id, path, ns) && !mounts[id].variant.System?
  }

  // The leases after the removal has tried to revoke those under the path.
  ghost function LeasesAfter(leases: Rows, mounts: Mounts.Rows, path: string, ns: string, answers: LeaseKey -> bool): Rows {
    if exists id :: Known(mounts, id, path, ns)
    then LeaseWorker.RevokedAll(leases, IssuedUnder(leases, path, ns), answers)
    else leases
  }

  lemma RevokedAllKeeps(leases: Rows, keys: set<LeaseKey>, answers: LeaseKey -> bool)
    ensures var after := LeaseWorker.RevokedAll(leases, keys, answers);
      && after.Keys <= leases.Keys
      && forall k | k in after :: after[k].issuedMountPath == leases[k].issuedMountPath
  {}

  lemma OwnAreUnder(leases: Rows, path: string, ns: string)
    ensures OwnLeases(leases, path, ns) <= IssuedUnder(leases, path, ns)
  {
    Mounts.SelfMatch(path);
  }

  // The backends are asked (`answers`) about the leases under the path; then the row is
  // deleted, unless one of the mount's own leases is left.
  method RemoveMount(ctx: Mounts.Context, manager: LeaseWorker.ExpirationManager, path: string, ns: string,
                     answers: LeaseKey -> bool)
    returns (r: Result<string, Mounts.Error>)
    requires Mounts.UniquePaths(ctx.mountRepo.rows)
    modifies ctx, ctx.mountRepo, ctx.router, manager.repo
    ensures manager.repo.rows == LeasesAfter(old(manager.repo.rows), old(ctx.mountRepo.rows), path, ns, answers)
    ensures r.Ok? <==>
      && OwnLeases(manager.repo.rows, path, ns) == {}
      && exists id :: Mounts.Removable(old(ctx.mountRepo.rows), old(ctx.router.backends), id, path, ns)
    ensures r.Ok? ==>
      && Mounts.At(old(ctx.mountRepo.rows), r.value, path, ns)
      && ctx.mountRepo.rows == old(ctx.mountRepo.rows) - {r.value}
      && ctx.router.backends == old(ctx.router.backends) - {r.value}
    ensures r.Err? ==> ctx.mountRepo.rows == old(ctx.mountRepo.rows) && ctx.tables == old(ctx.tables)
    ensures r == Err(Mounts.ConstraintFailed) ==> exists id ::
      Mounts.At(ctx.mountRepo.rows, id, path, ns) && Mounts.Unrouted(ctx.mountRepo.rows, ctx.router.backends, id)
    ensures ctx.Now() == Mounts.AfterRemove(old(ctx.Now()), path, ns, OwnLeases(manager.repo.rows, path, ns) != {})
    ensures ctx.tables == if r.Ok?
      then old(ctx.tables) - Mounts.TablesOf(old(ctx.tables), old(ctx.mountRepo.rows), r.value) else old(ctx.tables)
    ensures Issued(old(manager.repo.rows), old(ctx.mountRepo.rows)) ==> Issued(manager.repo.rows, ctx.mountRepo.rows)
  {
    ghost var leases, mounts := manager.repo.rows, ctx.mountRepo.rows;
    var found := ctx.mountRepo.GetByPath(path, ns);
    assert found.Some? ==> forall id | Mounts.At(mounts, id, path, ns) :: id == found.value;
    if found.Some? && ctx.mountRepo.rows[found.value].variant != Mounts.System {
      assert Known(mounts, found.value, path, ns);
      var _ := manager.RevokeLeasesByMountPrefix(path, ns, answers);
      RevokedAllKeeps(leases, IssuedUnder(leases, path, ns), answers);
    }
    var leasesLeft := exists k | k in manager.repo.rows :: IsOwn(manager.repo.rows[k], k, path, ns);
    assert leasesLeft <==> OwnLeases(manager.repo.rows, path, ns) != {} by {
      if leasesLeft {
        var k :| k in manager.repo.rows && IsOwn(manager.repo.rows[k], k, path, ns);
        assert k in OwnLeases(manager.repo.rows, path, ns);
      }
    }
    r := ctx.RemoveMount(path, ns, leasesLeft);
    StillIssued(leases, mounts, manager.repo.rows, ctx.mountRepo.rows, path, ns);
  }

  // No lease loses its mount.
  lemma StillIssued(leases: Rows, mounts: Mounts.Rows, leases': Rows, mounts': Mounts.Rows, path: string, ns: string)
    requires leases'.Keys <= leases.Keys && forall k | k in leases' :: leases'[k].issuedMountPath == leases[k].issuedMountPath
    requires mounts' == mounts || (OwnLeases(leases', path, ns) == {} && exists id :: Mounts.At(mounts, id, path, ns) && mounts' == mounts - {id})
    ensures Issued(leases, mounts) ==> Issued(leases', mounts')
  {
    if Issued(leases, mounts) {
      forall k | k in leases' ensures exists id :: Mounts.At(mounts', id, leases'[k].issuedMountPath, k.namespaceId) {
        var id :| Mounts.At(mounts, id, leases[k].issuedMountPath, k.namespaceId);
        if mounts' != mounts { assert k !in OwnLeases(leases', path, ns); }
        assert Mounts.At(mounts', id, leases'[k].issuedMountPath, k.namespaceId);
      }
    }
  }

  // ---------- Whose leases are revoked ----------

  // Some other mount of the namespace has a path that is LIKE the path and more.
  predicate Covers(mounts: Mounts.Rows, path: string, ns: string, other: string) {
    other in mounts && mounts[other].namespaceId == ns && mounts[other].path != path && Like.Matches(path + "%", mounts[other].path)
  }

  // The removal asks about the mount's own leases only, whatever leases there are, exactly
  // if no other mount's path is LIKE the path.
  lemma OnlyOwnLeasesIff(mounts: Mounts.Rows, path: string, ns: string, le: Lease)
    ensures (forall leases: Rows | Issued(leases, mounts) :: IssuedUnder(leases, path, ns) == OwnLeases(leases, path, ns))
      <==> forall other :: !Covers(mounts, path, ns, other)
  {
    if other :| Covers(mounts, path, ns, other) {
      var k := LeaseKey("", ns);
      var leases := map[k := le.(issuedMountPath := mounts[other].path)];
      assert Mounts.At(mounts, other, leases[k].issuedMountPath, ns);
      assert Issued(leases, mounts);
      assert k in IssuedUnder(leases, path, ns) && k !in OwnLeases(leases, path, ns);
    } else {
      forall leases: Rows | Issued(leases, mounts) ensures IssuedUnder(leases, path, ns) == OwnLeases(leases, path, ns) {
        OwnAreUnder(leases, path, ns);
        forall k | k in IssuedUnder(leases, path, ns) ensures k in OwnLeases(leases, path, ns) {
          var other :| Mounts.At(mounts, other, leases[k].issuedMountPath, k.namespaceId);
          assert !Covers(mounts, path, ns, other);
        }
      }
    }
  }

  // A mount may be put above another one; removing it asks about the leases of both.
  lemma RemovalReachesNestedMount(config: MountConfig, k: LeaseKey, le: Lease)
    requires k.namespaceId == "ns" && le.issuedMountPath == "a/b/"
    ensures
      var nested := map["1" := Mounts.MountEntry("a/b/", Mounts.Kv, config, "ns")];
      var both := nested["2" := Mounts.MountEntry("a/", Mounts.Kv, config, "ns")];
      && Mounts.WellMounted(nested) && Mounts.Admissible(nested, "a/", "ns", Mounts.Kv) && Mounts.ValidPath("a/")
      && Issued(map[k := le], both)
      && IssuedUnder(map[k := le], "a/", "ns") == {k} && OwnLeases(map[k := le], "a/", "ns") == {}
      && LeasesAfter(map[k := le], both, "a/", "ns", _ => true) == map[]
  {
    var nested := map["1" := Mounts.MountEntry("a/b/", Mounts.Kv, config, "ns")];
    var both := nested["2" := Mounts.MountEntry("a/", Mounts.Kv, config, "ns")];
    Like.MatchesPrefix("a/b/", "a/");
    Like.MatchesPrefix("a/", "a/b/");
    assert Like.LowerAll("a/b/") == "a/b/" && Like.LowerAll("a/") == "a/";
    assert Mounts.At(both, "1", "a/b/", "ns");
    assert Known(both, "2", "a/", "ns");
    assert IssuedUnder(map[k := le], "a/", "ns") == {k};
  }

  // ---------- A removal refused for leases ----------

  datatype Event =
    | MountAt(id: string, entry: Mounts.MountEntry, namespaceExists: bool)
    | RemoveAt(path: string, ns: string, leasesLeft: bool)
    | UpdateAt(path: string, ns: string, config: MountConfig)

  ghost function AfterEvent(s: Mounts.MountState, e: Event): Mounts.MountState {
    match e
    case MountAt(id, entry, namespaceExists) => Mounts.AfterMount(s, id, entry, namespaceExists)
    case RemoveAt(path, ns, leasesLeft) => Mounts.AfterRemove(s, path, ns, leasesLeft)
    case UpdateAt(path, ns, config) => Mounts.AfterUpdate(s, path, ns, config)
  }

  ghost function Run(s: Mounts.MountState, events: seq<Event>): Mounts.MountState {
    if events == [] then s else AfterEvent(Run(s, events[..|events| - 1]), events[|events| - 1])
  }

  // Every mount gets an id that no row has.
  ghost predicate FreshIds(s: Mounts.MountState, events: seq<Event>) {
    forall i | 0 <= i < |events| && events[i].MountAt? :: events[i].id !in Run(s, events[..i]).rows
  }

  predicate SameMount(a: Mounts.MountEntry, b: Mounts.MountEntry) {
    a.path == b.path && a.namespaceId == b.namespaceId && a.variant == b.variant
  }

  lemma StepKeepsUnrouted(s: Mounts.MountState, e: Event, id: string)
    requires Mounts.Unrouted(s.rows, s.backends, id) && (e.MountAt? ==> e.id !in s.rows)
    ensures var s' := AfterEvent(s, e); Mounts.Unrouted(s'.rows, s'.backends, id) && SameMount(s'.rows[id], s.rows[id])
  {}

  // A mount without a backend keeps its row and gets no backend, whatever is mounted, removed
  // and configured: it answers no request and cannot be removed, though its leases be gone.
  // Only a reload of the router helps.
  lemma {:induction false} UnroutedForGood(s: Mounts.MountState, events: seq<Event>, id: string)
    requires Mounts.Unrouted(s.rows, s.backends, id) && FreshIds(s, events)
    ensures
      var last := Run(s, events);
      && Mounts.Unrouted(last.rows, last.backends, id) && SameMount(last.rows[id], s.rows[id])
      && !Mounts.Removable(last.rows, last.backends, id, s.rows[id].path, s.rows[id].namespaceId)
      && forall path :: Mounts.Answer(last.rows, last.backends, id, path) == Err(Mounts.InternalError)
  {
    if events != [] {
      var n := |events| - 1;
      var before := events[..n];
      assert forall i | 0 <= i < n :: before[..i] == events[..i];
      UnroutedForGood(s, before, id);
      StepKeepsUnrouted(Run(s, before), events[n], id);
    }
  }

  // Such a mount is what a removal that a lease stops leaves behind.
  lemma StoppedRemovalIsFinal(s: Mounts.MountState, id: string, path: string, ns: string, events: seq<Event>)
    requires Mounts.Removable(s.rows, s.backends, id, path, ns)
    requires FreshIds(s, [RemoveAt(path, ns, true)] + events)
    ensures
      var last := Run(s, [RemoveAt(path, ns, true)] + events);
      && Mounts.At(last.rows, id, path, ns) && Mounts.Unrouted(last.rows, last.backends, id)
      && !Mounts.Removable(last.rows, last.backends, id, path, ns)
  {
    var stopped := RemoveAt(path, ns, true);
    var s1 := AfterEvent(s, stopped);
    assert Mounts.Unrouted(s1.rows, s1.backends, id) && s1.rows == s.rows;
    forall i | 0 <= i <= |events| ensures Run(s, ([stopped] + events)[..i + 1]) == Run(s1, events[..i]) {
      RunCons(s, stopped, events[..i]);
      assert ([stopped] + events)[..i + 1] == [stopped] + events[..i];
    }
    forall i | 0 <= i < |events| && events[i].MountAt? ensures events[i].id !in Run(s1, events[..i]).rows {
      assert ([stopped] + events)[i + 1] == events[i];
    }
    assert ([stopped] + events)[..|events| + 1] == [stopped] + events && events[..|events|] == events;
    UnroutedForGood(s1, events, id);
  }

  lemma {:induction false} RunCons(s: Mounts.MountState, e: Event, events: seq<Event>)
    ensures Run(s, [e] + events) == Run(AfterEvent(s, e), events)
  {
    var all := [e] + events;
    if events == [] {
      assert all[..|all| - 1] == [] && all[|all| - 1] == e;
    } else {
      RunCons(s, e, events[..|events| - 1]);
      assert all[..|all| - 1] == [e] + events[..|events| - 1];
    }
  }
}
