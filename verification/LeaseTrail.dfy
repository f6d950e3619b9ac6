/** What becomes of the leases of a namespace while its mounts are removed in order of path. */
module LeaseTrail {
  import opened Wrappers
  import opened Leases
  import Like
  import LeaseWorker
  import MountRemoval
  import Mounts
  import Strings

  // The answer of a lease's backend to the request that is made when the row counts so many
  // failures. No two requests for a lease are made with the same count.
  type Answers = (LeaseKey, nat) -> bool

  function Answering(leases: Rows, answers: Answers): LeaseKey -> bool {
    k => k in leases && answers(k, leases[k].failedAttempts)
  }

  // ---------- One lease ----------

  // What is left of a lease after n requests.
  function AfterAsks(k: LeaseKey, le: Lease, answers: Answers, n: nat): Option<Lease> {
    if n == 0 then Some(le)
    else
      var before := AfterAsks(k, le, answers, n - 1);
      if before.None? then None else LeaseWorker.AfterAnswer(before.value, answers(k, before.value.failedAttempts))
  }

  // A lease survives n requests exactly if all of them fail and do not use up its retries.
  lemma {:induction false} SurvivesAsksIff(k: LeaseKey, le: Lease, answers: Answers, n: nat)
    ensures AfterAsks(k, le, answers, n).Some? <==>
      n == 0 || (le.failedAttempts + n < LeaseWorker.REVOCATION_MAX_RETRIES
                 && forall c | le.failedAttempts <= c < le.failedAttempts + n :: !answers(k, c))
    ensures AfterAsks(k, le, answers, n).Some? ==>
      && AfterAsks(k, le, answers, n).value.failedAttempts == le.failedAttempts + n
      && AfterAsks(k, le, answers, n).value.issuedMountPath == le.issuedMountPath
  {
    if n > 0 { SurvivesAsksIff(k, le, answers, n - 1); }
  }

  // ---------- The mounts of a namespace, one after another ----------

  // How many of the paths the mount path is LIKE: as often its leases are asked about.
  function Asks(paths: seq<string>, path: string): nat {
    if paths == [] then 0
    else Asks(paths[..|paths| - 1], path) + if Like.Matches(paths[|paths| - 1] + "%", path) then 1 else 0
  }

  lemma {:induction false} AsksGrow(paths: seq<string>, n: nat, path: string)
    requires n <= |paths|
    ensures Asks(paths[..n], path) <= Asks(paths, path)
  {
    if n < |paths| {
      assert paths[..|paths| - 1][..n] == paths[..n];
      AsksGrow(paths[..|paths| - 1], n, path);
    } else {
      assert paths[..n] == paths;
    }
  }

  ghost function End(k: LeaseKey, le: Lease, paths: seq<string>, answers: Answers): Option<Lease> {
    AfterAsks(k, le, answers, Asks(paths, le.issuedMountPath))
  }

  // The leases after the removal of the mounts at these paths.
  ghost function LeasesAfterMounts(leases: Rows, paths: seq<string>, ns: string, answers: Answers): Rows {
    map k | k in leases && (k.namespaceId == ns ==> End(k, leases[k], paths, answers).Some?) ::
      if k.namespaceId == ns then End(k, leases[k], paths, answers).value else leases[k]
  }

  lemma NoneAsked(leases: Rows, ns: string, answers: Answers)
    ensures LeasesAfterMounts(leases, [], ns, answers) == leases
  {}

  // Each removal asks once about the leases under its path, and what was asked before counts.
  lemma OneMoreRemoval(leases: Rows, paths: seq<string>, path: string, ns: string, answers: Answers)
    ensures
      var before := LeasesAfterMounts(leases, paths, ns, answers);
      LeaseWorker.RevokedAll(before, IssuedUnder(before, path, ns), Answering(before, answers))
        == LeasesAfterMounts(leases, paths + [path], ns, answers)
  {
    var before := LeasesAfterMounts(leases, paths, ns, answers);
    var after := LeaseWorker.RevokedAll(before, IssuedUnder(before, path, ns), Answering(before, answers));
    var all := LeasesAfterMounts(leases, paths + [path], ns, answers);
    assert (paths + [path])[..|paths|] == paths;
    forall k ensures (k in after <==> k in all) && (k in after ==> after[k] == all[k]) {
      if k in leases { OneMoreAsk(leases, paths, path, ns, answers, k); }
    }
  }

  lemma OneMoreAsk(leases: Rows, paths: seq<string>, path: string, ns: string, answers: Answers, k: LeaseKey)
    requires k in leases && (paths + [path])[..|paths|] == paths
    ensures
      var before := LeasesAfterMounts(leases, paths, ns, answers);
      var after := LeaseWorker.RevokedAll(before, IssuedUnder(before, path, ns), Answering(before, answers));
      var all := LeasesAfterMounts(leases, paths + [path], ns, answers);
      (k in after <==> k in all) && (k in after ==> after[k] == all[k])
  {
    var le, before := leases[k], LeasesAfterMounts(leases, paths, ns, answers);
    SurvivesAsksIff(k, le, answers, Asks(paths, le.issuedMountPath));
    if k.namespaceId == ns && k in before {
      assert before[k].issuedMountPath == le.issuedMountPath;
      assert k in IssuedUnder(before, path, ns) <==> Like.Matches(path + "%", le.issuedMountPath);
    }
  }

  // ---------- The order of the removals ----------

  // The mounts whose removal asks about the leases of this one, up to its own: those of its
  // namespace that are listed no later and that its path is LIKE.
  function AskedBy(mounts: Mounts.Rows, m: string): set<string>
    requires m in mounts
  {
    set x | x in mounts && mounts[x].namespaceId == mounts[m].namespaceId
      && !Strings.Less(mounts[m].path, mounts[x].path) && Like.Matches(mounts[x].path + "%", mounts[m].path)
  }

  // Some lease of the mount is left when it comes to its removal.
  ghost predicate Survives(leases: Rows, mounts: Mounts.Rows, answers: Answers, m: string) {
    m in mounts &&
    exists k :: k in MountRemoval.OwnLeases(leases, mounts[m].path, mounts[m].namespaceId)
      && AfterAsks(k, leases[k], answers, |AskedBy(mounts, m)|).Some?
  }

  function PathsOf(mounts: Mounts.Rows, ids: seq<string>): seq<string>
    requires forall i | 0 <= i < |ids| :: ids[i] in mounts
  {
    seq(|ids|, i requires 0 <= i < |ids| => mounts[ids[i]].path)
  }

  function MatchingOf(mounts: Mounts.Rows, ids: seq<string>, path: string): set<string> {
    set x | x in ids && x in mounts && Like.Matches(mounts[x].path + "%", path)
  }

  lemma MatchingSnoc(mounts: Mounts.Rows, ids: seq<string>, last: string, path: string)
    requires last in mounts && last !in ids
    ensures |MatchingOf(mounts, ids + [last], path)|
         == |MatchingOf(mounts, ids, path)| + if Like.Matches(mounts[last].path + "%", path) then 1 else 0
  {
    var matching := MatchingOf(mounts, ids, path);
    assert last !in matching;
    assert MatchingOf(mounts, ids + [last], path)
        == if Like.Matches(mounts[last].path + "%", path) then matching + {last} else matching;
  }

  lemma AsksSnoc(mounts: Mounts.Rows, ids: seq<string>, last: string, path: string)
    requires last in mounts && forall i | 0 <= i < |ids| :: ids[i] in mounts
    ensures Asks(PathsOf(mounts, ids + [last]), path)
         == Asks(PathsOf(mounts, ids), path) + if Like.Matches(mounts[last].path + "%", path) then 1 else 0
  {
    assert PathsOf(mounts, ids + [last])[..|ids|] == PathsOf(mounts, ids);
  }

  lemma {:induction false} AsksAreCounted(mounts: Mounts.Rows, ids: seq<string>, path: string)
    requires forall i | 0 <= i < |ids| :: ids[i] in mounts
    requires forall i, j | 0 <= i < j < |ids| :: ids[i] != ids[j]
    ensures Asks(PathsOf(mounts, ids), path) == |MatchingOf(mounts, ids, path)|
  {
    if ids != [] {
      var n := |ids| - 1;
      AsksAreCounted(mounts, ids[..n], path);
      AsksSnoc(mounts, ids[..n], ids[n], path);
      MatchingSnoc(mounts, ids[..n], ids[n], path);
      assert ids == ids[..n] + [ids[n]];
    }
  }

  lemma ListedOnce(mounts: Mounts.Rows, ids: seq<string>, ns: string)
    requires Mounts.Listed(mounts, ids, ns)
    ensures forall i, j | 0 <= i < j < |ids| :: ids[i] != ids[j]
  {
    forall i, j | 0 <= i < j < |ids| ensures ids[i] != ids[j] {
      Strings.LessIsStrict(mounts[ids[i]].path, mounts[ids[j]].path);
    }
  }

  lemma ListedOrder(mounts: Mounts.Rows, ids: seq<string>, ns: string, i: nat, j: nat)
    requires Mounts.Listed(mounts, ids, ns) && i < |ids| && j < |ids| && ids[i] in mounts && ids[j] in mounts
    ensures i < j <==> Strings.Less(mounts[ids[i]].path, mounts[ids[j]].path)
  {
    Strings.LessIsStrict(mounts[ids[i]].path, mounts[ids[j]].path);
  }

  lemma ListedUpTo(mounts: Mounts.Rows, ids: seq<string>, ns: string, n: nat, x: string)
    requires Mounts.Listed(mounts, ids, ns) && n < |ids| && x in ids && ids[n] in mounts && x in mounts
    ensures x in ids[..n + 1] <==> !Strings.Less(mounts[ids[n]].path, mounts[x].path)
  {
    var j :| 0 <= j < |ids| && ids[j] == x;
    ListedOrder(mounts, ids, ns, n, j);
    ListedOnce(mounts, ids, ns);
    if j <= n {
      assert ids[..n + 1][j] == x;
    } else {
      assert forall i | 0 <= i <= n :: ids[i] != ids[j];
    }
  }

  // In the listing of the namespace these are the mounts up to this one.
  lemma AskedUpTo(mounts: Mounts.Rows, ids: seq<string>, ns: string, n: nat)
    requires Mounts.Listed(mounts, ids, ns) && n < |ids|
    ensures forall i | 0 <= i < |ids| :: ids[i] in mounts
    ensures Asks(PathsOf(mounts, ids[..n + 1]), mounts[ids[n]].path) == |AskedBy(mounts, ids[n])|
  {
    assert forall i | 0 <= i < |ids| :: ids[i] in ids;
    var m, upTo := ids[n], ids[..n + 1];
    ListedOnce(mounts, ids, ns);
    AsksAreCounted(mounts, upTo, mounts[m].path);
    assert MatchingOf(mounts, upTo, mounts[m].path) == AskedBy(mounts, m) by {
      assert forall x | x in upTo :: x in ids;
      forall x | x in ids ensures x in upTo <==> !Strings.Less(mounts[m].path, mounts[x].path) {
        ListedUpTo(mounts, ids, ns, n, x);
      }
    }
  }

  // At its turn a mount's own leases are gone exactly if none survives.
  lemma OwnGoneIff(leases: Rows, mounts: Mounts.Rows, ids: seq<string>, ns: string, answers: Answers, n: nat)
    requires Mounts.Listed(mounts, ids, ns) && n < |ids|
    ensures forall i | 0 <= i < |ids| :: ids[i] in mounts
    ensures MountRemoval.OwnLeases(LeasesAfterMounts(leases, PathsOf(mounts, ids[..n + 1]), ns, answers), mounts[ids[n]].path, ns) == {}
      <==> !Survives(leases, mounts, answers, ids[n])
  {
    var m := ids[n];
    var path, paths := mounts[m].path, PathsOf(mounts, ids[..n + 1]);
    var after := LeasesAfterMounts(leases, paths, ns, answers);
    assert m in ids;
    AskedUpTo(mounts, ids, ns, n);
    forall k ensures k in MountRemoval.OwnLeases(after, path, ns)
      <==> k in MountRemoval.OwnLeases(leases, path, ns) && AfterAsks(k, leases[k], answers, |AskedBy(mounts, m)|).Some?
    {
      if k in leases { SurvivesAsksIff(k, leases[k], answers, Asks(paths, leases[k].issuedMountPath)); }
    }
  }

  // ---------- All mounts of the namespace ----------

  ghost function Outside(leases: Rows, nss: set<string>): Rows {
    map k | k in leases && k.namespaceId !in nss :: leases[k]
  }

  lemma ElsewhereAfterMounts(leases: Rows, paths: seq<string>, ns: string, answers: Answers)
    ensures Outside(LeasesAfterMounts(leases, paths, ns, answers), {ns}) == Outside(leases, {ns})
  {}

  lemma LeaseGone(leases: Rows, mounts: Mounts.Rows, ids: seq<string>, ns: string, answers: Answers, k: LeaseKey, n: nat)
    requires Mounts.Listed(mounts, ids, ns) && n < |ids| && k in MountRemoval.OwnLeases(leases, mounts[ids[n]].path, ns)
    requires !Survives(leases, mounts, answers, ids[n])
    ensures forall i | 0 <= i < |ids| :: ids[i] in mounts
    ensures End(k, leases[k], PathsOf(mounts, ids), answers).None?
  {
    AskedUpTo(mounts, ids, ns, n);
    var path := mounts[ids[n]].path;
    var asked, all := Asks(PathsOf(mounts, ids[..n + 1]), path), Asks(PathsOf(mounts, ids), path);
    assert AfterAsks(k, leases[k], answers, asked).None? by { assert ids[n] in ids; }
    assert PathsOf(mounts, ids)[..n + 1] == PathsOf(mounts, ids[..n + 1]);
    AsksGrow(PathsOf(mounts, ids), n + 1, path);
    SurvivesAsksIff(k, leases[k], answers, asked);
    SurvivesAsksIff(k, leases[k], answers, all);
  }

  // When none survives, no lease of the namespace is left.
  lemma AllGone(leases: Rows, mounts: Mounts.Rows, ids: seq<string>, ns: string, answers: Answers)
    requires Mounts.Listed(mounts, ids, ns) && MountRemoval.Issued(leases, mounts)
    requires forall m | m in ids :: !Survives(leases, mounts, answers, m)
    ensures forall i | 0 <= i < |ids| :: ids[i] in mounts
    ensures LeasesAfterMounts(leases, PathsOf(mounts, ids), ns, answers) == Outside(leases, {ns})
  {
    assert forall i | 0 <= i < |ids| :: ids[i] in ids;
    forall k | k in leases && k.namespaceId == ns ensures End(k, leases[k], PathsOf(mounts, ids), answers).None? {
      var m :| Mounts.At(mounts, m, leases[k].issuedMountPath, ns);
      assert m in ids;
      var n :| 0 <= n < |ids| && ids[n] == m;
      LeaseGone(leases, mounts, ids, ns, answers, k, n);
    }
  }
}
