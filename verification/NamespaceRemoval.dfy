/** Removing a namespace with everything below it. */
module NamespaceRemoval {
  import opened Wrappers
  import opened Namespaces
  import opened LeaseTrail
  import Leases
  import LeaseWorker
  import Like
  import MountRemoval
  import Mounts

  // Whether leases of a mount are left when it comes to its removal.
  type LeasesLeft = string -> bool

  // The state that a removal works on.
  datatype Snapshot = Snapshot(namespaces: Rows, mounts: Mounts.Rows, backends: set<string>, tables: set<string>, leases: Leases.Rows)

  ghost function Surviving(s: Snapshot, answers: Answers): LeasesLeft {
    m => Survives(s.leases, s.mounts, answers, m)
  }

  ghost predicate Foretells(s: Snapshot, answers: Answers, left: LeasesLeft) {
    forall m | m in s.mounts :: left(m) <==> Survives(s.leases, s.mounts, answers, m)
  }

  // The foreign key of mounts.
  ghost predicate Placed(s: Snapshot) {
    forall m | m in s.mounts :: s.mounts[m].namespaceId in s.namespaces
  }

  ghost function Subtree(rows: Rows, rank: map<string, nat>, id: string): set<string>
    requires Forest(rows, rank)
  {
    set d | d in rows && Under(rows, rank, d, id)
  }

  ghost function MountsIn(mounts: Mounts.Rows, ids: set<string>): set<string> {
    set m | m in mounts && mounts[m].namespaceId in ids
  }

  predicate Drops(mounts: Mounts.Rows, m: string, table: string) {
    m in mounts && Like.Matches(Mounts.StoragePrefix(Mounts.OwnerOf(m, mounts[m])) + "%", table)
  }

  // The tables that the lookups for these mounts select.
  ghost function Dropped(s: Snapshot, ms: set<string>): set<string> {
    set t | t in s.tables && exists m :: m in ms && Drops(s.mounts, m, t)
  }

  // Exactly these namespaces and mounts are gone, with their backends and tables, and what is
  // left is as it was.
  ghost predicate Removed(s: Snapshot, s': Snapshot, ids: set<string>, ms: set<string>) {
    && s'.namespaces == s.namespaces - ids
    && s'.mounts == s.mounts - ms
    && s'.backends == s.backends - ms
    && s'.tables == s.tables - Dropped(s, ms)
  }

  // Nothing but these namespaces and mounts is touched.
  ghost predicate Touched(s: Snapshot, s': Snapshot, ids: set<string>, ms: set<string>) {
    && LeftOver(s.namespaces, s'.namespaces) && s.namespaces.Keys - ids <= s'.namespaces.Keys
    && s'.mounts.Keys <= s.mounts.Keys && s.mounts.Keys - ms <= s'.mounts.Keys
    && (forall m | m in s'.mounts :: s'.mounts[m] == s.mounts[m])
    && s.backends - ms <= s'.backends <= s.backends
    && s.tables - Dropped(s, ms) <= s'.tables <= s.tables
  }

  ghost predicate CanRemove(s: Snapshot, left: LeasesLeft, m: string) {
    m in s.mounts && !s.mounts[m].variant.System? && m in s.backends && !left(m)
  }

  ghost predicate AllRemovable(s: Snapshot, left: LeasesLeft, ms: set<string>) {
    forall m | m in ms :: CanRemove(s, left, m)
  }

  // ---------- Composing steps ----------

  lemma RemovedTwice(s: Snapshot, s1: Snapshot, s2: Snapshot, a: set<string>, x: set<string>, b: set<string>, y: set<string>)
    requires Removed(s, s1, a, x) && Removed(s1, s2, b, y)
    ensures Removed(s, s2, a + b, x + y)
  {}

  lemma RemovedThenTouched(s: Snapshot, s1: Snapshot, s2: Snapshot, a: set<string>, x: set<string>, b: set<string>, y: set<string>)
    requires Removed(s, s1, a, x) && Touched(s1, s2, b, y)
    ensures Touched(s, s2, a + b, x + y)
  {}

  lemma TouchedWidens(s: Snapshot, s': Snapshot, a: set<string>, x: set<string>, b: set<string>, y: set<string>)
    requires Touched(s, s', a, x) && a <= b && x <= y
    ensures Touched(s, s', b, y)
  {}

  lemma RemovableAfter(s: Snapshot, s': Snapshot, left: LeasesLeft, ids: set<string>, gone: set<string>, ms: set<string>)
    requires Removed(s, s', ids, gone) && gone !! ms && ms <= s.mounts.Keys
    ensures AllRemovable(s', left, ms) <==> AllRemovable(s, left, ms)
  {
    forall m | m in ms ensures CanRemove(s', left, m) <==> CanRemove(s, left, m) {}
  }

  lemma MountsInAfter(s: Snapshot, s': Snapshot, ids: set<string>, gone: set<string>, more: set<string>)
    requires Removed(s, s', ids, gone) && gone !! MountsIn(s.mounts, more)
    ensures MountsIn(s'.mounts, more) == MountsIn(s.mounts, more)
  {}

  // ---------- Leases ----------

  // The leases of these namespaces are gone, and no others.
  ghost predicate LeasesGone(s: Snapshot, s': Snapshot, ids: set<string>) {
    s'.leases == Outside(s.leases, ids)
  }

  ghost predicate LeasesTouched(s: Snapshot, s': Snapshot, ids: set<string>) {
    Outside(s'.leases, ids) == Outside(s.leases, ids)
  }

  lemma LeasesGoneTwice(s: Snapshot, s1: Snapshot, s2: Snapshot, a: set<string>, b: set<string>)
    requires LeasesGone(s, s1, a) && LeasesGone(s1, s2, b)
    ensures LeasesGone(s, s2, a + b)
  {}

  lemma LeasesGoneThenTouched(s: Snapshot, s1: Snapshot, s2: Snapshot, a: set<string>, b: set<string>)
    requires LeasesGone(s, s1, a) && LeasesTouched(s1, s2, b)
    ensures LeasesTouched(s, s2, a + b)
  {
    OutsideTwice(s1.leases, b, a);
    OutsideTwice(s2.leases, b, a);
    OutsideTwice(s.leases, a, b);
    assert b + a == a + b;
    OutsideTwice(s.leases, a, a + b);
    assert a + (a + b) == a + b;
  }

  lemma OutsideTwice(leases: Leases.Rows, a: set<string>, b: set<string>)
    ensures Outside(Outside(leases, a), b) == Outside(leases, a + b)
  {}

  lemma LeasesTouchedWidens(s: Snapshot, s': Snapshot, a: set<string>, b: set<string>)
    requires LeasesTouched(s, s', a) && a <= b
    ensures LeasesTouched(s, s', b)
  {
    OutsideTwice(s.leases, a, b);
    OutsideTwice(s'.leases, a, b);
    assert a + b == b;
  }

  // What was foretold for the mounts of other namespaces stays so.
  lemma ForetoldAfter(s: Snapshot, s': Snapshot, answers: Answers, left: LeasesLeft, ids: set<string>)
    requires Foretells(s, answers, left)
    requires s'.mounts == s.mounts - MountsIn(s.mounts, ids) && LeasesGone(s, s', ids)
    ensures Foretells(s', answers, left)
  {
    forall m | m in s'.mounts ensures Survives(s'.leases, s'.mounts, answers, m) <==> Survives(s.leases, s.mounts, answers, m) {
      assert AskedBy(s'.mounts, m) == AskedBy(s.mounts, m);
      var path, ns := s.mounts[m].path, s.mounts[m].namespaceId;
      assert MountRemoval.OwnLeases(s'.leases, path, ns) == MountRemoval.OwnLeases(s.leases, path, ns);
    }
  }

  // ---------- Subtrees while they are being removed ----------

  // Everything below the first n of the given children.
  ghost function Below(rows: Rows, rank: map<string, nat>, children: seq<string>, n: nat): set<string>
    requires Forest(rows, rank) && n <= |children|
  {
    if n == 0 then {} else Below(rows, rank, children, n - 1) + Subtree(rows, rank, children[n - 1])
  }

  ghost predicate AreChildren(rows: Rows, children: seq<string>, id: string) {
    && (forall c :: c in children <==> IsChild(rows, c, id))
    && (forall i, j | 0 <= i < j < |children| :: children[i] != children[j])
  }

  lemma {:induction false} InBelow(rows: Rows, rank: map<string, nat>, children: seq<string>, n: nat, d: string)
    requires Forest(rows, rank) && n <= |children|
    ensures d in Below(rows, rank, children, n) <==> d in rows && exists j :: 0 <= j < n && Under(rows, rank, d, children[j])
  {
    if n > 0 { InBelow(rows, rank, children, n - 1, d); }
  }

  // The subtree of the next child is still whole.
  lemma NextChildWhole(rows: Rows, rank: map<string, nat>, rows': Rows, children: seq<string>, n: nat, id: string)
    requires Forest(rows, rank) && Forest(rows', rank) && AreChildren(rows, children, id) && n < |children|
    requires rows' == rows - Below(rows, rank, children, n)
    ensures Subtree(rows, rank, children[n]) !! Below(rows, rank, children, n)
    ensures Subtree(rows', rank, children[n]) == Subtree(rows, rank, children[n])
    ensures IsChild(rows', children[n], id)
  {
    var c := children[n];
    assert c in children;
    forall d | d in Subtree(rows, rank, c) ensures d !in Below(rows, rank, children, n) {
      InBelow(rows, rank, children, n, d);
      if j :| 0 <= j < n && Under(rows, rank, d, children[j]) {
        assert children[j] in children;
        SiblingsDisjoint(rows, rank, d, children[j], c);
      }
    }
    forall d | d in rows' ensures Under(rows', rank, d, c) == Under(rows, rank, d, c) {
      UnderLeftOver(rows, rank, rows', d, c);
    }
    assert Under(rows, rank, c, c);
  }

  // A subtree is its root and what is below the root's children.
  lemma SubtreeSplits(rows: Rows, rank: map<string, nat>, children: seq<string>, id: string)
    requires Forest(rows, rank) && AreChildren(rows, children, id) && id in rows
    ensures Subtree(rows, rank, id) == Below(rows, rank, children, |children|) + {id}
    ensures id !in Below(rows, rank, children, |children|)
  {
    forall d ensures d in Subtree(rows, rank, id) && d != id <==> d in Below(rows, rank, children, |children|) {
      InBelow(rows, rank, children, |children|, d);
      if d in Subtree(rows, rank, id) && d != id {
        var c := UnderChild(rows, rank, d, id);
        assert c in children;
      }
      if j :| d in rows && 0 <= j < |children| && Under(rows, rank, d, children[j]) {
        assert children[j] in children;
        ChildIsUnder(rows, rank, d, children[j], id);
      }
    }
  }

  lemma EachIsChild(rows: Rows, children: seq<string>, id: string)
    requires AreChildren(rows, children, id)
    ensures forall j | 0 <= j < |children| :: IsChild(rows, children[j], id)
  {
    assert forall j | 0 <= j < |children| :: children[j] in children;
  }

  lemma SubtreeAbsent(rows: Rows, rank: map<string, nat>, children: seq<string>, id: string)
    requires Forest(rows, rank) && AreChildren(rows, children, id) && id !in rows
    ensures Subtree(rows, rank, id) == {} && Below(rows, rank, children, |children|) == {}
  {
    forall d | d in rows ensures !Under(rows, rank, d, id) {
      if Under(rows, rank, d, id) { RankUnder(rows, rank, d, id); }
    }
    EachIsChild(rows, children, id);
    forall d ensures d !in Below(rows, rank, children, |children|) {
      InBelow(rows, rank, children, |children|, d);
    }
  }

  ghost predicate Bounded(rank: map<string, nat>, bound: nat) {
    forall i | i in rank :: rank[i] <= bound
  }

  lemma {:induction false} BoundOf(rank: map<string, nat>) returns (bound: nat)
    ensures Bounded(rank, bound)
    decreases |rank|
  {
    bound := 0;
    if rank != map[] {
      var i :| i in rank;
      var rest := rank - {i};
      assert rest.Keys == rank.Keys - {i};
      bound := BoundOf(rest);
      if bound < rank[i] { bound := rank[i]; }
      assert forall j | j in rank && j != i :: j in rest && rest[j] == rank[j];
    }
  }

  ghost function Height(rank: map<string, nat>, bound: nat, id: string): nat
    requires Bounded(rank, bound)
  {
    if id in rank then bound - rank[id] else 0
  }

  lemma ChildIsLower(rows: Rows, rank: map<string, nat>, bound: nat, child: string, id: string)
    requires Forest(rows, rank) && Bounded(rank, bound) && IsChild(rows, child, id)
    ensures Height(rank, bound, child) < Height(rank, bound, id)
  {}

  // ---------- The removal ----------

  // Whether the removal of a namespace goes through, and what it then leaves.
  ghost predicate Outcome(s: Snapshot, s': Snapshot, rank: map<string, nat>, left: LeasesLeft, id: string, ok: bool)
    requires Forest(s.namespaces, rank)
  {
    var ids := Subtree(s.namespaces, rank, id);
    var ms := MountsIn(s.mounts, ids);
    && (ok <==> id in s.namespaces && s.namespaces[id].parent.Some? && AllRemovable(s, left, ms))
    && (ok ==> Removed(s, s', ids, ms) && LeasesGone(s, s', ids))
    && Touched(s, s', ids, ms) && LeasesTouched(s, s', ids)
  }

  // Where the removal stands after the first n children.
  ghost predicate ChildrenGone(s: Snapshot, s': Snapshot, rank: map<string, nat>, left: LeasesLeft, children: seq<string>, n: nat)
    requires Forest(s.namespaces, rank)
  {
    && n <= |children|
    && var ids := Below(s.namespaces, rank, children, n);
       var ms := MountsIn(s.mounts, ids);
       Removed(s, s', ids, ms) && AllRemovable(s, left, ms) && LeasesGone(s, s', ids)
  }

  // The removal ended at the n-th child.
  ghost predicate ChildFailed(s: Snapshot, s': Snapshot, rank: map<string, nat>, left: LeasesLeft, children: seq<string>, n: nat)
    requires Forest(s.namespaces, rank)
  {
    && 0 < n <= |children|
    && var ids := Below(s.namespaces, rank, children, n);
       var ms := MountsIn(s.mounts, ids);
       Touched(s, s', ids, ms) && !AllRemovable(s, left, ms) && LeasesTouched(s, s', ids)
  }

  lemma NoChildGone(s: Snapshot, rank: map<string, nat>, left: LeasesLeft, children: seq<string>)
    requires Forest(s.namespaces, rank)
    ensures ChildrenGone(s, s, rank, left, children, 0)
  {
    assert MountsIn(s.mounts, {}) == {};
  }

  lemma NextChildGone(s: Snapshot, s1: Snapshot, s2: Snapshot, rank: map<string, nat>, left: LeasesLeft,
                      children: seq<string>, n: nat, id: string, ok: bool)
    requires Forest(s.namespaces, rank) && Forest(s1.namespaces, rank)
    requires AreChildren(s.namespaces, children, id) && n < |children|
    requires ChildrenGone(s, s1, rank, left, children, n)
    requires Outcome(s1, s2, rank, left, children[n], ok)
    ensures ok ==> ChildrenGone(s, s2, rank, left, children, n + 1)
    ensures !ok ==> ChildFailed(s, s2, rank, left, children, n + 1)
  {
    var done := Below(s.namespaces, rank, children, n);
    var next := Subtree(s.namespaces, rank, children[n]);
    NextChildWhole(s.namespaces, rank, s1.namespaces, children, n, id);
    MountsInAfter(s, s1, done, MountsIn(s.mounts, done), next);
    RemovableAfter(s, s1, left, done, MountsIn(s.mounts, done), MountsIn(s.mounts, next));
    assert MountsIn(s.mounts, done + next) == MountsIn(s.mounts, done) + MountsIn(s.mounts, next);
    RemovedThenTouched(s, s1, s2, done, MountsIn(s.mounts, done), next, MountsIn(s.mounts, next));
    LeasesGoneThenTouched(s, s1, s2, done, next);
    if ok {
      RemovedTwice(s, s1, s2, done, MountsIn(s.mounts, done), next, MountsIn(s.mounts, next));
      LeasesGoneTwice(s, s1, s2, done, next);
    }
  }

  lemma {:induction false} BelowGrows(rows: Rows, rank: map<string, nat>, children: seq<string>, n: nat, m: nat)
    requires Forest(rows, rank) && n <= m <= |children|
    ensures Below(rows, rank, children, n) <= Below(rows, rank, children, m)
  {
    if n < m { BelowGrows(rows, rank, children, n, m - 1); }
  }

  // A child that cannot be removed ends the removal.
  lemma ChildFails(s: Snapshot, s': Snapshot, rank: map<string, nat>, left: LeasesLeft, children: seq<string>, n: nat, id: string)
    requires Forest(s.namespaces, rank) && AreChildren(s.namespaces, children, id) && id in s.namespaces
    requires ChildFailed(s, s', rank, left, children, n)
    ensures Outcome(s, s', rank, left, id, false)
  {
    var ids := Below(s.namespaces, rank, children, n);
    BelowGrows(s.namespaces, rank, children, n, |children|);
    SubtreeSplits(s.namespaces, rank, children, id);
    TouchedWidens(s, s', ids, MountsIn(s.mounts, ids), Subtree(s.namespaces, rank, id), MountsIn(s.mounts, Subtree(s.namespaces, rank, id)));
    LeasesTouchedWidens(s, s', ids, Subtree(s.namespaces, rank, id));
  }

  lemma NextChildLower(s: Snapshot, s1: Snapshot, rank: map<string, nat>, left: LeasesLeft, children: seq<string>, n: nat,
                       id: string, bound: nat)
    requires Forest(s.namespaces, rank) && Forest(s1.namespaces, rank) && Bounded(rank, bound)
    requires AreChildren(s.namespaces, children, id) && n < |children|
    requires ChildrenGone(s, s1, rank, left, children, n)
    ensures Height(rank, bound, children[n]) < Height(rank, bound, id)
  {
    NextChildWhole(s.namespaces, rank, s1.namespaces, children, n, id);
    ChildIsLower(s1.namespaces, rank, bound, children[n], id);
  }

  lemma NextChildDone(s: Snapshot, s1: Snapshot, s2: Snapshot, rank: map<string, nat>, left: LeasesLeft,
                      children: seq<string>, n: nat, id: string, ok: bool)
    requires Forest(s.namespaces, rank) && Forest(s1.namespaces, rank) && id in s.namespaces
    requires AreChildren(s.namespaces, children, id) && n < |children|
    requires ChildrenGone(s, s1, rank, left, children, n)
    requires Outcome(s1, s2, rank, left, children[n], ok)
    ensures ok ==> ChildrenGone(s, s2, rank, left, children, n + 1)
    ensures !ok ==> Outcome(s, s2, rank, left, id, false)
  {
    NextChildGone(s, s1, s2, rank, left, children, n, id, ok);
    if !ok { ChildFails(s, s2, rank, left, children, n + 1, id); }
  }

  // Removing the mounts of one namespace: what becomes of them one by one.
  ghost predicate MountsOutcome(s: Snapshot, s': Snapshot, left: LeasesLeft, id: string, ok: bool) {
    var ms := MountsIn(s.mounts, {id});
    && (ok <==> AllRemovable(s, left, ms))
    && (ok ==> Removed(s, s', {}, ms) && LeasesGone(s, s', {id}))
    && Touched(s, s', {}, ms) && LeasesTouched(s, s', {id})
  }

  // The mounts of the namespace itself, once its children are gone.
  lemma OwnMountsGone(s: Snapshot, s1: Snapshot, s2: Snapshot, rank: map<string, nat>, left: LeasesLeft,
                      children: seq<string>, id: string, ok: bool)
    requires Forest(s.namespaces, rank) && AreChildren(s.namespaces, children, id) && id in s.namespaces
    requires ChildrenGone(s, s1, rank, left, children, |children|)
    requires MountsOutcome(s1, s2, left, id, ok)
    ensures
      var below := Below(s.namespaces, rank, children, |children|);
      var ms := MountsIn(s.mounts, Subtree(s.namespaces, rank, id));
      && (ok <==> AllRemovable(s, left, ms))
      && (ok ==> Removed(s, s2, below, ms) && LeasesGone(s, s2, below + {id}))
      && Touched(s, s2, below, ms) && LeasesTouched(s, s2, below + {id})
      && id in s2.namespaces && s2.namespaces[id] == s.namespaces[id]
  {
    var below := Below(s.namespaces, rank, children, |children|);
    var belowMs := MountsIn(s.mounts, below);
    var ownMs := MountsIn(s.mounts, {id});
    SubtreeSplits(s.namespaces, rank, children, id);
    MountsInAfter(s, s1, below, belowMs, {id});
    RemovableAfter(s, s1, left, below, belowMs, ownMs);
    assert MountsIn(s.mounts, below + {id}) == belowMs + ownMs;
    assert below + {} == below;
    RemovedThenTouched(s, s1, s2, below, belowMs, {}, ownMs);
    LeasesGoneThenTouched(s, s1, s2, below, {id});
    if ok {
      RemovedTwice(s, s1, s2, below, belowMs, {}, ownMs);
      LeasesGoneTwice(s, s1, s2, below, {id});
    }
  }

  lemma MountsFail(s: Snapshot, s1: Snapshot, s2: Snapshot, rank: map<string, nat>, left: LeasesLeft,
                   children: seq<string>, id: string)
    requires Forest(s.namespaces, rank) && AreChildren(s.namespaces, children, id) && id in s.namespaces
    requires ChildrenGone(s, s1, rank, left, children, |children|)
    requires MountsOutcome(s1, s2, left, id, false)
    ensures Outcome(s, s2, rank, left, id, false)
  {
    OwnMountsGone(s, s1, s2, rank, left, children, id, false);
    SubtreeSplits(s.namespaces, rank, children, id);
    var ms := MountsIn(s.mounts, Subtree(s.namespaces, rank, id));
    TouchedWidens(s, s2, Below(s.namespaces, rank, children, |children|), ms, Subtree(s.namespaces, rank, id), ms);
  }

  // The last step, with the children and the mounts out of the way.
  lemma LastStep(s: Snapshot, s1: Snapshot, s2: Snapshot, s3: Snapshot, rank: map<string, nat>, left: LeasesLeft,
                 children: seq<string>, id: string)
    requires Forest(s.namespaces, rank) && AreChildren(s.namespaces, children, id) && id in s.namespaces
    requires ChildrenGone(s, s1, rank, left, children, |children|)
    requires MountsOutcome(s1, s2, left, id, true)
    requires if s.namespaces[id].parent.Some? then Removed(s2, s3, {id}, {}) && s3.leases == s2.leases else s3 == s2
    ensures Outcome(s, s3, rank, left, id, s.namespaces[id].parent.Some?)
  {
    var below := Below(s.namespaces, rank, children, |children|);
    var ms := MountsIn(s.mounts, Subtree(s.namespaces, rank, id));
    OwnMountsGone(s, s1, s2, rank, left, children, id, true);
    SubtreeSplits(s.namespaces, rank, children, id);
    if s.namespaces[id].parent.Some? {
      RemovedTwice(s, s2, s3, below, ms, {id}, {});
      assert ms + {} == ms;
    } else {
      TouchedWidens(s, s2, below, ms, Subtree(s.namespaces, rank, id), ms);
    }
  }

  // There is nothing to do for a namespace that does not exist, and its deletion fails.
  lemma AbsentLeases(s: Snapshot, id: string)
    requires Placed(s) && MountRemoval.Issued(s.leases, s.mounts) && id !in s.namespaces
    ensures Outside(s.leases, {id}) == s.leases && Outside(s.leases, {}) == s.leases
  {
    forall k | k in s.leases ensures k.namespaceId != id {
      var m :| Mounts.At(s.mounts, m, s.leases[k].issuedMountPath, k.namespaceId);
    }
  }

  lemma AbsentOutcome(s: Snapshot, s1: Snapshot, s2: Snapshot, rank: map<string, nat>, left: LeasesLeft,
                      children: seq<string>, id: string, ok: bool)
    requires Forest(s.namespaces, rank) && AreChildren(s.namespaces, children, id) && id !in s.namespaces && Placed(s)
    requires MountRemoval.Issued(s.leases, s.mounts)
    requires ChildrenGone(s, s1, rank, left, children, |children|)
    requires MountsOutcome(s1, s2, left, id, ok)
    ensures ok && Outcome(s, s2, rank, left, id, false)
  {
    SubtreeAbsent(s.namespaces, rank, children, id);
    assert MountsIn(s.mounts, {}) == {} && MountsIn(s.mounts, {id}) == {};
    AbsentLeases(s, id);
  }

  lemma NoChildLeft(s: Snapshot, s1: Snapshot, rank: map<string, nat>, left: LeasesLeft, children: seq<string>, id: string)
    requires Forest(s.namespaces, rank) && AreChildren(s.namespaces, children, id)
    requires ChildrenGone(s, s1, rank, left, children, |children|)
    ensures forall c :: !IsChild(s1.namespaces, c, id)
  {
    forall c | IsChild(s.namespaces, c, id) ensures c !in s1.namespaces {
      assert c in children;
      InBelow(s.namespaces, rank, children, |children|, c);
      assert Under(s.namespaces, rank, c, c);
    }
  }

  // Where the removal of mounts stands with `rest` to go.
  ghost predicate MountsGone(s: Snapshot, s': Snapshot, left: LeasesLeft, all: set<string>, rest: set<string>) {
    rest <= all && Removed(s, s', {}, all - rest) && AllRemovable(s, left, all - rest)
  }

  lemma NoMountGone(s: Snapshot, left: LeasesLeft, all: set<string>)
    ensures MountsGone(s, s, left, all, all)
  {
    assert all - all == {};
  }

  lemma AllMountsGone(s: Snapshot, s': Snapshot, left: LeasesLeft, id: string)
    requires MountsGone(s, s', left, MountsIn(s.mounts, {id}), {}) && LeasesGone(s, s', {id})
    ensures MountsOutcome(s, s', left, id, true)
  {
    assert MountsIn(s.mounts, {id}) - {} == MountsIn(s.mounts, {id});
  }

  lemma NextMountGone(s: Snapshot, s1: Snapshot, s2: Snapshot, left: LeasesLeft, id: string, rest: set<string>, m: string, ok: bool)
    requires MountsGone(s, s1, left, MountsIn(s.mounts, {id}), rest) && m in rest
    requires ok <==> CanRemove(s1, left, m)
    requires (ok ==> Removed(s1, s2, {}, {m})) && Touched(s1, s2, {}, {m}) && LeasesTouched(s, s2, {id})
    ensures ok ==> MountsGone(s, s2, left, MountsIn(s.mounts, {id}), rest - {m})
    ensures !ok ==> MountsOutcome(s, s2, left, id, false)
  {
    var all := MountsIn(s.mounts, {id});
    RemovableAfter(s, s1, left, {}, all - rest, {m});
    assert m in {m};
    assert CanRemove(s, left, m) <==> ok;
    RemovedThenTouched(s, s1, s2, {}, all - rest, {}, {m});
    TouchedWidens(s, s2, {} + {}, all - rest + {m}, {}, all);
    if ok {
      RemovedTwice(s, s1, s2, {}, all - rest, {}, {m});
      assert all - (rest - {m}) == (all - rest) + {m};
    }
  }

  lemma NotInUse(mounts: Mounts.Rows, id: string)
    requires MountsIn(mounts, {id}) == {}
    ensures forall m | m in mounts :: mounts[m].namespaceId != id
  {
    forall m | m in mounts ensures mounts[m].namespaceId != id {
      assert m !in MountsIn(mounts, {id});
    }
  }

  lemma RowRemoved(s: Snapshot, id: string)
    requires Placed(s) && MountsIn(s.mounts, {id}) == {}
    ensures var s' := s.(namespaces := s.namespaces - {id}); Removed(s, s', {id}, {}) && Placed(s')
  {
    NotInUse(s.mounts, id);
  }

  // ---------- The mounts of one namespace ----------

  // The listing of the namespace, and what is left of it after n removals.
  ghost predicate ListingDone(s: Snapshot, s': Snapshot, answers: Answers, left: LeasesLeft, ids: seq<string>, id: string, n: nat) {
    && Mounts.Listed(s.mounts, ids, id) && n <= |ids|
    && (forall i | 0 <= i < |ids| :: ids[i] in s.mounts)
    && MountsGone(s, s', left, MountsIn(s.mounts, {id}), Rest(ids, n))
    && s'.leases == LeasesAfterMounts(s.leases, PathsOf(s.mounts, ids[..n]), id, answers)
  }

  function Rest(ids: seq<string>, n: nat): set<string> {
    set i | n <= i < |ids| :: ids[i]
  }

  lemma ListingStarts(s: Snapshot, answers: Answers, left: LeasesLeft, ids: seq<string>, id: string)
    requires Mounts.Listed(s.mounts, ids, id)
    ensures ListingDone(s, s, answers, left, ids, id, 0)
  {
    assert forall i | 0 <= i < |ids| :: ids[i] in ids;
    forall m ensures m in Rest(ids, 0) <==> m in MountsIn(s.mounts, {id}) {
      if m in MountsIn(s.mounts, {id}) { assert m in ids; }
    }
    NoMountGone(s, left, MountsIn(s.mounts, {id}));
    assert PathsOf(s.mounts, ids[..0]) == [];
    NoneAsked(s.leases, id, answers);
  }

  // One mount, on its own terms: the leases under its path are asked about, and it goes if
  // none of its own is left.
  ghost predicate MountOutcome(s: Snapshot, s': Snapshot, answers: Answers, id: string, m: string, ok: bool)
    requires m in s.mounts
  {
    var path := s.mounts[m].path;
    && (s.mounts[m].variant.System? ==> s'.leases == s.leases)
    && (!s.mounts[m].variant.System? ==>
          s'.leases == LeaseWorker.RevokedAll(s.leases, Leases.IssuedUnder(s.leases, path, id), Answering(s.leases, answers)))
    && (ok <==> !s.mounts[m].variant.System? && m in s.backends && MountRemoval.OwnLeases(s'.leases, path, id) == {})
    && (ok ==> Removed(s, s', {}, {m}))
    && Touched(s, s', {}, {m})
  }

  lemma NextListed(s: Snapshot, s1: Snapshot, s2: Snapshot, answers: Answers, left: LeasesLeft, ids: seq<string>, id: string,
                   n: nat, ok: bool)
    requires Foretells(s, answers, left) && ListingDone(s, s1, answers, left, ids, id, n) && n < |ids|
    requires ids[n] in s1.mounts && MountOutcome(s1, s2, answers, id, ids[n], ok)
    ensures ok ==> ListingDone(s, s2, answers, left, ids, id, n + 1)
    ensures !ok ==> MountsOutcome(s, s2, left, id, false)
  {
    var m := ids[n];
    var rest := Rest(ids, n);
    NextLeases(s, s1, s2, answers, left, ids, id, n, ok);
    assert m in rest;
    NextMountGone(s, s1, s2, left, id, rest, m, ok);
    RestSplits(s.mounts, ids, id, n);
  }

  lemma RestSplits(mounts: Mounts.Rows, ids: seq<string>, id: string, n: nat)
    requires Mounts.Listed(mounts, ids, id) && n < |ids|
    ensures Rest(ids, n) - {ids[n]} == Rest(ids, n + 1)
  {
    ListedOnce(mounts, ids, id);
  }

  lemma NextLeases(s: Snapshot, s1: Snapshot, s2: Snapshot, answers: Answers, left: LeasesLeft, ids: seq<string>, id: string,
                   n: nat, ok: bool)
    requires Foretells(s, answers, left) && ListingDone(s, s1, answers, left, ids, id, n) && n < |ids|
    requires ids[n] in s1.mounts && MountOutcome(s1, s2, answers, id, ids[n], ok)
    ensures ok <==> CanRemove(s1, left, ids[n])
    ensures !s1.mounts[ids[n]].variant.System? ==> s2.leases == LeasesAfterMounts(s.leases, PathsOf(s.mounts, ids[..n + 1]), id, answers)
    ensures LeasesTouched(s, s2, {id})
  {
    var m := ids[n];
    var path, paths := s.mounts[m].path, PathsOf(s.mounts, ids[..n]);
    assert s1.mounts[m] == s.mounts[m];
    assert PathsOf(s.mounts, ids[..n + 1]) == paths + [path];
    OneMoreRemoval(s.leases, paths, path, id, answers);
    OwnGoneIff(s.leases, s.mounts, ids, id, answers, n);
    ElsewhereAfterMounts(s.leases, paths, id, answers);
    ElsewhereAfterMounts(s.leases, paths + [path], id, answers);
  }

  lemma StillListed(s: Snapshot, s': Snapshot, answers: Answers, left: LeasesLeft, ids: seq<string>, id: string, n: nat)
    requires ListingDone(s, s', answers, left, ids, id, n) && n < |ids|
    ensures ids[n] in s'.mounts && s'.mounts[ids[n]] == s.mounts[ids[n]] && s.mounts[ids[n]].namespaceId == id
  {
    assert ids[n] in ids && ids[n] in Rest(ids, n);
  }

  lemma OneMountOutcome(s: Snapshot, s': Snapshot, answers: Answers, id: string, m: string, r: Result<string, Mounts.Error>)
    requires Mounts.UniquePaths(s.mounts) && m in s.mounts && s.mounts[m].namespaceId == id
    requires s'.namespaces == s.namespaces
    requires s'.leases == MountRemoval.LeasesAfter(s.leases, s.mounts, s.mounts[m].path, id, Answering(s.leases, answers))
    requires Mounts.MountState(s'.mounts, s'.backends)
      == Mounts.AfterRemove(Mounts.MountState(s.mounts, s.backends), s.mounts[m].path, id,
           MountRemoval.OwnLeases(s'.leases, s.mounts[m].path, id) != {})
    requires r.Ok? <==>
      && MountRemoval.OwnLeases(s'.leases, s.mounts[m].path, id) == {}
      && exists x :: Mounts.Removable(s.mounts, s.backends, x, s.mounts[m].path, id)
    requires r.Ok? ==> Mounts.At(s.mounts, r.value, s.mounts[m].path, id)
    requires s'.tables == if r.Ok? then s.tables - Mounts.TablesOf(s.tables, s.mounts, r.value) else s.tables
    ensures MountOutcome(s, s', answers, id, m, r.Ok?)
  {
    var path := s.mounts[m].path;
    assert forall x | Mounts.At(s.mounts, x, path, id) :: x == m;
    assert Mounts.At(s.mounts, m, path, id);
    assert MountRemoval.Known(s.mounts, m, path, id) <==> !s.mounts[m].variant.System?;
    assert Mounts.Removable(s.mounts, s.backends, m, path, id) <==> !s.mounts[m].variant.System? && m in s.backends;
    assert Dropped(s, {m}) == Mounts.TablesOf(s.tables, s.mounts, m) by {
      assert m in {m};
    }
  }

  lemma AllListedGone(s: Snapshot, s': Snapshot, answers: Answers, left: LeasesLeft, ids: seq<string>, id: string)
    requires Foretells(s, answers, left) && MountRemoval.Issued(s.leases, s.mounts)
    requires ListingDone(s, s', answers, left, ids, id, |ids|)
    ensures MountsOutcome(s, s', left, id, true)
  {
    var all := MountsIn(s.mounts, {id});
    assert Rest(ids, |ids|) == {} && all - {} == all;
    forall m | m in ids ensures !Survives(s.leases, s.mounts, answers, m) {
      assert m in all && CanRemove(s, left, m);
    }
    assert ids[..|ids|] == ids;
    AllGone(s.leases, s.mounts, ids, id, answers);
    AllMountsGone(s, s', left, id);
  }

  class Context {
    const namespaces: NamespaceRepo
    const mounts: Mounts.Context
    const manager: LeaseWorker.ExpirationManager

    constructor (namespaces: NamespaceRepo, mounts: Mounts.Context, manager: LeaseWorker.ExpirationManager)
      ensures this.namespaces == namespaces && this.mounts == mounts && this.manager == manager
    {
      this.namespaces := namespaces;
      this.mounts := mounts;
      this.manager := manager;
    }

    ghost function Now(): Snapshot
      reads namespaces, mounts, mounts.mountRepo, mounts.router, manager.repo
    {
      Snapshot(namespaces.rows, mounts.mountRepo.rows, mounts.router.backends, mounts.tables, manager.repo.rows)
    }

    // The foreign keys: of namespaces, of mounts, of leases.
    ghost predicate Valid()
      reads namespaces, mounts, mounts.mountRepo, mounts.router, manager.repo
    {
      && namespaces.Valid() && Mounts.UniquePaths(mounts.mountRepo.rows) && Placed(Now())
      && MountRemoval.Issued(manager.repo.rows, mounts.mountRepo.rows)
    }

    // RESTRICT has nothing to object to when the children and the mounts are gone.
    method DeleteRow(id: string) returns (ok: bool)
      requires Valid() && MountsIn(Now().mounts, {id}) == {}
      requires forall c :: !IsChild(Now().namespaces, c, id)
      modifies namespaces`rows
      ensures Valid()
      ensures ok == (id in old(Now()).namespaces && old(Now()).namespaces[id].parent.Some?)
      ensures if ok then Removed(old(Now()), Now(), {id}, {}) && Now().leases == old(Now()).leases else Now() == old(Now())
    {
      ghost var s := Now();
      NotInUse(s.mounts, id);
      var inUse := exists m | m in mounts.mountRepo.rows :: mounts.mountRepo.rows[m].namespaceId == id;
      assert !inUse;
      var deleted := namespaces.Delete(id, inUse);
      ok := deleted == Ok(true);
      if ok {
        assert Now().namespaces == s.namespaces - {id};
        RowRemoved(s, id);
        assert Now() == s.(namespaces := s.namespaces - {id});
      }
    }

    method RemoveMountOf(id: string, m: string, answers: Answers) returns (ok: bool)
      requires Valid() && m in mounts.mountRepo.rows && mounts.mountRepo.rows[m].namespaceId == id
      modifies mounts, mounts.mountRepo, mounts.router, manager.repo
      ensures Valid()
      ensures MountOutcome(old(Now()), Now(), answers, id, m, ok)
    {
      ghost var before := Now();
      var path := mounts.mountRepo.rows[m].path;
      var r := MountRemoval.RemoveMount(mounts, manager, path, id, Answering(manager.repo.rows, answers));
      ok := r.Ok?;
      OneMountOutcome(before, Now(), answers, id, m, r);
    }

    method RemoveMounts(id: string, answers: Answers, ghost left: LeasesLeft) returns (ok: bool)
      requires Valid() && Foretells(Now(), answers, left)
      modifies mounts, mounts.mountRepo, mounts.router, manager.repo
      ensures Valid()
      ensures MountsOutcome(old(Now()), Now(), left, id, ok)
    {
      ghost var s := Now();
      var ids := mounts.mountRepo.List(id);
      ListingStarts(s, answers, left, ids, id);
      var n := 0;
      while n < |ids|
        invariant 0 <= n <= |ids| && Valid()
        invariant ListingDone(s, Now(), answers, left, ids, id, n)
      {
        ghost var before := Now();
        StillListed(s, before, answers, left, ids, id, n);
        ok := RemoveMountOf(id, ids[n], answers);
        NextListed(s, before, Now(), answers, left, ids, id, n, ok);
        if !ok {
          return;
        }
        n := n + 1;
      }
      AllListedGone(s, Now(), answers, left, ids, id);
      ok := true;
    }

    // The n-th child, with all that is below it.
    method RemoveChild(child: string, answers: Answers, ghost left: LeasesLeft, ghost s: Snapshot, ghost children: seq<string>, ghost n: nat,
                       ghost id: string, ghost bound: nat)
      returns (ok: bool)
      requires Valid() && Bounded(namespaces.rank, bound)
      requires Forest(s.namespaces, namespaces.rank) && AreChildren(s.namespaces, children, id) && id in s.namespaces
      requires n < |children| && children[n] == child
      requires ChildrenGone(s, Now(), namespaces.rank, left, children, n) && Foretells(s, answers, left)
      modifies namespaces`rows, mounts, mounts.mountRepo, mounts.router, manager.repo
      ensures Valid()
      ensures ok ==> ChildrenGone(s, Now(), namespaces.rank, left, children, n + 1)
      ensures !ok ==> Outcome(s, Now(), namespaces.rank, left, id, false)
      decreases Height(namespaces.rank, bound, id), 0
    {
      ghost var before := Now();
      NextChildLower(s, before, namespaces.rank, left, children, n, id, bound);
      ForetoldAfter(s, before, answers, left, Below(s.namespaces, namespaces.rank, children, n));
      ok := DeleteSubtree(child, answers, left, bound);
      NextChildDone(s, before, Now(), namespaces.rank, left, children, n, id, ok);
    }

    // The children, up to the first that cannot be removed.
    method RemoveChildren(children: seq<string>, id: string, answers: Answers, ghost left: LeasesLeft, ghost bound: nat)
      returns (ok: bool)
      requires Valid() && Bounded(namespaces.rank, bound) && Foretells(Now(), answers, left)
      requires AreChildren(namespaces.rows, children, id)
      modifies namespaces`rows, mounts, mounts.mountRepo, mounts.router, manager.repo
      ensures Valid()
      ensures ok ==> ChildrenGone(old(Now()), Now(), namespaces.rank, left, children, |children|)
      ensures !ok ==> id in old(namespaces.rows) && Outcome(old(Now()), Now(), namespaces.rank, left, id, false)
      decreases Height(namespaces.rank, bound, id), 1
    {
      ghost var s := Now();
      EachIsChild(s.namespaces, children, id);
      NoChildGone(s, namespaces.rank, left, children);
      var i := 0;
      while i < |children|
        invariant 0 <= i <= |children| && Valid()
        invariant ChildrenGone(s, Now(), namespaces.rank, left, children, i)
      {
        assert IsChild(s.namespaces, children[i], id);
        ok := RemoveChild(children[i], answers, left, s, children, i, id, bound);
        if !ok {
          return;
        }
        i := i + 1;
      }
      ok := true;
    }

    // `left` foretells which mounts will keep leases, and `bound`, any bound of the ranks,
    // makes the recursion end.
    method DeleteSubtree(id: string, answers: Answers, ghost left: LeasesLeft, ghost bound: nat) returns (ok: bool)
      requires Valid() && Bounded(namespaces.rank, bound) && Foretells(Now(), answers, left)
      modifies namespaces`rows, mounts, mounts.mountRepo, mounts.router, manager.repo
      ensures Valid()
      ensures Outcome(old(Now()), Now(), namespaces.rank, left, id, ok)
      decreases Height(namespaces.rank, bound, id), 2
    {
      ghost var s := Now();
      ghost var rank := namespaces.rank;
      var children := namespaces.List(id);
      var childrenOk := RemoveChildren(children, id, answers, left, bound);
      if !childrenOk {
        return false;
      }
      ghost var s1 := Now();
      ForetoldAfter(s, s1, answers, left, Below(s.namespaces, rank, children, |children|));
      ok := RemoveMounts(id, answers, left);
      ghost var s2 := Now();
      if id !in s.namespaces {
        AbsentOutcome(s, s1, s2, rank, left, children, id, ok);
      } else if !ok {
        MountsFail(s, s1, s2, rank, left, children, id);
      } else {
        OwnMountsGone(s, s1, s2, rank, left, children, id, ok);
      }
      if !ok {
        return false;
      }
      NoChildLeft(s, s1, rank, left, children, id);
      assert MountsIn(s2.mounts, {id}) == {};
      ok := DeleteRow(id);
      if id in s.namespaces {
        LastStep(s, s1, s2, Now(), rank, left, children, id);
      }
    }

    method DeleteNamespace(id: string, answers: Answers) returns (ok: bool)
      requires Valid()
      modifies namespaces`rows, mounts, mounts.mountRepo, mounts.router, manager.repo
      ensures Valid()
      ensures Outcome(old(Now()), Now(), namespaces.rank, Surviving(old(Now()), answers), id, ok)
    {
      ghost var bound := BoundOf(namespaces.rank);
      ok := DeleteSubtree(id, answers, Surviving(Now(), answers), bound);
    }
  }
}
