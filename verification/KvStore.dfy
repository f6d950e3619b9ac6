/** The versioned key-value store, one request at a time. */
module KvStore {
  import opened Wrappers

  const DEFAULT_MAX_VERSIONS: nat := 10

  type Version = nat

  datatype Id = Id(key: string, version: Version)

  datatype Secret = Secret(value: Option<string>, deleted: bool, destroyed: bool)

  type Rows = map<Id, Secret>

  datatype Error = KeyVersionNotFound | VersionConflict

  // The CHECK of the table: a secret has a value unless it is destroyed.
  predicate DestroyedSecret(s: Secret) {
    s.destroyed <==> s.value.None?
  }

  predicate Checked(rows: Rows) {
    forall id | id in rows :: DestroyedSecret(rows[id])
  }

  function Versions(rows: Rows, key: string): set<Version> {
    set id | id in rows && id.key == key :: id.version
  }

  lemma InVersions(rows: Rows, key: string, v: Version)
    ensures v in Versions(rows, key) <==> Id(key, v) in rows
  {
    if Id(key, v) in rows { assert Id(key, v).version in Versions(rows, key); }
  }

  // ---------- The newest and the oldest version ----------

  predicate IsNewest(vs: set<Version>, m: Version) {
    if vs == {} then m == 0 else m in vs && forall v | v in vs :: v <= m
  }

  predicate IsOldest(vs: set<Version>, m: Version) {
    if vs == {} then m == 0 else m in vs && forall v | v in vs :: m <= v
  }

  ghost function NewestOf(vs: set<Version>): (m: Version)
    ensures IsNewest(vs, m)
  {
    if vs == {} then 0
    else
      var v :| v in vs;
      var m := NewestOf(vs - {v});
      assert vs == (vs - {v}) + {v};
      if vs == {v} || m < v then v else m
  }

  ghost function Newest(rows: Rows, key: string): Version {
    NewestOf(Versions(rows, key))
  }

  // ---------- What the statements do ----------

  function SoftDeleted(rows: Rows, key: string, vs: seq<Version>): Rows {
    map id | id in rows :: if id.key == key && id.version in vs then rows[id].(deleted := true) else rows[id]
  }

  function Recovered(rows: Rows, key: string, vs: seq<Version>): Rows {
    map id | id in rows ::
      if id.key == key && id.version in vs && !rows[id].destroyed then rows[id].(deleted := false) else rows[id]
  }

  function HardDeleted(rows: Rows, key: string, vs: seq<Version>): Rows {
    map id | id in rows :: if id.key == key && id.version in vs then Secret(None, true, true) else rows[id]
  }

  ghost function Pruned(rows: Rows, key: string, maxVersions: nat): Rows {
    map id | id in rows && !(id.key == key && id.version <= Newest(rows, key) - maxVersions) :: rows[id]
  }

  ghost function Added(rows: Rows, key: string, value: string, maxVersions: nat): Rows {
    Pruned(rows[Id(key, Newest(rows, key) + 1) := Secret(Some(value), false, false)], key, maxVersions)
  }

  // All that an addition may do: what has left the window of its key goes, the new version
  // comes, and every other row stays as it was.
  ghost predicate NothingElse(rows: Rows, after: Rows, key: string, version: Version, value: string, max: nat) {
    && (forall id | id != Id(key, version) :: id in after <==> id in rows && (id.key != key || id.version > version - max))
    && (forall id | id in after && id != Id(key, version) :: after[id] == rows[id])
    && (Id(key, version) in after ==> after[Id(key, version)] == Secret(Some(value), false, false))
  }

  // The requested versions that have no row, in order.
  function Missing(rows: Rows, key: string, vs: seq<Version>): seq<Version> {
    if vs == [] then []
    else
      var last := vs[|vs| - 1];
      Missing(rows, key, vs[..|vs| - 1]) + if Id(key, last) in rows then [] else [last]
  }

  // The requested versions that have no row, or a destroyed one.
  function Unrecoverable(rows: Rows, key: string, vs: seq<Version>): seq<Version> {
    if vs == [] then []
    else
      var last := vs[|vs| - 1];
      Unrecoverable(rows, key, vs[..|vs| - 1]) + if Id(key, last) in rows && !rows[Id(key, last)].destroyed then [] else [last]
  }

  // What a read returns.
  function Visible(s: Secret): Option<string> {
    if !s.deleted && !s.destroyed then s.value else None
  }

  // One version more.
  lemma SoftDeletedSnoc(rows: Rows, key: string, vs: seq<Version>, v: Version)
    ensures
      var before, id := SoftDeleted(rows, key, vs), Id(key, v);
      && (id in before <==> id in rows)
      && SoftDeleted(rows, key, vs + [v]) == if id in rows then before[id := before[id].(deleted := true)] else before
  {}

  lemma RecoveredSnoc(rows: Rows, key: string, vs: seq<Version>, v: Version)
    ensures
      var before, id := Recovered(rows, key, vs), Id(key, v);
      && (id in before <==> id in rows)
      && (id in rows ==> before[id].destroyed == rows[id].destroyed)
      && Recovered(rows, key, vs + [v]) ==
           if id in rows && !rows[id].destroyed then before[id := before[id].(deleted := false)] else before
  {}

  lemma HardDeletedSnoc(rows: Rows, key: string, vs: seq<Version>, v: Version)
    ensures
      var before, id := HardDeleted(rows, key, vs), Id(key, v);
      && (id in before <==> id in rows)
      && HardDeleted(rows, key, vs + [v]) == if id in rows then before[id := Secret(None, true, true)] else before
  {}

  class Repo {
    var rows: Rows
    var maxVersions: Option<nat>

    constructor ()
      ensures rows == map[] && maxVersions == None
    {
      rows := map[];
      maxVersions := None;
    }

    method VersionMetadata(key: string) returns (min: Version, max: Version)
      ensures IsOldest(Versions(rows, key), min) && IsNewest(Versions(rows, key), max)
    {
      var vs := Versions(rows, key);
      if vs == {} {
        return 0, 0;
      }
      var v :| v in vs;
      min, max := v, v;
      var rest := vs - {v};
      assert vs - rest == {v};
      while rest != {}
        invariant rest < vs
        invariant IsOldest(vs - rest, min) && IsNewest(vs - rest, max)
        decreases rest
      {
        v :| v in rest;
        assert vs - (rest - {v}) == (vs - rest) + {v};
        if v < min { min := v; }
        if v > max { max := v; }
        rest := rest - {v};
      }
      assert vs - rest == vs;
    }

    method SoftDelete(key: string, vs: seq<Version>) returns (notDeleted: seq<Version>)
      modifies this`rows
      ensures rows == SoftDeleted(old(rows), key, vs)
      ensures notDeleted == Missing(old(rows), key, vs)
    {
      notDeleted := [];
      for i := 0 to |vs|
        invariant rows == SoftDeleted(old(rows), key, vs[..i])
        invariant notDeleted == Missing(old(rows), key, vs[..i])
      {
        var id := Id(key, vs[i]);
        SoftDeletedSnoc(old(rows), key, vs[..i], vs[i]);
        assert vs[..i + 1] == vs[..i] + [vs[i]];
        ReportsAppend(old(rows), key, vs[..i], [vs[i]]);
        ReportsOne(old(rows), key, vs[i]);
        if id in rows {
          rows := rows[id := rows[id].(deleted := true)];
        } else {
          notDeleted := notDeleted + [vs[i]];
        }
      }
      assert vs[..|vs|] == vs;
    }

    method Recover(key: string, vs: seq<Version>) returns (notRecovered: seq<Version>)
      modifies this`rows
      ensures rows == Recovered(old(rows), key, vs)
      ensures notRecovered == Unrecoverable(old(rows), key, vs)
    {
      notRecovered := [];
      for i := 0 to |vs|
        invariant rows == Recovered(old(rows), key, vs[..i])
        invariant notRecovered == Unrecoverable(old(rows), key, vs[..i])
      {
        var id := Id(key, vs[i]);
        RecoveredSnoc(old(rows), key, vs[..i], vs[i]);
        assert vs[..i + 1] == vs[..i] + [vs[i]];
        ReportsAppend(old(rows), key, vs[..i], [vs[i]]);
        ReportsOne(old(rows), key, vs[i]);
        if id in rows && !rows[id].destroyed {
          rows := rows[id := rows[id].(deleted := false)];
        } else {
          notRecovered := notRecovered + [vs[i]];
        }
      }
      assert vs[..|vs|] == vs;
    }

    method HardDelete(key: string, vs: seq<Version>) returns (notDeleted: seq<Version>)
      modifies this`rows
      ensures rows == HardDeleted(old(rows), key, vs)
      ensures notDeleted == Missing(old(rows), key, vs)
    {
      notDeleted := [];
      for i := 0 to |vs|
        invariant rows == HardDeleted(old(rows), key, vs[..i])
        invariant notDeleted == Missing(old(rows), key, vs[..i])
      {
        var id := Id(key, vs[i]);
        HardDeletedSnoc(old(rows), key, vs[..i], vs[i]);
        assert vs[..i + 1] == vs[..i] + [vs[i]];
        ReportsAppend(old(rows), key, vs[..i], [vs[i]]);
        ReportsOne(old(rows), key, vs[i]);
        if id in rows {
          rows := rows[id := Secret(None, true, true)];
        } else {
          notDeleted := notDeleted + [vs[i]];
        }
      }
      assert vs[..|vs|] == vs;
    }

    // The primary key refuses a version that exists.
    method Insert(key: string, version: Version, value: string) returns (ok: bool)
      modifies this`rows
      ensures ok <==> Id(key, version) !in old(rows)
      ensures rows == if ok then old(rows)[Id(key, version) := Secret(Some(value), false, false)] else old(rows)
    {
      ok := Id(key, version) !in rows;
      if ok {
        rows := rows[Id(key, version) := Secret(Some(value), false, false)];
      }
    }

    method PruneOldVersions(key: string, max: nat)
      modifies this`rows
      ensures rows == Pruned(old(rows), key, max)
      ensures forall id :: id in rows <==> id in old(rows) && (id.key != key || id.version > Newest(old(rows), key) - max)
      ensures forall id | id in rows :: rows[id] == old(rows)[id]
    {
      var _, newest := VersionMetadata(key);
      rows := map id | id in rows && !(id.key == key && id.version <= newest - max) :: rows[id];
    }

    method LoadConfig() returns (max: nat)
      modifies this`maxVersions
      ensures maxVersions == Some(max) && max == old(maxVersions).GetOr(DEFAULT_MAX_VERSIONS)
    {
      if maxVersions.None? {
        maxVersions := Some(DEFAULT_MAX_VERSIONS);
      }
      max := maxVersions.value;
    }

    method AddSecret(key: string, value: string) returns (r: Result<(Version, Version, Version), Error>)
      modifies this
      ensures var max := old(maxVersions).GetOr(DEFAULT_MAX_VERSIONS);
        rows == Added(old(rows), key, value, max) && maxVersions == Some(max)
      ensures r.Ok? && r.value.0 == Newest(old(rows), key) + 1
      ensures NothingElse(old(rows), rows, key, r.value.0, value, old(maxVersions).GetOr(DEFAULT_MAX_VERSIONS))
      ensures IsOldest(Versions(rows, key), r.value.1) && IsNewest(Versions(rows, key), r.value.2)
    {
      var _, newest := VersionMetadata(key);
      var ok := Insert(key, newest + 1, value);
      if !ok {
        InVersions(rows, key, newest + 1);
        assert false;
        return Err(VersionConflict);
      }
      var max := LoadConfig();
      PruneOldVersions(key, max);
      AddedKeeps(old(rows), key, value, max);
      var oldest, newestNow := VersionMetadata(key);
      r := Ok((newest + 1, oldest, newestNow));
    }

    method ReadSecret(key: string, version: Option<Version>) returns (r: Result<Option<string>, Error>)
      ensures
        var id := Id(key, version.GetOr(Newest(rows, key)));
        r == if id in rows then Ok(Visible(rows[id])) else Err(KeyVersionNotFound)
    {
      var _, newest := VersionMetadata(key);
      var v := version.GetOr(newest);
      if Id(key, v) !in rows {
        return Err(KeyVersionNotFound);
      }
      var secret := rows[Id(key, v)];
      r := Ok(if !secret.deleted && !secret.destroyed then secret.value else None);
    }
  }

  // ---------- The lists that come back ----------

  // A version is reported exactly as often as it was asked for and is missing, and the
  // order is that of the request.
  lemma {:induction false} MissingExactly(rows: Rows, key: string, vs: seq<Version>, v: Version)
    ensures
      multiset(Missing(rows, key, vs))[v] == if Id(key, v) in rows then 0 else multiset(vs)[v]
  {
    if vs != [] {
      var init, last := vs[..|vs| - 1], vs[|vs| - 1];
      assert vs == init + [last];
      MissingExactly(rows, key, init, v);
    }
  }

  // The two lists, version by version and in the order of the request: a soft or hard deletion
  // reports what has no row, a recovery what has none or a destroyed one.
  lemma {:induction false} ReportsAppend(rows: Rows, key: string, a: seq<Version>, b: seq<Version>)
    ensures Missing(rows, key, a + b) == Missing(rows, key, a) + Missing(rows, key, b)
    ensures Unrecoverable(rows, key, a + b) == Unrecoverable(rows, key, a) + Unrecoverable(rows, key, b)
  {
    if b == [] {
      assert a + b == a;
    } else {
      var n := |b| - 1;
      assert (a + b)[..|a + b| - 1] == a + b[..n];
      ReportsAppend(rows, key, a, b[..n]);
    }
  }

  lemma ReportsOne(rows: Rows, key: string, v: Version)
    ensures Missing(rows, key, [v]) == if Id(key, v) in rows then [] else [v]
    ensures Unrecoverable(rows, key, [v]) == if Id(key, v) in rows && !rows[Id(key, v)].destroyed then [] else [v]
  {
    assert [v][..0] == [];
  }

  // Only what cannot be soft-deleted or is destroyed cannot be recovered.
  lemma {:induction false} UnrecoverableAfterSoftDelete(rows: Rows, key: string, vs: seq<Version>, us: seq<Version>)
    ensures Unrecoverable(SoftDeleted(rows, key, us), key, vs) == Unrecoverable(rows, key, vs)
    ensures Checked(rows) && (forall id | id in rows && id.key == key && id.version in vs :: rows[id].value.Some?)
      ==> Unrecoverable(rows, key, vs) == Missing(rows, key, vs)
  {
    if vs != [] {
      var init, last := vs[..|vs| - 1], vs[|vs| - 1];
      assert vs == init + [last];
      UnrecoverableAfterSoftDelete(rows, key, init, us);
      if Id(key, last) in rows { assert DestroyedSecret(rows[Id(key, last)]) || !Checked(rows); }
    }
  }

  // ---------- Deleting and recovering ----------

  // Recovering undoes a soft deletion exactly if each of the versions was as deleted as it
  // was destroyed.
  lemma RecoverUndoesSoftDelete(rows: Rows, key: string, vs: seq<Version>)
    ensures Recovered(SoftDeleted(rows, key, vs), key, vs) == rows <==>
      forall v | v in vs && Id(key, v) in rows :: rows[Id(key, v)].deleted == rows[Id(key, v)].destroyed
  {
    var back := Recovered(SoftDeleted(rows, key, vs), key, vs);
    assert back.Keys == rows.Keys;
    if forall v | v in vs && Id(key, v) in rows :: rows[Id(key, v)].deleted == rows[Id(key, v)].destroyed {
      forall id | id in rows ensures back[id] == rows[id] {
        if id.key == key && id.version in vs { assert id == Id(key, id.version); }
      }
    } else {
      var v :| v in vs && Id(key, v) in rows && rows[Id(key, v)].deleted != rows[Id(key, v)].destroyed;
      assert back[Id(key, v)] != rows[Id(key, v)];
    }
  }

  // What a reader sees of a version after a soft deletion and after its recovery.
  lemma ReadersView(rows: Rows, key: string, vs: seq<Version>, v: Version)
    requires Checked(rows) && Id(key, v) in rows && v in vs
    ensures Visible(SoftDeleted(rows, key, vs)[Id(key, v)]) == None
    ensures Visible(Recovered(SoftDeleted(rows, key, vs), key, vs)[Id(key, v)]) == rows[Id(key, v)].value
    ensures Visible(Recovered(HardDeleted(rows, key, vs), key, vs)[Id(key, v)]) == None
  {
    assert DestroyedSecret(rows[Id(key, v)]);
  }

  // ---------- Histories ----------

  datatype Change =
    | Add(key: string, value: string, maxVersions: nat)
    | SoftDelete(key: string, versions: seq<Version>)
    | Recover(key: string, versions: seq<Version>)
    | HardDelete(key: string, versions: seq<Version>)

  ghost function Apply(rows: Rows, c: Change): Rows {
    match c
    case Add(key, value, max) => Added(rows, key, value, max)
    case SoftDelete(key, vs) => SoftDeleted(rows, key, vs)
    case Recover(key, vs) => Recovered(rows, key, vs)
    case HardDelete(key, vs) => HardDeleted(rows, key, vs)
  }

  ghost function ApplyAll(rows: Rows, cs: seq<Change>): Rows {
    if cs == [] then rows else Apply(ApplyAll(rows, cs[..|cs| - 1]), cs[|cs| - 1])
  }

  predicate KeepsSomething(cs: seq<Change>) {
    forall i | 0 <= i < |cs| && cs[i].Add? :: cs[i].maxVersions >= 1
  }

  lemma NewestIs(vs: set<Version>, m: Version)
    requires IsNewest(vs, m)
    ensures NewestOf(vs) == m
  {}

  lemma SameVersions(rows: Rows, c: Change, key: string)
    requires !c.Add? || c.key != key
    ensures Versions(Apply(rows, c), key) == Versions(rows, key)
  {
    var after := Apply(rows, c);
    forall v: Version ensures v in Versions(after, key) <==> v in Versions(rows, key) {
      InVersions(after, key, v);
      InVersions(rows, key, v);
    }
  }

  lemma VersionsAfterAdd(rows: Rows, key: string, value: string, max: nat)
    ensures
      var newest := Newest(rows, key) + 1;
      var after := Added(rows, key, value, max);
      Versions(after, key) == set v | v in Versions(rows, key) + {newest} && v > newest - max
  {
    var newest := Newest(rows, key) + 1;
    var with := rows[Id(key, newest) := Secret(Some(value), false, false)];
    forall v: Version ensures v in Versions(with, key) <==> v in Versions(rows, key) + {newest} {
      InVersions(with, key, v);
      InVersions(rows, key, v);
    }
    assert newest in Versions(with, key);
    NewestIs(Versions(with, key), newest);
    var after := Added(rows, key, value, max);
    forall v: Version ensures v in Versions(after, key) <==> v in Versions(rows, key) + {newest} && v > newest - max {
      InVersions(after, key, v);
      InVersions(with, key, v);
    }
  }

  lemma AddedKeeps(rows: Rows, key: string, value: string, max: nat)
    ensures NothingElse(rows, Added(rows, key, value, max), key, Newest(rows, key) + 1, value, max)
  {
    var newest := Newest(rows, key) + 1;
    VersionsAfterAdd(rows, key, value, max);
    forall id: Id | id.key == key ensures id in Added(rows, key, value, max) <==> (id in rows || id.version == newest) && id.version > newest - max {
      InVersions(Added(rows, key, value, max), key, id.version);
      InVersions(rows, key, id.version);
      assert id == Id(key, id.version);
    }
  }

  // The same for one row.
  lemma AddedRow(rows: Rows, key: string, value: string, max: nat, id: Id)
    requires id != Id(key, Newest(rows, key) + 1)
    ensures id in Added(rows, key, value, max) <==> id in rows && (id.key == key ==> id.version > Newest(rows, key) + 1 - max)
    ensures id in Added(rows, key, value, max) ==> Added(rows, key, value, max)[id] == rows[id]
  {
    AddedKeeps(rows, key, value, max);
  }

  // The secret just added can be read exactly if at least one version is kept.
  lemma AddedIsReadable(rows: Rows, key: string, value: string, max: nat)
    ensures
      var id := Id(key, Newest(rows, key) + 1);
      var after := Added(rows, key, value, max);
      && (id in after <==> max >= 1)
      && (max >= 1 ==> Newest(after, key) == id.version && Visible(after[id]) == Some(value))
  {
    var id := Id(key, Newest(rows, key) + 1);
    VersionsAfterAdd(rows, key, value, max);
    InVersions(Added(rows, key, value, max), key, id.version);
    if max >= 1 { NewestIs(Versions(Added(rows, key, value, max), key), id.version); }
  }

  // The live versions are those after some `low` up to the newest.
  ghost predicate Interval(rows: Rows, key: string, low: Version) {
    low <= Newest(rows, key) && forall v: Version :: v in Versions(rows, key) <==> low < v <= Newest(rows, key)
  }

  lemma {:induction false} StepKeepsInterval(rows: Rows, c: Change, key: string, low: Version) returns (low': Version)
    requires Interval(rows, key, low) && (c.Add? ==> c.maxVersions >= 1)
    ensures Interval(Apply(rows, c), key, low')
    ensures Newest(rows, key) <= Newest(Apply(rows, c), key)
    ensures c.Add? && c.key == key ==> Newest(Apply(rows, c), key) == Newest(rows, key) + 1 && low' >= Newest(Apply(rows, c), key) - c.maxVersions
  {
    low' := low;
    if c.Add? && c.key == key {
      var newest := Newest(rows, key) + 1;
      VersionsAfterAdd(rows, key, c.value, c.maxVersions);
      AddedIsReadable(rows, key, c.value, c.maxVersions);
      if newest - c.maxVersions > low { low' := newest - c.maxVersions; }
    } else {
      SameVersions(rows, c, key);
    }
  }

  // In every history whose limit, however it changes, keeps at least one version, the live
  // versions form one interval that ends at the newest; right after an addition it holds
  // no more than the limit of that moment.
  lemma {:induction false} LiveVersionsContiguous(cs: seq<Change>, key: string) returns (low: Version)
    requires KeepsSomething(cs)
    ensures Interval(ApplyAll(map[], cs), key, low)
    ensures cs != [] && cs[|cs| - 1].Add? && cs[|cs| - 1].key == key ==>
      Newest(ApplyAll(map[], cs), key) - low <= cs[|cs| - 1].maxVersions
  {
    if cs == [] {
      low := 0;
    } else {
      low := LiveVersionsContiguous(cs[..|cs| - 1], key);
      low := StepKeepsInterval(ApplyAll(map[], cs[..|cs| - 1]), cs[|cs| - 1], key, low);
    }
  }

  lemma {:induction false} HistoriesKeepCheck(cs: seq<Change>)
    ensures Checked(ApplyAll(map[], cs))
  {
    if cs != [] {
      HistoriesKeepCheck(cs[..|cs| - 1]);
    }
  }

  // Gone for good: whatever happens next, a version that was destroyed is either still
  // destroyed, with no value, or has no row.
  ghost predicate GoneForGood(rows: Rows, id: Id) {
    id.version <= Newest(rows, id.key) && (id in rows ==> rows[id].destroyed && rows[id].value.None?)
  }

  lemma StepKeepsGone(rows: Rows, c: Change, id: Id)
    requires GoneForGood(rows, id) && (c.Add? && c.key == id.key ==> c.maxVersions >= 1)
    ensures GoneForGood(Apply(rows, c), id)
  {
    if c.Add? && c.key == id.key {
      AddedIsReadable(rows, c.key, c.value, c.maxVersions);
    } else {
      SameVersions(rows, c, id.key);
    }
  }

  // Readable again, as if it had never been destroyed.
  ghost predicate Back(rows: Rows, id: Id) {
    id in rows && Visible(rows[id]).Some?
  }

  // A limit of 0 leaves no version, so the count starts over.
  lemma ZeroLimitForgets(rows: Rows, key: string, value: string)
    ensures Newest(Added(rows, key, value, 0), key) == 0
  {
    VersionsAfterAdd(rows, key, value, 0);
    var after := Added(rows, key, value, 0);
    assert forall v | v in Versions(rows, key) :: v <= Newest(rows, key);
    assert Versions(after, key) == {};
  }

  function Additions(key: string, value: string, n: nat): seq<Change> {
    seq(n, i requires 0 <= i < n => Add(key, value, 1))
  }

  lemma {:induction false} ApplyAllConcat(rows: Rows, a: seq<Change>, b: seq<Change>)
    ensures ApplyAll(rows, a + b) == ApplyAll(ApplyAll(rows, a), b)
  {
    if b == [] {
      assert a + b == a;
    } else {
      var n := |b| - 1;
      assert (a + b)[..|a + b| - 1] == a + b[..n];
      ApplyAllConcat(rows, a, b[..n]);
    }
  }

  // Additions to a key without versions give out 1, 2, and so on.
  lemma {:induction false} AdditionsCount(rows: Rows, key: string, value: string, n: nat)
    requires Newest(rows, key) == 0
    ensures Newest(ApplyAll(rows, Additions(key, value, n)), key) == n
    ensures n > 0 ==> Back(ApplyAll(rows, Additions(key, value, n)), Id(key, n))
  {
    if n > 0 {
      AdditionsCount(rows, key, value, n - 1);
      var all := Additions(key, value, n);
      assert all[..|all| - 1] == Additions(key, value, n - 1);
      var before := ApplyAll(rows, all[..|all| - 1]);
      assert all[|all| - 1] == Add(key, value, 1);
      assert ApplyAll(rows, all) == Added(before, key, value, 1);
      AddedIsReadable(before, key, value, 1);
    }
  }

  predicate KeepsKey(cs: seq<Change>, key: string) {
    forall i | 0 <= i < |cs| && cs[i].Add? && cs[i].key == key :: cs[i].maxVersions >= 1
  }

  lemma {:induction false} DestroyedStaysDestroyed(rows: Rows, cs: seq<Change>, id: Id)
    requires Checked(rows) && id in rows && rows[id].destroyed && KeepsKey(cs, id.key)
    ensures GoneForGood(ApplyAll(rows, cs), id)
  {
    if cs == [] {
      InVersions(rows, id.key, id.version);
      assert DestroyedSecret(rows[id]);
    } else {
      DestroyedStaysDestroyed(rows, cs[..|cs| - 1], id);
      StepKeepsGone(ApplyAll(rows, cs[..|cs| - 1]), cs[|cs| - 1], id);
    }
  }

  // Destroyed for ever: after no part of the history can additions that keep something bring
  // the version back, exactly if no addition to the key has had a limit of 0.
  lemma DestroyedForeverIff(rows: Rows, cs: seq<Change>, id: Id)
    requires Checked(rows) && id in rows && rows[id].destroyed && id.version > 0
    ensures (forall n, more | 0 <= n <= |cs| && KeepsKey(more, id.key) :: !Back(ApplyAll(rows, cs[..n] + more), id))
      <==> KeepsKey(cs, id.key)
  {
    if KeepsKey(cs, id.key) {
      forall n, more | 0 <= n <= |cs| && KeepsKey(more, id.key) ensures !Back(ApplyAll(rows, cs[..n] + more), id) {
        DestroyedStaysDestroyed(rows, cs[..n] + more, id);
      }
    } else {
      var i :| 0 <= i < |cs| && cs[i].Add? && cs[i].key == id.key && cs[i].maxVersions == 0;
      var before := cs[..i + 1];
      assert before[..|before| - 1] == cs[..i];
      ZeroLimitForgets(ApplyAll(rows, cs[..i]), id.key, cs[i].value);
      var more := Additions(id.key, "", id.version);
      AdditionsCount(ApplyAll(rows, before), id.key, "", id.version);
      ApplyAllConcat(rows, before, more);
      assert KeepsKey(more, id.key) && Back(ApplyAll(rows, cs[..i + 1] + more), id);
    }
  }

  // Version 1 is destroyed, an addition with a limit of 0 forgets it, the next one gives it
  // out again.
  lemma ZeroLimitRevives(key: string, value: string, secret: string)
    ensures
      var id := Id(key, 1);
      var rows := map[id := Secret(None, true, true)];
      && Checked(rows) && Back(ApplyAll(rows, [Add(key, value, 0)] + Additions(key, secret, 1)), id)
  {
    var rows := map[Id(key, 1) := Secret(None, true, true)];
    var cs := [Add(key, value, 0)];
    assert cs[..0] == [] && ApplyAll(rows, cs[..0]) == rows;
    ZeroLimitForgets(rows, key, value);
    AdditionsCount(ApplyAll(rows, cs), key, secret, 1);
    ApplyAllConcat(rows, cs, Additions(key, secret, 1));
  }

  // ---------- What a history makes of one version ----------

  // How often the key has been added to.
  function AddCount(cs: seq<Change>, key: string): nat {
    if cs == [] then 0
    else
      var last := cs[|cs| - 1];
      AddCount(cs[..|cs| - 1], key) + if last.Add? && last.key == key then 1 else 0
  }

  // The i-th change adds this version: it is the version-th addition to the key.
  predicate AddedBy(cs: seq<Change>, i: nat, id: Id) {
    i < |cs| && cs[i].Add? && cs[i].key == id.key && AddCount(cs[..i + 1], id.key) == id.version
  }

  // From its addition on it has been among the newest that the limits kept.
  ghost predicate InWindow(cs: seq<Change>, i: nat, id: Id) {
    forall j | i <= j < |cs| && cs[j].Add? && cs[j].key == id.key :: id.version > AddCount(cs[..j + 1], id.key) - cs[j].maxVersions
  }

  predicate HardDeletedBy(c: Change, id: Id) {
    c.HardDelete? && c.key == id.key && id.version in c.versions
  }

  predicate SoftDeletedBy(c: Change, id: Id) {
    c.SoftDelete? && c.key == id.key && id.version in c.versions
  }

  predicate RecoveredBy(c: Change, id: Id) {
    c.Recover? && c.key == id.key && id.version in c.versions
  }

  ghost predicate DestroyedSince(cs: seq<Change>, i: nat, id: Id) {
    exists j | i < j < |cs| :: HardDeletedBy(cs[j], id)
  }

  // The last soft deletion or recovery that names it was a deletion.
  ghost predicate DeletedSince(cs: seq<Change>, i: nat, id: Id) {
    exists j | i < j < |cs| :: SoftDeletedBy(cs[j], id) && forall k | j < k < |cs| :: !RecoveredBy(cs[k], id)
  }

  lemma {:induction false} NewestCounts(cs: seq<Change>, key: string)
    requires KeepsKey(cs, key)
    ensures Newest(ApplyAll(map[], cs), key) == AddCount(cs, key)
  {
    if cs == [] {
      assert Versions(map[], key) == {};
    } else {
      var before, last := ApplyAll(map[], cs[..|cs| - 1]), cs[|cs| - 1];
      NewestCounts(cs[..|cs| - 1], key);
      if last.Add? && last.key == key {
        AddedIsReadable(before, key, last.value, last.maxVersions);
      } else {
        SameVersions(before, last, key);
      }
    }
  }

  lemma {:induction false} AddCountGrows(cs: seq<Change>, n: nat, key: string)
    requires n <= |cs|
    ensures AddCount(cs[..n], key) <= AddCount(cs, key)
  {
    if n < |cs| {
      assert cs[..|cs| - 1][..n] == cs[..n];
      AddCountGrows(cs[..|cs| - 1], n, key);
    } else {
      assert cs[..n] == cs;
    }
  }

  // The row of a version after its addition and what followed.
  ghost predicate RowOf(rows: Rows, cs: seq<Change>, i: nat, id: Id)
    requires i < |cs| && cs[i].Add?
  {
    && (id in rows <==> InWindow(cs, i, id))
    && (id in rows ==>
          rows[id] == if DestroyedSince(cs, i, id) then Secret(None, true, true)
                      else Secret(Some(cs[i].value), DeletedSince(cs, i, id), false))
  }

  lemma JustAdded(cs: seq<Change>, id: Id)
    requires cs != [] && AddedBy(cs, |cs| - 1, id) && cs[|cs| - 1].maxVersions >= 1
    ensures var n := |cs| - 1; InWindow(cs, n, id) && !DestroyedSince(cs, n, id) && !DeletedSince(cs, n, id)
  {}

  // The addition itself.
  lemma RowAdded(cs: seq<Change>, id: Id)
    requires KeepsKey(cs, id.key) && cs != [] && AddedBy(cs, |cs| - 1, id)
    ensures RowOf(ApplyAll(map[], cs), cs, |cs| - 1, id)
  {
    var n := |cs| - 1;
    var before, last := ApplyAll(map[], cs[..n]), cs[n];
    JustAdded(cs, id);
    NewestCounts(cs[..n], id.key);
    assert id == Id(id.key, Newest(before, id.key) + 1) by {
      assert cs[..n + 1] == cs;
    }
    AddedIsReadable(before, id.key, last.value, last.maxVersions);
    AddedKeeps(before, id.key, last.value, last.maxVersions);
    assert ApplyAll(map[], cs) == Added(before, id.key, last.value, last.maxVersions);
  }

  // One more change after it.
  lemma WindowSnoc(cs: seq<Change>, i: nat, id: Id)
    requires i + 1 < |cs|
    ensures
      var init, last := cs[..|cs| - 1], cs[|cs| - 1];
      InWindow(cs, i, id) <==>
        InWindow(init, i, id) && (last.Add? && last.key == id.key ==> id.version > AddCount(cs, id.key) - last.maxVersions)
  {
    var n := |cs| - 1;
    assert cs[..n + 1] == cs;
    assert forall j | 0 <= j < n :: cs[..n][..j + 1] == cs[..j + 1] && cs[..n][j] == cs[j];
  }

  lemma SinceSnoc(cs: seq<Change>, i: nat, id: Id)
    requires i + 1 < |cs|
    ensures
      var init, last := cs[..|cs| - 1], cs[|cs| - 1];
      && (DestroyedSince(cs, i, id) <==> DestroyedSince(init, i, id) || HardDeletedBy(last, id))
      && (DeletedSince(cs, i, id) <==> SoftDeletedBy(last, id) || (DeletedSince(init, i, id) && !RecoveredBy(last, id)))
  {
    var n := |cs| - 1;
    var init, last := cs[..n], cs[n];
    assert forall j | 0 <= j < n :: init[j] == cs[j];
    if SoftDeletedBy(last, id) { assert i < n < |cs| && SoftDeletedBy(cs[n], id); }
    if DeletedSince(init, i, id) && !RecoveredBy(last, id) {
      var j :| i < j < n && SoftDeletedBy(init[j], id) && forall k | j < k < n :: !RecoveredBy(init[k], id);
      assert SoftDeletedBy(cs[j], id) && forall k | j < k < |cs| :: !RecoveredBy(cs[k], id);
    }
    if DeletedSince(cs, i, id) && !SoftDeletedBy(last, id) {
      var j :| i < j < |cs| && SoftDeletedBy(cs[j], id) && forall k | j < k < |cs| :: !RecoveredBy(cs[k], id);
      assert j < n && SoftDeletedBy(init[j], id);
    }
  }

  lemma NewerThan(cs: seq<Change>, i: nat, id: Id)
    requires KeepsKey(cs, id.key) && AddedBy(cs, i, id)
    ensures id.version <= Newest(ApplyAll(map[], cs), id.key) == AddCount(cs, id.key)
  {
    NewestCounts(cs, id.key);
    AddCountGrows(cs, i + 1, id.key);
  }

  lemma RowAfterAdd(init: seq<Change>, i: nat, last: Change, id: Id)
    requires KeepsKey(init, id.key) && AddedBy(init, i, id) && last.Add?
    ensures
      var before := ApplyAll(map[], init);
      var after := Added(before, last.key, last.value, last.maxVersions);
      && (id in after <==> id in before && (last.key == id.key ==> id.version > AddCount(init, id.key) + 1 - last.maxVersions))
      && (id in after ==> after[id] == before[id])
  {
    NewerThan(init, i, id);
    AddedRow(ApplyAll(map[], init), last.key, last.value, last.maxVersions, id);
  }

  lemma RowAfterOther(rows: Rows, c: Change, id: Id)
    requires !c.Add?
    ensures id in Apply(rows, c) <==> id in rows
    ensures id in rows ==>
      var row := rows[id];
      Apply(rows, c)[id] ==
        if HardDeletedBy(c, id) then Secret(None, true, true)
        else if SoftDeletedBy(c, id) then row.(deleted := true)
        else if RecoveredBy(c, id) && !row.destroyed then row.(deleted := false)
        else row
  {}

  lemma Unfold(cs: seq<Change>, key: string)
    requires cs != []
    ensures
      var init, last := cs[..|cs| - 1], cs[|cs| - 1];
      && ApplyAll(map[], cs) == Apply(ApplyAll(map[], init), last)
      && AddCount(cs, key) == AddCount(init, key) + if last.Add? && last.key == key then 1 else 0
  {}

  lemma RowChanged(cs: seq<Change>, i: nat, id: Id)
    requires KeepsKey(cs, id.key) && i + 1 < |cs| && AddedBy(cs, i, id)
    requires RowOf(ApplyAll(map[], cs[..|cs| - 1]), cs[..|cs| - 1], i, id)
    ensures RowOf(ApplyAll(map[], cs), cs, i, id)
  {
    var init, last := cs[..|cs| - 1], cs[|cs| - 1];
    Unfold(cs, id.key);
    WindowSnoc(cs, i, id);
    SinceSnoc(cs, i, id);
    if last.Add? {
      assert init[..i + 1] == cs[..i + 1];
      RowAfterAdd(init, i, last, id);
    } else {
      RowAfterOther(ApplyAll(map[], init), last, id);
    }
  }

  lemma {:induction false} RowInHistory(cs: seq<Change>, i: nat, id: Id)
    requires KeepsKey(cs, id.key) && AddedBy(cs, i, id)
    ensures RowOf(ApplyAll(map[], cs), cs, i, id)
  {
    var n := |cs| - 1;
    if i == n {
      RowAdded(cs, id);
    } else {
      assert cs[..n][..i + 1] == cs[..i + 1];
      RowInHistory(cs[..n], i, id);
      RowChanged(cs, i, id);
    }
  }

  // THE HISTORY OF A VERSION.  With limits that keep something: the version-th value added to a
  // key is there exactly while it is in the window, and it can be read exactly if no hard
  // deletion since has named it and the last soft deletion or recovery to do so, if any, was no
  // deletion. Nothing else that happens to the key or to others matters.
  lemma HistoryOfVersion(cs: seq<Change>, i: nat, id: Id)
    requires KeepsKey(cs, id.key) && AddedBy(cs, i, id)
    ensures id in ApplyAll(map[], cs) <==> InWindow(cs, i, id)
    ensures id in ApplyAll(map[], cs) ==>
      Visible(ApplyAll(map[], cs)[id]) ==
        if DestroyedSince(cs, i, id) || DeletedSince(cs, i, id) then None else Some(cs[i].value)
  {
    RowInHistory(cs, i, id);
  }

  // And there are no versions but those that were added.
  lemma {:induction false} OnlyAddedVersions(cs: seq<Change>, id: Id) returns (i: nat)
    requires KeepsKey(cs, id.key) && id in ApplyAll(map[], cs)
    ensures AddedBy(cs, i, id)
  {
    var n := |cs| - 1;
    var init, last := cs[..n], cs[n];
    if last.Add? && last.key == id.key && id.version == AddCount(init, id.key) + 1 {
      i := n;
      assert cs[..n + 1] == cs;
    } else {
      StillThere(init, last, id);
      i := OnlyAddedVersions(init, id);
      assert init[..i + 1] == cs[..i + 1];
    }
  }

  lemma StillThere(init: seq<Change>, last: Change, id: Id)
    requires KeepsKey(init, id.key) && id in Apply(ApplyAll(map[], init), last)
    requires !(last.Add? && last.key == id.key && id.version == AddCount(init, id.key) + 1)
    ensures id in ApplyAll(map[], init)
  {
    if last.Add? {
      NewestCounts(init, id.key);
      AddedRow(ApplyAll(map[], init), last.key, last.value, last.maxVersions, id);
    } else {
      RowAfterOther(ApplyAll(map[], init), last, id);
    }
  }
}
