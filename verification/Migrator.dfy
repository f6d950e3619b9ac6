/** Migrations: each mount's scripts are run on its own tables, each of them once. */
module Migrator {
  import opened Wrappers
  import opened SqlAst
  import opened SqlEval
  import opened SqlScope
  import opened SqlMeaning
  import opened SqlStatements
  import Strings
  import Mounts
  import SqlSchema

  datatype MigrationScript = MigrationScript(statements: seq<Statement>, description: string)

  datatype MigrationError = BadQuery | DatabaseError

  // The rows of the migrations table; mount and version are its primary key.
  datatype Key = Key(mountId: string, version: nat)

  type Records = map<Key, string>

  // The rewriting of a script for the prefix of a mount, and the execution of what comes
  // out; each may fail.
  type Rewriter = seq<Statement> -> Option<seq<Statement>>
  type Executor = (seq<Statement>, Tables) -> Option<Tables>

  // What becomes of the tables under a script.
  type Runner = (MigrationScript, Tables) -> Option<Tables>

  function InSequence(rewrite: Rewriter, exec: Executor): Runner {
    (m: MigrationScript, tables: Tables) =>
      match rewrite(m.statements)
      case None => None
      case Some(scoped) => exec(scoped, tables)
  }

  function Max(a: nat, b: nat): nat {
    if a < b then b else a
  }

  // ---------- One run ----------

  // The versions of the mount that are recorded are those below k.
  ghost predicate Recorded(records: Records, mountId: string, k: nat) {
    forall v: nat :: Key(mountId, v) in records <==> v < k
  }

  // How far a run gets that starts at version k: `lost` are the versions whose transaction
  // the database cannot commit.
  function Reached(run: Runner, scripts: seq<MigrationScript>, lost: nat -> bool, k: nat, tables: Tables): (nat, Tables)
    decreases |scripts| - k
  {
    if k >= |scripts| || lost(k) then (k, tables)
    else
      var after := run(scripts[k], tables);
      if after.None? then (k, tables) else Reached(run, scripts, lost, k + 1, after.value)
  }

  // How far a run has come: what is left of it is the rest of the run.
  ghost predicate Progress(run: Runner, scripts: seq<MigrationScript>, lost: nat -> bool, mountId: string,
                           done: nat, tables: Tables, records: Records, done': nat, tables': Tables, records': Records) {
    && Recorded(records', mountId, done')
    && (forall key: Key | key.mountId != mountId :: key in records' <==> key in records)
    && Reached(run, scripts, lost, done', tables') == Reached(run, scripts, lost, done, tables)
  }

  lemma OneMoreScript(run: Runner, scripts: seq<MigrationScript>, lost: nat -> bool, mountId: string,
                      done: nat, tables: Tables, records: Records,
                      version: nat, before: Tables, recordsBefore: Records, ok: bool, after: Tables, recordsAfter: Records)
    requires version < |scripts|
    requires Progress(run, scripts, lost, mountId, done, tables, records, version, before, recordsBefore)
    requires ok <==> run(scripts[version], before).Some? && !lost(version)
    requires ok ==> Some(after) == run(scripts[version], before)
    requires ok ==> recordsAfter == recordsBefore[Key(mountId, version) := scripts[version].description]
    requires !ok ==> after == before && recordsAfter == recordsBefore
    ensures ok ==> Progress(run, scripts, lost, mountId, done, tables, records, version + 1, after, recordsAfter)
    ensures !ok ==> Reached(run, scripts, lost, done, tables) == (version, after)
  {}

  lemma NothingLeft(run: Runner, scripts: seq<MigrationScript>, lost: nat -> bool, k: nat, tables: Tables)
    requires k >= |scripts|
    ensures Reached(run, scripts, lost, k, tables) == (k, tables)
  {}

  lemma LatestIsLast(records: Records, mountId: string, done: nat, latest: Option<nat>)
    requires Recorded(records, mountId, done)
    requires latest.None? <==> forall v: nat :: Key(mountId, v) !in records
    requires latest.Some? ==> Key(mountId, latest.value) in records
    requires latest.Some? ==> forall v: nat | Key(mountId, v) in records :: v <= latest.value
    ensures latest == if done == 0 then None else Some(done - 1)
  {
    if done > 0 { assert Key(mountId, done - 1) in records; }
  }

  class Database {
    var tables: Tables
    var records: Records

    constructor (tables: Tables)
      ensures this.tables == tables && records == map[]
    {
      this.tables := tables;
      records := map[];
    }

    method LatestVersion(mountId: string) returns (latest: Option<nat>)
      ensures latest.None? <==> forall v: nat :: Key(mountId, v) !in records
      ensures latest.Some? ==> Key(mountId, latest.value) in records
      ensures latest.Some? ==> forall v: nat | Key(mountId, v) in records :: v <= latest.value
    {
      var rest := set key | key in records && key.mountId == mountId :: key.version;
      ghost var all := rest;
      latest := None;
      while rest != {}
        invariant rest <= all
        invariant latest.None? ==> rest == all
        invariant latest.Some? ==> latest.value in all && forall v | v in all && v !in rest :: v <= latest.value
        decreases rest
      {
        var v :| v in rest;
        if latest.None? || latest.value < v {
          latest := Some(v);
        }
        rest := rest - {v};
      }
      assert forall v: nat | Key(mountId, v) in records :: Key(mountId, v).version in all;
    }

    // One script in its transaction: either both the record and the effect of the script are
    // kept, or neither.
    method MigrateOne(rewrite: Rewriter, exec: Executor, script: MigrationScript, mountId: string, version: nat, lost: bool)
      returns (r: Result<(), MigrationError>)
      modifies this
      ensures var after := InSequence(rewrite, exec)(script, old(tables));
        if Key(mountId, version) !in old(records) && after.Some? && !lost then
          r.Ok? && records == old(records)[Key(mountId, version) := script.description] && tables == after.value
        else
          r.Err? && records == old(records) && tables == old(tables)
      ensures rewrite(script.statements).None? ==> r == Err(BadQuery)
    {
      var scoped := rewrite(script.statements);
      if scoped.None? {
        return Err(BadQuery);
      }
      if Key(mountId, version) in records {
        return Err(BadQuery);
      }
      var after := exec(scoped.value, tables);
      if after.None? || lost {
        return Err(DatabaseError);
      }
      records := records[Key(mountId, version) := script.description];
      tables := after.value;
      r := Ok(());
    }

    // `done` is the number of versions recorded, before and after.
    method Migrate(rewrite: Rewriter, exec: Executor, scripts: seq<MigrationScript>, mountId: string, lost: nat -> bool,
                   ghost done: nat)
      returns (r: Result<(), MigrationError>, ghost done': nat)
      requires Recorded(records, mountId, done)
      modifies this
      ensures Recorded(records, mountId, done')
      ensures forall key: Key | key.mountId != mountId :: key in records <==> key in old(records)
      ensures (done', tables) == Reached(InSequence(rewrite, exec), scripts, lost, done, old(tables))
      ensures r.Ok? <==> done' >= |scripts|
      // It stops only at a script that cannot be rewritten, executed or committed, and records
      // the descriptions of those before, beside what was recorded.
      ensures done <= done' <= Max(done, |scripts|)
      ensures r.Err? ==> lost(done') || InSequence(rewrite, exec)(scripts[done'], tables).None?
      ensures forall key | key in old(records) :: key in records && records[key] == old(records)[key]
      ensures forall v | done <= v < done' :: v < |scripts| && records[Key(mountId, v)] == scripts[v].description
    {
      var latest := LatestVersion(mountId);
      LatestIsLast(records, mountId, done, latest);
      done' := done;
      ghost var run := InSequence(rewrite, exec);
      var version := 0;
      while version < |scripts|
        invariant 0 <= version <= |scripts|
        invariant done' == if version < done then done else version
        invariant Progress(run, scripts, lost, mountId, done, old(tables), old(records), done', tables, records)
        invariant done <= done' <= Max(done, |scripts|)
        invariant forall key | key in old(records) :: key in records && records[key] == old(records)[key]
        invariant forall v | done <= v < done' :: v < |scripts| && records[Key(mountId, v)] == scripts[v].description
      {
        if latest.Some? && latest.value >= version {
          version := version + 1;
          continue;
        }
        ghost var (before, recordsBefore) := (tables, records);
        r := MigrateOne(rewrite, exec, scripts[version], mountId, version, lost(version));
        OneMoreScript(run, scripts, lost, mountId, done, old(tables), old(records), version, before, recordsBefore, r.Ok?, tables, records);
        if r.Err? {
          return r, done';
        }
        version := version + 1;
        done' := version;
      }
      NothingLeft(run, scripts, lost, done', tables);
      r := Ok(());
    }
  }

  // ---------- Scoped scripts ----------

  function ScopedBy(p: string): Rewriter {
    script =>
      var scoping := ScopeAll(p, script, |script|);
      if scoping.Err? then None else Some(scoping.value.statements)
  }

  function ExecutedIn(I: Interp): Executor {
    (script, tables) => ExecAll(I, script, |script|, tables)
  }

  function ScopedRunner(I: Interp, p: string): Runner {
    InSequence(ScopedBy(p), ExecutedIn(I))
  }

  // ---------- What a run amounts to ----------

  // Scripts number k up to n, unchanged, on the tables a mount sees.
  function RunScripts(I: Interp, scripts: seq<MigrationScript>, k: nat, n: nat, inner: Tables): Option<Tables>
    requires k <= n <= |scripts|
  {
    if k == n then Some(inner)
    else
      var before :- RunScripts(I, scripts, k, n - 1, inner);
      ExecAll(I, scripts[n - 1].statements, |scripts[n - 1].statements|, before)
  }

  ghost predicate Supported(p: string, scripts: seq<MigrationScript>) {
    forall i | 0 <= i < |scripts| :: SupportedScript(p, scripts[i].statements)
  }

  lemma AppliedMeaning(I: Interp, p: string, m: MigrationScript, tables: Tables)
    requires SupportedScript(p, m.statements) && ScopedRunner(I, p)(m, tables).Some?
    ensures
      var after := ScopedRunner(I, p)(m, tables).value;
      && ExecAll(I, m.statements, |m.statements|, View(p, tables)) == Some(View(p, after))
      && AgreeOutside(p, tables, after)
  {
    ScopedScriptMeaning(I, p, m.statements, |m.statements|, tables);
    var inner := ExecAll(I, m.statements, |m.statements|, View(p, tables));
    OverlayOverlay(p, tables, inner.value, inner.value);
    OverlayAgrees(p, tables, inner.value);
  }

  lemma AgreeTransitive(p: string, a: Tables, b: Tables, c: Tables)
    requires AgreeOutside(p, a, b) && AgreeOutside(p, b, c)
    ensures AgreeOutside(p, a, c)
  {}

  // The mount's own tables have gone from script k to script n, and all others are the same.
  ghost predicate Advanced(I: Interp, p: string, scripts: seq<MigrationScript>, k: nat, n: nat, tables: Tables, tables': Tables) {
    && k <= n <= |scripts|
    && RunScripts(I, scripts, k, n, View(p, tables)) == Some(View(p, tables'))
    && AgreeOutside(p, tables, tables')
  }

  lemma AdvancedByNone(I: Interp, p: string, scripts: seq<MigrationScript>, k: nat, tables: Tables)
    requires k <= |scripts|
    ensures Advanced(I, p, scripts, k, k, tables, tables)
  {}

  lemma {:induction false} RunScriptsTwice(I: Interp, scripts: seq<MigrationScript>, k: nat, m: nat, n: nat, inner: Tables, middle: Tables)
    requires k <= m <= n <= |scripts| && RunScripts(I, scripts, k, m, inner) == Some(middle)
    ensures RunScripts(I, scripts, k, n, inner) == RunScripts(I, scripts, m, n, middle)
    decreases n
  {
    if m < n { RunScriptsTwice(I, scripts, k, m, n - 1, inner, middle); }
  }

  lemma AdvancedTransitive(I: Interp, p: string, scripts: seq<MigrationScript>, k: nat, m: nat, n: nat, a: Tables, b: Tables, c: Tables)
    requires Advanced(I, p, scripts, k, m, a, b) && Advanced(I, p, scripts, m, n, b, c)
    ensures Advanced(I, p, scripts, k, n, a, c)
  {
    AgreeTransitive(p, a, b, c);
    RunScriptsTwice(I, scripts, k, m, n, View(p, a), View(p, b));
  }

  lemma ScriptAdvances(I: Interp, p: string, scripts: seq<MigrationScript>, k: nat, tables: Tables)
    requires k < |scripts| && SupportedScript(p, scripts[k].statements) && ScopedRunner(I, p)(scripts[k], tables).Some?
    ensures Advanced(I, p, scripts, k, k + 1, tables, ScopedRunner(I, p)(scripts[k], tables).value)
  {
    AppliedMeaning(I, p, scripts[k], tables);
  }

  // Every script moves the tables on by itself.
  ghost predicate Moves(run: Runner, I: Interp, p: string, scripts: seq<MigrationScript>) {
    forall i: nat, t: Tables {:trigger run(scripts[i], t)} | i < |scripts| && run(scripts[i], t).Some? ::
      Advanced(I, p, scripts, i, i + 1, t, run(scripts[i], t).value)
  }

  // The tables before, between and after the scripts of a run.
  ghost predicate Steps(run: Runner, scripts: seq<MigrationScript>, k: nat, path: seq<Tables>)
    decreases |path|
  {
    && path != [] && k <= |scripts|
    && (|path| > 1 ==>
          k < |scripts| && run(scripts[k], path[0]) == Some(path[1]) && Steps(run, scripts, k + 1, path[1..]))
  }

  lemma {:induction false} ReachedSteps(run: Runner, scripts: seq<MigrationScript>, lost: nat -> bool, k: nat, tables: Tables)
    returns (n: nat, after: Tables, path: seq<Tables>)
    requires k <= |scripts|
    ensures Reached(run, scripts, lost, k, tables) == (n, after)
    ensures Steps(run, scripts, k, path)
    ensures n + 1 == k + |path| && tables == path[0] && after == path[|path| - 1]
    decreases |scripts| - k
  {
    if k >= |scripts| || lost(k) || run(scripts[k], tables).None? {
      n, after, path := k, tables, [tables];
    } else {
      var rest;
      n, after, rest := ReachedSteps(run, scripts, lost, k + 1, run(scripts[k], tables).value);
      path := [tables] + rest;
      assert path[1..] == rest;
    }
  }

  lemma {:induction false} StepsMeaning(run: Runner, I: Interp, p: string, scripts: seq<MigrationScript>, k: nat, n: nat,
                                        tables: Tables, after: Tables, path: seq<Tables>)
    requires Moves(run, I, p, scripts) && Steps(run, scripts, k, path)
    requires n + 1 == k + |path| && tables == path[0] && after == path[|path| - 1]
    ensures Advanced(I, p, scripts, k, n, tables, after)
    decreases |path|
  {
    if |path| == 1 {
      AdvancedByNone(I, p, scripts, k, tables);
    } else {
      StepsMeaning(run, I, p, scripts, k + 1, n, path[1], after, path[1..]);
      AdvancedTransitive(I, p, scripts, k, k + 1, n, tables, path[1], after);
    }
  }

  // A run stops where it has to.
  lemma {:induction false} ReachedStops(run: Runner, scripts: seq<MigrationScript>, lost: nat -> bool, k: nat, tables: Tables)
    ensures
      var (n, after) := Reached(run, scripts, lost, k, tables);
      && k <= n <= Max(k, |scripts|)
      && (n < |scripts| ==> lost(n) || run(scripts[n], after).None?)
    decreases |scripts| - k
  {
    if k < |scripts| && !lost(k) && run(scripts[k], tables).Some? {
      ReachedStops(run, scripts, lost, k + 1, run(scripts[k], tables).value);
    }
  }

  // A script fails because it cannot be rewritten, or fails on the mount's own tables.
  lemma ScriptFails(I: Interp, p: string, m: MigrationScript, tables: Tables)
    requires SupportedScript(p, m.statements) && ScopedRunner(I, p)(m, tables).None?
    ensures
      || (exists i :: 0 <= i < |m.statements| && !SqlSchema.Accepted(m.statements[i]))
      || ExecAll(I, m.statements, |m.statements|, View(p, tables)).None?
  {
    SqlSchema.ScriptAcceptedIff(p, m.statements, |m.statements|);
    if ScopeAll(p, m.statements, |m.statements|).Ok? {
      ScopedScriptMeaning(I, p, m.statements, |m.statements|, tables);
    }
  }

  // A run executes consecutive scripts on the mount's own tables, from where the last run
  // stopped up to the first that fails.
  lemma RunMeaning(I: Interp, p: string, scripts: seq<MigrationScript>, lost: nat -> bool, k: nat, tables: Tables)
    returns (n: nat, after: Tables)
    requires Supported(p, scripts) && k <= |scripts|
    ensures Reached(ScopedRunner(I, p), scripts, lost, k, tables) == (n, after)
    ensures Advanced(I, p, scripts, k, n, tables, after)
    ensures n < |scripts| ==>
      || lost(n)
      || (exists i :: 0 <= i < |scripts[n].statements| && !SqlSchema.Accepted(scripts[n].statements[i]))
      || ExecAll(I, scripts[n].statements, |scripts[n].statements|, View(p, after)).None?
  {
    var path;
    n, after, path := ReachedSteps(ScopedRunner(I, p), scripts, lost, k, tables);
    forall i: nat, t: Tables | i < |scripts| && ScopedRunner(I, p)(scripts[i], t).Some?
      ensures Advanced(I, p, scripts, i, i + 1, t, ScopedRunner(I, p)(scripts[i], t).value)
    {
      ScriptAdvances(I, p, scripts, i, t);
    }
    StepsMeaning(ScopedRunner(I, p), I, p, scripts, k, n, tables, after, path);
    ReachedStops(ScopedRunner(I, p), scripts, lost, k, tables);
    if n < |scripts| && !lost(n) { ScriptFails(I, p, scripts[n], after); }
  }

  // ---------- Histories ----------

  // A run for a mount, with the scripts its backend had at that time.
  datatype MigrationRun = MigrationRun(mountId: string, count: nat, lost: nat -> bool)

  // `done` counts the recorded versions of each mount.
  datatype State = State(done: map<string, nat>, tables: Tables)

  // Each mount's prefix, and the list its scripts have grown to in the end.
  datatype Backend = Backend(prefix: string, scripts: seq<MigrationScript>)

  ghost predicate WellFormed(backends: map<string, Backend>, runs: seq<MigrationRun>) {
    && (forall m | m in backends :: Supported(backends[m].prefix, backends[m].scripts))
    && (forall m, n | m in backends && n in backends && m != n :: PrefixFree(backends[m].prefix, backends[n].prefix))
    && (forall i | 0 <= i < |runs| :: runs[i].mountId in backends && runs[i].count <= |backends[runs[i].mountId].scripts|)
  }

  ghost function AfterRun(I: Interp, backends: map<string, Backend>, s: State, run: MigrationRun): State
    requires run.mountId in backends && run.mountId in s.done && run.count <= |backends[run.mountId].scripts|
  {
    var b := backends[run.mountId];
    var (n, tables) := Reached(ScopedRunner(I, b.prefix), b.scripts[..run.count], run.lost, s.done[run.mountId], s.tables);
    State(s.done[run.mountId := n], tables)
  }

  ghost function AfterRuns(I: Interp, backends: map<string, Backend>, tables: Tables, runs: seq<MigrationRun>): (s: State)
    requires WellFormed(backends, runs)
    ensures s.done.Keys == backends.Keys
  {
    if runs == [] then State(map m | m in backends :: 0, tables)
    else AfterRun(I, backends, AfterRuns(I, backends, tables, runs[..|runs| - 1]), runs[|runs| - 1])
  }

  lemma {:induction false} RunScriptsTake(I: Interp, scripts: seq<MigrationScript>, count: nat, k: nat, n: nat, inner: Tables)
    requires k <= n <= count <= |scripts|
    ensures RunScripts(I, scripts[..count], k, n, inner) == RunScripts(I, scripts, k, n, inner)
    decreases n
  {
    if k < n { RunScriptsTake(I, scripts, count, k, n - 1, inner); }
  }

  // One run: the mount's own tables move on by the scripts it has completed, and those of
  // every other mount stay.
  lemma OneRun(I: Interp, backends: map<string, Backend>, s: State, run: MigrationRun)
    requires s.done.Keys == backends.Keys && run.mountId in backends
    requires var b := backends[run.mountId];
      run.count <= |b.scripts| && Supported(b.prefix, b.scripts) && s.done[run.mountId] <= |b.scripts|
    ensures
      var b := backends[run.mountId];
      var s' := AfterRun(I, backends, s, run);
      Advanced(I, b.prefix, b.scripts, s.done[run.mountId], s'.done[run.mountId], s.tables, s'.tables)
  {
    var b := backends[run.mountId];
    var scripts := b.scripts[..run.count];
    var k := s.done[run.mountId];
    if k <= run.count {
      var n, after := RunMeaning(I, b.prefix, scripts, run.lost, k, s.tables);
      RunScriptsTake(I, b.scripts, run.count, k, n, View(b.prefix, s.tables));
    }
  }

  lemma ViewStays(p: string, q: string, a: Tables, b: Tables)
    requires PrefixFree(p, q) && AgreeOutside(q, a, b)
    ensures View(p, a) == View(p, b)
  {
    forall t: Name ensures !(q <= Scoped(p, t)) {
      if q <= Scoped(p, t) { Strings.PrefixesComparable(p, q, Scoped(p, t)); }
    }
    ViewSees(p, a);
    SeesView(p, b, View(p, a));
  }

  // The tables that mount m sees after a run, given what it saw before.
  lemma ViewAfterRun(I: Interp, backends: map<string, Backend>, s: State, run: MigrationRun, m: string, k: nat, inner: Tables)
    requires s.done.Keys == backends.Keys && run.mountId in backends && m in backends
    requires var b := backends[run.mountId];
      run.count <= |b.scripts| && Supported(b.prefix, b.scripts) && s.done[run.mountId] <= |b.scripts|
    requires m != run.mountId ==> PrefixFree(backends[m].prefix, backends[run.mountId].prefix)
    requires var b := backends[m];
      k <= s.done[m] <= |b.scripts| && RunScripts(I, b.scripts, k, s.done[m], inner) == Some(View(b.prefix, s.tables))
    ensures
      var s' := AfterRun(I, backends, s, run);
      var b := backends[m];
      s.done[m] <= s'.done[m] <= |b.scripts| && RunScripts(I, b.scripts, k, s'.done[m], inner) == Some(View(b.prefix, s'.tables))
  {
    var s' := AfterRun(I, backends, s, run);
    var b := backends[m];
    OneRun(I, backends, s, run);
    if m == run.mountId {
      RunScriptsTwice(I, b.scripts, k, s.done[m], s'.done[m], inner, View(b.prefix, s.tables));
    } else {
      ViewStays(b.prefix, backends[run.mountId].prefix, s.tables, s'.tables);
    }
  }

  // EXACTLY ONCE.  Whatever runs there have been, for whichever mounts, and wherever they
  // failed: the tables a mount sees are what its first k scripts, in order, make of the
  // tables it started with, where k is the number of its recorded versions.
  lemma {:induction false} ExactlyOnce(I: Interp, backends: map<string, Backend>, tables: Tables, runs: seq<MigrationRun>, m: string)
    requires WellFormed(backends, runs) && m in backends
    ensures
      var s := AfterRuns(I, backends, tables, runs);
      var b := backends[m];
      && s.done[m] <= |b.scripts|
      && RunScripts(I, b.scripts, 0, s.done[m], View(b.prefix, tables)) == Some(View(b.prefix, s.tables))
  {
    if runs != [] {
      var init, run := runs[..|runs| - 1], runs[|runs| - 1];
      ExactlyOnce(I, backends, tables, init, m);
      ExactlyOnce(I, backends, tables, init, run.mountId);
      ViewAfterRun(I, backends, AfterRuns(I, backends, tables, init), run, m, 0, View(backends[m].prefix, tables));
    }
  }

  // A run after a complete one changes nothing.
  lemma RerunChangesNothing(run: Runner, scripts: seq<MigrationScript>, lost: nat -> bool, lost': nat -> bool, k: nat, tables: Tables)
    ensures
      var (n, after) := Reached(run, scripts, lost, k, tables);
      n >= |scripts| ==> Reached(run, scripts, lost', n, after) == (n, after)
  {}

  // The prefixes of distinct mounts are as WellFormed asks.
  lemma OwnersArePrefixFree(o: Mounts.Owner, other: Mounts.Owner)
    requires Mounts.ValidOwner(o) && Mounts.ValidOwner(other) && o != other
    ensures PrefixFree(Mounts.StoragePrefix(o), Mounts.StoragePrefix(other))
  {
    if Mounts.StoragePrefix(o) <= Mounts.StoragePrefix(other) { Mounts.PrefixFree(o, other); }
    if Mounts.StoragePrefix(other) <= Mounts.StoragePrefix(o) { Mounts.PrefixFree(other, o); }
  }
}
