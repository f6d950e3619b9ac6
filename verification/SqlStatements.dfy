/**
Whole statements and scripts: running the scoped form on the stored tables is running
the original on the mount's own tables, and nothing outside the prefix changes.
*/
module SqlStatements {
  import opened Wrappers
  import Strings
  import opened SqlAst
  import opened SqlEval
  import opened SqlScope
  import opened SqlMeaning

  // ---------- Tables under a prefix and tables outside it ----------

  ghost predicate AgreeOutside(p: string, a: Tables, b: Tables) {
    forall n: Name | !(p <= n) :: (n in a <==> n in b) && (n in a ==> a[n] == b[n])
  }

  lemma ViewSees(p: string, stored: Tables)
    ensures Sees(p, stored, View(p, stored))
  {}

  lemma SeesView(p: string, stored: Tables, inner: Tables)
    requires Sees(p, stored, inner)
    ensures View(p, stored) == inner
  {
    forall t: Name
      ensures t in View(p, stored) <==> t in inner
      ensures t in inner ==> View(p, stored)[t] == inner[t]
    {
      assert Scoped(p, t) in stored <==> t in inner;
    }
  }

  lemma OverlaySees(p: string, stored: Tables, inner: Tables)
    ensures Sees(p, Overlay(p, stored, inner), inner)
  {
    forall t: Name
      ensures t in inner <==> Scoped(p, t) in Overlay(p, stored, inner)
      ensures t in inner ==> Overlay(p, stored, inner)[Scoped(p, t)] == inner[t]
    {
      assert Scoped(p, t)[|p|..] == t;
    }
  }

  lemma OverlayAgrees(p: string, stored: Tables, inner: Tables)
    ensures AgreeOutside(p, stored, Overlay(p, stored, inner))
  {}

  // The overlay is the only database with this inside and this outside.
  lemma OverlayUnique(p: string, stored: Tables, after: Tables, inner: Tables)
    requires Sees(p, after, inner) && AgreeOutside(p, stored, after)
    ensures after == Overlay(p, stored, inner)
  {
    OverlaySees(p, stored, inner);
    OverlayAgrees(p, stored, inner);
    forall n: Name
      ensures n in after <==> n in Overlay(p, stored, inner)
      ensures n in after ==> after[n] == Overlay(p, stored, inner)[n]
    {
      if p <= n { assert Scoped(p, n[|p|..]) == n; }
    }
  }

  lemma SeesRemove(p: string, stored: Tables, inner: Tables, t: Name)
    requires Sees(p, stored, inner)
    ensures Sees(p, stored - {Scoped(p, t)}, inner - {t})
  {
    forall n: Name ensures Scoped(p, n) == Scoped(p, t) <==> n == t {
      ScopedInjective(p, n, t);
    }
    var stored', inner' := stored - {Scoped(p, t)}, inner - {t};
    forall n: Name ensures (n in inner' <==> Scoped(p, n) in stored') && (n in inner' ==> stored'[Scoped(p, n)] == inner'[n]) {
      assert n in inner <==> Scoped(p, n) in stored;
    }
  }

  // ---------- Statements ----------

  // What a scoped statement does on the stored tables, in terms of the original's outcome.
  ghost predicate Mirrors(p: string, stored: Tables, after: Option<Outcome>, original: Option<Outcome>) {
    after.Some? == original.Some? &&
    (original.Some? ==>
      && after.value.result == original.value.result
      && Sees(p, after.value.tables, original.value.tables)
      && AgreeOutside(p, stored, after.value.tables))
  }

  lemma MirrorUpdate(p: string, stored: Tables, inner: Tables, t: Name, rel: Relation, result: Relation)
    requires Sees(p, stored, inner)
    ensures Mirrors(p, stored, Some(Outcome(stored[Scoped(p, t) := rel], result)), Some(Outcome(inner[t := rel], result)))
  {
    SeesUpdate(p, stored, inner, t, rel);
    assert p <= Scoped(p, t);
  }

  lemma ConditionPreserved(I: Interp, p: string, names: set<Name>, selection: Option<Expr>, hidden: bool, stored: Tables, inner: Tables, cols: seq<Col>, row: Row)
    requires AllSupported(p, names, InOption(selection, hidden)) && Named(p, names, cols) && Sees(p, stored, inner)
    ensures
      var selection' := if hidden then RenameOption(p, names, selection) else ScopeOption(p, names, selection);
      Condition(I, selection', stored, TagCols(p, cols), row) == Condition(I, selection, inner, cols, row)
  {
    if selection.Some? {
      if hidden {
        HiddenExpr(I, p, names, selection.value, stored, inner, cols, [row]);
      } else {
        ExprPreserved(I, p, names, selection.value, stored, inner, cols, [row]);
      }
    }
  }

  function RenameAssignments(p: string, names: set<Name>, assignments: seq<Assignment>): seq<Assignment> {
    seq(|assignments|, i requires 0 <= i < |assignments| =>
      Assignment(assignments[i].column, RenameExpr(p, names, assignments[i].value)))
  }

  lemma AssignmentsPreserved(I: Interp, p: string, names: set<Name>, assignments: seq<Assignment>, stored: Tables, inner: Tables, cols: seq<Col>, row: Row)
    requires forall i | 0 <= i < |assignments| :: AllSupported(p, names, InExpr(assignments[i].value, true))
    requires Named(p, names, cols)
    ensures EvalAssignments(I, RenameAssignments(p, names, assignments), stored, TagCols(p, cols), row)
         == EvalAssignments(I, assignments, inner, cols, row)
  {
    var renamed := RenameAssignments(p, names, assignments);
    forall i | 0 <= i < |assignments|
      ensures EvalExpr(I, renamed[i].value, stored, TagCols(p, cols), [row]) == EvalExpr(I, assignments[i].value, inner, cols, [row])
    {
      HiddenExpr(I, p, names, assignments[i].value, stored, inner, cols, [row]);
    }
    assert seq(|renamed|, i requires 0 <= i < |renamed| => EvalExpr(I, renamed[i].value, stored, TagCols(p, cols), [row]))
        == seq(|assignments|, i requires 0 <= i < |assignments| => EvalExpr(I, assignments[i].value, inner, cols, [row]));
    var vs := AllSome(seq(|assignments|, i requires 0 <= i < |assignments| => EvalExpr(I, assignments[i].value, inner, cols, [row])));
    if vs.Some? {
      assert EvalAssignments(I, renamed, stored, TagCols(p, cols), row).value == EvalAssignments(I, assignments, inner, cols, row).value;
    }
  }

  lemma UpdatePreserved(I: Interp, p: string, names: set<Name>, s: Statement, stored: Tables, inner: Tables, frame: Frame)
    requires s.Update? && AllSupported(p, names, InStatement(s))
    requires Named(p, names, frame.cols) && Sees(p, stored, inner)
    ensures EvalUpdate(I, RenameAssignments(p, names, s.assignments), RenameOption(p, names, s.selection), stored, TagFrame(p, frame))
         == EvalUpdate(I, s.assignments, s.selection, inner, frame)
  {
    var assignments, selection := RenameAssignments(p, names, s.assignments), RenameOption(p, names, s.selection);
    assert forall i, m | 0 <= i < |s.assignments| && m in InExpr(s.assignments[i].value, true) :: m in InStatement(s);
    forall i | 0 <= i < |frame.rows|
      ensures Condition(I, selection, stored, TagCols(p, frame.cols), frame.rows[i]) == Condition(I, s.selection, inner, frame.cols, frame.rows[i])
      ensures EvalAssignments(I, assignments, stored, TagCols(p, frame.cols), frame.rows[i]) == EvalAssignments(I, s.assignments, inner, frame.cols, frame.rows[i])
    {
      ConditionPreserved(I, p, names, s.selection, true, stored, inner, frame.cols, frame.rows[i]);
      AssignmentsPreserved(I, p, names, s.assignments, stored, inner, frame.cols, frame.rows[i]);
    }
    assert seq(|frame.rows|, i requires 0 <= i < |frame.rows| => Condition(I, selection, stored, TagCols(p, frame.cols), frame.rows[i]))
        == seq(|frame.rows|, i requires 0 <= i < |frame.rows| => Condition(I, s.selection, inner, frame.cols, frame.rows[i]));
    assert seq(|frame.rows|, i requires 0 <= i < |frame.rows| => EvalAssignments(I, assignments, stored, TagCols(p, frame.cols), frame.rows[i]))
        == seq(|frame.rows|, i requires 0 <= i < |frame.rows| => EvalAssignments(I, s.assignments, inner, frame.cols, frame.rows[i]));
  }

  lemma DeletePreserved(I: Interp, p: string, names: set<Name>, selection: Option<Expr>, stored: Tables, inner: Tables, frame: Frame)
    requires AllSupported(p, names, InOption(selection, false))
    requires Named(p, names, frame.cols) && Sees(p, stored, inner)
    ensures
      var selection' := ScopeOption(p, names, selection);
      AllSome(seq(|frame.rows|, i requires 0 <= i < |frame.rows| => Condition(I, selection', stored, TagCols(p, frame.cols), frame.rows[i])))
      == AllSome(seq(|frame.rows|, i requires 0 <= i < |frame.rows| => Condition(I, selection, inner, frame.cols, frame.rows[i])))
  {
    var selection' := ScopeOption(p, names, selection);
    forall i | 0 <= i < |frame.rows|
      ensures Condition(I, selection', stored, TagCols(p, frame.cols), frame.rows[i]) == Condition(I, selection, inner, frame.cols, frame.rows[i])
    {
      ConditionPreserved(I, p, names, selection, false, stored, inner, frame.cols, frame.rows[i]);
    }
    assert seq(|frame.rows|, i requires 0 <= i < |frame.rows| => Condition(I, selection', stored, TagCols(p, frame.cols), frame.rows[i]))
        == seq(|frame.rows|, i requires 0 <= i < |frame.rows| => Condition(I, selection, inner, frame.cols, frame.rows[i]));
  }

  lemma {:induction false} DropPreserved(p: string, drops: seq<Name>, scoped: seq<Name>, n: nat, stored: Tables, inner: Tables)
    requires n <= |drops| == |scoped| && Sees(p, stored, inner)
    requires forall i | 0 <= i < |drops| :: scoped[i] == Scoped(p, drops[i])
    ensures
      var after, original := DropAll(scoped, n, stored), DropAll(drops, n, inner);
      after.Some? == original.Some? &&
      (after.Some? ==> Sees(p, after.value, original.value) && AgreeOutside(p, stored, after.value))
  {
    if n != 0 {
      DropPreserved(p, drops, scoped, n - 1, stored, inner);
      var after, original := DropAll(scoped, n - 1, stored), DropAll(drops, n - 1, inner);
      if original.Some? {
        SeesRemove(p, after.value, original.value, drops[n - 1]);
        assert p <= Scoped(p, drops[n - 1]);
      }
    }
  }

  lemma TableFrame(I: Interp, p: string, names: set<Name>, f: TableFactor, stored: Tables, inner: Tables)
    requires f.Table? && AllSupported(p, names, InFactor(f, false)) && Sees(p, stored, inner)
    ensures ScopeFactor(p, names, f).Table? && ScopeFactor(p, names, f).name == Scoped(p, f.name)
    ensures Scoped(p, f.name) in stored <==> f.name in inner
    ensures f.name in inner ==>
      var frame := EvalFactor(I, f, inner, TopLevel());
      && stored[Scoped(p, f.name)] == inner[f.name]
      && frame.Some? && Named(p, names, frame.value.cols)
      && EvalFactor(I, ScopeFactor(p, names, f), stored, TopLevel()) == Some(TagFrame(p, frame.value))
  {
    assert TagEnv(p, TopLevel()) == TopLevel();
    FactorPreserved(I, p, names, f, stored, inner, TopLevel());
  }

  lemma TopQueryPreserved(I: Interp, p: string, names: set<Name>, q: Query, stored: Tables, inner: Tables)
    requires AllSupported(p, names, InQuery(q, false)) && Sees(p, stored, inner)
    ensures EvalQuery(I, ScopeQuery(p, names, q), stored, TopLevel()) == EvalQuery(I, q, inner, TopLevel())
  {
    assert TagEnv(p, TopLevel()) == TopLevel();
    QueryPreserved(I, p, names, q, stored, inner, TopLevel());
  }

  lemma CreateMirrors(I: Interp, p: string, names: set<Name>, s: Statement, prefixed: Statement, stored: Tables, inner: Tables)
    requires s.CreateTable? && PrefixStatement(p, s) == Ok(prefixed)
    requires AllSupported(p, names, InStatement(s)) && Sees(p, stored, inner)
    ensures Mirrors(p, stored, Exec(I, RenameStatement(p, names, prefixed), stored), Exec(I, s, inner))
  {
    assert Scoped(p, s.name) in stored <==> s.name in inner;
    if s.asQuery.Some? {
      TopQueryPreserved(I, p, names, s.asQuery.value, stored, inner);
      var rel := EvalQuery(I, s.asQuery.value, inner, TopLevel());
      if rel.Some? { MirrorUpdate(p, stored, inner, s.name, rel.value, Nothing); }
    } else {
      ColumnNamesKept(p, s.defs, |s.defs|);
      MirrorUpdate(p, stored, inner, s.name, Relation(seq(|s.defs|, i requires 0 <= i < |s.defs| => s.defs[i].name), []), Nothing);
    }
  }

  lemma StatementMirrors(I: Interp, p: string, names: set<Name>, s: Statement, prefixed: Statement, stored: Tables, inner: Tables)
    requires PrefixStatement(p, s) == Ok(prefixed)
    requires AllSupported(p, names, InStatement(s)) && Sees(p, stored, inner)
    ensures Mirrors(p, stored, Exec(I, RenameStatement(p, names, prefixed), stored), Exec(I, s, inner))
  {
    match s
    case QueryStatement(query) => TopQueryPreserved(I, p, names, query, stored, inner);
    case Insert(table, columns, source) =>
      TopQueryPreserved(I, p, names, source, stored, inner);
      var rel := EvalQuery(I, source, inner, TopLevel());
      assert Scoped(p, table) in stored <==> table in inner;
      if rel.Some? && table in inner {
        var after := I.insert(inner[table], columns, rel.value.rows);
        if after.Some? { MirrorUpdate(p, stored, inner, table, after.value, Nothing); }
      }
    case Update(_, _, _) => UpdateMirrors(I, p, names, s, stored, inner);
    case Delete(_, _) => DeleteMirrors(I, p, names, s, stored, inner);
    case CreateTable(_, _, _, _) => CreateMirrors(I, p, names, s, prefixed, stored, inner);
    case Drop(drops) =>
      DropPreserved(p, drops, seq(|drops|, i requires 0 <= i < |drops| => Scoped(p, drops[i])), |drops|, stored, inner);
    case AlterTable(name, operation) =>
      assert Scoped(p, name) in stored <==> name in inner;
      if name in inner && operation.AddColumn? {
        var after := I.addColumn(inner[name], operation.column.name);
        if after.Some? { MirrorUpdate(p, stored, inner, name, after.value, Nothing); }
      }
    case CreateIndex(_, table) => assert Scoped(p, table) in stored <==> table in inner;
    case Transaction(_) =>
    case Unsupported(_) =>
  }

  lemma {:induction false} ColumnNamesKept(p: string, defs: seq<ColumnDef>, n: nat)
    requires n <= |defs|
    ensures
      var r := PrefixColumns(p, defs, n);
      r.Ok? ==> |r.value| == n && forall i | 0 <= i < n :: r.value[i].name == defs[i].name
  {
    if n != 0 { ColumnNamesKept(p, defs, n - 1); }
  }

  lemma UpdateMirrors(I: Interp, p: string, names: set<Name>, s: Statement, stored: Tables, inner: Tables)
    requires s.Update? && AllSupported(p, names, InStatement(s)) && Sees(p, stored, inner)
    ensures Mirrors(p, stored,
      Exec(I, Update(ScopeFactor(p, names, s.target), RenameAssignments(p, names, s.assignments), RenameOption(p, names, s.selection)), stored),
      Exec(I, s, inner))
  {
    if s.target.Table? {
      TableFrame(I, p, names, s.target, stored, inner);
      if s.target.name in inner {
        var frame := EvalFactor(I, s.target, inner, TopLevel()).value;
        UpdatePreserved(I, p, names, s, stored, inner, frame);
        var changes := EvalUpdate(I, s.assignments, s.selection, inner, frame);
        if changes.Some? {
          var after := I.write(inner[s.target.name], changes.value);
          if after.Some? { MirrorUpdate(p, stored, inner, s.target.name, after.value, Nothing); }
        }
      }
    }
  }

  lemma DeleteMirrors(I: Interp, p: string, names: set<Name>, s: Statement, stored: Tables, inner: Tables)
    requires s.Delete? && AllSupported(p, names, InStatement(s)) && Sees(p, stored, inner)
    ensures Mirrors(p, stored,
      Exec(I, Delete(ScopeFactor(p, names, s.from), ScopeOption(p, names, s.selection)), stored), Exec(I, s, inner))
  {
    if s.from.Table? {
      TableFrame(I, p, names, s.from, stored, inner);
      if s.from.name in inner {
        var frame := EvalFactor(I, s.from, inner, TopLevel()).value;
        DeletePreserved(I, p, names, s.selection, stored, inner, frame);
        var hits := AllSome(seq(|frame.rows|, i requires 0 <= i < |frame.rows| => Condition(I, s.selection, inner, frame.cols, frame.rows[i])));
        if hits.Some? {
          MirrorUpdate(p, stored, inner, s.from.name, inner[s.from.name].(rows := Survivors(frame.rows, hits.value)), Nothing);
        }
      }
    }
  }

  // MEANING.  Running the scoped statement on the stored tables gives the same result as
  // running the original on the tables under the prefix; afterwards the tables under the
  // prefix are what the original made of them, and all the others are as they were.
  lemma ScopedStatementMeaning(I: Interp, p: string, names: set<Name>, s: Statement, prefixed: Statement, stored: Tables)
    requires PrefixStatement(p, s) == Ok(prefixed)
    requires AllSupported(p, names, InStatement(s))
    ensures Exec(I, RenameStatement(p, names, prefixed), stored) ==
      match Exec(I, s, View(p, stored))
      case None => None
      case Some(o) => Some(Outcome(Overlay(p, stored, o.tables), o.result))
  {
    ViewSees(p, stored);
    StatementMirrors(I, p, names, s, prefixed, stored, View(p, stored));
    var after, original := Exec(I, RenameStatement(p, names, prefixed), stored), Exec(I, s, View(p, stored));
    if original.Some? {
      OverlayUnique(p, stored, after.value.tables, original.value.tables);
    }
  }

  // ---------- Scripts ----------

  // Every statement of the script is supported, given the names collected up to it.
  ghost predicate SupportedScript(p: string, script: seq<Statement>) {
    forall k | 0 <= k < |script| ::
      var scoping := ScopeAll(p, script, k + 1);
      scoping.Ok? ==> Scopable(p, scoping.value.names, InStatement(script[k]))
  }

  // The part of Supported that does not come for free from pass one.
  ghost predicate Scopable(p: string, names: set<Name>, ms: set<Mention>) {
    forall m | m in ms ::
      match m
      case TableRef(_, hidden) => !hidden
      case AliasName(_, hidden) => !hidden
      case Qualifier(x) => Scoped(p, x) in names || !(p <= x)
      case HiddenQuery => false
  }

  lemma ScopableIsSupported(p: string, names: set<Name>, ms: set<Mention>)
    requires Collected(p, ms) <= names
    ensures AllSupported(p, names, ms) <==> Scopable(p, names, ms)
  {
    forall m | m in ms && (m.TableRef? || m.AliasName?) && !m.hidden
      ensures Scoped(p, m.name) in names
    {
      assert Scoped(p, m.name) in Collected(p, ms);
    }
  }

  lemma OverlayOverlay(p: string, stored: Tables, a: Tables, b: Tables)
    ensures View(p, Overlay(p, stored, a)) == a
    ensures Overlay(p, Overlay(p, stored, a), b) == Overlay(p, stored, b)
  {
    OverlaySees(p, stored, a);
    SeesView(p, Overlay(p, stored, a), a);
    OverlaySees(p, Overlay(p, stored, a), b);
    OverlayUnique(p, stored, Overlay(p, Overlay(p, stored, a), b), b);
  }

  lemma OverlayView(p: string, stored: Tables)
    ensures Overlay(p, stored, View(p, stored)) == stored
  {
    ViewSees(p, stored);
    OverlayUnique(p, stored, stored, View(p, stored));
  }

  lemma {:induction false} ScopeAllPrefix(p: string, script: seq<Statement>, k: nat, n: nat)
    requires k <= n <= |script| && ScopeAll(p, script, n).Ok?
    ensures ScopeAll(p, script, k).Ok?
    ensures |ScopeAll(p, script, n).value.statements| == n
    ensures ScopeAll(p, script, k).value.statements == ScopeAll(p, script, n).value.statements[..k]
    ensures ScopeAll(p, script, k).value.names <= ScopeAll(p, script, n).value.names
    decreases n
  {
    if k < n {
      ScopeAllPrefix(p, script, k, n - 1);
      var done, all := ScopeAll(p, script, n - 1).value.statements, ScopeAll(p, script, n).value.statements;
      assert all[..n - 1] == done;
      assert all[..k] == all[..n - 1][..k];
    } else if n != 0 {
      ScopeAllPrefix(p, script, n - 1, n - 1);
    }
  }

  lemma {:induction false} ExecAllTake(I: Interp, script: seq<Statement>, k: nat, n: nat, T: Tables)
    requires n <= k <= |script|
    ensures ExecAll(I, script[..k], n, T) == ExecAll(I, script, n, T)
    decreases n
  {
    if n != 0 { ExecAllTake(I, script, k, n - 1, T); }
  }

  lemma LastScopedStatement(p: string, script: seq<Statement>, n: nat)
    requires 0 < n <= |script| && ScopeAll(p, script, n).Ok?
    ensures ScopeAll(p, script, n - 1).Ok? && PrefixStatement(p, script[n - 1]).Ok?
    ensures |ScopeAll(p, script, n - 1).value.statements| == n - 1
    ensures
      var scoped := ScopeAll(p, script, n).value;
      scoped.statements == ScopeAll(p, script, n - 1).value.statements
        + [RenameStatement(p, scoped.names, PrefixStatement(p, script[n - 1]).value)]
  {
    ScopeAllPrefix(p, script, n - 1, n - 1);
  }

  lemma LastIsSupported(p: string, script: seq<Statement>, n: nat)
    requires 0 < n <= |script| && SupportedScript(p, script) && ScopeAll(p, script, n).Ok?
    ensures AllSupported(p, ScopeAll(p, script, n).value.names, InStatement(script[n - 1]))
  {
    LastScopedStatement(p, script, n);
    var names := ScopeAll(p, script, n).value.names;
    assert Scopable(p, names, InStatement(script[n - 1]));
    ScopableIsSupported(p, names, InStatement(script[n - 1]));
  }

  // The last statement of a script runs on what the others have left.
  lemma ExecAllSnoc(I: Interp, script: seq<Statement>, s: Statement, T: Tables)
    ensures ExecAll(I, script + [s], |script| + 1, T) ==
      match ExecAll(I, script, |script|, T)
      case None => None
      case Some(T1) =>
        match Exec(I, s, T1)
        case None => None
        case Some(o) => Some(o.tables)
  {
    ExecAllTake(I, script + [s], |script|, |script|, T);
    assert (script + [s])[..|script|] == script;
  }

  // One statement of a script, run after `inner` has come about in the tables of the mount.
  lemma ScopedStatementOnOverlay(I: Interp, p: string, names: set<Name>, s: Statement, prefixed: Statement, stored: Tables, inner: Tables)
    requires PrefixStatement(p, s) == Ok(prefixed) && AllSupported(p, names, InStatement(s))
    ensures
      (match Exec(I, RenameStatement(p, names, prefixed), Overlay(p, stored, inner))
       case None => None
       case Some(o) => Some(o.tables))
      ==
      match Exec(I, s, inner)
      case None => None
      case Some(o) => Some(Overlay(p, stored, o.tables))
  {
    OverlayOverlay(p, stored, inner, inner);
    ScopedStatementMeaning(I, p, names, s, prefixed, Overlay(p, stored, inner));
    var o := Exec(I, s, inner);
    if o.Some? { OverlayOverlay(p, stored, inner, o.value.tables); }
  }

  // One statement more, after others that have come to `before` on the mount's own tables.
  lemma OneMoreScoped(I: Interp, p: string, names: set<Name>, done: seq<Statement>, s: Statement, stored: Tables, before: Option<Tables>)
    requires PrefixStatement(p, s).Ok? && AllSupported(p, names, InStatement(s))
    requires ExecAll(I, done, |done|, stored) == if before.None? then None else Some(Overlay(p, stored, before.value))
    ensures
      var s' := RenameStatement(p, names, PrefixStatement(p, s).value);
      var after := if before.None? then None else Exec(I, s, before.value);
      ExecAll(I, done + [s'], |done| + 1, stored) == if after.None? then None else Some(Overlay(p, stored, after.value.tables))
  {
    ExecAllSnoc(I, done, RenameStatement(p, names, PrefixStatement(p, s).value), stored);
    if before.Some? {
      ScopedStatementOnOverlay(I, p, names, s, PrefixStatement(p, s).value, stored, before.value);
    }
  }

  // Where the scoped script is after n statements, against the original.
  ghost predicate ScriptInStep(I: Interp, p: string, script: seq<Statement>, n: nat, stored: Tables) {
    && n <= |script| && ScopeAll(p, script, n).Ok?
    && var done := ScopeAll(p, script, n).value.statements;
       var inner := ExecAll(I, script, n, View(p, stored));
       && |done| == n
       && ExecAll(I, done, n, stored) == if inner.None? then None else Some(Overlay(p, stored, inner.value))
  }

  lemma ExecAllLast(I: Interp, script: seq<Statement>, n: nat, T: Tables)
    requires 0 < n <= |script|
    ensures
      var before := ExecAll(I, script, n - 1, T);
      var after := if before.None? then None else Exec(I, script[n - 1], before.value);
      ExecAll(I, script, n, T) == if after.None? then None else Some(after.value.tables)
  {}

  // The scoped side of one more statement.
  lemma ScopedSideSteps(I: Interp, p: string, script: seq<Statement>, n: nat, stored: Tables, before: Option<Tables>)
    requires 0 < n <= |script| && ScopeAll(p, script, n).Ok? && ScopeAll(p, script, n - 1).Ok?
    requires AllSupported(p, ScopeAll(p, script, n).value.names, InStatement(script[n - 1]))
    requires |ScopeAll(p, script, n - 1).value.statements| == n - 1
    requires ExecAll(I, ScopeAll(p, script, n - 1).value.statements, n - 1, stored)
      == if before.None? then None else Some(Overlay(p, stored, before.value))
    ensures |ScopeAll(p, script, n).value.statements| == n
    ensures
      var after := if before.None? then None else Exec(I, script[n - 1], before.value);
      ExecAll(I, ScopeAll(p, script, n).value.statements, n, stored)
        == if after.None? then None else Some(Overlay(p, stored, after.value.tables))
  {
    var names, done := ScopeAll(p, script, n).value.names, ScopeAll(p, script, n - 1).value.statements;
    LastScopedStatement(p, script, n);
    OneMoreScoped(I, p, names, done, script[n - 1], stored, before);
  }

  lemma {:induction false} ScriptIsInStep(I: Interp, p: string, script: seq<Statement>, n: nat, stored: Tables)
    requires n <= |script| && SupportedScript(p, script) && ScopeAll(p, script, n).Ok?
    ensures ScriptInStep(I, p, script, n, stored)
    decreases n
  {
    if n == 0 {
      OverlayView(p, stored);
    } else {
      LastScopedStatement(p, script, n);
      ScriptIsInStep(I, p, script, n - 1, stored);
      LastIsSupported(p, script, n);
      ScopedSideSteps(I, p, script, n, stored, ExecAll(I, script, n - 1, View(p, stored)));
      ExecAllLast(I, script, n, View(p, stored));
    }
  }

  // The same for a script, whose statements share one growing set of collected names.
  lemma ScopedScriptMeaning(I: Interp, p: string, script: seq<Statement>, n: nat, stored: Tables)
    requires n <= |script| && SupportedScript(p, script) && ScopeAll(p, script, n).Ok?
    ensures |ScopeAll(p, script, n).value.statements| == n
    ensures ExecAll(I, ScopeAll(p, script, n).value.statements, n, stored) ==
      match ExecAll(I, script, n, View(p, stored))
      case None => None
      case Some(inner) => Some(Overlay(p, stored, inner))
  {
    ScriptIsInStep(I, p, script, n, stored);
  }

  // ---------- Isolation ----------

  ghost predicate PrefixFree(p: string, q: string) {
    !(p <= q) && !(q <= p)
  }

  // ISOLATION.  A scoped statement of one mount reads nothing but its own tables, and
  // changes nothing that a mount with another, prefix-free prefix can see.
  lemma MountIsolation(I: Interp, p: string, q: string, names: set<Name>, s: Statement, prefixed: Statement, a: Tables, b: Tables)
    requires PrefixStatement(p, s) == Ok(prefixed) && AllSupported(p, names, InStatement(s))
    requires View(p, a) == View(p, b) && PrefixFree(p, q)
    ensures
      var (x, y) := (Exec(I, RenameStatement(p, names, prefixed), a), Exec(I, RenameStatement(p, names, prefixed), b));
      x.Some? == y.Some? &&
      (x.Some? ==>
        && x.value.result == y.value.result
        && View(p, x.value.tables) == View(p, y.value.tables)
        && View(q, x.value.tables) == View(q, a))
  {
    ScopedStatementMeaning(I, p, names, s, prefixed, a);
    ScopedStatementMeaning(I, p, names, s, prefixed, b);
    var o := Exec(I, s, View(p, a));
    if o.Some? {
      OverlayOverlay(p, a, o.value.tables, o.value.tables);
      OverlayOverlay(p, b, o.value.tables, o.value.tables);
      OverlayAgrees(p, a, o.value.tables);
      forall t: Name ensures !(p <= Scoped(q, t)) {
        if p <= Scoped(q, t) { Strings.PrefixesComparable(p, q, Scoped(q, t)); }
      }
      ViewSees(q, a);
      SeesView(q, Overlay(p, a, o.value.tables), View(q, a));
    }
  }

  // ---------- Where the conditions are needed ----------

  // SELECT over one table, with nothing projected.
  function Probe(t: Name): Query {
    Query([], Select([], [TableWithJoins(Table(t, None), [])], None))
  }

  // SELECT EXISTS (probe)
  function ProbeStatement(t: Name): Statement {
    QueryStatement(Query([], Select([Item(Exists(Probe(t)), None)], [], None)))
  }

  lemma ProbeFinds(I: Interp, t: Name, T: Tables, outer: Env)
    ensures EvalQuery(I, Probe(t), T, outer).Some? <==> t in T
  {
    var from := [TableWithJoins(Table(t, None), [])];
    var frames := seq(|from|, i requires 0 <= i < |from| => EvalJoins(I, from[i], |from[i].joins|, T, outer));
    assert frames[0] == EvalJoins(I, from[0], 0, T, outer) == EvalFactor(I, Table(t, None), T, outer);
    var frame := EvalFrom(I, from, T, outer);
    assert frame.Some? <==> t in T;
    if frame.Some? {
      var f := frame.value;
      var rows := seq(|f.rows|, i requires 0 <= i < |f.rows| => f.rows[i] + outer.row);
      assert forall g: seq<Row> :: EvalItems(I, [], T, f.cols + outer.cols, |f.cols|, g).Some?;
      assert AllSome(seq(|rows|, i requires 0 <= i < |rows| => EvalItems(I, [], T, f.cols + outer.cols, |f.cols|, [rows[i]]))).Some?;
      assert Project(I, [], T, f, outer).Some?;
    }
    assert EvalSetExpr(I, Probe(t).body, T, outer).Some? <==> t in T;
  }

  lemma ProbeStatementFinds(I: Interp, t: Name, T: Tables)
    ensures Exec(I, ProbeStatement(t), T).Some? <==> t in T
  {
    var items := [Item(Exists(Probe(t)), None)];
    var one := Frame([], [[]]);
    assert EvalFrom(I, [], T, TopLevel()) == Some(one);
    var rows := seq(|one.rows|, i requires 0 <= i < |one.rows| => one.rows[i] + TopLevel().row);
    assert rows[0] == [] && rows == [[]];
    ProbeFinds(I, t, T, Enclosing([], [[]]));
    assert EvalItem(I, items[0], T, [], 0, [[]]).Some? <==> t in T;
    var cells := seq(|items|, i requires 0 <= i < |items| => EvalItem(I, items[i], T, [], 0, [[]]));
    assert cells[0] == EvalItem(I, items[0], T, [], 0, [[]]);
    assert EvalItems(I, items, T, [], 0, [[]]).Some? <==> t in T;
    assert !IsAggregate(I, items[0]);
    var out := seq(|rows|, i requires 0 <= i < |rows| => EvalItems(I, items, T, [] + TopLevel().cols, |one.cols|, [rows[i]]));
    assert out[0] == EvalItems(I, items, T, [], 0, [[]]);
    assert Project(I, items, T, one, TopLevel()).Some? <==> t in T;
    var q := Query([], Select(items, [], None));
    assert EvalSetExpr(I, q.body, T, TopLevel()).Some? <==> t in T;
    assert EvalQuery(I, q, T, TopLevel()) == EvalSetExpr(I, q.body, T, TopLevel());
    assert ProbeStatement(t).query == q;
  }

  // A subquery in a position that is not entered is left as it is: the statement reads a
  // table that is not the mount's, and fails on the one that is.
  lemma HiddenSubqueryEscapes(I: Interp, p: string, t: Name, stored: Tables, names: set<Name>)
    ensures PrefixStatement(p, ProbeStatement(t)) == Ok(ProbeStatement(t))
    ensures RenameStatement(p, names, ProbeStatement(t)) == ProbeStatement(t)
    ensures Exec(I, ProbeStatement(t), stored).Some? <==> t in stored
    ensures Exec(I, ProbeStatement(t), View(p, stored)).Some? <==> Scoped(p, t) in stored
  {
    var q := Query([], Select([Item(Exists(Probe(t)), None)], [], None));
    assert PrefixItem(p, q.body.projection[0]) == q.body.projection[0];
    assert PrefixSetExpr(p, q.body).projection == q.body.projection;
    assert PrefixSetExpr(p, q.body) == q.body;
    assert PrefixQuery(p, q) == q;
    assert RenameQuery(p, names, Probe(t)) == Probe(t) by {
      assert RenameTables(p, names, TableWithJoins(Table(t, None), [])) == TableWithJoins(Table(t, None), []);
    }
    assert RenameItem(p, names, q.body.projection[0]) == q.body.projection[0];
    assert RenameSetExpr(p, names, q.body) == q.body;
    assert RenameQuery(p, names, q) == q;
    ProbeStatementFinds(I, t, stored);
    ProbeStatementFinds(I, t, View(p, stored));
    ViewSees(p, stored);
    assert Scoped(p, t) in stored <==> t in View(p, stored);
  }
}
