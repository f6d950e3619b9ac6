/**
What tables reference. The rewriting of foreign keys is right when each stored reference is
what its author meant: a table of the mount's own, or a table of the server.
*/
module SqlSchema {
  import opened Wrappers
  import opened SqlAst
  import opened SqlScope

  // ---------- One reference ----------

  predicate Refused(fk: ForeignKey) {
    SYSTEM_TABLE_REFERENCE <= fk.table && (fk.onDelete == Some(Restrict) || fk.onUpdate == Some(Restrict))
  }

  // The stored key references the counterpart of the written one, with the same actions.
  predicate KeyScoped(p: string, fk: ForeignKey, stored: ForeignKey) {
    && stored.onDelete == fk.onDelete && stored.onUpdate == fk.onUpdate
    && if SYSTEM_TABLE_REFERENCE <= fk.table then SYSTEM_TABLE_REFERENCE + stored.table == fk.table
       else stored.table == p + fk.table
  }

  predicate ColumnScoped(p: string, def: ColumnDef, stored: ColumnDef) {
    && stored.name == def.name
    && (stored.references.Some? <==> def.references.Some?)
    && (def.references.Some? ==> KeyScoped(p, def.references.value, stored.references.value))
  }

  lemma KeyIsScoped(p: string, fk: ForeignKey)
    ensures PrefixForeignKey(p, fk).Err? <==> Refused(fk)
    ensures PrefixForeignKey(p, fk).Err? ==> PrefixForeignKey(p, fk).error == SystemTableRestrict
    ensures PrefixForeignKey(p, fk).Ok? ==> KeyScoped(p, fk, PrefixForeignKey(p, fk).value)
  {}

  lemma {:induction false} ConstraintsScoped(p: string, fks: seq<ForeignKey>, n: nat)
    requires n <= |fks|
    ensures
      var r := PrefixConstraints(p, fks, n);
      && (r.Err? <==> exists i :: 0 <= i < n && Refused(fks[i]))
      && (r.Err? ==> r.error == SystemTableRestrict)
      && (r.Ok? ==> |r.value| == n && forall i | 0 <= i < n :: KeyScoped(p, fks[i], r.value[i]))
  {
    if n > 0 {
      ConstraintsScoped(p, fks, n - 1);
      KeyIsScoped(p, fks[n - 1]);
    }
  }

  lemma {:induction false} ColumnsScoped(p: string, defs: seq<ColumnDef>, n: nat)
    requires n <= |defs|
    ensures
      var r := PrefixColumns(p, defs, n);
      && (r.Err? <==> exists i :: 0 <= i < n && defs[i].references.Some? && Refused(defs[i].references.value))
      && (r.Err? ==> r.error == SystemTableRestrict)
      && (r.Ok? ==> |r.value| == n && forall i | 0 <= i < n :: ColumnScoped(p, defs[i], r.value[i]))
  {
    if n > 0 {
      ColumnsScoped(p, defs, n - 1);
      if defs[n - 1].references.Some? { KeyIsScoped(p, defs[n - 1].references.value); }
    }
  }

  // ---------- What pass one accepts ----------

  // Everything but the statements it does not know, renaming, and restricting references to
  // tables of the server.
  predicate Accepted(s: Statement) {
    && !s.Unsupported?
    && !(s.AlterTable? && s.operation.RenameTable?)
    && (s.CreateTable? ==>
          && (forall i | 0 <= i < |s.constraints| :: !Refused(s.constraints[i]))
          && (forall i | 0 <= i < |s.defs| && s.defs[i].references.Some? :: !Refused(s.defs[i].references.value)))
  }

  lemma AcceptedIff(p: string, s: Statement)
    ensures PrefixStatement(p, s).Ok? <==> Accepted(s)
    ensures s.Unsupported? ==> PrefixStatement(p, s) == Err(UnsupportedStatement(s.text))
    ensures s.AlterTable? && s.operation.RenameTable? ==> PrefixStatement(p, s) == Err(TableRenameNotSupported)
    ensures s.CreateTable? && !Accepted(s) ==> PrefixStatement(p, s) == Err(SystemTableRestrict)
  {
    if s.CreateTable? {
      ConstraintsScoped(p, s.constraints, |s.constraints|);
      ColumnsScoped(p, s.defs, |s.defs|);
    }
  }

  // A script is rewritten exactly if each of its statements is.
  lemma {:induction false} ScriptAcceptedIff(p: string, script: seq<Statement>, n: nat)
    requires n <= |script|
    ensures ScopeAll(p, script, n).Ok? <==> forall k | 0 <= k < n :: Accepted(script[k])
  {
    if n > 0 {
      ScriptAcceptedIff(p, script, n - 1);
      AcceptedIff(p, script[n - 1]);
    }
  }

  // ---------- The schema ----------

  // A reference of a table, and the column that makes it, if it is not a constraint.
  datatype Link = Link(column: Option<Name>, key: ForeignKey)

  type Schema = map<Name, seq<Link>>

  function ColumnReference(def: ColumnDef): seq<Link> {
    if def.references.None? then [] else [Link(Some(def.name), def.references.value)]
  }

  function ColumnReferences(defs: seq<ColumnDef>): seq<Link> {
    if defs == [] then [] else ColumnReferences(defs[..|defs| - 1]) + ColumnReference(defs[|defs| - 1])
  }

  function References(constraints: seq<ForeignKey>, defs: seq<ColumnDef>): seq<Link> {
    seq(|constraints|, i requires 0 <= i < |constraints| => Link(None, constraints[i])) + ColumnReferences(defs)
  }

  // What a statement that succeeds does to the schema.
  function Declared(schema: Schema, s: Statement): Schema {
    match s
    case CreateTable(name, defs, constraints, _) => schema[name := References(constraints, defs)]
    case Drop(names) => schema - set i | 0 <= i < |names| :: names[i]
    case AlterTable(name, AddColumn(def)) =>
      if name in schema then schema[name := schema[name] + ColumnReference(def)] else schema
    case _ => schema
  }

  function DeclaredAll(schema: Schema, script: seq<Statement>, n: nat): Schema
    requires n <= |script|
  {
    if n == 0 then schema else Declared(DeclaredAll(schema, script, n - 1), script[n - 1])
  }

  // ---------- What references mean ----------

  datatype Target = Own(name: Name) | OfServer(name: Name)

  // To the author of a script.
  function Meant(name: Name): Target {
    if SYSTEM_TABLE_REFERENCE <= name then OfServer(name[|SYSTEM_TABLE_REFERENCE|..]) else Own(name)
  }

  // To the database, from where the mount with the prefix stands.
  function Stored(p: string, name: Name): Target {
    if p <= name then Own(name[|p|..]) else OfServer(name)
  }

  predicate AsMeant(p: string, stored: Link, written: Link) {
    && stored.column == written.column
    && stored.key.onDelete == written.key.onDelete && stored.key.onUpdate == written.key.onUpdate
    && Stored(p, stored.key.table) == Meant(written.key.table)
  }

  predicate AllAsMeant(p: string, stored: seq<Link>, written: seq<Link>) {
    |stored| == |written| && forall i | 0 <= i < |stored| :: AsMeant(p, stored[i], written[i])
  }

  // The tables under the prefix reference what the mount's own tables are meant to.
  ghost predicate SeesSchema(p: string, stored: Schema, inner: Schema) {
    forall t: Name {:trigger Scoped(p, t)} ::
      (t in inner <==> Scoped(p, t) in stored) && (t in inner ==> AllAsMeant(p, stored[Scoped(p, t)], inner[t]))
  }

  // A table of the server whose name begins with the prefix is taken for the mount's own.
  predicate Unmistakable(p: string, fk: ForeignKey) {
    SYSTEM_TABLE_REFERENCE <= fk.table ==> !(p <= fk.table[|SYSTEM_TABLE_REFERENCE|..])
  }

  predicate ColumnsUnmistakable(p: string, defs: seq<ColumnDef>) {
    forall i | 0 <= i < |defs| && defs[i].references.Some? :: Unmistakable(p, defs[i].references.value)
  }

  lemma UnmistakableSnoc(p: string, defs: seq<ColumnDef>, def: ColumnDef)
    ensures ColumnsUnmistakable(p, defs + [def])
      <==> ColumnsUnmistakable(p, defs) && (def.references.Some? ==> Unmistakable(p, def.references.value))
  {
    assert (defs + [def])[|defs|] == def;
    assert forall i | 0 <= i < |defs| :: (defs + [def])[i] == defs[i];
  }

  lemma KeyAsMeantIff(p: string, fk: ForeignKey, stored: ForeignKey, column: Option<Name>)
    requires KeyScoped(p, fk, stored)
    ensures AsMeant(p, Link(column, stored), Link(column, fk)) <==> Unmistakable(p, fk)
  {
    if SYSTEM_TABLE_REFERENCE <= fk.table {
      assert fk.table[|SYSTEM_TABLE_REFERENCE|..] == stored.table;
    } else {
      assert stored.table[|p|..] == fk.table;
    }
  }

  // A reference in ADD COLUMN is not rewritten, so it is never what its author meant.
  predicate Faithful(p: string, s: Statement) {
    match s
    case CreateTable(_, defs, constraints, _) =>
      && (forall i | 0 <= i < |constraints| :: Unmistakable(p, constraints[i]))
      && ColumnsUnmistakable(p, defs)
    case AlterTable(_, AddColumn(def)) => def.references.None?
    case _ => true
  }

  lemma ColumnAsMeantIff(p: string, a: seq<Link>, b: seq<Link>, def: ColumnDef, stored: ColumnDef)
    requires |a| == |b| && ColumnScoped(p, def, stored)
    ensures |ColumnReference(stored)| == |ColumnReference(def)|
    ensures AllAsMeant(p, a + ColumnReference(stored), b + ColumnReference(def))
      <==> AllAsMeant(p, a, b) && (def.references.Some? ==> Unmistakable(p, def.references.value))
  {
    if def.references.Some? {
      KeyAsMeantIff(p, def.references.value, stored.references.value, Some(def.name));
      AsMeantSnoc(p, a, b, Link(Some(stored.name), stored.references.value), Link(Some(def.name), def.references.value));
    } else {
      assert a + [] == a && b + [] == b;
    }
  }

  predicate AllColumnsScoped(p: string, defs: seq<ColumnDef>, stored: seq<ColumnDef>) {
    |stored| == |defs| && forall i | 0 <= i < |defs| :: ColumnScoped(p, defs[i], stored[i])
  }

  lemma ColumnsScopedSplit(p: string, defs: seq<ColumnDef>, stored: seq<ColumnDef>, n: nat)
    requires AllColumnsScoped(p, defs, stored) && n + 1 == |defs|
    ensures AllColumnsScoped(p, defs[..n], stored[..n]) && ColumnScoped(p, defs[n], stored[n])
  {}

  lemma {:induction false} ColumnsAsMeantIff(p: string, defs: seq<ColumnDef>, stored: seq<ColumnDef>)
    requires AllColumnsScoped(p, defs, stored)
    ensures |ColumnReferences(stored)| == |ColumnReferences(defs)|
    ensures AllAsMeant(p, ColumnReferences(stored), ColumnReferences(defs))
      <==> ColumnsUnmistakable(p, defs)
  {
    if defs != [] {
      var n := |defs| - 1;
      ColumnsScopedSplit(p, defs, stored, n);
      ColumnsAsMeantIff(p, defs[..n], stored[..n]);
      ColumnAsMeantIff(p, ColumnReferences(stored[..n]), ColumnReferences(defs[..n]), defs[n], stored[n]);
      UnmistakableSnoc(p, defs[..n], defs[n]);
      assert defs == defs[..n] + [defs[n]];
    }
  }

  lemma AsMeantSnoc(p: string, a: seq<Link>, b: seq<Link>, x: Link, y: Link)
    requires |a| == |b|
    ensures AllAsMeant(p, a + [x], b + [y]) <==> AllAsMeant(p, a, b) && AsMeant(p, x, y)
  {
    if AllAsMeant(p, a + [x], b + [y]) {
      assert (a + [x])[|a|] == x && (b + [y])[|a|] == y;
      assert forall i | 0 <= i < |a| :: (a + [x])[i] == a[i] && (b + [y])[i] == b[i];
    }
  }

  lemma ReferencesAsMeantIff(p: string, constraints: seq<ForeignKey>, defs: seq<ColumnDef>,
                             constraints': seq<ForeignKey>, defs': seq<ColumnDef>)
    requires |constraints'| == |constraints| && forall i | 0 <= i < |constraints| :: KeyScoped(p, constraints[i], constraints'[i])
    requires AllColumnsScoped(p, defs, defs')
    ensures AllAsMeant(p, References(constraints', defs'), References(constraints, defs)) <==>
      && (forall i | 0 <= i < |constraints| :: Unmistakable(p, constraints[i]))
      && ColumnsUnmistakable(p, defs)
  {
    ColumnsAsMeantIff(p, defs, defs');
    var (a, b) := (References(constraints', defs'), References(constraints, defs));
    var n := |constraints|;
    forall i | 0 <= i < n ensures AsMeant(p, a[i], b[i]) <==> Unmistakable(p, constraints[i]) {
      KeyAsMeantIff(p, constraints[i], constraints'[i], None);
    }
    assert a[n..] == ColumnReferences(defs') && b[n..] == ColumnReferences(defs);
    SplitAsMeant(p, a, b, n);
  }

  lemma SplitAsMeant(p: string, a: seq<Link>, b: seq<Link>, n: nat)
    requires n <= |a| == |b|
    ensures AllAsMeant(p, a, b) <==> (forall i | 0 <= i < n :: AsMeant(p, a[i], b[i])) && AllAsMeant(p, a[n..], b[n..])
  {
    if AllAsMeant(p, a[n..], b[n..]) {
      forall i | n <= i < |a| ensures AsMeant(p, a[i], b[i]) {
        assert a[n..][i - n] == a[i] && b[n..][i - n] == b[i];
      }
    }
  }

  // ---------- Statements and scripts ----------

  // What CREATE TABLE stores under the prefix references what its author meant, constraints and
  // columns, exactly if no table of the server that it names begins with the prefix.
  lemma CreatedAsMeantIff(p: string, names: set<Name>, s: Statement)
    requires s.CreateTable? && PrefixStatement(p, s).Ok?
    ensures
      var s' := RenameStatement(p, names, PrefixStatement(p, s).value);
      && s'.CreateTable? && s'.name == p + s.name
      && |s'.constraints| == |s.constraints| && |s'.defs| == |s.defs|
      && (AllAsMeant(p, References(s'.constraints, s'.defs), References(s.constraints, s.defs)) <==> Faithful(p, s))
  {
    var s' := PrefixStatement(p, s).value;
    ConstraintsScoped(p, s.constraints, |s.constraints|);
    ColumnsScoped(p, s.defs, |s.defs|);
    ReferencesAsMeantIff(p, s.constraints, s.defs, s'.constraints, s'.defs);
  }

  // A reference that ADD COLUMN makes stays as it is written: what the author meant to be a
  // table of the mount is none, whatever the prefix.
  lemma AddedReferenceEscapes(p: string, names: set<Name>, table: Name, def: ColumnDef)
    requires p != "" && def.references.Some?
    ensures
      var s := AlterTable(table, AddColumn(def));
      && PrefixStatement(p, s).Ok?
      && RenameStatement(p, names, PrefixStatement(p, s).value) == AlterTable(p + table, AddColumn(def))
      && !AsMeant(p, ColumnReference(def)[0], ColumnReference(def)[0])
  {
    var name := def.references.value.table;
    if p <= name && !(SYSTEM_TABLE_REFERENCE <= name) { assert |name[|p|..]| < |name|; }
    if SYSTEM_TABLE_REFERENCE <= name { assert |name[|SYSTEM_TABLE_REFERENCE|..]| < |name|; }
  }

  lemma SchemaUpdate(p: string, stored: Schema, inner: Schema, t: Name, a: seq<Link>, b: seq<Link>)
    requires SeesSchema(p, stored, inner) && AllAsMeant(p, a, b)
    ensures SeesSchema(p, stored[Scoped(p, t) := a], inner[t := b])
  {
    forall n: Name ensures Scoped(p, n) == Scoped(p, t) <==> n == t {
      ScopedInjective(p, n, t);
    }
  }

  lemma SchemaDrop(p: string, stored: Schema, inner: Schema, names: seq<Name>)
    requires SeesSchema(p, stored, inner)
    ensures SeesSchema(p, stored - (set i | 0 <= i < |names| :: Scoped(p, names[i])), inner - (set i | 0 <= i < |names| :: names[i]))
  {
    var gone, gone' := set i | 0 <= i < |names| :: names[i], set i | 0 <= i < |names| :: Scoped(p, names[i]);
    forall n: Name ensures Scoped(p, n) in gone' <==> n in gone {
      if Scoped(p, n) in gone' {
        var i :| 0 <= i < |names| && Scoped(p, names[i]) == Scoped(p, n);
        ScopedInjective(p, names[i], n);
      }
    }
  }

  lemma SchemaStep(p: string, names: set<Name>, s: Statement, stored: Schema, inner: Schema)
    requires PrefixStatement(p, s).Ok? && Faithful(p, s) && SeesSchema(p, stored, inner)
    ensures SeesSchema(p, Declared(stored, RenameStatement(p, names, PrefixStatement(p, s).value)), Declared(inner, s))
  {
    var s' := RenameStatement(p, names, PrefixStatement(p, s).value);
    match s
    case CreateTable(name, defs, constraints, _) =>
      CreatedAsMeantIff(p, names, s);
      SchemaUpdate(p, stored, inner, name, References(s'.constraints, s'.defs), References(constraints, defs));
    case Drop(dropped) =>
      SchemaDrop(p, stored, inner, dropped);
      assert |s'.names| == |dropped| && forall i | 0 <= i < |dropped| :: s'.names[i] == Scoped(p, dropped[i]);
    case AlterTable(name, operation) =>
      if name in inner {
        assert Scoped(p, name) in stored;
        assert stored[Scoped(p, name)] + [] == stored[Scoped(p, name)] && inner[name] + [] == inner[name];
        SchemaUpdate(p, stored, inner, name, stored[Scoped(p, name)], inner[name]);
      } else {
        assert Scoped(p, name) !in stored;
      }
    case _ =>
  }

  // A statement that mentions nothing but own tables declares nothing elsewhere.
  lemma SchemaOutside(p: string, names: set<Name>, s: Statement, stored: Schema, n: Name)
    requires PrefixStatement(p, s).Ok? && !(p <= n)
    ensures
      var after := Declared(stored, RenameStatement(p, names, PrefixStatement(p, s).value));
      (n in after <==> n in stored) && (n in stored ==> after[n] == stored[n])
  {
    assert forall t: Name :: p <= Scoped(p, t);
  }

  lemma ScopedLast(p: string, script: seq<Statement>, n: nat)
    requires 0 < n <= |script| && ScopeAll(p, script, n).Ok?
    ensures ScopeAll(p, script, n - 1).Ok? && PrefixStatement(p, script[n - 1]).Ok?
    ensures
      var done, all := ScopeAll(p, script, n - 1).value, ScopeAll(p, script, n).value;
      all.statements == done.statements + [RenameStatement(p, all.names, PrefixStatement(p, script[n - 1]).value)]
  {}

  predicate AllFaithful(p: string, script: seq<Statement>, n: nat)
    requires n <= |script|
  {
    forall k | 0 <= k < n :: Faithful(p, script[k])
  }

  // The two schemas after n statements.
  ghost predicate InStep(p: string, script: seq<Statement>, n: nat, stored: Schema, inner: Schema) {
    && n <= |script| && ScopeAll(p, script, n).Ok?
    && var done := ScopeAll(p, script, n).value.statements;
       |done| == n && SeesSchema(p, DeclaredAll(stored, done, n), DeclaredAll(inner, script, n))
  }

  // The stored side of one more statement.
  lemma StoredSideSteps(p: string, script: seq<Statement>, n: nat, stored: Schema, inner: Schema)
    requires 0 < n <= |script| && ScopeAll(p, script, n).Ok? && ScopeAll(p, script, n - 1).Ok? && Faithful(p, script[n - 1])
    requires |ScopeAll(p, script, n - 1).value.statements| == n - 1
    requires SeesSchema(p, DeclaredAll(stored, ScopeAll(p, script, n - 1).value.statements, n - 1), inner)
    ensures |ScopeAll(p, script, n).value.statements| == n
    ensures SeesSchema(p, DeclaredAll(stored, ScopeAll(p, script, n).value.statements, n), Declared(inner, script[n - 1]))
  {
    var names, done := ScopeAll(p, script, n).value.names, ScopeAll(p, script, n - 1).value.statements;
    ScopedLast(p, script, n);
    OneMoreStatement(p, names, done, script[n - 1], stored, inner);
  }

  lemma StaysInStep(p: string, script: seq<Statement>, n: nat, stored: Schema, inner: Schema)
    requires 0 < n <= |script| && ScopeAll(p, script, n).Ok? && Faithful(p, script[n - 1])
    requires InStep(p, script, n - 1, stored, inner)
    ensures InStep(p, script, n, stored, inner)
  {
    StoredSideSteps(p, script, n, stored, DeclaredAll(inner, script, n - 1));
  }

  lemma {:induction false} AllInStep(p: string, script: seq<Statement>, n: nat, stored: Schema, inner: Schema)
    requires n <= |script| && ScopeAll(p, script, n).Ok? && SeesSchema(p, stored, inner) && AllFaithful(p, script, n)
    ensures InStep(p, script, n, stored, inner)
  {
    if n > 0 {
      ScopedLast(p, script, n);
      AllInStep(p, script, n - 1, stored, inner);
      StaysInStep(p, script, n, stored, inner);
    }
  }

  // THE SCHEMA OF A SCRIPT.  What the tables of the mount reference after the rewritten script
  // is what its author meant them to, table by table, with the actions kept.
  lemma ScriptSchema(p: string, script: seq<Statement>, stored: Schema, inner: Schema)
    requires ScopeAll(p, script, |script|).Ok? && SeesSchema(p, stored, inner) && AllFaithful(p, script, |script|)
    ensures
      var done := ScopeAll(p, script, |script|).value.statements;
      |done| == |script| && SeesSchema(p, DeclaredAll(stored, done, |script|), DeclaredAll(inner, script, |script|))
  {
    AllInStep(p, script, |script|, stored, inner);
  }

  lemma OneMoreStatement(p: string, names: set<Name>, done: seq<Statement>, s: Statement, stored: Schema, inner: Schema)
    requires PrefixStatement(p, s).Ok? && Faithful(p, s) && SeesSchema(p, DeclaredAll(stored, done, |done|), inner)
    ensures
      var s' := RenameStatement(p, names, PrefixStatement(p, s).value);
      SeesSchema(p, DeclaredAll(stored, done + [s'], |done| + 1), Declared(inner, s))
  {
    DeclaredSnoc(stored, done, RenameStatement(p, names, PrefixStatement(p, s).value));
    SchemaStep(p, names, s, DeclaredAll(stored, done, |done|), inner);
  }

  lemma {:induction false} DeclaredTake(schema: Schema, a: seq<Statement>, b: seq<Statement>, n: nat)
    requires n <= |a| && n <= |b| && a[..n] == b[..n]
    ensures DeclaredAll(schema, a, n) == DeclaredAll(schema, b, n)
  {
    if n > 0 {
      assert a[..n - 1] == a[..n][..n - 1] == b[..n][..n - 1] == b[..n - 1];
      assert a[n - 1] == a[..n][n - 1] == b[..n][n - 1] == b[n - 1];
      DeclaredTake(schema, a, b, n - 1);
    }
  }

  lemma DeclaredSnoc(schema: Schema, done: seq<Statement>, s: Statement)
    ensures DeclaredAll(schema, done + [s], |done| + 1) == Declared(DeclaredAll(schema, done, |done|), s)
  {
    assert (done + [s])[..|done|] == done == done[..|done|];
    DeclaredTake(schema, done + [s], done, |done|);
  }
}
