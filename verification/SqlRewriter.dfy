/**
The rewriter itself: the traversal that prefixes a statement and fills the shared set of
names, the pass over the text, and the loop over the statements of a script.
*/
module SqlRewriter {
  import opened Wrappers
  import opened Strings
  import opened SqlAst
  import opened SqlScope
  import opened SqlSchema
  import opened SqlText
  import opened SqlTextPass

  // ---------- What is not entered is not collected ----------

  predicate Hidden(ms: set<Mention>) {
    forall m | m in ms && (m.TableRef? || m.AliasName?) :: m.hidden
  }

  lemma {:induction false} HiddenExprs(e: Expr)
    ensures Hidden(InExpr(e, true))
    ensures e.Nested? || e.Call? || e.Exists? ==> Hidden(InExpr(e, false))
  {
    match e
    case Binary(_, left, right) => HiddenExprs(left); HiddenExprs(right);
    case All(arg) => HiddenExprs(arg);
    case Subquery(query) => HiddenQueries(query);
    case Nested(inner) => HiddenExprs(inner);
    case Call(_, args) => forall i | 0 <= i < |args| { HiddenExprs(args[i]); }
    case Exists(query) => HiddenQueries(query);
    case _ =>
  }

  lemma {:induction false} HiddenFactors(f: TableFactor)
    ensures Hidden(InFactor(f, true))
  {
    match f
    case Table(_, _) =>
    case Derived(subquery, _) => HiddenQueries(subquery);
    case NestedJoin(tables) => HiddenTables(tables);
  }

  lemma {:induction false} HiddenJoins(j: Join)
    ensures Hidden(InJoin(j, true))
  {
    HiddenFactors(j.relation);
    if j.on.Some? { HiddenExprs(j.on.value); }
  }

  lemma {:induction false} HiddenTables(t: TableWithJoins)
    ensures Hidden(InTables(t, true))
  {
    HiddenFactors(t.relation);
    forall i | 0 <= i < |t.joins| { HiddenJoins(t.joins[i]); }
  }

  lemma {:induction false} HiddenItems(item: SelectItem)
    ensures Hidden(InItem(item, true))
  {
    if item.Item? { HiddenExprs(item.expr); }
  }

  lemma {:induction false} HiddenSetExprs(s: SetExpr)
    ensures Hidden(InSetExpr(s, true))
    ensures s.Values? ==> Hidden(InSetExpr(s, false))
  {
    match s
    case Select(projection, from, selection) =>
      forall i | 0 <= i < |projection| { HiddenItems(projection[i]); }
      forall i | 0 <= i < |from| { HiddenTables(from[i]); }
      if selection.Some? { HiddenExprs(selection.value); }
    case SetOperation(_, left, right) => HiddenSetExprs(left); HiddenSetExprs(right);
    case Parenthesized(query) => HiddenQueries(query);
    case Values(row) => forall i | 0 <= i < |row| { HiddenExprs(row[i]); }
  }

  lemma {:induction false} HiddenQueries(q: Query)
    ensures Hidden(InQuery(q, true))
  {
    HiddenSetExprs(q.body);
    forall i | 0 <= i < |q.ctes| { HiddenQueries(q.ctes[i].query); }
  }

  lemma CollectedUnion(p: string, a: set<Mention>, b: set<Mention>)
    ensures Collected(p, a + b) == Collected(p, a) + Collected(p, b)
  {}

  lemma CollectedHidden(p: string, ms: set<Mention>)
    requires Hidden(ms)
    ensures Collected(p, ms) == {}
  {}

  // The names collected from the first n parts of a list.
  function NamesOf(p: string, parts: seq<set<Mention>>, n: nat): set<Name>
    requires n <= |parts|
  {
    if n == 0 then {} else NamesOf(p, parts, n - 1) + Collected(p, parts[n - 1])
  }

  lemma {:induction false} NamesOfMember(p: string, parts: seq<set<Mention>>, n: nat, x: Name)
    requires n <= |parts|
    ensures x in NamesOf(p, parts, n) <==> exists i | 0 <= i < n :: x in Collected(p, parts[i])
  {
    if n != 0 { NamesOfMember(p, parts, n - 1, x); }
  }

  // A list collects what its parts collect.
  lemma NamesOfUnion(p: string, parts: seq<set<Mention>>, ms: set<Mention>)
    requires forall m :: m in ms <==> exists i | 0 <= i < |parts| :: m in parts[i]
    ensures NamesOf(p, parts, |parts|) == Collected(p, ms)
  {
    forall x ensures x in NamesOf(p, parts, |parts|) <==> x in Collected(p, ms) {
      NamesOfMember(p, parts, |parts|, x);
      if x in Collected(p, ms) {
        var m :| m in ms && (m.TableRef? || m.AliasName?) && !m.hidden && x == Scoped(p, m.name);
        var i :| 0 <= i < |parts| && m in parts[i];
        assert x in Collected(p, parts[i]);
      }
      if i :| 0 <= i < |parts| && x in Collected(p, parts[i]) {
        var m :| m in parts[i] && (m.TableRef? || m.AliasName?) && !m.hidden && x == Scoped(p, m.name);
        assert m in ms;
      }
    }
  }

  function ItemParts(items: seq<SelectItem>): seq<set<Mention>> {
    seq(|items|, i requires 0 <= i < |items| => InItem(items[i], false))
  }

  function JoinParts(joins: seq<Join>): seq<set<Mention>> {
    seq(|joins|, i requires 0 <= i < |joins| => InJoin(joins[i], false))
  }

  function FromParts(from: seq<TableWithJoins>): seq<set<Mention>> {
    seq(|from|, i requires 0 <= i < |from| => InTables(from[i], false))
  }

  function CteParts(ctes: seq<Cte>): seq<set<Mention>> {
    seq(|ctes|, i requires 0 <= i < |ctes| => InCte(ctes[i], false))
  }

  lemma SelectNames(p: string, s: SetExpr)
    requires s.Select?
    ensures Collected(p, InSetExpr(s, false)) == NamesOf(p, ItemParts(s.projection), |s.projection|)
      + NamesOf(p, FromParts(s.from), |s.from|) + Collected(p, InOption(s.selection, false))
  {
    var a := set m | m in InSetExpr(s, false) && exists i | 0 <= i < |s.projection| :: m in ItemParts(s.projection)[i];
    var b := set m | m in InSetExpr(s, false) && exists i | 0 <= i < |s.from| :: m in FromParts(s.from)[i];
    var c := InOption(s.selection, false);
    NamesOfUnion(p, ItemParts(s.projection), a);
    NamesOfUnion(p, FromParts(s.from), b);
    forall m | m in InSetExpr(s, false) ensures m in a + b + c {
      if i :| 0 <= i < |s.projection| && m in InItem(s.projection[i], false) {
        assert m in ItemParts(s.projection)[i];
      } else if i :| 0 <= i < |s.from| && m in InTables(s.from[i], false) {
        assert m in FromParts(s.from)[i];
      }
    }
    assert InSetExpr(s, false) == a + b + c;
    CollectedUnion(p, a, b);
    CollectedUnion(p, a + b, c);
  }

  lemma TablesNames(p: string, t: TableWithJoins)
    ensures Collected(p, InTables(t, false)) == Collected(p, InFactor(t.relation, false)) + NamesOf(p, JoinParts(t.joins), |t.joins|)
  {
    var a := set m | m in InTables(t, false) && exists i | 0 <= i < |t.joins| :: m in JoinParts(t.joins)[i];
    NamesOfUnion(p, JoinParts(t.joins), a);
    forall m | m in InTables(t, false) ensures m in InFactor(t.relation, false) + a {
      if i :| 0 <= i < |t.joins| && m in InJoin(t.joins[i], false) { assert m in JoinParts(t.joins)[i]; }
    }
    assert InTables(t, false) == InFactor(t.relation, false) + a;
    CollectedUnion(p, InFactor(t.relation, false), a);
  }

  lemma QueryNames(p: string, q: Query)
    ensures Collected(p, InQuery(q, false)) == Collected(p, InSetExpr(q.body, false)) + NamesOf(p, CteParts(q.ctes), |q.ctes|)
  {
    var a := set i, m | 0 <= i < |q.ctes| && m in InCte(q.ctes[i], false) :: m;
    var parts := CteParts(q.ctes);
    forall m ensures m in a <==> exists i | 0 <= i < |parts| :: m in parts[i] {
      if i :| 0 <= i < |parts| && m in parts[i] { assert m in InCte(q.ctes[i], false); }
      if i :| 0 <= i < |q.ctes| && m in InCte(q.ctes[i], false) { assert m in parts[i]; }
    }
    NamesOfUnion(p, parts, a);
    assert InQuery(q, false) == InSetExpr(q.body, false) + a;
    CollectedUnion(p, InSetExpr(q.body, false), a);
  }

  // ---------- Pass one ----------

  class TableAndAliases {
    var names: set<Name>

    constructor ()
      ensures names == {}
    {
      names := {};
    }

    method Add(n: Name)
      modifies this
      ensures names == old(names) + {n}
    {
      names := names + {n};
    }
  }

  method AddAlias(tables: TableAndAliases, alias: Option<Name>, p: string) returns (r: Option<Name>)
    modifies tables
    ensures r == ScopedOption(p, alias)
    ensures tables.names == old(tables.names) + Collected(p, OptionAlias(alias, false))
  {
    match alias
    case None =>
      r := None;
    case Some(name) =>
      assert Collected(p, OptionAlias(alias, false)) == {Scoped(p, name)} by { assert AliasName(name, false) in OptionAlias(alias, false); }
      tables.Add(Scoped(p, name));
      r := Some(Scoped(p, name));
  }

  method GetTablesInExpr(tables: TableAndAliases, e: Expr, p: string) returns (r: Expr)
    modifies tables
    ensures r == PrefixExpr(p, e)
    ensures tables.names == old(tables.names) + Collected(p, InExpr(e, false))
    decreases e
  {
    match e
    case Subquery(query) =>
      var query' := GetTablesInQuery(tables, query, p);
      r := Subquery(query');
      assert InExpr(e, false) == InQuery(query, false);
    case All(arg) =>
      var arg' := GetTablesInExpr(tables, arg, p);
      r := All(arg');
    case Binary(op, left, right) =>
      var left' := GetTablesInExpr(tables, left, p);
      var right' := GetTablesInExpr(tables, right, p);
      r := Binary(op, left', right');
      CollectedUnion(p, InExpr(left, false), InExpr(right, false));
    case _ =>
      r := e;
      HiddenExprs(e);
      CollectedHidden(p, InExpr(e, false));
  }

  method GetTablesInOption(tables: TableAndAliases, e: Option<Expr>, p: string) returns (r: Option<Expr>)
    modifies tables
    ensures r == match e case None => None case Some(expr) => Some(PrefixExpr(p, expr))
    ensures tables.names == old(tables.names) + Collected(p, InOption(e, false))
    decreases e
  {
    match e
    case None =>
      r := None;
    case Some(expr) =>
      var expr' := GetTablesInExpr(tables, expr, p);
      r := Some(expr');
  }

  method GetTablesInProjection(tables: TableAndAliases, items: seq<SelectItem>, p: string) returns (r: seq<SelectItem>)
    modifies tables
    ensures r == seq(|items|, i requires 0 <= i < |items| => PrefixItem(p, items[i]))
    ensures tables.names == old(tables.names) + NamesOf(p, ItemParts(items), |items|)
    decreases items, 1
  {
    r := [];
    for n := 0 to |items|
      invariant r == seq(n, i requires 0 <= i < n => PrefixItem(p, items[i]))
      invariant tables.names == old(tables.names) + NamesOf(p, ItemParts(items), n)
    {
      var item := GetTablesInItem(tables, items[n], p);
      r := r + [item];
    }
  }

  method GetTablesInItem(tables: TableAndAliases, item: SelectItem, p: string) returns (r: SelectItem)
    modifies tables
    ensures r == PrefixItem(p, item)
    ensures tables.names == old(tables.names) + Collected(p, InItem(item, false))
    decreases item
  {
    match item
    case Wildcard =>
      r := item;
    case Item(expr, alias) =>
      var expr' := GetTablesInExpr(tables, expr, p);
      r := Item(expr', alias);
  }

  method GetTablesInFactor(tables: TableAndAliases, f: TableFactor, p: string) returns (r: TableFactor)
    modifies tables
    ensures r == PrefixFactor(p, f)
    ensures tables.names == old(tables.names) + Collected(p, InFactor(f, false))
    decreases f
  {
    match f
    case Table(name, alias) =>
      var alias' := AddAlias(tables, alias, p);
      tables.Add(Scoped(p, name));
      r := Table(Scoped(p, name), alias');
      CollectedUnion(p, {TableRef(name, false)}, OptionAlias(alias, false));
      CollectedTable(p, name);
    case Derived(subquery, alias) =>
      var alias' := AddAlias(tables, alias, p);
      var subquery' := GetTablesInQuery(tables, subquery, p);
      r := Derived(subquery', alias');
      CollectedUnion(p, OptionAlias(alias, false), InQuery(subquery, false));
    case NestedJoin(inner) =>
      var inner' := GetTablesInTables(tables, inner, p);
      r := NestedJoin(inner');
  }

  lemma CollectedTable(p: string, name: Name)
    ensures Collected(p, {TableRef(name, false)}) == {Scoped(p, name)}
  {
    assert TableRef(name, false) in {TableRef(name, false)};
  }

  method GetTablesInTables(tables: TableAndAliases, t: TableWithJoins, p: string) returns (r: TableWithJoins)
    modifies tables
    ensures r == PrefixTables(p, t)
    ensures tables.names == old(tables.names) + Collected(p, InTables(t, false))
    decreases t
  {
    var relation := GetTablesInFactor(tables, t.relation, p);
    var joins := [];
    for n := 0 to |t.joins|
      invariant joins == seq(n, i requires 0 <= i < n => PrefixJoin(p, t.joins[i]))
      invariant tables.names == old(tables.names) + Collected(p, InFactor(t.relation, false))
        + NamesOf(p, JoinParts(t.joins), n)
    {
      var j := t.joins[n];
      var relation' := GetTablesInFactor(tables, j.relation, p);
      joins := joins + [Join(relation', j.on)];
      if j.on.Some? {
        HiddenExprs(j.on.value);
        CollectedHidden(p, InExpr(j.on.value, true));
      }
      assert Collected(p, InJoin(j, false)) == Collected(p, InFactor(j.relation, false)) by {
        CollectedUnion(p, InFactor(j.relation, false), InOption(j.on, true));
        assert InJoin(j, false) == InFactor(j.relation, false) + InOption(j.on, true);
      }
    }
    r := TableWithJoins(relation, joins);
    TablesNames(p, t);
  }

  method GetTablesInFrom(tables: TableAndAliases, from: seq<TableWithJoins>, p: string) returns (r: seq<TableWithJoins>)
    modifies tables
    ensures r == seq(|from|, i requires 0 <= i < |from| => PrefixTables(p, from[i]))
    ensures tables.names == old(tables.names) + NamesOf(p, FromParts(from), |from|)
    decreases from
  {
    r := [];
    for n := 0 to |from|
      invariant r == seq(n, i requires 0 <= i < n => PrefixTables(p, from[i]))
      invariant tables.names == old(tables.names) + NamesOf(p, FromParts(from), n)
    {
      var t := GetTablesInTables(tables, from[n], p);
      r := r + [t];
    }
  }

  method GetTablesInSetExpr(tables: TableAndAliases, s: SetExpr, p: string) returns (r: SetExpr)
    modifies tables
    ensures r == PrefixSetExpr(p, s)
    ensures tables.names == old(tables.names) + Collected(p, InSetExpr(s, false))
    decreases s
  {
    match s
    case Select(projection, from, selection) =>
      var projection' := GetTablesInProjection(tables, projection, p);
      var selection' := GetTablesInOption(tables, selection, p);
      var from' := GetTablesInFrom(tables, from, p);
      r := Select(projection', from', selection');
      SelectNames(p, s);
    case SetOperation(op, left, right) =>
      var left' := GetTablesInSetExpr(tables, left, p);
      var right' := GetTablesInSetExpr(tables, right, p);
      r := SetOperation(op, left', right');
      CollectedUnion(p, InSetExpr(left, false), InSetExpr(right, false));
    case Parenthesized(query) =>
      var query' := GetTablesInQuery(tables, query, p);
      r := Parenthesized(query');
    case Values(_) =>
      r := s;
      HiddenSetExprs(s);
      CollectedHidden(p, InSetExpr(s, false));
  }

  method GetTablesInCte(tables: TableAndAliases, c: Cte, p: string) returns (r: Cte)
    modifies tables
    ensures r == PrefixCte(p, c)
    ensures tables.names == old(tables.names) + Collected(p, InCte(c, false))
    decreases c
  {
    var query := GetTablesInQuery(tables, c.query, p);
    var name := AddAlias(tables, Some(c.name), p);
    r := Cte(name.value, query);
    CollectedUnion(p, OptionAlias(Some(c.name), false), InQuery(c.query, false));
    assert InCte(c, false) == OptionAlias(Some(c.name), false) + InQuery(c.query, false);
  }

  method GetTablesInQuery(tables: TableAndAliases, q: Query, p: string) returns (r: Query)
    modifies tables
    ensures r == PrefixQuery(p, q)
    ensures tables.names == old(tables.names) + Collected(p, InQuery(q, false))
    decreases q
  {
    var body := GetTablesInSetExpr(tables, q.body, p);
    var ctes := [];
    for n := 0 to |q.ctes|
      invariant ctes == seq(n, i requires 0 <= i < n => PrefixCte(p, q.ctes[i]))
      invariant tables.names == old(tables.names) + Collected(p, InSetExpr(q.body, false))
        + NamesOf(p, CteParts(q.ctes), n)
    {
      var cte := GetTablesInCte(tables, q.ctes[n], p);
      ctes := ctes + [cte];
    }
    r := Query(ctes, body);
    QueryNames(p, q);
  }

  method HandleForeignKey(p: string, fk: ForeignKey) returns (r: Result<ForeignKey, Error>)
    ensures r == PrefixForeignKey(p, fk)
    ensures r.Err? <==> SYSTEM_TABLE_REFERENCE <= fk.table && RestrictsSystem(fk)
    ensures r.Err? ==> r.error == SystemTableRestrict
    ensures r.Ok? && !(SYSTEM_TABLE_REFERENCE <= fk.table) ==> r.value.table == p + fk.table
    ensures r.Ok? && SYSTEM_TABLE_REFERENCE <= fk.table ==> SYSTEM_TABLE_REFERENCE + r.value.table == fk.table
    ensures r.Ok? ==> r.value.onDelete == fk.onDelete && r.value.onUpdate == fk.onUpdate
  {
    if SYSTEM_TABLE_REFERENCE <= fk.table {
      var stripped := fk.(table := fk.table[|SYSTEM_TABLE_REFERENCE|..]);
      if RestrictsSystem(fk) {
        return Err(SystemTableRestrict);
      }
      r := Ok(stripped);
    } else {
      r := Ok(fk.(table := Scoped(p, fk.table)));
    }
  }

  lemma {:induction false} ConstraintsFail(p: string, fks: seq<ForeignKey>, k: nat, n: nat)
    requires k < n <= |fks| && PrefixConstraints(p, fks, k).Ok? && PrefixForeignKey(p, fks[k]).Err?
    ensures PrefixConstraints(p, fks, n) == Err(PrefixForeignKey(p, fks[k]).error)
    decreases n
  {
    if k + 1 < n { ConstraintsFail(p, fks, k, n - 1); }
  }

  lemma {:induction false} ColumnsFail(p: string, defs: seq<ColumnDef>, k: nat, n: nat)
    requires k < n <= |defs| && PrefixColumns(p, defs, k).Ok?
    requires defs[k].references.Some? && PrefixForeignKey(p, defs[k].references.value).Err?
    ensures PrefixColumns(p, defs, n) == Err(PrefixForeignKey(p, defs[k].references.value).error)
    decreases n
  {
    if k + 1 < n { ColumnsFail(p, defs, k, n - 1); }
  }

  method HandleConstraints(p: string, fks: seq<ForeignKey>) returns (r: Result<seq<ForeignKey>, Error>)
    ensures r == PrefixConstraints(p, fks, |fks|)
    ensures r.Err? <==> exists i :: 0 <= i < |fks| && Refused(fks[i])
    ensures r.Ok? ==> |r.value| == |fks| && forall i | 0 <= i < |fks| :: KeyScoped(p, fks[i], r.value[i])
  {
    ConstraintsScoped(p, fks, |fks|);
    var done := [];
    for n := 0 to |fks|
      invariant PrefixConstraints(p, fks, n) == Ok(done)
    {
      var fk := HandleForeignKey(p, fks[n]);
      if fk.Err? {
        ConstraintsFail(p, fks, n, |fks|);
        return Err(fk.error);
      }
      done := done + [fk.value];
    }
    r := Ok(done);
  }

  method HandleColumns(p: string, defs: seq<ColumnDef>) returns (r: Result<seq<ColumnDef>, Error>)
    ensures r == PrefixColumns(p, defs, |defs|)
    ensures r.Err? <==> exists i :: 0 <= i < |defs| && defs[i].references.Some? && Refused(defs[i].references.value)
    ensures r.Ok? ==> |r.value| == |defs| && forall i | 0 <= i < |defs| :: ColumnScoped(p, defs[i], r.value[i])
  {
    ColumnsScoped(p, defs, |defs|);
    var done := [];
    for n := 0 to |defs|
      invariant PrefixColumns(p, defs, n) == Ok(done)
    {
      match defs[n].references
      case None =>
        done := done + [defs[n]];
      case Some(reference) =>
        var fk := HandleForeignKey(p, reference);
        if fk.Err? {
          ColumnsFail(p, defs, n, |defs|);
          return Err(fk.error);
        }
        done := done + [defs[n].(references := Some(fk.value))];
    }
    r := Ok(done);
  }

  method GetTablesInStatement(tables: TableAndAliases, s: Statement, p: string) returns (r: Result<Statement, Error>)
    modifies tables
    ensures r == PrefixStatement(p, s)
    ensures r.Ok? ==> tables.names == old(tables.names) + Collected(p, InStatement(s))
    ensures r.Ok? <==> Accepted(s)
  {
    AcceptedIff(p, s);
    match s
    case QueryStatement(query) =>
      var query' := GetTablesInQuery(tables, query, p);
      r := Ok(QueryStatement(query'));
    case Insert(table, columns, source) =>
      tables.Add(Scoped(p, table));
      var source' := GetTablesInQuery(tables, source, p);
      r := Ok(Insert(Scoped(p, table), columns, source'));
      CollectedTable(p, table);
      CollectedUnion(p, {TableRef(table, false)}, InQuery(source, false));
    case Update(target, assignments, selection) =>
      var target' := GetTablesInFactor(tables, target, p);
      r := Ok(Update(target', assignments, selection));
      UpdateNames(p, s);
    case Delete(from, selection) =>
      var from' := GetTablesInFactor(tables, from, p);
      var selection' := GetTablesInOption(tables, selection, p);
      r := Ok(Delete(from', selection'));
      CollectedUnion(p, InFactor(from, false), InOption(selection, false));
    case CreateTable(_, _, _, _) =>
      r := GetTablesInCreate(tables, s, p);
    case Drop(names) =>
      var names' := [];
      for n := 0 to |names|
        invariant names' == seq(n, i requires 0 <= i < n => Scoped(p, names[i]))
        invariant tables.names == old(tables.names) + set i | 0 <= i < n :: Scoped(p, names[i])
      {
        tables.Add(Scoped(p, names[n]));
        names' := names' + [Scoped(p, names[n])];
      }
      r := Ok(Drop(names'));
      DropNames(p, names);
    case AlterTable(name, operation) =>
      if operation.RenameTable? {
        return Err(TableRenameNotSupported);
      }
      tables.Add(Scoped(p, name));
      r := Ok(AlterTable(Scoped(p, name), operation));
      CollectedTable(p, name);
    case CreateIndex(name, table) =>
      tables.Add(Scoped(p, name));
      tables.Add(Scoped(p, table));
      r := Ok(CreateIndex(Scoped(p, name), Scoped(p, table)));
      CollectedTable(p, name);
      CollectedTable(p, table);
      CollectedUnion(p, {TableRef(name, false)}, {TableRef(table, false)});
      assert InStatement(s) == {TableRef(name, false)} + {TableRef(table, false)};
    case Transaction(_) =>
      r := Ok(s);
    case Unsupported(text) =>
      r := Err(UnsupportedStatement(text));
  }

  method GetTablesInCreate(tables: TableAndAliases, s: Statement, p: string) returns (r: Result<Statement, Error>)
    requires s.CreateTable?
    modifies tables
    ensures r == PrefixStatement(p, s)
    ensures r.Ok? ==> tables.names == old(tables.names) + Collected(p, InStatement(s))
  {
    tables.Add(Scoped(p, s.name));
    CollectedTable(p, s.name);
    var asQuery := None;
    if s.asQuery.Some? {
      var query := GetTablesInQuery(tables, s.asQuery.value, p);
      asQuery := Some(query);
      CollectedUnion(p, {TableRef(s.name, false)}, InQuery(s.asQuery.value, false));
    }
    assert InStatement(s) == {TableRef(s.name, false)} + (if s.asQuery.Some? then InQuery(s.asQuery.value, false) else {});
    var constraints := HandleConstraints(p, s.constraints);
    if constraints.Err? {
      return Err(constraints.error);
    }
    var defs := HandleColumns(p, s.defs);
    if defs.Err? {
      return Err(defs.error);
    }
    r := Ok(CreateTable(Scoped(p, s.name), defs.value, constraints.value, asQuery));
  }

  lemma UpdateNames(p: string, s: Statement)
    requires s.Update?
    ensures Collected(p, InStatement(s)) == Collected(p, InFactor(s.target, false))
  {
    var rest := InOption(s.selection, true) + set i, m | 0 <= i < |s.assignments| && m in InExpr(s.assignments[i].value, true) :: m;
    if s.selection.Some? { HiddenExprs(s.selection.value); }
    forall i | 0 <= i < |s.assignments| { HiddenExprs(s.assignments[i].value); }
    assert Hidden(rest);
    assert forall m | m in InStatement(s) :: m in InFactor(s.target, false) || m in rest;
  }

  lemma DropNames(p: string, names: seq<Name>)
    ensures Collected(p, InStatement(Drop(names))) == set i | 0 <= i < |names| :: Scoped(p, names[i])
  {
    forall i | 0 <= i < |names| ensures Scoped(p, names[i]) in Collected(p, InStatement(Drop(names))) {
      assert TableRef(names[i], false) in InStatement(Drop(names));
    }
  }

  // ---------- Pass two ----------

  // One item of the text: the first name, in whatever order, that it refers to decides.
  method RewriteItem(p: string, names: set<Name>, item: string) returns (r: string)
    requires AllPrefixed(p, names)
    ensures Rewrites(p, names, item, r)
  {
    var rest := names;
    while rest != {}
      invariant rest <= names
      invariant forall n | n in names - rest :: !(Reference(p, n) <= item)
      decreases rest
    {
      var n :| n in rest;
      if Reference(p, n) <= item {
        return Replace(item, Reference(p, n), n + ".");
      }
      rest := rest - {n};
    }
    r := item;
  }

  method RewriteText(p: string, names: set<Name>, text: string) returns (r: string)
    requires AllPrefixed(p, names)
    ensures RewritesText(p, names, text, r)
  {
    var ts := SplitWhitespace(text);
    var items := [];
    for i := 0 to |ts|
      invariant |items| == i
      invariant forall k | 0 <= k < i :: Rewrites(p, names, ts[k], items[k])
    {
      var item := RewriteItem(p, names, ts[i]);
      items := items + [item];
    }
    r := Strings.Join(items, " ");
  }

  // ---------- Scripts ----------

  lemma {:induction false} ScopeAllNames(p: string, script: seq<Statement>, n: nat)
    requires n <= |script| && ScopeAll(p, script, n).Ok?
    ensures |ScopeAll(p, script, n).value.statements| == n
    ensures AllPrefixed(p, ScopeAll(p, script, n).value.names)
  {
    if n != 0 { ScopeAllNames(p, script, n - 1); }
  }

  lemma {:induction false} ScopeAllFails(p: string, script: seq<Statement>, k: nat, n: nat)
    requires k < n <= |script| && ScopeAll(p, script, k).Ok? && PrefixStatement(p, script[k]).Err?
    ensures ScopeAll(p, script, n) == Err(PrefixStatement(p, script[k]).error)
    decreases n
  {
    if k + 1 < n { ScopeAllFails(p, script, k, n - 1); }
  }

  lemma {:induction false} ScopeAllEarlier(p: string, script: seq<Statement>, k: nat, n: nat)
    requires k <= n <= |script| && ScopeAll(p, script, n).Ok?
    ensures ScopeAll(p, script, k).Ok? && (k < n ==> PrefixStatement(p, script[k]).Ok?)
    ensures |ScopeAll(p, script, k).value.statements| == k && |ScopeAll(p, script, n).value.statements| == n
    ensures ScopeAll(p, script, k).value.statements <= ScopeAll(p, script, n).value.statements
    decreases n
  {
    if k < n { ScopeAllEarlier(p, script, k, n - 1); }
    if k == n && n > 0 { ScopeAllEarlier(p, script, n - 1, n - 1); }
  }

  // The text of the k-th statement is what the pass makes of the prefixed statement, with
  // the names collected so far.
  ghost predicate TextOf(show: Show, p: string, script: seq<Statement>, k: nat, text: string)
    requires k < |script|
  {
    && ScopeAll(p, script, k + 1).Ok?
    && PrefixStatement(p, script[k]).Ok?
    && AllPrefixed(p, ScopeAll(p, script, k + 1).value.names)
    && RewritesText(p, ScopeAll(p, script, k + 1).value.names, Render(PrintStatement(show, PrefixStatement(p, script[k]).value)), text)
  }

  method ScopeStatement(show: Show, tables: TableAndAliases, p: string, script: seq<Statement>, k: nat) returns (r: Result<string, Error>)
    requires k < |script| && ScopeAll(p, script, k).Ok? && ScopeAll(p, script, k).value.names == tables.names
    modifies tables
    ensures r.Err? <==> PrefixStatement(p, script[k]).Err?
    ensures r.Err? ==> r.error == PrefixStatement(p, script[k]).error
    ensures r.Ok? ==> ScopeAll(p, script, k + 1).Ok? && ScopeAll(p, script, k + 1).value.names == tables.names
    ensures r.Ok? ==> TextOf(show, p, script, k, r.value)
  {
    var prefixed := GetTablesInStatement(tables, script[k], p);
    if prefixed.Err? {
      return Err(prefixed.error);
    }
    ScopeAllNames(p, script, k + 1);
    var text := RewriteText(p, tables.names, Render(PrintStatement(show, prefixed.value)));
    r := Ok(text);
  }

  ghost predicate TextsOf(show: Show, p: string, script: seq<Statement>, texts: seq<string>) {
    |texts| <= |script| && forall k | 0 <= k < |texts| :: TextOf(show, p, script, k, texts[k])
  }

  lemma TextsSnoc(show: Show, p: string, script: seq<Statement>, texts: seq<string>, text: string)
    requires TextsOf(show, p, script, texts) && |texts| < |script|
    requires TextOf(show, p, script, |texts|, text)
    ensures TextsOf(show, p, script, texts + [text])
  {
    forall k | 0 <= k < |texts + [text]|
      ensures TextOf(show, p, script, k, (texts + [text])[k])
    {
      if k < |texts| { assert TextOf(show, p, script, k, texts[k]); }
    }
  }

  // The statements one after the other, with one shared set of names.
  method ScopeStatements(show: Show, tables: TableAndAliases, p: string, script: seq<Statement>) returns (r: Result<seq<string>, Error>)
    requires tables.names == {}
    modifies tables
    ensures r.Err? <==> ScopeAll(p, script, |script|).Err?
    ensures r.Err? ==> r.error == ScopeAll(p, script, |script|).error
    ensures r.Ok? ==> |r.value| == |script| && TextsOf(show, p, script, r.value)
  {
    var scoped := [];
    for k := 0 to |script|
      invariant ScopeAll(p, script, k).Ok? && ScopeAll(p, script, k).value.names == tables.names
      invariant |scoped| == k
      invariant TextsOf(show, p, script, scoped)
    {
      var text := ScopeStatement(show, tables, p, script, k);
      if text.Err? {
        ScopeAllFails(p, script, k, |script|);
        return Err(text.error);
      }
      TextsSnoc(show, p, script, scoped, text.value);
      scoped := scoped + [text.value];
    }
    r := Ok(scoped);
  }

  method PrefixScript(show: Show, p: string, script: seq<Statement>) returns (r: Result<string, Error>, ghost texts: seq<string>)
    ensures r.Err? <==> ScopeAll(p, script, |script|).Err?
    ensures r.Err? ==> r.error == ScopeAll(p, script, |script|).error
    ensures r.Ok? ==>
      && |texts| == |script|
      && TextsOf(show, p, script, texts)
      && r.value == Strings.Join(texts, ";") + ";"
  {
    var tables := new TableAndAliases();
    var scoped := ScopeStatements(show, tables, p, script);
    if scoped.Err? {
      return Err(scoped.error), [];
    }
    texts := scoped.value;
    r := Ok(Strings.Join(scoped.value, ";") + ";");
  }

  // The names are plain, the printed lexemes are ones the pass can deal with, and all of
  // them survive it.
  predicate PrintsCleanly(show: Show, p: string, names: set<Name>, prefixed: Statement) {
    var ls := PrintStatement(show, prefixed);
    PlainNames(p, names) && WellFormedAll(ls) && forall i | 0 <= i < |ls| :: Survives(p, names, ls[i])
  }

  lemma CleanText(show: Show, p: string, names: set<Name>, prefixed: Statement, text: string)
    requires p != "" && NoSpace(p) && PrintsCleanly(show, p, names, prefixed)
    requires RewritesText(p, names, Render(PrintStatement(show, prefixed)), text)
    ensures text == Render(PrintStatement(show, RenameStatement(p, names, prefixed)))
  {
    TextPassRenamesStatement(show, p, names, prefixed);
    PlainIsIncomparable(p, names);
    TextPassOrderIndependent(p, names, Render(PrintStatement(show, prefixed)), text,
      Render(PrintStatement(show, RenameStatement(p, names, prefixed))));
  }

  lemma LastStatement(p: string, script: seq<Statement>, k: nat)
    requires k < |script| && ScopeAll(p, script, k + 1).Ok?
    ensures PrefixStatement(p, script[k]).Ok? && |ScopeAll(p, script, k + 1).value.statements| == k + 1
    ensures ScopeAll(p, script, k + 1).value.statements[k]
         == RenameStatement(p, ScopeAll(p, script, k + 1).value.names, PrefixStatement(p, script[k]).value)
  {
    ScopeAllNames(p, script, k);
  }

  // END TO END.  The text that comes out is the printed form of the statements that
  // ScopeAll gives: those whose meaning is the original's.
  lemma ScopedText(show: Show, p: string, script: seq<Statement>, k: nat, text: string)
    requires p != "" && NoSpace(p) && ScopeAll(p, script, |script|).Ok? && k < |script|
    requires TextOf(show, p, script, k, text)
    requires PrintsCleanly(show, p, ScopeAll(p, script, k + 1).value.names, PrefixStatement(p, script[k]).value)
    ensures |ScopeAll(p, script, |script|).value.statements| == |script|
    ensures text == Render(PrintStatement(show, ScopeAll(p, script, |script|).value.statements[k]))
  {
    LastStatement(p, script, k);
    ScopeAllEarlier(p, script, k + 1, |script|);
    CleanText(show, p, ScopeAll(p, script, k + 1).value.names, PrefixStatement(p, script[k]).value, text);
  }
}
