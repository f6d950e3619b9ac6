/**
What scoping does to a statement: every table, alias and common table expression that
the traversal reaches is prefixed and collected, and every column qualifier that is,
once prefixed, one of the collected names is prefixed too.
*/
module SqlScope {
  import opened Wrappers
  import opened SqlAst

  datatype Error = TableRenameNotSupported | UnsupportedStatement(text: string) | SystemTableRestrict

  const SYSTEM_TABLE_REFERENCE := "__SYSTEM__"

  function Scoped(p: string, n: Name): Name {
    p + n
  }

  lemma ScopedInjective(p: string, m: Name, n: Name)
    ensures Scoped(p, m) == Scoped(p, n) <==> m == n
  {
    assert Scoped(p, m)[|p|..] == m && Scoped(p, n)[|p|..] == n;
  }

  function ScopedOption(p: string, n: Option<Name>): Option<Name> {
    match n
    case None => None
    case Some(name) => Some(Scoped(p, name))
  }

  // ---------- Pass one: tables, aliases and common table expressions ----------

  function PrefixExpr(p: string, e: Expr): Expr {
    match e
    case Subquery(query) => Subquery(PrefixQuery(p, query))
    case All(arg) => All(PrefixExpr(p, arg))
    case Binary(op, left, right) => Binary(op, PrefixExpr(p, left), PrefixExpr(p, right))
    case _ => e
  }

  function PrefixItem(p: string, item: SelectItem): SelectItem {
    match item
    case Wildcard => item
    case Item(expr, alias) => Item(PrefixExpr(p, expr), alias)
  }

  function PrefixFactor(p: string, f: TableFactor): TableFactor {
    match f
    case Table(name, alias) => Table(Scoped(p, name), ScopedOption(p, alias))
    case Derived(subquery, alias) => Derived(PrefixQuery(p, subquery), ScopedOption(p, alias))
    case NestedJoin(tables) => NestedJoin(PrefixTables(p, tables))
  }

  function PrefixTables(p: string, t: TableWithJoins): TableWithJoins {
    TableWithJoins(
      PrefixFactor(p, t.relation),
      seq(|t.joins|, i requires 0 <= i < |t.joins| => PrefixJoin(p, t.joins[i])))
  }

  function PrefixJoin(p: string, j: Join): Join {
    Join(PrefixFactor(p, j.relation), j.on)
  }

  function PrefixSetExpr(p: string, s: SetExpr): SetExpr {
    match s
    case Select(projection, from, selection) =>
      Select(
        seq(|projection|, i requires 0 <= i < |projection| => PrefixItem(p, projection[i])),
        seq(|from|, i requires 0 <= i < |from| => PrefixTables(p, from[i])),
        match selection case None => None case Some(e) => Some(PrefixExpr(p, e)))
    case SetOperation(op, left, right) => SetOperation(op, PrefixSetExpr(p, left), PrefixSetExpr(p, right))
    case Parenthesized(query) => Parenthesized(PrefixQuery(p, query))
    case Values(_) => s
  }

  function PrefixCte(p: string, c: Cte): Cte {
    Cte(Scoped(p, c.name), PrefixQuery(p, c.query))
  }

  function PrefixQuery(p: string, q: Query): Query {
    Query(
      seq(|q.ctes|, i requires 0 <= i < |q.ctes| => PrefixCte(p, q.ctes[i])),
      PrefixSetExpr(p, q.body))
  }

  predicate RestrictsSystem(fk: ForeignKey) {
    fk.onDelete == Some(Restrict) || fk.onUpdate == Some(Restrict)
  }

  function PrefixForeignKey(p: string, fk: ForeignKey): Result<ForeignKey, Error> {
    if SYSTEM_TABLE_REFERENCE <= fk.table then
      if RestrictsSystem(fk) then Err(SystemTableRestrict)
      else Ok(fk.(table := fk.table[|SYSTEM_TABLE_REFERENCE|..]))
    else Ok(fk.(table := Scoped(p, fk.table)))
  }

  function PrefixConstraints(p: string, fks: seq<ForeignKey>, n: nat): Result<seq<ForeignKey>, Error>
    requires n <= |fks|
  {
    if n == 0 then Ok([])
    else
      var done :- PrefixConstraints(p, fks, n - 1);
      var fk :- PrefixForeignKey(p, fks[n - 1]);
      Ok(done + [fk])
  }

  function PrefixColumns(p: string, defs: seq<ColumnDef>, n: nat): Result<seq<ColumnDef>, Error>
    requires n <= |defs|
  {
    if n == 0 then Ok([])
    else
      var done :- PrefixColumns(p, defs, n - 1);
      match defs[n - 1].references
      case None => Ok(done + [defs[n - 1]])
      case Some(reference) =>
        var fk :- PrefixForeignKey(p, reference);
        Ok(done + [defs[n - 1].(references := Some(fk))])
  }

  function PrefixStatement(p: string, s: Statement): Result<Statement, Error> {
    match s
    case QueryStatement(query) => Ok(QueryStatement(PrefixQuery(p, query)))
    case Insert(table, columns, source) => Ok(Insert(Scoped(p, table), columns, PrefixQuery(p, source)))
    case Update(target, assignments, selection) => Ok(Update(PrefixFactor(p, target), assignments, selection))
    case Delete(from, selection) =>
      Ok(Delete(PrefixFactor(p, from), match selection case None => None case Some(e) => Some(PrefixExpr(p, e))))
    case CreateTable(name, defs, constraints, asQuery) =>
      var constraints' :- PrefixConstraints(p, constraints, |constraints|);
      var defs' :- PrefixColumns(p, defs, |defs|);
      Ok(CreateTable(Scoped(p, name), defs', constraints',
        match asQuery case None => None case Some(q) => Some(PrefixQuery(p, q))))
    case Drop(names) => Ok(Drop(seq(|names|, i requires 0 <= i < |names| => Scoped(p, names[i]))))
    case AlterTable(name, operation) =>
      if operation.RenameTable? then Err(TableRenameNotSupported) else Ok(AlterTable(Scoped(p, name), operation))
    case CreateIndex(name, table) => Ok(CreateIndex(Scoped(p, name), Scoped(p, table)))
    case Transaction(_) => Ok(s)
    case Unsupported(text) => Err(UnsupportedStatement(text))
  }

  // ---------- Pass two: column qualifiers ----------

  function RenamedQualifier(p: string, names: set<Name>, x: Name): Name {
    if Scoped(p, x) in names then Scoped(p, x) else x
  }

  function RenameExpr(p: string, names: set<Name>, e: Expr): Expr {
    match e
    case Column(_) => e
    case Qualified(table, name) => Qualified(RenamedQualifier(p, names, table), name)
    case Literal(_) => e
    case Binary(op, left, right) => Binary(op, RenameExpr(p, names, left), RenameExpr(p, names, right))
    case All(arg) => All(RenameExpr(p, names, arg))
    case Subquery(query) => Subquery(RenameQuery(p, names, query))
    case Nested(inner) => Nested(RenameExpr(p, names, inner))
    case Call(fn, args) => Call(fn, seq(|args|, i requires 0 <= i < |args| => RenameExpr(p, names, args[i])))
    case Exists(query) => Exists(RenameQuery(p, names, query))
  }

  function RenameItem(p: string, names: set<Name>, item: SelectItem): SelectItem {
    match item
    case Wildcard => item
    case Item(expr, alias) => Item(RenameExpr(p, names, expr), alias)
  }

  function RenameFactor(p: string, names: set<Name>, f: TableFactor): TableFactor {
    match f
    case Table(_, _) => f
    case Derived(subquery, alias) => Derived(RenameQuery(p, names, subquery), alias)
    case NestedJoin(tables) => NestedJoin(RenameTables(p, names, tables))
  }

  function RenameTables(p: string, names: set<Name>, t: TableWithJoins): TableWithJoins {
    TableWithJoins(
      RenameFactor(p, names, t.relation),
      seq(|t.joins|, i requires 0 <= i < |t.joins| => RenameJoin(p, names, t.joins[i])))
  }

  function RenameJoin(p: string, names: set<Name>, j: Join): Join {
    Join(RenameFactor(p, names, j.relation), match j.on case None => None case Some(e) => Some(RenameExpr(p, names, e)))
  }

  function RenameSetExpr(p: string, names: set<Name>, s: SetExpr): SetExpr {
    match s
    case Select(projection, from, selection) =>
      Select(
        seq(|projection|, i requires 0 <= i < |projection| => RenameItem(p, names, projection[i])),
        seq(|from|, i requires 0 <= i < |from| => RenameTables(p, names, from[i])),
        match selection case None => None case Some(e) => Some(RenameExpr(p, names, e)))
    case SetOperation(op, left, right) =>
      SetOperation(op, RenameSetExpr(p, names, left), RenameSetExpr(p, names, right))
    case Parenthesized(query) => Parenthesized(RenameQuery(p, names, query))
    case Values(row) => Values(seq(|row|, i requires 0 <= i < |row| => RenameExpr(p, names, row[i])))
  }

  function RenameCte(p: string, names: set<Name>, c: Cte): Cte {
    Cte(c.name, RenameQuery(p, names, c.query))
  }

  function RenameQuery(p: string, names: set<Name>, q: Query): Query {
    Query(
      seq(|q.ctes|, i requires 0 <= i < |q.ctes| => RenameCte(p, names, q.ctes[i])),
      RenameSetExpr(p, names, q.body))
  }

  function RenameOption(p: string, names: set<Name>, e: Option<Expr>): Option<Expr> {
    match e
    case None => None
    case Some(expr) => Some(RenameExpr(p, names, expr))
  }

  function RenameStatement(p: string, names: set<Name>, s: Statement): Statement {
    match s
    case QueryStatement(query) => QueryStatement(RenameQuery(p, names, query))
    case Insert(table, columns, source) => Insert(table, columns, RenameQuery(p, names, source))
    case Update(target, assignments, selection) =>
      Update(RenameFactor(p, names, target),
        seq(|assignments|, i requires 0 <= i < |assignments| =>
          Assignment(assignments[i].column, RenameExpr(p, names, assignments[i].value))),
        RenameOption(p, names, selection))
    case Delete(from, selection) => Delete(RenameFactor(p, names, from), RenameOption(p, names, selection))
    case CreateTable(name, defs, constraints, asQuery) =>
      CreateTable(name, defs, constraints,
        match asQuery case None => None case Some(q) => Some(RenameQuery(p, names, q)))
    case _ => s
  }

  // ---------- What a statement mentions ----------

  // `hidden` marks what lies in a position that the traversal does not enter.
  datatype Mention =
    | TableRef(name: Name, hidden: bool)
    | AliasName(name: Name, hidden: bool)
    | Qualifier(name: Name)
    | HiddenQuery

  function OptionAlias(alias: Option<Name>, hidden: bool): set<Mention> {
    match alias
    case None => {}
    case Some(name) => {AliasName(name, hidden)}
  }

  function InExpr(e: Expr, hidden: bool): set<Mention> {
    match e
    case Column(_) => {}
    case Qualified(table, _) => {Qualifier(table)}
    case Literal(_) => {}
    case Binary(_, left, right) => InExpr(left, hidden) + InExpr(right, hidden)
    case All(arg) => InExpr(arg, hidden)
    case Subquery(query) => (if hidden then {HiddenQuery} else {}) + InQuery(query, hidden)
    case Nested(inner) => InExpr(inner, true)
    case Call(_, args) => set i, m | 0 <= i < |args| && m in InExpr(args[i], true) :: m
    case Exists(query) => {HiddenQuery} + InQuery(query, true)
  }

  function InOption(e: Option<Expr>, hidden: bool): set<Mention> {
    match e
    case None => {}
    case Some(expr) => InExpr(expr, hidden)
  }

  function InItem(item: SelectItem, hidden: bool): set<Mention> {
    match item
    case Wildcard => {}
    case Item(expr, _) => InExpr(expr, hidden)
  }

  function InFactor(f: TableFactor, hidden: bool): set<Mention> {
    match f
    case Table(name, alias) => {TableRef(name, hidden)} + OptionAlias(alias, hidden)
    case Derived(subquery, alias) => OptionAlias(alias, hidden) + InQuery(subquery, hidden)
    case NestedJoin(tables) => InTables(tables, hidden)
  }

  function InJoin(j: Join, hidden: bool): set<Mention> {
    InFactor(j.relation, hidden) + (match j.on case None => {} case Some(e) => InExpr(e, true))
  }

  function InTables(t: TableWithJoins, hidden: bool): set<Mention> {
    InFactor(t.relation, hidden) + set i, m | 0 <= i < |t.joins| && m in InJoin(t.joins[i], hidden) :: m
  }

  function InSetExpr(s: SetExpr, hidden: bool): set<Mention> {
    match s
    case Select(projection, from, selection) =>
      (set i, m | 0 <= i < |projection| && m in InItem(projection[i], hidden) :: m)
      + (set i, m | 0 <= i < |from| && m in InTables(from[i], hidden) :: m)
      + (match selection case None => {} case Some(e) => InExpr(e, hidden))
    case SetOperation(_, left, right) => InSetExpr(left, hidden) + InSetExpr(right, hidden)
    case Parenthesized(query) => InQuery(query, hidden)
    case Values(row) => set i, m | 0 <= i < |row| && m in InExpr(row[i], true) :: m
  }

  function InCte(c: Cte, hidden: bool): set<Mention> {
    {AliasName(c.name, hidden)} + InQuery(c.query, hidden)
  }

  function InQuery(q: Query, hidden: bool): set<Mention> {
    InSetExpr(q.body, hidden) + set i, m | 0 <= i < |q.ctes| && m in InCte(q.ctes[i], hidden) :: m
  }

  function InStatement(s: Statement): set<Mention> {
    match s
    case QueryStatement(query) => InQuery(query, false)
    case Insert(table, _, source) => {TableRef(table, false)} + InQuery(source, false)
    case Update(target, assignments, selection) =>
      InFactor(target, false) + InOption(selection, true)
      + (set i, m | 0 <= i < |assignments| && m in InExpr(assignments[i].value, true) :: m)
    case Delete(from, selection) => InFactor(from, false) + InOption(selection, false)
    case CreateTable(name, _, _, asQuery) =>
      {TableRef(name, false)} + (match asQuery case None => {} case Some(q) => InQuery(q, false))
    case Drop(names) => set i | 0 <= i < |names| :: TableRef(names[i], false)
    case AlterTable(name, _) => {TableRef(name, false)}
    case CreateIndex(name, table) => {TableRef(name, false), TableRef(table, false)}
    case Transaction(_) => {}
    case Unsupported(_) => {}
  }

  // The names that pass one collects: all of them carry the prefix.
  function Collected(p: string, ms: set<Mention>): set<Name> {
    set m | m in ms && (m.TableRef? || m.AliasName?) && !m.hidden :: Scoped(p, m.name)
  }

  // The statements rewritten one after the other, the collected names accumulating.
  datatype Scoping = Scoping(statements: seq<Statement>, names: set<Name>)

  function ScopeAll(p: string, script: seq<Statement>, n: nat): Result<Scoping, Error>
    requires n <= |script|
  {
    if n == 0 then Ok(Scoping([], {}))
    else
      var done :- ScopeAll(p, script, n - 1);
      var prefixed :- PrefixStatement(p, script[n - 1]);
      var names := done.names + Collected(p, InStatement(script[n - 1]));
      Ok(Scoping(done.statements + [RenameStatement(p, names, prefixed)], names))
  }
}
