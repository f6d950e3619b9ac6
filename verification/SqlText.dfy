/**
The second pass works on the text of the printed statement.  The printer below gives the
lexemes between the spaces; a lexeme holds at most one qualified column, perhaps with
punctuation or the name of a function stuck to it.
*/
module SqlText {
  import opened Wrappers
  import opened Strings
  import opened SqlAst
  import opened SqlScope

  datatype Lexeme = Lexeme(before: string, qualifier: Option<Name>, after: string)

  type Show = Value -> string

  function LexemeText(l: Lexeme): string {
    l.before + (if l.qualifier.Some? then l.qualifier.value + "." else "") + l.after
  }

  function Texts(ls: seq<Lexeme>): seq<string> {
    seq(|ls|, i requires 0 <= i < |ls| => LexemeText(ls[i]))
  }

  function Render(ls: seq<Lexeme>): string {
    Strings.Join(Texts(ls), " ")
  }

  // ---------- Printing ----------

  function Word(s: string): seq<Lexeme> {
    [Lexeme(s, None, "")]
  }

  function Suffixed(ls: seq<Lexeme>, suffix: string): seq<Lexeme> {
    if ls == [] then Word(suffix) else ls[|ls| - 1 := ls[|ls| - 1].(after := ls[|ls| - 1].after + suffix)]
  }

  function Prefixed(prefix: string, ls: seq<Lexeme>): seq<Lexeme> {
    if ls == [] then Word(prefix) else ls[0 := ls[0].(before := prefix + ls[0].before)]
  }

  function Wrap(open: string, ls: seq<Lexeme>): seq<Lexeme> {
    Suffixed(Prefixed(open, ls), ")")
  }

  function Flatten(parts: seq<seq<Lexeme>>): seq<Lexeme> {
    if parts == [] then [] else Flatten(parts[..|parts| - 1]) + parts[|parts| - 1]
  }

  function Commas(parts: seq<seq<Lexeme>>): seq<Lexeme> {
    Flatten(seq(|parts|, i requires 0 <= i < |parts| =>
      if i + 1 < |parts| then Suffixed(parts[i], ",") else parts[i]))
  }

  function Words(ws: seq<string>): seq<Lexeme> {
    seq(|ws|, i requires 0 <= i < |ws| => Lexeme(ws[i], None, ""))
  }

  function NameList(names: seq<Name>): seq<Lexeme> {
    Commas(seq(|names|, i requires 0 <= i < |names| => Word(names[i])))
  }

  function PrintAlias(alias: Option<Name>): seq<Lexeme> {
    match alias
    case None => []
    case Some(name) => Words(["AS", name])
  }

  function PrintExpr(show: Show, e: Expr): seq<Lexeme> {
    match e
    case Column(name) => Word(name)
    case Qualified(table, name) => [Lexeme("", Some(table), name)]
    case Literal(value) => Word(show(value))
    case Binary(op, left, right) => PrintExpr(show, left) + Word(op) + PrintExpr(show, right)
    case All(arg) => Wrap("ALL(", PrintExpr(show, arg))
    case Subquery(query) => Wrap("(", PrintQuery(show, query))
    case Nested(inner) => Wrap("(", PrintExpr(show, inner))
    case Call(fn, args) => Wrap(fn + "(", PrintArgs(show, args))
    case Exists(query) => Word("EXISTS") + Wrap("(", PrintQuery(show, query))
  }

  function PrintArgs(show: Show, args: seq<Expr>): seq<Lexeme> {
    Commas(seq(|args|, i requires 0 <= i < |args| => PrintExpr(show, args[i])))
  }

  function PrintItem(show: Show, item: SelectItem): seq<Lexeme> {
    match item
    case Wildcard => Word("*")
    case Item(expr, alias) => PrintExpr(show, expr) + PrintAlias(alias)
  }

  function PrintItems(show: Show, items: seq<SelectItem>): seq<Lexeme> {
    Commas(seq(|items|, i requires 0 <= i < |items| => PrintItem(show, items[i])))
  }

  function PrintFrom(show: Show, from: seq<TableWithJoins>): seq<Lexeme> {
    if from == [] then []
    else Word("FROM") + Commas(seq(|from|, i requires 0 <= i < |from| => PrintTables(show, from[i])))
  }

  function PrintFactor(show: Show, f: TableFactor): seq<Lexeme> {
    match f
    case Table(name, alias) => Word(name) + PrintAlias(alias)
    case Derived(subquery, alias) => Wrap("(", PrintQuery(show, subquery)) + PrintAlias(alias)
    case NestedJoin(tables) => Wrap("(", PrintTables(show, tables))
  }

  function PrintClause(show: Show, keyword: string, e: Option<Expr>): seq<Lexeme>
    decreases e
  {
    match e
    case None => []
    case Some(expr) => Word(keyword) + PrintExpr(show, expr)
  }

  function PrintJoin(show: Show, j: Join): seq<Lexeme> {
    Word("JOIN") + PrintFactor(show, j.relation) + PrintClause(show, "ON", j.on)
  }

  function PrintJoins(show: Show, joins: seq<Join>): seq<Lexeme> {
    Flatten(seq(|joins|, i requires 0 <= i < |joins| => PrintJoin(show, joins[i])))
  }

  function PrintTables(show: Show, t: TableWithJoins): seq<Lexeme> {
    PrintFactor(show, t.relation) + PrintJoins(show, t.joins)
  }

  function PrintSetExpr(show: Show, s: SetExpr): seq<Lexeme> {
    match s
    case Select(projection, from, selection) =>
      Word("SELECT") + PrintItems(show, projection) + PrintFrom(show, from)
      + PrintClause(show, "WHERE", selection)
    case SetOperation(op, left, right) => PrintSetExpr(show, left) + Word(op) + PrintSetExpr(show, right)
    case Parenthesized(query) => Wrap("(", PrintQuery(show, query))
    case Values(row) => Word("VALUES") + Wrap("(", PrintArgs(show, row))
  }

  function PrintCte(show: Show, c: Cte): seq<Lexeme> {
    Words([c.name, "AS"]) + Wrap("(", PrintQuery(show, c.query))
  }

  function PrintQuery(show: Show, q: Query): seq<Lexeme> {
    PrintWith(show, q.ctes) + PrintSetExpr(show, q.body)
  }

  function PrintWith(show: Show, ctes: seq<Cte>): seq<Lexeme> {
    if ctes == [] then []
    else Word("WITH") + Commas(seq(|ctes|, i requires 0 <= i < |ctes| => PrintCte(show, ctes[i])))
  }

  function PrintForeignKey(fk: ForeignKey): seq<Lexeme> {
    Words(["REFERENCES", fk.table])
    + (match fk.onDelete case None => [] case Some(a) => Words(["ON", "DELETE", ActionText(a)]))
    + (match fk.onUpdate case None => [] case Some(a) => Words(["ON", "UPDATE", ActionText(a)]))
  }

  function ActionText(a: ReferentialAction): string {
    match a
    case Restrict => "RESTRICT"
    case OtherAction(action) => action
  }

  function PrintColumn(c: ColumnDef): seq<Lexeme> {
    Word(c.name) + (match c.references case None => [] case Some(fk) => PrintForeignKey(fk))
  }

  function PrintDefinitions(defs: seq<ColumnDef>, constraints: seq<ForeignKey>): seq<Lexeme> {
    Wrap("(", Commas(
      seq(|defs|, i requires 0 <= i < |defs| => PrintColumn(defs[i]))
      + seq(|constraints|, i requires 0 <= i < |constraints| => Words(["FOREIGN", "KEY"]) + PrintForeignKey(constraints[i]))))
  }

  function PrintTableHead(name: Name, defs: seq<ColumnDef>, constraints: seq<ForeignKey>): seq<Lexeme> {
    Words(["CREATE", "TABLE", name])
    + (if defs == [] && constraints == [] then [] else PrintDefinitions(defs, constraints))
  }

  function PrintAs(show: Show, asQuery: Option<Query>): seq<Lexeme> {
    match asQuery
    case None => []
    case Some(q) => Word("AS") + PrintQuery(show, q)
  }

  function PrintAssignment(show: Show, a: Assignment): seq<Lexeme> {
    Words([a.column, "="]) + PrintExpr(show, a.value)
  }

  function PrintAssignments(show: Show, assignments: seq<Assignment>): seq<Lexeme> {
    Commas(seq(|assignments|, i requires 0 <= i < |assignments| => PrintAssignment(show, assignments[i])))
  }

  function PrintStatement(show: Show, s: Statement): seq<Lexeme> {
    match s
    case QueryStatement(query) => PrintQuery(show, query)
    case Insert(table, columns, source) =>
      Words(["INSERT", "INTO", table]) + (if columns == [] then [] else Wrap("(", NameList(columns)))
      + PrintQuery(show, source)
    case Update(target, assignments, selection) =>
      Word("UPDATE") + PrintFactor(show, target) + Word("SET")
      + PrintAssignments(show, assignments)
      + PrintClause(show, "WHERE", selection)
    case Delete(from, selection) =>
      Words(["DELETE", "FROM"]) + PrintFactor(show, from) + PrintClause(show, "WHERE", selection)
    case CreateTable(name, defs, constraints, asQuery) =>
      PrintTableHead(name, defs, constraints) + PrintAs(show, asQuery)
    case Drop(names) => Words(["DROP", "TABLE"]) + NameList(names)
    case AlterTable(name, AddColumn(column)) => Words(["ALTER", "TABLE", name, "ADD"]) + PrintColumn(column)
    case AlterTable(name, RenameTable(newName)) => Words(["ALTER", "TABLE", name, "RENAME", "TO", newName])
    case CreateIndex(name, table) => Words(["CREATE", "INDEX", name, "ON", table])
    case Transaction(words) => Words(words)
    case Unsupported(text) => Word(text)
  }

  // ---------- Renaming lexemes ----------

  function RenameLexeme(p: string, names: set<Name>, l: Lexeme): Lexeme {
    if l.qualifier.None? then l
    else l.(qualifier := Some(RenamedQualifier(p, names, l.qualifier.value)))
  }

  function RenameLexemes(p: string, names: set<Name>, ls: seq<Lexeme>): seq<Lexeme> {
    seq(|ls|, i requires 0 <= i < |ls| => RenameLexeme(p, names, ls[i]))
  }

  lemma RenameConcat(p: string, names: set<Name>, a: seq<Lexeme>, b: seq<Lexeme>)
    ensures RenameLexemes(p, names, a + b) == RenameLexemes(p, names, a) + RenameLexemes(p, names, b)
  {}

  lemma RenameConcat4(p: string, names: set<Name>, a: seq<Lexeme>, b: seq<Lexeme>, c: seq<Lexeme>, d: seq<Lexeme>)
    ensures RenameLexemes(p, names, a + b + c + d)
         == RenameLexemes(p, names, a) + RenameLexemes(p, names, b) + RenameLexemes(p, names, c) + RenameLexemes(p, names, d)
  {
    RenameConcat(p, names, a + b + c, d);
    RenameConcat(p, names, a + b, c);
    RenameConcat(p, names, a, b);
  }

  lemma RenameWords(p: string, names: set<Name>, ws: seq<string>)
    ensures RenameLexemes(p, names, Words(ws)) == Words(ws)
  {}

  lemma RenameSuffixed(p: string, names: set<Name>, ls: seq<Lexeme>, suffix: string)
    ensures RenameLexemes(p, names, Suffixed(ls, suffix)) == Suffixed(RenameLexemes(p, names, ls), suffix)
  {}

  lemma RenameWrap(p: string, names: set<Name>, open: string, ls: seq<Lexeme>)
    ensures RenameLexemes(p, names, Wrap(open, ls)) == Wrap(open, RenameLexemes(p, names, ls))
  {
    assert RenameLexemes(p, names, Prefixed(open, ls)) == Prefixed(open, RenameLexemes(p, names, ls));
    RenameSuffixed(p, names, Prefixed(open, ls), ")");
  }

  lemma {:induction false} RenameFlatten(p: string, names: set<Name>, parts: seq<seq<Lexeme>>, parts': seq<seq<Lexeme>>)
    requires |parts| == |parts'|
    requires forall i | 0 <= i < |parts| :: parts'[i] == RenameLexemes(p, names, parts[i])
    ensures Flatten(parts') == RenameLexemes(p, names, Flatten(parts))
  {
    if parts != [] {
      var n := |parts| - 1;
      RenameFlatten(p, names, parts[..n], parts'[..n]);
      RenameConcat(p, names, Flatten(parts[..n]), parts[n]);
    }
  }

  lemma RenameCommas(p: string, names: set<Name>, parts: seq<seq<Lexeme>>, parts': seq<seq<Lexeme>>)
    requires |parts| == |parts'|
    requires forall i | 0 <= i < |parts| :: parts'[i] == RenameLexemes(p, names, parts[i])
    ensures Commas(parts') == RenameLexemes(p, names, Commas(parts))
  {
    var marked := seq(|parts|, i requires 0 <= i < |parts| =>
      if i + 1 < |parts| then Suffixed(parts[i], ",") else parts[i]);
    var marked' := seq(|parts'|, i requires 0 <= i < |parts'| =>
      if i + 1 < |parts'| then Suffixed(parts'[i], ",") else parts'[i]);
    forall i | 0 <= i < |parts| ensures marked'[i] == RenameLexemes(p, names, marked[i]) {
      RenameSuffixed(p, names, parts[i], ",");
    }
    RenameFlatten(p, names, marked, marked');
  }

  // ---------- Printing commutes with renaming ----------

  lemma {:induction false} PrintRenamedExpr(show: Show, p: string, names: set<Name>, e: Expr)
    ensures PrintExpr(show, RenameExpr(p, names, e)) == RenameLexemes(p, names, PrintExpr(show, e))
  {
    match e
    case Column(_) =>
    case Qualified(_, _) =>
    case Literal(_) =>
    case Binary(op, left, right) =>
      PrintRenamedExpr(show, p, names, left);
      PrintRenamedExpr(show, p, names, right);
    case All(arg) =>
      PrintRenamedExpr(show, p, names, arg);
      RenameWrap(p, names, "ALL(", PrintExpr(show, arg));
    case Subquery(query) =>
      PrintRenamedQuery(show, p, names, query);
      RenameWrap(p, names, "(", PrintQuery(show, query));
    case Nested(inner) =>
      PrintRenamedExpr(show, p, names, inner);
      RenameWrap(p, names, "(", PrintExpr(show, inner));
    case Call(fn, args) =>
      PrintRenamedArgs(show, p, names, args);
      RenameWrap(p, names, fn + "(", PrintArgs(show, args));
    case Exists(query) =>
      PrintRenamedQuery(show, p, names, query);
      RenameWrap(p, names, "(", PrintQuery(show, query));
  }

  lemma {:induction false} PrintRenamedArgs(show: Show, p: string, names: set<Name>, args: seq<Expr>)
    ensures
      var args' := seq(|args|, i requires 0 <= i < |args| => RenameExpr(p, names, args[i]));
      PrintArgs(show, args') == RenameLexemes(p, names, PrintArgs(show, args))
  {
    var args' := seq(|args|, i requires 0 <= i < |args| => RenameExpr(p, names, args[i]));
    forall i | 0 <= i < |args|
      ensures PrintExpr(show, args'[i]) == RenameLexemes(p, names, PrintExpr(show, args[i]))
    {
      PrintRenamedExpr(show, p, names, args[i]);
    }
    RenameCommas(p, names,
      seq(|args|, i requires 0 <= i < |args| => PrintExpr(show, args[i])),
      seq(|args'|, i requires 0 <= i < |args'| => PrintExpr(show, args'[i])));
  }

  lemma {:induction false} PrintRenamedClause(show: Show, p: string, names: set<Name>, keyword: string, e: Option<Expr>)
    ensures PrintClause(show, keyword, RenameOption(p, names, e)) == RenameLexemes(p, names, PrintClause(show, keyword, e))
    decreases p, names, e
  {
    if e.Some? { PrintRenamedExpr(show, p, names, e.value); }
  }

  lemma {:induction false} PrintRenamedItem(show: Show, p: string, names: set<Name>, item: SelectItem)
    ensures PrintItem(show, RenameItem(p, names, item)) == RenameLexemes(p, names, PrintItem(show, item))
  {
    if item.Item? { PrintRenamedExpr(show, p, names, item.expr); }
  }

  lemma {:induction false} PrintRenamedFactor(show: Show, p: string, names: set<Name>, f: TableFactor)
    ensures PrintFactor(show, RenameFactor(p, names, f)) == RenameLexemes(p, names, PrintFactor(show, f))
  {
    match f
    case Table(_, _) =>
    case Derived(subquery, alias) =>
      PrintRenamedQuery(show, p, names, subquery);
      RenameWrap(p, names, "(", PrintQuery(show, subquery));
      RenameConcat(p, names, Wrap("(", PrintQuery(show, subquery)), PrintAlias(alias));
    case NestedJoin(tables) =>
      PrintRenamedTables(show, p, names, tables);
      RenameWrap(p, names, "(", PrintTables(show, tables));
  }

  lemma {:induction false} PrintRenamedJoin(show: Show, p: string, names: set<Name>, j: Join)
    ensures PrintJoin(show, RenameJoin(p, names, j)) == RenameLexemes(p, names, PrintJoin(show, j))
  {
    PrintRenamedFactor(show, p, names, j.relation);
    PrintRenamedClause(show, p, names, "ON", j.on);
  }

  lemma {:induction false} PrintRenamedJoins(show: Show, p: string, names: set<Name>, joins: seq<Join>, joins': seq<Join>)
    requires |joins'| == |joins| && forall i | 0 <= i < |joins| :: joins'[i] == RenameJoin(p, names, joins[i])
    ensures PrintJoins(show, joins') == RenameLexemes(p, names, PrintJoins(show, joins))
    decreases p, names, joins
  {
    forall i | 0 <= i < |joins|
      ensures PrintJoin(show, joins'[i]) == RenameLexemes(p, names, PrintJoin(show, joins[i]))
    {
      PrintRenamedJoin(show, p, names, joins[i]);
    }
    RenameFlatten(p, names,
      seq(|joins|, i requires 0 <= i < |joins| => PrintJoin(show, joins[i])),
      seq(|joins'|, i requires 0 <= i < |joins'| => PrintJoin(show, joins'[i])));
  }

  lemma {:induction false} PrintRenamedTables(show: Show, p: string, names: set<Name>, t: TableWithJoins)
    ensures PrintTables(show, RenameTables(p, names, t)) == RenameLexemes(p, names, PrintTables(show, t))
  {
    PrintRenamedFactor(show, p, names, t.relation);
    PrintRenamedJoins(show, p, names, t.joins, RenameTables(p, names, t).joins);
    RenameConcat(p, names, PrintFactor(show, t.relation), PrintJoins(show, t.joins));
  }

  lemma {:induction false} PrintRenamedItems(show: Show, p: string, names: set<Name>, items: seq<SelectItem>, items': seq<SelectItem>)
    requires |items'| == |items| && forall i | 0 <= i < |items| :: items'[i] == RenameItem(p, names, items[i])
    ensures PrintItems(show, items') == RenameLexemes(p, names, PrintItems(show, items))
    decreases p, names, items
  {
    forall i | 0 <= i < |items|
      ensures PrintItem(show, items'[i]) == RenameLexemes(p, names, PrintItem(show, items[i]))
    {
      PrintRenamedItem(show, p, names, items[i]);
    }
    RenameCommas(p, names,
      seq(|items|, i requires 0 <= i < |items| => PrintItem(show, items[i])),
      seq(|items'|, i requires 0 <= i < |items'| => PrintItem(show, items'[i])));
  }

  lemma {:induction false} PrintRenamedFrom(show: Show, p: string, names: set<Name>, from: seq<TableWithJoins>, from': seq<TableWithJoins>)
    requires |from'| == |from| && forall i | 0 <= i < |from| :: from'[i] == RenameTables(p, names, from[i])
    ensures PrintFrom(show, from') == RenameLexemes(p, names, PrintFrom(show, from))
    decreases p, names, from
  {
    forall i | 0 <= i < |from|
      ensures PrintTables(show, from'[i]) == RenameLexemes(p, names, PrintTables(show, from[i]))
    {
      PrintRenamedTables(show, p, names, from[i]);
    }
    var parts := seq(|from|, i requires 0 <= i < |from| => PrintTables(show, from[i]));
    RenameCommas(p, names, parts, seq(|from'|, i requires 0 <= i < |from'| => PrintTables(show, from'[i])));
    RenameConcat(p, names, Word("FROM"), Commas(parts));
  }

  // A selection is printed part by part.
  lemma SelectRenamed(show: Show, p: string, names: set<Name>, s: SetExpr, s': SetExpr)
    requires s.Select? && s'.Select?
    requires PrintItems(show, s'.projection) == RenameLexemes(p, names, PrintItems(show, s.projection))
    requires PrintFrom(show, s'.from) == RenameLexemes(p, names, PrintFrom(show, s.from))
    requires PrintClause(show, "WHERE", s'.selection) == RenameLexemes(p, names, PrintClause(show, "WHERE", s.selection))
    ensures PrintSetExpr(show, s') == RenameLexemes(p, names, PrintSetExpr(show, s))
  {
    RenameConcat4(p, names, Word("SELECT"), PrintItems(show, s.projection), PrintFrom(show, s.from), PrintClause(show, "WHERE", s.selection));
    assert RenameLexemes(p, names, Word("SELECT")) == Word("SELECT");
  }

  lemma {:induction false} PrintRenamedSelect(show: Show, p: string, names: set<Name>, s: SetExpr)
    requires s.Select?
    ensures PrintSetExpr(show, RenameSetExpr(p, names, s)) == RenameLexemes(p, names, PrintSetExpr(show, s))
    decreases p, names, s, 0
  {
    var s' := RenameSetExpr(p, names, s);
    PrintRenamedItems(show, p, names, s.projection, s'.projection);
    PrintRenamedFrom(show, p, names, s.from, s'.from);
    PrintRenamedClause(show, p, names, "WHERE", s.selection);
    assert s'.selection == RenameOption(p, names, s.selection);
    SelectRenamed(show, p, names, s, s');
  }

  lemma {:induction false} PrintRenamedSetExpr(show: Show, p: string, names: set<Name>, s: SetExpr)
    ensures PrintSetExpr(show, RenameSetExpr(p, names, s)) == RenameLexemes(p, names, PrintSetExpr(show, s))
  {
    match s
    case Select(_, _, _) =>
      PrintRenamedSelect(show, p, names, s);
    case SetOperation(op, left, right) =>
      PrintRenamedSetExpr(show, p, names, left);
      PrintRenamedSetExpr(show, p, names, right);
      RenameConcat4(p, names, PrintSetExpr(show, left), Word(op), PrintSetExpr(show, right), []);
    case Parenthesized(query) =>
      PrintRenamedQuery(show, p, names, query);
      RenameWrap(p, names, "(", PrintQuery(show, query));
    case Values(row) =>
      PrintRenamedArgs(show, p, names, row);
      RenameWrap(p, names, "(", PrintArgs(show, row));
      RenameConcat(p, names, Word("VALUES"), Wrap("(", PrintArgs(show, row)));
  }

  lemma {:induction false} PrintRenamedCte(show: Show, p: string, names: set<Name>, c: Cte)
    ensures PrintCte(show, RenameCte(p, names, c)) == RenameLexemes(p, names, PrintCte(show, c))
  {
    PrintRenamedQuery(show, p, names, c.query);
    RenameWrap(p, names, "(", PrintQuery(show, c.query));
    RenameWords(p, names, [c.name, "AS"]);
    RenameConcat(p, names, Words([c.name, "AS"]), Wrap("(", PrintQuery(show, c.query)));
  }

  lemma {:induction false} PrintRenamedQuery(show: Show, p: string, names: set<Name>, q: Query)
    ensures PrintQuery(show, RenameQuery(p, names, q)) == RenameLexemes(p, names, PrintQuery(show, q))
  {
    PrintRenamedWith(show, p, names, q.ctes, RenameQuery(p, names, q).ctes);
    PrintRenamedSetExpr(show, p, names, q.body);
    RenameConcat(p, names, PrintWith(show, q.ctes), PrintSetExpr(show, q.body));
  }

  lemma {:induction false} PrintRenamedWith(show: Show, p: string, names: set<Name>, ctes: seq<Cte>, ctes': seq<Cte>)
    requires |ctes'| == |ctes| && forall i | 0 <= i < |ctes| :: ctes'[i] == RenameCte(p, names, ctes[i])
    ensures PrintWith(show, ctes') == RenameLexemes(p, names, PrintWith(show, ctes))
    decreases p, names, ctes
  {
    forall i | 0 <= i < |ctes|
      ensures PrintCte(show, ctes'[i]) == RenameLexemes(p, names, PrintCte(show, ctes[i]))
    {
      PrintRenamedCte(show, p, names, ctes[i]);
    }
    var parts := seq(|ctes|, i requires 0 <= i < |ctes| => PrintCte(show, ctes[i]));
    RenameCommas(p, names, parts, seq(|ctes'|, i requires 0 <= i < |ctes'| => PrintCte(show, ctes'[i])));
    RenameConcat(p, names, Word("WITH"), Commas(parts));
  }
}
