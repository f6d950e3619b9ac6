/**
What the printed text of a statement says: its characters, without the blanks between the
lexemes, are those of the concrete syntax.
*/
module SqlSyntax {
  import opened Wrappers
  import Strings
  import opened SqlAst
  import opened SqlText

  // ---------- The concrete syntax ----------

  function AliasChars(alias: Option<Name>): string {
    match alias
    case None => ""
    case Some(name) => "AS" + name
  }

  function ExprChars(show: Show, e: Expr): string {
    match e
    case Column(name) => name
    case Qualified(table, name) => table + "." + name
    case Literal(value) => show(value)
    case Binary(op, left, right) => ExprChars(show, left) + op + ExprChars(show, right)
    case All(arg) => "ALL(" + ExprChars(show, arg) + ")"
    case Subquery(query) => "(" + QueryChars(show, query) + ")"
    case Nested(inner) => "(" + ExprChars(show, inner) + ")"
    case Call(fn, args) => fn + "(" + ArgsChars(show, args) + ")"
    case Exists(query) => "EXISTS" + "(" + QueryChars(show, query) + ")"
  }

  function ArgsChars(show: Show, args: seq<Expr>): string {
    Strings.Join(seq(|args|, i requires 0 <= i < |args| => ExprChars(show, args[i])), ",")
  }

  function ItemChars(show: Show, item: SelectItem): string {
    match item
    case Wildcard => "*"
    case Item(expr, alias) => ExprChars(show, expr) + AliasChars(alias)
  }

  function ItemsChars(show: Show, items: seq<SelectItem>): string {
    Strings.Join(seq(|items|, i requires 0 <= i < |items| => ItemChars(show, items[i])), ",")
  }

  function ClauseChars(show: Show, keyword: string, e: Option<Expr>): string
    decreases e
  {
    match e
    case None => ""
    case Some(expr) => keyword + ExprChars(show, expr)
  }

  function FactorChars(show: Show, f: TableFactor): string {
    match f
    case Table(name, alias) => name + AliasChars(alias)
    case Derived(subquery, alias) => "(" + QueryChars(show, subquery) + ")" + AliasChars(alias)
    case NestedJoin(tables) => "(" + TablesChars(show, tables) + ")"
  }

  function JoinChars(show: Show, j: SqlAst.Join): string {
    "JOIN" + FactorChars(show, j.relation) + ClauseChars(show, "ON", j.on)
  }

  function JoinsChars(show: Show, joins: seq<SqlAst.Join>): string {
    Strings.Join(seq(|joins|, i requires 0 <= i < |joins| => JoinChars(show, joins[i])), "")
  }

  function TablesChars(show: Show, t: TableWithJoins): string {
    FactorChars(show, t.relation) + JoinsChars(show, t.joins)
  }

  function FromChars(show: Show, from: seq<TableWithJoins>): string {
    if from == [] then "" else "FROM" + Strings.Join(seq(|from|, i requires 0 <= i < |from| => TablesChars(show, from[i])), ",")
  }

  function SetExprChars(show: Show, s: SetExpr): string {
    match s
    case Select(projection, from, selection) =>
      "SELECT" + ItemsChars(show, projection) + FromChars(show, from) + ClauseChars(show, "WHERE", selection)
    case SetOperation(op, left, right) => SetExprChars(show, left) + op + SetExprChars(show, right)
    case Parenthesized(query) => "(" + QueryChars(show, query) + ")"
    case Values(row) => "VALUES" + "(" + ArgsChars(show, row) + ")"
  }

  function CteChars(show: Show, c: Cte): string {
    c.name + "AS" + "(" + QueryChars(show, c.query) + ")"
  }

  function WithChars(show: Show, ctes: seq<Cte>): string {
    if ctes == [] then "" else "WITH" + Strings.Join(seq(|ctes|, i requires 0 <= i < |ctes| => CteChars(show, ctes[i])), ",")
  }

  function QueryChars(show: Show, q: Query): string {
    WithChars(show, q.ctes) + SetExprChars(show, q.body)
  }

  function ReferenceChars(fk: ForeignKey): string {
    "REFERENCES" + fk.table
    + (if fk.onDelete.Some? then "ONDELETE" + ActionText(fk.onDelete.value) else "")
    + (if fk.onUpdate.Some? then "ONUPDATE" + ActionText(fk.onUpdate.value) else "")
  }

  function ColumnChars(c: ColumnDef): string {
    c.name + if c.references.Some? then ReferenceChars(c.references.value) else ""
  }

  function DefinitionsChars(defs: seq<ColumnDef>, constraints: seq<ForeignKey>): string {
    "(" + Strings.Join(
      seq(|defs|, i requires 0 <= i < |defs| => ColumnChars(defs[i]))
      + seq(|constraints|, i requires 0 <= i < |constraints| => "FOREIGNKEY" + ReferenceChars(constraints[i])), ",") + ")"
  }

  function StatementChars(show: Show, s: Statement): string {
    match s
    case QueryStatement(query) => QueryChars(show, query)
    case Insert(table, columns, source) =>
      "INSERTINTO" + table + (if columns == [] then "" else "(" + Strings.Join(columns, ",") + ")") + QueryChars(show, source)
    case Update(target, assignments, selection) =>
      "UPDATE" + FactorChars(show, target) + "SET"
      + Strings.Join(seq(|assignments|, i requires 0 <= i < |assignments| =>
          assignments[i].column + "=" + ExprChars(show, assignments[i].value)), ",")
      + ClauseChars(show, "WHERE", selection)
    case Delete(from, selection) => "DELETEFROM" + FactorChars(show, from) + ClauseChars(show, "WHERE", selection)
    case CreateTable(name, defs, constraints, asQuery) =>
      "CREATETABLE" + name
      + (if defs == [] && constraints == [] then "" else DefinitionsChars(defs, constraints))
      + (if asQuery.Some? then "AS" + QueryChars(show, asQuery.value) else "")
    case Drop(names) => "DROPTABLE" + Strings.Join(names, ",")
    case AlterTable(name, AddColumn(column)) => "ALTERTABLE" + name + "ADD" + ColumnChars(column)
    case AlterTable(name, RenameTable(newName)) => "ALTERTABLE" + name + "RENAMETO" + newName
    case CreateIndex(name, table) => "CREATEINDEX" + name + "ON" + table
    case Transaction(words) => Strings.Join(words, "")
    case Unsupported(text) => text
  }

  // ---------- Lexemes without the blanks ----------

  function Squeezed(ls: seq<Lexeme>): string {
    if ls == [] then "" else LexemeText(ls[0]) + Squeezed(ls[1..])
  }

  lemma {:induction false} SqueezeConcat(a: seq<Lexeme>, b: seq<Lexeme>)
    ensures Squeezed(a + b) == Squeezed(a) + Squeezed(b)
  {
    if a == [] {
      assert a + b == b;
    } else {
      assert (a + b)[1..] == a[1..] + b;
      SqueezeConcat(a[1..], b);
    }
  }

  lemma SqueezeWord(w: string)
    ensures Squeezed(Word(w)) == w
  {
    assert Word(w)[1..] == [];
  }

  lemma {:induction false} SqueezeWords(ws: seq<string>)
    ensures Squeezed(Words(ws)) == Strings.Join(ws, "")
  {
    if ws != [] {
      assert Words(ws)[1..] == Words(ws[1..]);
      SqueezeWords(ws[1..]);
      if |ws| == 1 { assert ws[1..] == []; }
    }
  }

  lemma {:induction false} SqueezeSuffixed(ls: seq<Lexeme>, suffix: string)
    ensures Squeezed(Suffixed(ls, suffix)) == Squeezed(ls) + suffix
  {
    if ls == [] {
      SqueezeWord(suffix);
    } else {
      var n := |ls| - 1;
      var last := ls[n];
      assert ls == ls[..n] + [last] && Suffixed(ls, suffix) == ls[..n] + [last.(after := last.after + suffix)];
      SqueezeConcat(ls[..n], [last]);
      SqueezeConcat(ls[..n], [last.(after := last.after + suffix)]);
      assert LexemeText(last.(after := last.after + suffix)) == LexemeText(last) + suffix;
    }
  }

  lemma SqueezePrefixed(prefix: string, ls: seq<Lexeme>)
    ensures Squeezed(Prefixed(prefix, ls)) == prefix + Squeezed(ls)
  {
    if ls == [] {
      SqueezeWord(prefix);
    } else {
      var first := ls[0].(before := prefix + ls[0].before);
      assert Prefixed(prefix, ls)[1..] == ls[1..];
      assert LexemeText(first) == prefix + LexemeText(ls[0]);
    }
  }

  lemma SqueezeWrap(open: string, ls: seq<Lexeme>)
    ensures Squeezed(Wrap(open, ls)) == open + Squeezed(ls) + ")"
  {
    SqueezePrefixed(open, ls);
    SqueezeSuffixed(Prefixed(open, ls), ")");
  }

  function AllSqueezed(parts: seq<seq<Lexeme>>): seq<string> {
    seq(|parts|, i requires 0 <= i < |parts| => Squeezed(parts[i]))
  }

  lemma {:induction false} JoinSnoc(ts: seq<string>, t: string, sep: string)
    ensures Strings.Join(ts + [t], sep) == if ts == [] then t else Strings.Join(ts, sep) + sep + t
  {
    if |ts| > 1 {
      assert (ts + [t])[1..] == ts[1..] + [t];
      JoinSnoc(ts[1..], t, sep);
    } else if ts == [] {
      assert ts + [t] == [t];
    } else {
      assert (ts + [t])[1..] == [t];
    }
  }

  lemma AllSqueezedSnoc(parts: seq<seq<Lexeme>>, last: seq<Lexeme>)
    ensures AllSqueezed(parts + [last]) == AllSqueezed(parts) + [Squeezed(last)]
  {}

  lemma {:induction false} SqueezeFlatten(parts: seq<seq<Lexeme>>)
    ensures Squeezed(Flatten(parts)) == Strings.Join(AllSqueezed(parts), "")
  {
    if parts != [] {
      var n := |parts| - 1;
      SqueezeFlatten(parts[..n]);
      SqueezeConcat(Flatten(parts[..n]), parts[n]);
      AllSqueezedSnoc(parts[..n], parts[n]);
      assert parts == parts[..n] + [parts[n]];
      JoinSnoc(AllSqueezed(parts[..n]), Squeezed(parts[n]), "");
    }
  }

  function Marked(parts: seq<seq<Lexeme>>): seq<seq<Lexeme>> {
    seq(|parts|, i requires 0 <= i < |parts| => Suffixed(parts[i], ","))
  }

  lemma {:induction false} SqueezeMarked(parts: seq<seq<Lexeme>>, last: seq<Lexeme>)
    ensures Squeezed(Flatten(Marked(parts)) + last) == Strings.Join(AllSqueezed(parts) + [Squeezed(last)], ",")
  {
    SqueezeConcat(Flatten(Marked(parts)), last);
    SqueezeFlatten(Marked(parts));
    MarkedJoin(parts);
    JoinSnoc(AllSqueezed(parts), Squeezed(last), ",");
  }

  lemma {:induction false} MarkedJoin(parts: seq<seq<Lexeme>>)
    ensures Strings.Join(AllSqueezed(Marked(parts)), "") == if parts == [] then "" else Strings.Join(AllSqueezed(parts), ",") + ","
  {
    if parts != [] {
      var n := |parts| - 1;
      MarkedJoin(parts[..n]);
      MarkedSnoc(parts[..n], parts[n]);
      AllSqueezedSnoc(parts[..n], parts[n]);
      assert parts == parts[..n] + [parts[n]];
      MarkedStep(AllSqueezed(parts[..n]), AllSqueezed(Marked(parts[..n])), Squeezed(parts[n]));
    }
  }

  lemma MarkedStep(ts: seq<string>, marked: seq<string>, t: string)
    requires |marked| == |ts| && Strings.Join(marked, "") == if ts == [] then "" else Strings.Join(ts, ",") + ","
    ensures Strings.Join(marked + [t + ","], "") == Strings.Join(ts + [t], ",") + ","
  {
    JoinSnoc(marked, t + ",", "");
    JoinSnoc(ts, t, ",");
    if ts != [] { Closing(Strings.Join(ts, ","), ",", t); }
  }

  lemma Closing(whole: string, comma: string, t: string)
    ensures whole + comma + "" + (t + comma) == whole + comma + t + comma
  {
    assert whole + comma + "" == whole + comma;
  }

  lemma MarkedSnoc(parts: seq<seq<Lexeme>>, last: seq<Lexeme>)
    ensures AllSqueezed(Marked(parts + [last])) == AllSqueezed(Marked(parts)) + [Squeezed(last) + ","]
  {
    SqueezeSuffixed(last, ",");
    assert Marked(parts + [last]) == Marked(parts) + [Suffixed(last, ",")];
    AllSqueezedSnoc(Marked(parts), Suffixed(last, ","));
  }

  lemma CommasSplit(parts: seq<seq<Lexeme>>)
    requires parts != []
    ensures var n := |parts| - 1; Commas(parts) == Flatten(Marked(parts[..n])) + parts[n]
  {
    var n := |parts| - 1;
    var marked := seq(|parts|, i requires 0 <= i < |parts| => if i + 1 < |parts| then Suffixed(parts[i], ",") else parts[i]);
    assert marked[..n] == Marked(parts[..n]) && marked[n] == parts[n];
    assert Flatten(marked) == Flatten(marked[..n]) + marked[n];
  }

  lemma CommasAreJoined(parts: seq<seq<Lexeme>>)
    requires parts != []
    ensures Squeezed(Commas(parts)) == Strings.Join(AllSqueezed(parts), ",")
  {
    var n := |parts| - 1;
    CommasSplit(parts);
    SqueezeMarked(parts[..n], parts[n]);
    AllSqueezedSnoc(parts[..n], parts[n]);
    assert parts == parts[..n] + [parts[n]];
  }

  lemma SqueezeCommas(parts: seq<seq<Lexeme>>, texts: seq<string>)
    requires |texts| == |parts| && forall i | 0 <= i < |parts| :: texts[i] == Squeezed(parts[i])
    ensures Squeezed(Commas(parts)) == Strings.Join(texts, ",")
  {
    if parts == [] {
      assert Commas(parts) == [];
    } else {
      CommasAreJoined(parts);
      assert texts == AllSqueezed(parts);
    }
  }

  // ---------- The printer ----------

  lemma AliasPrinted(alias: Option<Name>)
    ensures Squeezed(PrintAlias(alias)) == AliasChars(alias)
  {
    if alias.Some? { SqueezeWords(["AS", alias.value]); JoinTwo("AS", alias.value); }
  }

  lemma JoinTwo(a: string, b: string)
    ensures Strings.Join([a, b], "") == a + b
  {
    assert [a, b][1..] == [b];
  }

  lemma JoinThree(a: string, b: string, c: string)
    ensures Strings.Join([a, b, c], "") == a + b + c
  {
    assert [a, b, c][1..] == [b, c];
    JoinTwo(b, c);
  }

  lemma BinaryPrinted(left: seq<Lexeme>, op: string, right: seq<Lexeme>)
    ensures Squeezed(left + Word(op) + right) == Squeezed(left) + op + Squeezed(right)
  {
    SqueezeWord(op);
    SqueezeConcat(left, Word(op));
    SqueezeConcat(left + Word(op), right);
  }

  lemma WordThenWrapped(word: string, ls: seq<Lexeme>)
    ensures Squeezed(Word(word) + Wrap("(", ls)) == word + "(" + Squeezed(ls) + ")"
  {
    SqueezeWord(word);
    SqueezeWrap("(", ls);
    SqueezeConcat(Word(word), Wrap("(", ls));
    Regroup(word, "(", Squeezed(ls), ")");
  }

  lemma {:induction false} ExprPrinted(show: Show, e: Expr)
    ensures Squeezed(PrintExpr(show, e)) == ExprChars(show, e)
  {
    match e
    case Column(name) => SqueezeWord(name);
    case Qualified(table, name) => assert [Lexeme("", Some(table), name)][1..] == [];
    case Literal(value) => SqueezeWord(show(value));
    case Binary(op, left, right) =>
      ExprPrinted(show, left);
      ExprPrinted(show, right);
      BinaryPrinted(PrintExpr(show, left), op, PrintExpr(show, right));
    case All(arg) =>
      ExprPrinted(show, arg);
      SqueezeWrap("ALL(", PrintExpr(show, arg));
    case Subquery(query) =>
      QueryPrinted(show, query);
      SqueezeWrap("(", PrintQuery(show, query));
    case Nested(inner) =>
      ExprPrinted(show, inner);
      SqueezeWrap("(", PrintExpr(show, inner));
    case Call(fn, args) =>
      ArgsPrinted(show, args);
      SqueezeWrap(fn + "(", PrintArgs(show, args));
    case Exists(query) =>
      QueryPrinted(show, query);
      WordThenWrapped("EXISTS", PrintQuery(show, query));
  }

  lemma {:induction false} ArgsPrinted(show: Show, args: seq<Expr>)
    ensures Squeezed(PrintArgs(show, args)) == ArgsChars(show, args)
  {
    forall i | 0 <= i < |args| ensures Squeezed(PrintExpr(show, args[i])) == ExprChars(show, args[i]) {
      ExprPrinted(show, args[i]);
    }
    SqueezeCommas(
      seq(|args|, i requires 0 <= i < |args| => PrintExpr(show, args[i])),
      seq(|args|, i requires 0 <= i < |args| => ExprChars(show, args[i])));
  }

  lemma {:induction false} ItemPrinted(show: Show, item: SelectItem)
    ensures Squeezed(PrintItem(show, item)) == ItemChars(show, item)
  {
    match item
    case Wildcard => SqueezeWord("*");
    case Item(expr, alias) =>
      ExprPrinted(show, expr);
      AliasPrinted(alias);
      SqueezeConcat(PrintExpr(show, expr), PrintAlias(alias));
  }

  lemma {:induction false} ItemsPrinted(show: Show, items: seq<SelectItem>)
    ensures Squeezed(PrintItems(show, items)) == ItemsChars(show, items)
  {
    forall i | 0 <= i < |items| ensures Squeezed(PrintItem(show, items[i])) == ItemChars(show, items[i]) {
      ItemPrinted(show, items[i]);
    }
    SqueezeCommas(
      seq(|items|, i requires 0 <= i < |items| => PrintItem(show, items[i])),
      seq(|items|, i requires 0 <= i < |items| => ItemChars(show, items[i])));
  }

  lemma {:induction false} ClausePrinted(show: Show, keyword: string, e: Option<Expr>)
    ensures Squeezed(PrintClause(show, keyword, e)) == ClauseChars(show, keyword, e)
    decreases e
  {
    if e.Some? {
      ExprPrinted(show, e.value);
      SqueezeWord(keyword);
      SqueezeConcat(Word(keyword), PrintExpr(show, e.value));
    }
  }

  lemma {:induction false} FactorPrinted(show: Show, f: TableFactor)
    ensures Squeezed(PrintFactor(show, f)) == FactorChars(show, f)
  {
    match f
    case Table(name, alias) =>
      SqueezeWord(name);
      AliasPrinted(alias);
      SqueezeConcat(Word(name), PrintAlias(alias));
    case Derived(subquery, alias) =>
      QueryPrinted(show, subquery);
      SqueezeWrap("(", PrintQuery(show, subquery));
      AliasPrinted(alias);
      SqueezeConcat(Wrap("(", PrintQuery(show, subquery)), PrintAlias(alias));
    case NestedJoin(tables) =>
      TablesPrinted(show, tables);
      SqueezeWrap("(", PrintTables(show, tables));
  }

  lemma {:induction false} JoinPrinted(show: Show, j: Join)
    ensures Squeezed(PrintJoin(show, j)) == JoinChars(show, j)
  {
    FactorPrinted(show, j.relation);
    ClausePrinted(show, "ON", j.on);
    SqueezeWord("JOIN");
    SqueezeConcat(Word("JOIN"), PrintFactor(show, j.relation));
    SqueezeConcat(Word("JOIN") + PrintFactor(show, j.relation), PrintClause(show, "ON", j.on));
  }

  lemma {:induction false} JoinsPrinted(show: Show, joins: seq<Join>)
    ensures Squeezed(PrintJoins(show, joins)) == JoinsChars(show, joins)
  {
    var parts := seq(|joins|, i requires 0 <= i < |joins| => PrintJoin(show, joins[i]));
    forall i | 0 <= i < |joins| ensures Squeezed(PrintJoin(show, joins[i])) == JoinChars(show, joins[i]) {
      JoinPrinted(show, joins[i]);
    }
    SqueezeFlatten(parts);
    assert AllSqueezed(parts) == seq(|joins|, i requires 0 <= i < |joins| => JoinChars(show, joins[i]));
  }

  lemma {:induction false} TablesPrinted(show: Show, t: TableWithJoins)
    ensures Squeezed(PrintTables(show, t)) == TablesChars(show, t)
  {
    FactorPrinted(show, t.relation);
    JoinsPrinted(show, t.joins);
    SqueezeConcat(PrintFactor(show, t.relation), PrintJoins(show, t.joins));
  }

  lemma {:induction false} FromPrinted(show: Show, from: seq<TableWithJoins>)
    ensures Squeezed(PrintFrom(show, from)) == FromChars(show, from)
  {
    if from != [] {
      var parts := seq(|from|, i requires 0 <= i < |from| => PrintTables(show, from[i]));
      forall i | 0 <= i < |from| ensures Squeezed(PrintTables(show, from[i])) == TablesChars(show, from[i]) {
        TablesPrinted(show, from[i]);
      }
      SqueezeCommas(parts, seq(|from|, i requires 0 <= i < |from| => TablesChars(show, from[i])));
      SqueezeWord("FROM");
      SqueezeConcat(Word("FROM"), Commas(parts));
    }
  }

  lemma SelectPrinted(show: Show, s: SetExpr)
    requires s.Select?
    requires Squeezed(PrintItems(show, s.projection)) == ItemsChars(show, s.projection)
    requires Squeezed(PrintFrom(show, s.from)) == FromChars(show, s.from)
    requires Squeezed(PrintClause(show, "WHERE", s.selection)) == ClauseChars(show, "WHERE", s.selection)
    ensures Squeezed(PrintSetExpr(show, s)) == SetExprChars(show, s)
  {
    var items, from := PrintItems(show, s.projection), PrintFrom(show, s.from);
    SqueezeWord("SELECT");
    SqueezeConcat(Word("SELECT"), items);
    SqueezeConcat(Word("SELECT") + items, from);
    SqueezeConcat(Word("SELECT") + items + from, PrintClause(show, "WHERE", s.selection));
  }

  lemma {:induction false} SetExprPrinted(show: Show, s: SetExpr)
    ensures Squeezed(PrintSetExpr(show, s)) == SetExprChars(show, s)
  {
    match s
    case Select(projection, from, selection) =>
      ItemsPrinted(show, projection);
      FromPrinted(show, from);
      ClausePrinted(show, "WHERE", selection);
      SelectPrinted(show, s);
    case SetOperation(op, left, right) =>
      SetExprPrinted(show, left);
      SetExprPrinted(show, right);
      BinaryPrinted(PrintSetExpr(show, left), op, PrintSetExpr(show, right));
    case Parenthesized(query) =>
      QueryPrinted(show, query);
      SqueezeWrap("(", PrintQuery(show, query));
    case Values(row) =>
      ArgsPrinted(show, row);
      WordThenWrapped("VALUES", PrintArgs(show, row));
  }

  lemma NamedPrinted(name: Name, body: seq<Lexeme>)
    ensures Squeezed(Words([name, "AS"]) + Wrap("(", body)) == name + "AS" + "(" + Squeezed(body) + ")"
  {
    SqueezeWords([name, "AS"]);
    JoinTwo(name, "AS");
    SqueezeWrap("(", body);
    SqueezeConcat(Words([name, "AS"]), Wrap("(", body));
    Regroup(name + "AS", "(", Squeezed(body), ")");
  }

  lemma Regroup(a: string, b: string, c: string, d: string)
    ensures a + (b + c + d) == a + b + c + d
  {}

  lemma {:induction false} CtePrinted(show: Show, c: Cte)
    ensures Squeezed(PrintCte(show, c)) == CteChars(show, c)
  {
    QueryPrinted(show, c.query);
    NamedPrinted(c.name, PrintQuery(show, c.query));
  }

  lemma {:induction false} WithPrinted(show: Show, ctes: seq<Cte>)
    ensures Squeezed(PrintWith(show, ctes)) == WithChars(show, ctes)
  {
    if ctes != [] {
      var parts := seq(|ctes|, i requires 0 <= i < |ctes| => PrintCte(show, ctes[i]));
      forall i | 0 <= i < |ctes| ensures Squeezed(PrintCte(show, ctes[i])) == CteChars(show, ctes[i]) {
        CtePrinted(show, ctes[i]);
      }
      SqueezeCommas(parts, seq(|ctes|, i requires 0 <= i < |ctes| => CteChars(show, ctes[i])));
      SqueezeWord("WITH");
      SqueezeConcat(Word("WITH"), Commas(parts));
    }
  }

  lemma {:induction false} QueryPrinted(show: Show, q: Query)
    ensures Squeezed(PrintQuery(show, q)) == QueryChars(show, q)
  {
    WithPrinted(show, q.ctes);
    SetExprPrinted(show, q.body);
    SqueezeConcat(PrintWith(show, q.ctes), PrintSetExpr(show, q.body));
  }

  // ---------- Statements ----------

  lemma ActionPrinted(keyword: string, both: string, action: ReferentialAction)
    requires both == "ON" + keyword
    ensures Squeezed(Words(["ON", keyword, ActionText(action)])) == both + ActionText(action)
  {
    SqueezeWords(["ON", keyword, ActionText(action)]);
    JoinThree("ON", keyword, ActionText(action));
  }

  lemma ReferencePrinted(fk: ForeignKey)
    ensures Squeezed(PrintForeignKey(fk)) == ReferenceChars(fk)
  {
    var head := Words(["REFERENCES", fk.table]);
    var onDelete := if fk.onDelete.Some? then Words(["ON", "DELETE", ActionText(fk.onDelete.value)]) else [];
    var onUpdate := if fk.onUpdate.Some? then Words(["ON", "UPDATE", ActionText(fk.onUpdate.value)]) else [];
    SqueezeWords(["REFERENCES", fk.table]);
    JoinTwo("REFERENCES", fk.table);
    if fk.onDelete.Some? { ActionPrinted("DELETE", "ONDELETE", fk.onDelete.value); }
    if fk.onUpdate.Some? { ActionPrinted("UPDATE", "ONUPDATE", fk.onUpdate.value); }
    SqueezeConcat(head, onDelete);
    SqueezeConcat(head + onDelete, onUpdate);
  }

  lemma ColumnPrinted(c: ColumnDef)
    ensures Squeezed(PrintColumn(c)) == ColumnChars(c)
  {
    SqueezeWord(c.name);
    if c.references.Some? {
      ReferencePrinted(c.references.value);
      SqueezeConcat(Word(c.name), PrintForeignKey(c.references.value));
    } else {
      SqueezeConcat(Word(c.name), []);
    }
  }

  lemma ConstraintPrinted(fk: ForeignKey)
    ensures Squeezed(Words(["FOREIGN", "KEY"]) + PrintForeignKey(fk)) == "FOREIGNKEY" + ReferenceChars(fk)
  {
    ReferencePrinted(fk);
    SqueezeWords(["FOREIGN", "KEY"]);
    JoinTwo("FOREIGN", "KEY");
    SqueezeConcat(Words(["FOREIGN", "KEY"]), PrintForeignKey(fk));
    assert "FOREIGN" + "KEY" == "FOREIGNKEY";
  }

  lemma DefinitionsPrinted(defs: seq<ColumnDef>, constraints: seq<ForeignKey>)
    ensures Squeezed(PrintDefinitions(defs, constraints)) == DefinitionsChars(defs, constraints)
  {
    var columns := seq(|defs|, i requires 0 <= i < |defs| => PrintColumn(defs[i]));
    var keys := seq(|constraints|, i requires 0 <= i < |constraints| => Words(["FOREIGN", "KEY"]) + PrintForeignKey(constraints[i]));
    var columnTexts := seq(|defs|, i requires 0 <= i < |defs| => ColumnChars(defs[i]));
    var keyTexts := seq(|constraints|, i requires 0 <= i < |constraints| => "FOREIGNKEY" + ReferenceChars(constraints[i]));
    forall i | 0 <= i < |defs| ensures columnTexts[i] == Squeezed(columns[i]) { ColumnPrinted(defs[i]); }
    forall i | 0 <= i < |constraints| ensures keyTexts[i] == Squeezed(keys[i]) { ConstraintPrinted(constraints[i]); }
    SqueezeCommas(columns + keys, columnTexts + keyTexts);
    SqueezeWrap("(", Commas(columns + keys));
  }

  lemma NamesPrinted(names: seq<Name>)
    ensures Squeezed(NameList(names)) == Strings.Join(names, ",")
  {
    forall i | 0 <= i < |names| ensures names[i] == Squeezed(Word(names[i])) { SqueezeWord(names[i]); }
    SqueezeCommas(seq(|names|, i requires 0 <= i < |names| => Word(names[i])), names);
  }

  lemma InsertPrinted(show: Show, s: Statement)
    requires s.Insert?
    ensures Squeezed(PrintStatement(show, s)) == StatementChars(show, s)
  {
    var head := Words(["INSERT", "INTO", s.table]);
    var columns := if s.columns == [] then [] else Wrap("(", NameList(s.columns));
    SqueezeWords(["INSERT", "INTO", s.table]);
    JoinThree("INSERT", "INTO", s.table);
    if s.columns != [] {
      NamesPrinted(s.columns);
      SqueezeWrap("(", NameList(s.columns));
    }
    QueryPrinted(show, s.source);
    SqueezeConcat(head, columns);
    SqueezeConcat(head + columns, PrintQuery(show, s.source));
    assert "INSERT" + "INTO" == "INSERTINTO";
  }

  lemma AssignmentsPrinted(show: Show, assignments: seq<Assignment>)
    ensures Squeezed(PrintAssignments(show, assignments)) ==
      Strings.Join(seq(|assignments|, i requires 0 <= i < |assignments| =>
        assignments[i].column + "=" + ExprChars(show, assignments[i].value)), ",")
  {
    var parts := seq(|assignments|, i requires 0 <= i < |assignments| => PrintAssignment(show, assignments[i]));
    var texts := seq(|assignments|, i requires 0 <= i < |assignments| =>
      assignments[i].column + "=" + ExprChars(show, assignments[i].value));
    forall i | 0 <= i < |assignments| ensures texts[i] == Squeezed(parts[i]) {
      var a := assignments[i];
      ExprPrinted(show, a.value);
      SqueezeWords([a.column, "="]);
      JoinTwo(a.column, "=");
      SqueezeConcat(Words([a.column, "="]), PrintExpr(show, a.value));
    }
    SqueezeCommas(parts, texts);
  }

  lemma UpdatePrinted(show: Show, s: Statement)
    requires s.Update?
    ensures Squeezed(PrintStatement(show, s)) == StatementChars(show, s)
  {
    var target, body := PrintFactor(show, s.target), PrintAssignments(show, s.assignments);
    SqueezeWord("UPDATE");
    SqueezeWord("SET");
    FactorPrinted(show, s.target);
    AssignmentsPrinted(show, s.assignments);
    ClausePrinted(show, "WHERE", s.selection);
    SqueezeConcat(Word("UPDATE"), target);
    SqueezeConcat(Word("UPDATE") + target, Word("SET"));
    SqueezeConcat(Word("UPDATE") + target + Word("SET"), body);
    SqueezeConcat(Word("UPDATE") + target + Word("SET") + body, PrintClause(show, "WHERE", s.selection));
  }

  lemma DeletePrinted(show: Show, s: Statement)
    requires s.Delete?
    ensures Squeezed(PrintStatement(show, s)) == StatementChars(show, s)
  {
    var head, from := Words(["DELETE", "FROM"]), PrintFactor(show, s.from);
    SqueezeWords(["DELETE", "FROM"]);
    JoinTwo("DELETE", "FROM");
    FactorPrinted(show, s.from);
    ClausePrinted(show, "WHERE", s.selection);
    SqueezeConcat(head, from);
    SqueezeConcat(head + from, PrintClause(show, "WHERE", s.selection));
    assert "DELETE" + "FROM" == "DELETEFROM";
  }

  lemma HeadPrinted(name: Name, defs: seq<ColumnDef>, constraints: seq<ForeignKey>)
    ensures Squeezed(PrintTableHead(name, defs, constraints)) ==
      "CREATETABLE" + name + (if defs == [] && constraints == [] then "" else DefinitionsChars(defs, constraints))
  {
    CreateWords(name);
    DefinitionsPrinted(defs, constraints);
    SqueezeConcat(Words(["CREATE", "TABLE", name]), if defs == [] && constraints == [] then [] else PrintDefinitions(defs, constraints));
  }

  lemma CreateWords(name: Name)
    ensures Squeezed(Words(["CREATE", "TABLE", name])) == "CREATETABLE" + name
  {
    ThreeWords("CREATE", "TABLE", name);
    assert "CREATE" + "TABLE" == "CREATETABLE";
  }

  lemma AsPrinted(show: Show, asQuery: Option<Query>)
    ensures Squeezed(PrintAs(show, asQuery)) == if asQuery.Some? then "AS" + QueryChars(show, asQuery.value) else ""
  {
    if asQuery.Some? {
      QueryPrinted(show, asQuery.value);
      SqueezeWord("AS");
      SqueezeConcat(Word("AS"), PrintQuery(show, asQuery.value));
    }
  }

  lemma CreatePrinted(show: Show, s: Statement)
    requires s.CreateTable?
    ensures Squeezed(PrintStatement(show, s)) == StatementChars(show, s)
  {
    HeadPrinted(s.name, s.defs, s.constraints);
    AsPrinted(show, s.asQuery);
    SqueezeConcat(PrintTableHead(s.name, s.defs, s.constraints), PrintAs(show, s.asQuery));
  }

  lemma ThreeWords(a: string, b: string, c: string)
    ensures Squeezed(Words([a, b, c])) == a + b + c
  {
    SqueezeWords([a, b, c]);
    JoinThree(a, b, c);
  }

  lemma AddPrinted(name: Name, column: ColumnDef)
    ensures Squeezed(Words(["ALTER", "TABLE", name, "ADD"]) + PrintColumn(column)) == "ALTERTABLE" + name + "ADD" + ColumnChars(column)
  {
    assert Words(["ALTER", "TABLE", name, "ADD"]) == Words(["ALTER", "TABLE", name]) + Word("ADD");
    ThreeWords("ALTER", "TABLE", name);
    SqueezeWord("ADD");
    SqueezeConcat(Words(["ALTER", "TABLE", name]), Word("ADD"));
    ColumnPrinted(column);
    SqueezeConcat(Words(["ALTER", "TABLE", name, "ADD"]), PrintColumn(column));
    assert "ALTER" + "TABLE" == "ALTERTABLE";
  }

  lemma RenamePrinted(name: Name, newName: Name)
    ensures Squeezed(Words(["ALTER", "TABLE", name, "RENAME", "TO", newName])) == "ALTERTABLE" + name + "RENAMETO" + newName
  {
    assert Words(["ALTER", "TABLE", name, "RENAME", "TO", newName])
        == Words(["ALTER", "TABLE", name]) + Words(["RENAME", "TO", newName]);
    ThreeWords("ALTER", "TABLE", name);
    ThreeWords("RENAME", "TO", newName);
    SqueezeConcat(Words(["ALTER", "TABLE", name]), Words(["RENAME", "TO", newName]));
    assert "ALTER" + "TABLE" == "ALTERTABLE" && "RENAME" + "TO" == "RENAMETO";
  }

  lemma IndexPrinted(name: Name, table: Name)
    ensures Squeezed(Words(["CREATE", "INDEX", name, "ON", table])) == "CREATEINDEX" + name + "ON" + table
  {
    assert Words(["CREATE", "INDEX", name, "ON", table]) == Words(["CREATE", "INDEX", name]) + Words(["ON", table]);
    ThreeWords("CREATE", "INDEX", name);
    SqueezeWords(["ON", table]);
    JoinTwo("ON", table);
    SqueezeConcat(Words(["CREATE", "INDEX", name]), Words(["ON", table]));
    assert "CREATE" + "INDEX" == "CREATEINDEX";
  }

  lemma DropPrinted(names: seq<Name>)
    ensures Squeezed(Words(["DROP", "TABLE"]) + NameList(names)) == "DROPTABLE" + Strings.Join(names, ",")
  {
    NamesPrinted(names);
    SqueezeWords(["DROP", "TABLE"]);
    JoinTwo("DROP", "TABLE");
    SqueezeConcat(Words(["DROP", "TABLE"]), NameList(names));
    assert "DROP" + "TABLE" == "DROPTABLE";
  }

  // THE TEXT OF A STATEMENT.  Nothing of it is lost, added or moved.
  lemma StatementPrinted(show: Show, s: Statement)
    ensures Squeezed(PrintStatement(show, s)) == StatementChars(show, s)
  {
    match s
    case QueryStatement(query) => QueryPrinted(show, query);
    case Insert(_, _, _) => InsertPrinted(show, s);
    case Update(_, _, _) => UpdatePrinted(show, s);
    case Delete(_, _) => DeletePrinted(show, s);
    case CreateTable(_, _, _, _) => CreatePrinted(show, s);
    case Drop(names) => DropPrinted(names);
    case AlterTable(name, AddColumn(column)) => AddPrinted(name, column);
    case AlterTable(name, RenameTable(newName)) => RenamePrinted(name, newName);
    case CreateIndex(name, table) => IndexPrinted(name, table);
    case Transaction(words) => SqueezeWords(words);
    case Unsupported(text) => SqueezeWord(text);
  }

  // The text is these characters with single blanks put in.
  lemma {:induction false} RenderedIsSpaced(ls: seq<Lexeme>)
    ensures Render(ls) == Strings.Join(Texts(ls), " ") && Squeezed(ls) == Strings.Join(Texts(ls), "")
  {
    if ls != [] {
      RenderedIsSpaced(ls[1..]);
      assert Texts(ls)[1..] == Texts(ls[1..]);
      if |ls| == 1 { assert ls[1..] == []; }
    }
  }
}
