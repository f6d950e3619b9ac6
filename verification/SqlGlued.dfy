/**
A statement that comes out broken: a qualified column right after an opening parenthesis,
as in SELECT COUNT(u.id) FROM users AS u.
*/
module SqlGlued {
  import opened Wrappers
  import opened Strings
  import opened SqlAst
  import opened SqlEval
  import opened SqlScope
  import opened SqlMeaning
  import opened SqlText
  import opened SqlTextPass

  function Counted(qualifier: Name): Expr {
    Call("COUNT", [Qualified(qualifier, "id")])
  }

  function CountedFrom(table: Name, alias: Name, qualifier: Name): SetExpr {
    Select([Item(Counted(qualifier), None)], [TableWithJoins(Table(table, Some(alias)), [])], None)
  }

  // SELECT COUNT(qualifier.id) FROM table AS alias
  function Counting(table: Name, alias: Name, qualifier: Name): Statement {
    QueryStatement(Query([], CountedFrom(table, alias, qualifier)))
  }

  function NamesOfBoth(p: string, table: Name, alias: Name): set<Name> {
    {Scoped(p, table), Scoped(p, alias)}
  }

  // ---------- The syntax tree ----------

  lemma CountingPrefixed(p: string, table: Name, alias: Name)
    ensures PrefixStatement(p, Counting(table, alias, alias)) == Ok(Counting(Scoped(p, table), Scoped(p, alias), alias))
  {
    var s, t := CountedFrom(table, alias, alias), CountedFrom(Scoped(p, table), Scoped(p, alias), alias);
    assert PrefixTables(p, s.from[0]) == t.from[0];
    assert PrefixItem(p, s.projection[0]) == t.projection[0] by {
      assert PrefixExpr(p, Counted(alias)) == Counted(alias);
    }
    assert PrefixSetExpr(p, s).projection == t.projection;
    assert PrefixSetExpr(p, s).from == t.from;
    assert PrefixSetExpr(p, s) == t;
    assert PrefixQuery(p, Query([], s)) == Query([], t);
  }

  lemma CountingCollected(p: string, table: Name, alias: Name)
    ensures Collected(p, InStatement(Counting(table, alias, alias))) == NamesOfBoth(p, table, alias)
  {
    var s := CountedFrom(table, alias, alias);
    var ms := InStatement(Counting(table, alias, alias));
    assert InTables(s.from[0], false) == {TableRef(table, false), AliasName(alias, false)};
    assert InItem(s.projection[0], false) == InExpr(Counted(alias), false);
    forall m | m in InExpr(Counted(alias), false) ensures m == Qualifier(alias) {
      var args := Counted(alias).args;
      var i :| 0 <= i < |args| && m in InExpr(args[i], true);
      assert args[i] == Qualified(alias, "id");
    }
    assert ms == InSetExpr(s, false);
    forall m | m in ms ensures m in {TableRef(table, false), AliasName(alias, false), Qualifier(alias)} {
      if m !in InItem(s.projection[0], false) { assert m in InTables(s.from[0], false); }
    }
    assert TableRef(table, false) in ms && AliasName(alias, false) in ms by {
      assert forall m | m in InTables(s.from[0], false) :: m in InSetExpr(s, false);
    }
  }

  lemma CountingRenamed(p: string, names: set<Name>, table: Name, alias: Name, qualifier: Name)
    requires Scoped(p, qualifier) in names
    ensures RenameStatement(p, names, Counting(table, alias, qualifier)) == Counting(table, alias, Scoped(p, qualifier))
  {
    var s, t := CountedFrom(table, alias, qualifier), CountedFrom(table, alias, Scoped(p, qualifier));
    assert RenameExpr(p, names, Counted(qualifier)).args == Counted(Scoped(p, qualifier)).args;
    assert RenameTables(p, names, s.from[0]) == s.from[0];
    assert RenameSetExpr(p, names, s).projection == t.projection;
    assert RenameSetExpr(p, names, s).from == t.from;
  }

  // ---------- The text ----------

  function CountingLexemes(table: Name, alias: Name, qualifier: Name): seq<Lexeme> {
    Word("SELECT") + [Lexeme("COUNT(", Some(qualifier), "id)")] + (Word("FROM") + (Word(table) + Words(["AS", alias])))
  }

  // A list of one has no commas.
  lemma Singleton(part: seq<Lexeme>, parts: seq<seq<Lexeme>>)
    requires parts == [part]
    ensures Commas(parts) == part
  {
    var spaced := seq(|parts|, i requires 0 <= i < |parts| => if i + 1 < |parts| then Suffixed(parts[i], ",") else parts[i]);
    assert spaced == [part];
    assert Flatten([part]) == Flatten([part][..0]) + part;
  }

  lemma PrintedCount(show: Show, qualifier: Name)
    ensures PrintExpr(show, Counted(qualifier)) == [Lexeme("COUNT(", Some(qualifier), "id)")]
  {
    var args := [Qualified(qualifier, "id")];
    var column := Lexeme("", Some(qualifier), "id");
    Singleton([column], seq(|args|, i requires 0 <= i < |args| => PrintExpr(show, args[i])));
    assert "COUNT" + "(" == "COUNT(" && "COUNT(" + "" == "COUNT(" && "id" + ")" == "id)";
    assert Prefixed("COUNT(", [column]) == [Lexeme("COUNT(", Some(qualifier), "id")];
    assert Suffixed([Lexeme("COUNT(", Some(qualifier), "id")], ")") == [Lexeme("COUNT(", Some(qualifier), "id)")];
  }

  lemma PrintedCounting(show: Show, table: Name, alias: Name, qualifier: Name)
    ensures PrintStatement(show, Counting(table, alias, qualifier)) == CountingLexemes(table, alias, qualifier)
  {
    var s := CountedFrom(table, alias, qualifier);
    PrintedCount(show, qualifier);
    Singleton(PrintItem(show, s.projection[0]), seq(|s.projection|, i requires 0 <= i < |s.projection| => PrintItem(show, s.projection[i])));
    Singleton(PrintTables(show, s.from[0]), seq(|s.from|, i requires 0 <= i < |s.from| => PrintTables(show, s.from[i])));
    assert PrintItems(show, s.projection) == [Lexeme("COUNT(", Some(qualifier), "id)")];
    assert PrintTables(show, s.from[0]) == Word(table) + Words(["AS", alias]) by {
      assert Flatten([]) == [];
    }
    assert PrintFrom(show, s.from) == Word("FROM") + (Word(table) + Words(["AS", alias]));
    assert PrintSetExpr(show, s) == CountingLexemes(table, alias, qualifier) + [];
    assert PrintQuery(show, Query([], s)) == [] + PrintSetExpr(show, s);
  }

  // ---------- The outcome ----------

  predicate PlainWord(n: Name) {
    IsWord(n) && PlainName(n)
  }

  // The text pass leaves the text of the prefixed statement as it is: the qualifier stays,
  // while the alias has got its prefix.
  lemma GluedQualifierStays(show: Show, p: string, table: Name, alias: Name, r: string)
    requires p != "" && NoSpace(p) && '.' !in p && PlainWord(table) && PlainWord(alias)
    ensures
      var names := NamesOfBoth(p, table, alias);
      var prefixed := Counting(Scoped(p, table), Scoped(p, alias), alias);
      && PlainNames(p, names)
      && (exists l :: l in PrintStatement(show, prefixed) && Glued(p, names, l))
      && (RewritesText(p, names, Render(PrintStatement(show, prefixed)), r) <==> r == Render(PrintStatement(show, prefixed)))
  {
    var names := NamesOfBoth(p, table, alias);
    var ls := CountingLexemes(Scoped(p, table), Scoped(p, alias), alias);
    assert Scoped(p, table)[|p|..] == table && Scoped(p, alias)[|p|..] == alias;
    PrintedCounting(show, Scoped(p, table), Scoped(p, alias), alias);
    assert ls[1] in ls && Glued(p, names, ls[1]);
    forall i | 0 <= i < |ls| ensures PassedLexeme(p, names, ls[i]) == [LexemeText(ls[i])] {
      LexemeStays(p, table, alias, i);
    }
    TextStays(p, names, ls, r);
  }

  // Where every lexeme comes out as it is, so does the text.
  lemma TextStays(p: string, names: set<Name>, ls: seq<Lexeme>, r: string)
    requires PlainNames(p, names)
    requires forall i | 0 <= i < |ls| :: PassedLexeme(p, names, ls[i]) == [LexemeText(ls[i])]
    ensures RewritesText(p, names, Render(ls), r) <==> r == Render(ls)
  {
    TextOutcome(p, names, ls, r);
    var passed := PassedLexemes(p, names, ls);
    var texts := Texts(ls);
    assert forall i | 0 <= i < |ls| :: Strings.Join(passed[i], " ") == texts[i];
    JoinChain(passed, texts);
  }

  lemma LexemeStays(p: string, table: Name, alias: Name, i: nat)
    requires p != "" && NoSpace(p) && '.' !in p && PlainWord(table) && PlainWord(alias)
    requires PlainNames(p, NamesOfBoth(p, table, alias))
    requires i < |CountingLexemes(Scoped(p, table), Scoped(p, alias), alias)|
    ensures
      var l := CountingLexemes(Scoped(p, table), Scoped(p, alias), alias)[i];
      PassedLexeme(p, NamesOfBoth(p, table, alias), l) == [LexemeText(l)]
  {
    var names := NamesOfBoth(p, table, alias);
    var l := CountingLexemes(Scoped(p, table), Scoped(p, alias), alias)[i];
    NoSpaceConcat(p, table);
    NoSpaceConcat(p, alias);
    if i == 1 {
      CountStays(p, names, alias);
    } else {
      DotlessStays(p, names, l);
    }
  }

  lemma CountStays(p: string, names: set<Name>, alias: Name)
    requires PlainNames(p, names) && Scoped(p, alias) in names && PlainWord(alias)
    ensures
      var l := Lexeme("COUNT(", Some(alias), "id)");
      PassedLexeme(p, names, l) == [LexemeText(l)]
  {
    var l := Lexeme("COUNT(", Some(alias), "id)");
    var text := LexemeText(l);
    assert text == "COUNT(" + alias + ("." + "id)");
    NoSpaceConcat("COUNT(" + alias, "." + "id)");
    NoSpaceConcat("COUNT(", alias);
    assert "COUNT("[5] == '(';
    assert WellFormed(l) && Glued(p, names, l);
    LexemeRewritten(p, names, l, text);
    PassedIsOutcome(p, names, text, text);
    WordSplitsToItself(text);
  }

  lemma DotlessStays(p: string, names: set<Name>, l: Lexeme)
    requires PlainNames(p, names) && IsWord(LexemeText(l)) && '.' !in LexemeText(l)
    ensures PassedLexeme(p, names, l) == [LexemeText(l)]
  {
    var text := LexemeText(l);
    forall n | n in names ensures !(Reference(p, n) <= text) {
      assert Reference(p, n)[|n[|p|..]|] == '.';
    }
    WordSplitsToItself(text);
  }

  // For the text that comes out, a database with one user is enough to fail.
  lemma CountingRuns(I: Interp, table: Name, alias: Name, qualifier: Name, T: Tables)
    requires table in T && T[table] == Relation(["id"], [[Int(1)]])
    ensures Exec(I, Counting(table, alias, qualifier), T).Some? <==> qualifier == alias
  {
    var s := CountedFrom(table, alias, qualifier);
    var frame := Frame([Col(Some(alias), "id")], [[Int(1)]]);
    OneTable(I, table, alias, T, frame);
    var cols, rows := frame.cols + TopLevel().cols, seq(|frame.rows|, i requires 0 <= i < |frame.rows| => frame.rows[i] + TopLevel().row);
    assert frame.rows[0] + [] == frame.rows[0];
    assert cols == frame.cols && rows == [[Int(1)]];
    CountRuns(I, alias, qualifier, T);
    var items := s.projection;
    ItemRuns(I, alias, qualifier, T);
    assert items[0] == Item(Counted(qualifier), None);
    var out := seq(|rows|, i requires 0 <= i < |rows| => EvalItems(I, items, T, cols, |frame.cols|, [rows[i]]));
    assert out[0] == EvalItems(I, items, T, cols, 1, [[Int(1)]]);
    assert Project(I, items, T, frame, TopLevel()).Some? <==> EvalItems(I, items, T, frame.cols, 1, [[Int(1)]]).Some?;
    assert EvalSetExpr(I, s, T, TopLevel()) == Project(I, items, T, frame, TopLevel());
    assert EvalQuery(I, Query([], s), T, TopLevel()) == EvalSetExpr(I, s, T, TopLevel());
  }

  lemma OneTable(I: Interp, table: Name, alias: Name, T: Tables, frame: Frame)
    requires table in T && T[table] == Relation(["id"], [[Int(1)]]) && frame == Frame([Col(Some(alias), "id")], [[Int(1)]])
    ensures EvalFrom(I, [TableWithJoins(Table(table, Some(alias)), [])], T, TopLevel()) == Some(frame)
  {
    var from := [TableWithJoins(Table(table, Some(alias)), [])];
    assert Tag(Some(alias), ["id"]) == frame.cols;
    assert EvalJoins(I, from[0], 0, T, TopLevel()) == Some(frame);
    var frames := seq(|from|, i requires 0 <= i < |from| => EvalJoins(I, from[i], |from[i].joins|, T, TopLevel()));
    assert frames == [Some(frame)];
    assert AllSome(frames).value == [frame];
    assert ProductAll([frame]) == frame by { OneFrame(frame); }
  }

  lemma OneFrame(frame: Frame)
    requires frame.cols != [] && frame.rows == [[Int(1)]]
    ensures ProductAll([frame]) == frame
  {
    assert [frame][..0] == [] && [] + frame.cols == frame.cols;
    var none: Row := [];
    var inner := seq(|frame.rows|, j requires 0 <= j < |frame.rows| => none + frame.rows[j]);
    assert inner[0] == frame.rows[0] && inner == frame.rows;
    var products := seq(1, i requires 0 <= i < 1 => seq(|frame.rows|, j requires 0 <= j < |frame.rows| => [none][i] + frame.rows[j]));
    assert products[0] == inner && products == [inner];
    assert Concat(products) == Concat(products[..0]) + inner == inner;
    assert ProductRows([none], frame.rows) == inner;
  }

  lemma CountRuns(I: Interp, alias: Name, qualifier: Name, T: Tables)
    ensures EvalExpr(I, Counted(qualifier), T, [Col(Some(alias), "id")], [[Int(1)]]).Some? <==> qualifier == alias
  {
    var cols, group := [Col(Some(alias), "id")], [[Int(1)]];
    var args := [Qualified(qualifier, "id")];
    assert Lookup(cols, group[0], Some(qualifier), "id").Some? <==> qualifier == alias;
    var values := seq(|args|, i requires 0 <= i < |args| => EvalExpr(I, args[i], T, cols, group));
    assert values[0] == EvalExpr(I, args[0], T, cols, group);
    assert EvalArgs(I, args, T, cols, group).Some? <==> qualifier == alias;
    var each := seq(|group|, g requires 0 <= g < |group| => EvalArgs(I, args, T, cols, [group[g]]));
    assert [group[0]] == group && each[0] == EvalArgs(I, args, T, cols, group);
  }

  lemma ItemRuns(I: Interp, alias: Name, qualifier: Name, T: Tables)
    ensures EvalItems(I, [Item(Counted(qualifier), None)], T, [Col(Some(alias), "id")], 1, [[Int(1)]]).Some? <==> qualifier == alias
  {
    var items, cols, group := [Item(Counted(qualifier), None)], [Col(Some(alias), "id")], [[Int(1)]];
    CountRuns(I, alias, qualifier, T);
    var values := seq(|items|, i requires 0 <= i < |items| => EvalItem(I, items[i], T, cols, 1, group));
    assert values[0] == EvalItem(I, items[0], T, cols, 1, group);
  }

  // The text that comes out is that of a statement that fails where the original, on the
  // mount's own tables, succeeds, and where the statement with its qualifier renamed would.
  lemma GluedQualifierBreaks(show: Show, I: Interp, p: string, table: Name, alias: Name, r: string)
    requires p != "" && NoSpace(p) && '.' !in p && PlainWord(table) && PlainWord(alias)
    requires RewritesText(p, NamesOfBoth(p, table, alias),
      Render(PrintStatement(show, Counting(Scoped(p, table), Scoped(p, alias), alias))), r)
    ensures
      var original, stored := Counting(table, alias, alias), map[Scoped(p, table) := Relation(["id"], [[Int(1)]])];
      var prefixed := Counting(Scoped(p, table), Scoped(p, alias), alias);
      && PrefixStatement(p, original) == Ok(prefixed)
      && Collected(p, InStatement(original)) == NamesOfBoth(p, table, alias)
      && r == Render(PrintStatement(show, prefixed))
      && Exec(I, prefixed, stored) == None
      && Exec(I, original, View(p, stored)).Some?
      && Exec(I, RenameStatement(p, NamesOfBoth(p, table, alias), prefixed), stored).Some?
  {
    var stored := map[Scoped(p, table) := Relation(["id"], [[Int(1)]])];
    CountingPrefixed(p, table, alias);
    CountingCollected(p, table, alias);
    CountingRenamed(p, NamesOfBoth(p, table, alias), Scoped(p, table), Scoped(p, alias), alias);
    GluedQualifierStays(show, p, table, alias, r);
    assert table in View(p, stored) && View(p, stored)[table] == stored[Scoped(p, table)];
    assert |Scoped(p, alias)| > |alias|;
    CountingRuns(I, Scoped(p, table), Scoped(p, alias), alias, stored);
    CountingRuns(I, Scoped(p, table), Scoped(p, alias), Scoped(p, alias), stored);
    CountingRuns(I, table, alias, alias, View(p, stored));
  }

  // For SELECT COUNT(u.id) FROM users AS u with prefix foo_ these are the words that come out.
  lemma ExampleText(show: Show)
    ensures Texts(PrintStatement(show, Counting(Scoped("foo_", "users"), Scoped("foo_", "u"), "u")))
         == ["SELECT", "COUNT(u.id)", "FROM", "foo_users", "AS", "foo_u"]
  {
    PrintedCounting(show, "foo_users", "foo_u", "u");
    assert Scoped("foo_", "users") == "foo_users" && Scoped("foo_", "u") == "foo_u";
    var ls := CountingLexemes("foo_users", "foo_u", "u");
    assert LexemeText(ls[1]) == "COUNT(u.id)";
    assert LexemeText(ls[0]) == "SELECT" && LexemeText(ls[2]) == "FROM" && LexemeText(ls[4]) == "AS";
    assert LexemeText(ls[3]) == "foo_users" && LexemeText(ls[5]) == "foo_u";
  }
}
