/**
The tables that a rewritten statement names. What the traversal enters ends up under the
prefix; what it does not enter stays as it was written.
*/
module SqlReferences {
  import opened Wrappers
  import opened SqlAst
  import opened SqlScope

  // Every table that is named is under the prefix.
  predicate AllUnder(p: string, ms: set<Mention>) {
    forall m | m in ms && m.TableRef? :: p <= m.name
  }

  // Every table that is named where the traversal does not go is.
  predicate HiddenUnder(p: string, ms: set<Mention>) {
    forall m | m in ms && m.TableRef? && m.hidden :: p <= m.name
  }

  // The mentions of a rewritten piece of syntax against those of the original.
  predicate Agrees(p: string, rewritten: set<Mention>, original: set<Mention>) {
    AllUnder(p, rewritten) <==> HiddenUnder(p, original)
  }

  function Union(parts: seq<set<Mention>>): set<Mention> {
    set i, m | 0 <= i < |parts| && m in parts[i] :: m
  }

  predicate EachAgrees(p: string, rewritten: seq<set<Mention>>, original: seq<set<Mention>>) {
    |rewritten| == |original| && forall i | 0 <= i < |original| :: Agrees(p, rewritten[i], original[i])
  }

  lemma UnionAgrees(p: string, rewritten: seq<set<Mention>>, original: seq<set<Mention>>)
    requires EachAgrees(p, rewritten, original)
    ensures Agrees(p, Union(rewritten), Union(original))
  {
    UnderUnion(p, rewritten);
    if AllUnder(p, Union(rewritten)) {
      forall m | m in Union(original) && m.TableRef? && m.hidden ensures p <= m.name {
        var i :| 0 <= i < |original| && m in original[i];
        assert AllUnder(p, rewritten[i]);
      }
    }
    if HiddenUnder(p, Union(original)) {
      forall i | 0 <= i < |rewritten| ensures AllUnder(p, rewritten[i]) {
        assert forall m | m in original[i] :: m in Union(original);
        assert HiddenUnder(p, original[i]);
      }
    }
  }

  lemma UnderUnion(p: string, parts: seq<set<Mention>>)
    ensures AllUnder(p, Union(parts)) <==> forall i | 0 <= i < |parts| :: AllUnder(p, parts[i])
  {
    if AllUnder(p, Union(parts)) {
      forall i | 0 <= i < |parts| ensures AllUnder(p, parts[i]) {
        assert forall m | m in parts[i] :: m in Union(parts);
      }
    }
  }

  lemma BothAgree(p: string, a: set<Mention>, b: set<Mention>, a': set<Mention>, b': set<Mention>)
    requires Agrees(p, a', a) && Agrees(p, b', b)
    ensures Agrees(p, a' + b', a + b)
  {
    assert AllUnder(p, a' + b') <==> AllUnder(p, a') && AllUnder(p, b') by {
      assert forall m | m in a' || m in b' :: m in a' + b';
    }
    assert HiddenUnder(p, a + b) <==> HiddenUnder(p, a) && HiddenUnder(p, b) by {
      assert forall m | m in a || m in b :: m in a + b;
    }
  }

  // ---------- The mentions of lists ----------

  function ArgMentions(args: seq<Expr>): seq<set<Mention>> {
    seq(|args|, i requires 0 <= i < |args| => InExpr(args[i], true))
  }

  function ItemMentions(items: seq<SelectItem>, hidden: bool): seq<set<Mention>> {
    seq(|items|, i requires 0 <= i < |items| => InItem(items[i], hidden))
  }

  function FromMentions(from: seq<TableWithJoins>, hidden: bool): seq<set<Mention>> {
    seq(|from|, i requires 0 <= i < |from| => InTables(from[i], hidden))
  }

  function JoinMentions(joins: seq<Join>, hidden: bool): seq<set<Mention>> {
    seq(|joins|, i requires 0 <= i < |joins| => InJoin(joins[i], hidden))
  }

  function CteMentions(ctes: seq<Cte>, hidden: bool): seq<set<Mention>> {
    seq(|ctes|, i requires 0 <= i < |ctes| => InCte(ctes[i], hidden))
  }

  function SelectionMentions(e: Option<Expr>, hidden: bool): set<Mention> {
    match e
    case None => {}
    case Some(expr) => InExpr(expr, hidden)
  }

  lemma MentionsOfCall(fn: string, args: seq<Expr>, hidden: bool)
    ensures InExpr(Call(fn, args), hidden) == Union(ArgMentions(args))
  {
    forall m | m in InExpr(Call(fn, args), hidden) ensures m in Union(ArgMentions(args)) {
      var i :| 0 <= i < |args| && m in InExpr(args[i], true);
      assert m in ArgMentions(args)[i];
    }
  }

  lemma MentionsOfTables(t: TableWithJoins, hidden: bool)
    ensures InTables(t, hidden) == InFactor(t.relation, hidden) + Union(JoinMentions(t.joins, hidden))
  {
    forall m | m in InTables(t, hidden) && m !in InFactor(t.relation, hidden) ensures m in Union(JoinMentions(t.joins, hidden)) {
      var i :| 0 <= i < |t.joins| && m in InJoin(t.joins[i], hidden);
      assert m in JoinMentions(t.joins, hidden)[i];
    }
  }

  lemma MentionsOfSelect(s: SetExpr, hidden: bool)
    requires s.Select?
    ensures InSetExpr(s, hidden) ==
      Union(ItemMentions(s.projection, hidden)) + Union(FromMentions(s.from, hidden)) + SelectionMentions(s.selection, hidden)
  {
    var items, from := set i, m | 0 <= i < |s.projection| && m in InItem(s.projection[i], hidden) :: m,
                       set i, m | 0 <= i < |s.from| && m in InTables(s.from[i], hidden) :: m;
    forall m | m in items ensures m in Union(ItemMentions(s.projection, hidden)) {
      var i :| 0 <= i < |s.projection| && m in InItem(s.projection[i], hidden);
      assert m in ItemMentions(s.projection, hidden)[i];
    }
    forall m | m in from ensures m in Union(FromMentions(s.from, hidden)) {
      var i :| 0 <= i < |s.from| && m in InTables(s.from[i], hidden);
      assert m in FromMentions(s.from, hidden)[i];
    }
    assert items == Union(ItemMentions(s.projection, hidden));
    assert from == Union(FromMentions(s.from, hidden));
  }

  lemma MentionsOfValues(row: seq<Expr>, hidden: bool)
    ensures InSetExpr(Values(row), hidden) == Union(ArgMentions(row))
  {
    forall m | m in InSetExpr(Values(row), hidden) ensures m in Union(ArgMentions(row)) {
      var i :| 0 <= i < |row| && m in InExpr(row[i], true);
      assert m in ArgMentions(row)[i];
    }
  }

  lemma MentionsOfQuery(q: Query, hidden: bool)
    ensures InQuery(q, hidden) == InSetExpr(q.body, hidden) + Union(CteMentions(q.ctes, hidden))
  {
    forall m | m in InQuery(q, hidden) && m !in InSetExpr(q.body, hidden) ensures m in Union(CteMentions(q.ctes, hidden)) {
      var i :| 0 <= i < |q.ctes| && m in InCte(q.ctes[i], hidden);
      assert m in CteMentions(q.ctes, hidden)[i];
    }
  }

  function AssignedMentions(assignments: seq<Assignment>): seq<set<Mention>> {
    seq(|assignments|, i requires 0 <= i < |assignments| => InExpr(assignments[i].value, true))
  }

  lemma MentionsOfUpdate(s: Statement)
    requires s.Update?
    ensures InStatement(s) == InFactor(s.target, false) + InOption(s.selection, true) + Union(AssignedMentions(s.assignments))
  {
    var newValues := set i, m | 0 <= i < |s.assignments| && m in InExpr(s.assignments[i].value, true) :: m;
    forall m | m in newValues ensures m in Union(AssignedMentions(s.assignments)) {
      var i :| 0 <= i < |s.assignments| && m in InExpr(s.assignments[i].value, true);
      assert m in AssignedMentions(s.assignments)[i];
    }
    assert newValues == Union(AssignedMentions(s.assignments));
  }

  // ---------- Both passes, where they go and where they do not ----------

  function Passed(p: string, names: set<Name>, e: Expr, hidden: bool): Expr {
    RenameExpr(p, names, if hidden then e else PrefixExpr(p, e))
  }

  function PassedItem(p: string, names: set<Name>, item: SelectItem, hidden: bool): SelectItem {
    RenameItem(p, names, if hidden then item else PrefixItem(p, item))
  }

  function PassedFactor(p: string, names: set<Name>, f: TableFactor, hidden: bool): TableFactor {
    RenameFactor(p, names, if hidden then f else PrefixFactor(p, f))
  }

  function PassedTables(p: string, names: set<Name>, t: TableWithJoins, hidden: bool): TableWithJoins {
    RenameTables(p, names, if hidden then t else PrefixTables(p, t))
  }

  function PassedJoin(p: string, names: set<Name>, j: Join, hidden: bool): Join {
    RenameJoin(p, names, if hidden then j else PrefixJoin(p, j))
  }

  function PassedSetExpr(p: string, names: set<Name>, s: SetExpr, hidden: bool): SetExpr {
    RenameSetExpr(p, names, if hidden then s else PrefixSetExpr(p, s))
  }

  function PassedCte(p: string, names: set<Name>, c: Cte, hidden: bool): Cte {
    RenameCte(p, names, if hidden then c else PrefixCte(p, c))
  }

  function PassedQuery(p: string, names: set<Name>, q: Query, hidden: bool): Query {
    RenameQuery(p, names, if hidden then q else PrefixQuery(p, q))
  }

  lemma {:induction false} ExprAgrees(p: string, names: set<Name>, e: Expr, hidden: bool)
    ensures Agrees(p, InExpr(Passed(p, names, e, hidden), hidden), InExpr(e, hidden))
  {
    match e
    case Column(_) =>
    case Qualified(_, _) =>
    case Literal(_) =>
    case Binary(_, left, right) =>
      ExprAgrees(p, names, left, hidden);
      ExprAgrees(p, names, right, hidden);
      BothAgree(p, InExpr(left, hidden), InExpr(right, hidden),
        InExpr(Passed(p, names, left, hidden), hidden), InExpr(Passed(p, names, right, hidden), hidden));
    case All(arg) => ExprAgrees(p, names, arg, hidden);
    case Subquery(query) => QueryAgrees(p, names, query, hidden);
    case Nested(inner) => ExprAgrees(p, names, inner, true);
    case Call(fn, args) =>
      var args' := seq(|args|, i requires 0 <= i < |args| => RenameExpr(p, names, args[i]));
      ArgsAgree(p, names, args, args');
      MentionsOfCall(fn, args, hidden);
      MentionsOfCall(fn, args', hidden);
    case Exists(query) => QueryAgrees(p, names, query, true);
  }

  lemma {:induction false} ArgsAgree(p: string, names: set<Name>, args: seq<Expr>, args': seq<Expr>)
    requires |args'| == |args| && forall i | 0 <= i < |args| :: args'[i] == RenameExpr(p, names, args[i])
    ensures Agrees(p, Union(ArgMentions(args')), Union(ArgMentions(args)))
    decreases p, names, args
  {
    forall i | 0 <= i < |args| ensures Agrees(p, ArgMentions(args')[i], ArgMentions(args)[i]) {
      ExprAgrees(p, names, args[i], true);
    }
    UnionAgrees(p, ArgMentions(args'), ArgMentions(args));
  }

  lemma {:induction false} SelectionAgrees(p: string, names: set<Name>, e: Option<Expr>, e': Option<Expr>, hidden: bool)
    requires e'.Some? == e.Some? && (e.Some? ==> e'.value == Passed(p, names, e.value, hidden))
    ensures Agrees(p, SelectionMentions(e', hidden), SelectionMentions(e, hidden))
    decreases p, names, e
  {
    if e.Some? { ExprAgrees(p, names, e.value, hidden); }
  }

  lemma {:induction false} FactorAgrees(p: string, names: set<Name>, f: TableFactor, hidden: bool)
    ensures Agrees(p, InFactor(PassedFactor(p, names, f, hidden), hidden), InFactor(f, hidden))
  {
    match f
    case Table(_, _) =>
    case Derived(subquery, alias) =>
      QueryAgrees(p, names, subquery, hidden);
      var alias' := if hidden then alias else ScopedOption(p, alias);
      BothAgree(p, OptionAlias(alias, hidden), InQuery(subquery, hidden),
        OptionAlias(alias', hidden), InQuery(PassedQuery(p, names, subquery, hidden), hidden));
    case NestedJoin(tables) => TablesAgree(p, names, tables, hidden);
  }

  lemma {:induction false} JoinAgrees(p: string, names: set<Name>, j: Join, hidden: bool)
    ensures Agrees(p, InJoin(PassedJoin(p, names, j, hidden), hidden), InJoin(j, hidden))
  {
    var on' := RenameOption(p, names, j.on);
    FactorAgrees(p, names, j.relation, hidden);
    SelectionAgrees(p, names, j.on, on', true);
    BothAgree(p, InFactor(j.relation, hidden), SelectionMentions(j.on, true),
      InFactor(PassedFactor(p, names, j.relation, hidden), hidden), SelectionMentions(on', true));
  }

  lemma {:induction false} TablesAgree(p: string, names: set<Name>, t: TableWithJoins, hidden: bool)
    ensures Agrees(p, InTables(PassedTables(p, names, t, hidden), hidden), InTables(t, hidden))
  {
    var t' := PassedTables(p, names, t, hidden);
    FactorAgrees(p, names, t.relation, hidden);
    forall i | 0 <= i < |t.joins| ensures Agrees(p, JoinMentions(t'.joins, hidden)[i], JoinMentions(t.joins, hidden)[i]) {
      JoinAgrees(p, names, t.joins[i], hidden);
    }
    UnionAgrees(p, JoinMentions(t'.joins, hidden), JoinMentions(t.joins, hidden));
    BothAgree(p, InFactor(t.relation, hidden), Union(JoinMentions(t.joins, hidden)),
      InFactor(t'.relation, hidden), Union(JoinMentions(t'.joins, hidden)));
    MentionsOfTables(t, hidden);
    MentionsOfTables(t', hidden);
  }

  lemma {:induction false} ItemAgrees(p: string, names: set<Name>, item: SelectItem, hidden: bool)
    ensures Agrees(p, InItem(PassedItem(p, names, item, hidden), hidden), InItem(item, hidden))
  {
    if item.Item? { ExprAgrees(p, names, item.expr, hidden); }
  }

  lemma {:induction false} ItemsAgree(p: string, names: set<Name>, items: seq<SelectItem>, items': seq<SelectItem>, hidden: bool)
    requires |items'| == |items| && forall i | 0 <= i < |items| :: items'[i] == PassedItem(p, names, items[i], hidden)
    ensures Agrees(p, Union(ItemMentions(items', hidden)), Union(ItemMentions(items, hidden)))
    decreases p, names, items
  {
    forall i | 0 <= i < |items| ensures Agrees(p, ItemMentions(items', hidden)[i], ItemMentions(items, hidden)[i]) {
      ItemAgrees(p, names, items[i], hidden);
    }
    UnionAgrees(p, ItemMentions(items', hidden), ItemMentions(items, hidden));
  }

  lemma {:induction false} FromAgrees(p: string, names: set<Name>, from: seq<TableWithJoins>, from': seq<TableWithJoins>, hidden: bool)
    requires |from'| == |from| && forall i | 0 <= i < |from| :: from'[i] == PassedTables(p, names, from[i], hidden)
    ensures Agrees(p, Union(FromMentions(from', hidden)), Union(FromMentions(from, hidden)))
    decreases p, names, from
  {
    forall i | 0 <= i < |from| ensures Agrees(p, FromMentions(from', hidden)[i], FromMentions(from, hidden)[i]) {
      TablesAgree(p, names, from[i], hidden);
    }
    UnionAgrees(p, FromMentions(from', hidden), FromMentions(from, hidden));
  }

  lemma {:induction false} SetExprAgrees(p: string, names: set<Name>, s: SetExpr, hidden: bool)
    ensures Agrees(p, InSetExpr(PassedSetExpr(p, names, s, hidden), hidden), InSetExpr(s, hidden))
  {
    var s' := PassedSetExpr(p, names, s, hidden);
    match s
    case Select(projection, from, selection) =>
      ItemsAgree(p, names, projection, s'.projection, hidden);
      FromAgrees(p, names, from, s'.from, hidden);
      SelectionAgrees(p, names, selection, s'.selection, hidden);
      var (a, a') := (Union(ItemMentions(projection, hidden)), Union(ItemMentions(s'.projection, hidden)));
      var (b, b') := (Union(FromMentions(from, hidden)), Union(FromMentions(s'.from, hidden)));
      BothAgree(p, a, b, a', b');
      BothAgree(p, a + b, SelectionMentions(selection, hidden), a' + b', SelectionMentions(s'.selection, hidden));
      MentionsOfSelect(s, hidden);
      MentionsOfSelect(s', hidden);
    case SetOperation(_, left, right) =>
      SetExprAgrees(p, names, left, hidden);
      SetExprAgrees(p, names, right, hidden);
      BothAgree(p, InSetExpr(left, hidden), InSetExpr(right, hidden), InSetExpr(s'.left, hidden), InSetExpr(s'.right, hidden));
    case Parenthesized(query) => QueryAgrees(p, names, query, hidden);
    case Values(row) =>
      ArgsAgree(p, names, row, s'.row);
      MentionsOfValues(row, hidden);
      MentionsOfValues(s'.row, hidden);
  }

  lemma {:induction false} CteAgrees(p: string, names: set<Name>, c: Cte, hidden: bool)
    ensures Agrees(p, InCte(PassedCte(p, names, c, hidden), hidden), InCte(c, hidden))
  {
    var c' := PassedCte(p, names, c, hidden);
    QueryAgrees(p, names, c.query, hidden);
    BothAgree(p, {AliasName(c.name, hidden)}, InQuery(c.query, hidden), {AliasName(c'.name, hidden)}, InQuery(c'.query, hidden));
  }

  lemma {:induction false} QueryAgrees(p: string, names: set<Name>, q: Query, hidden: bool)
    ensures Agrees(p, InQuery(PassedQuery(p, names, q, hidden), hidden), InQuery(q, hidden))
  {
    var q' := PassedQuery(p, names, q, hidden);
    SetExprAgrees(p, names, q.body, hidden);
    forall i | 0 <= i < |q.ctes| ensures Agrees(p, CteMentions(q'.ctes, hidden)[i], CteMentions(q.ctes, hidden)[i]) {
      CteAgrees(p, names, q.ctes[i], hidden);
    }
    UnionAgrees(p, CteMentions(q'.ctes, hidden), CteMentions(q.ctes, hidden));
    BothAgree(p, InSetExpr(q.body, hidden), Union(CteMentions(q.ctes, hidden)),
      InSetExpr(q'.body, hidden), Union(CteMentions(q'.ctes, hidden)));
    MentionsOfQuery(q, hidden);
    MentionsOfQuery(q', hidden);
  }

  // ---------- Statements ----------

  lemma AssignmentsAgree(p: string, names: set<Name>, xs: seq<Assignment>, xs': seq<Assignment>)
    requires |xs'| == |xs| && forall i | 0 <= i < |xs| :: xs'[i].value == RenameExpr(p, names, xs[i].value)
    ensures Agrees(p, Union(AssignedMentions(xs')), Union(AssignedMentions(xs)))
  {
    forall i | 0 <= i < |xs| ensures Agrees(p, AssignedMentions(xs')[i], AssignedMentions(xs)[i]) {
      ExprAgrees(p, names, xs[i].value, true);
    }
    UnionAgrees(p, AssignedMentions(xs'), AssignedMentions(xs));
  }

  lemma UpdateAgrees(p: string, names: set<Name>, s: Statement)
    requires s.Update? && PrefixStatement(p, s).Ok?
    ensures Agrees(p, InStatement(RenameStatement(p, names, PrefixStatement(p, s).value)), InStatement(s))
  {
    var s' := RenameStatement(p, names, PrefixStatement(p, s).value);
    FactorAgrees(p, names, s.target, false);
    SelectionAgrees(p, names, s.selection, s'.selection, true);
    AssignmentsAgree(p, names, s.assignments, s'.assignments);
    var (a, a') := (InFactor(s.target, false), InFactor(s'.target, false));
    var (b, b') := (InOption(s.selection, true), InOption(s'.selection, true));
    BothAgree(p, a, b, a', b');
    BothAgree(p, a + b, Union(AssignedMentions(s.assignments)), a' + b', Union(AssignedMentions(s'.assignments)));
    MentionsOfUpdate(s);
    MentionsOfUpdate(s');
  }

  // THE TABLES NAMED.  Every table that a rewritten statement names is under the prefix
  // exactly if the original names none outside it where the traversal does not go. Nothing
  // else is asked of the statement.
  lemma NamedTablesUnderIff(p: string, names: set<Name>, s: Statement)
    requires PrefixStatement(p, s).Ok?
    ensures AllUnder(p, InStatement(RenameStatement(p, names, PrefixStatement(p, s).value))) <==> HiddenUnder(p, InStatement(s))
  {
    var s' := RenameStatement(p, names, PrefixStatement(p, s).value);
    match s
    case QueryStatement(query) => QueryAgrees(p, names, query, false);
    case Insert(table, _, source) =>
      QueryAgrees(p, names, source, false);
      BothAgree(p, {TableRef(table, false)}, InQuery(source, false), {TableRef(s'.table, false)}, InQuery(s'.source, false));
    case Update(_, _, _) => UpdateAgrees(p, names, s);
    case Delete(from, selection) =>
      FactorAgrees(p, names, from, false);
      SelectionAgrees(p, names, selection, s'.selection, false);
      BothAgree(p, InFactor(from, false), InOption(selection, false), InFactor(s'.from, false), InOption(s'.selection, false));
    case CreateTable(name, _, _, asQuery) =>
      if asQuery.Some? {
        QueryAgrees(p, names, asQuery.value, false);
        BothAgree(p, {TableRef(name, false)}, InQuery(asQuery.value, false), {TableRef(s'.name, false)}, InQuery(s'.asQuery.value, false));
      }
    case Drop(_) =>
    case AlterTable(_, _) =>
    case CreateIndex(_, _) =>
    case Transaction(_) =>
  }
}
