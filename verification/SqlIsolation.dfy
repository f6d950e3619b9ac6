/**
What a statement that names only tables under a prefix can read and write, whatever else
there is to say about it.
*/
module SqlIsolation {
  import opened Wrappers
  import opened SqlAst
  import opened SqlEval
  import opened SqlScope
  import opened SqlStatements
  import opened SqlReferences

  // Two databases with the same tables under the prefix.
  ghost predicate SameUnder(p: string, T: Tables, T': Tables) {
    forall n: Name | p <= n :: (n in T <==> n in T') && (n in T ==> T[n] == T'[n])
  }

  lemma SameUnderUpdate(p: string, T: Tables, T': Tables, n: Name, rel: Relation)
    requires SameUnder(p, T, T')
    ensures SameUnder(p, T[n := rel], T'[n := rel])
  {}

  lemma UnderPart(p: string, part: set<Mention>, whole: set<Mention>)
    requires part <= whole && AllUnder(p, whole)
    ensures AllUnder(p, part)
  {}

  // ---------- Expressions ----------

  lemma {:induction false} ExprFramed(I: Interp, p: string, e: Expr, hidden: bool, T: Tables, T': Tables, cols: seq<Col>, group: seq<Row>)
    requires AllUnder(p, InExpr(e, hidden)) && SameUnder(p, T, T')
    ensures EvalExpr(I, e, T, cols, group) == EvalExpr(I, e, T', cols, group)
    decreases e, 0
  {
    match e
    case Column(_) =>
    case Qualified(_, _) =>
    case Literal(_) =>
    case Binary(_, left, right) =>
      ExprFramed(I, p, left, hidden, T, T', cols, group);
      ExprFramed(I, p, right, hidden, T, T', cols, group);
    case All(arg) => ExprFramed(I, p, arg, hidden, T, T', cols, group);
    case Subquery(query) =>
      UnderPart(p, InQuery(query, hidden), InExpr(e, hidden));
      QueryFramed(I, p, query, hidden, T, T', Enclosing(cols, group));
    case Nested(inner) => ExprFramed(I, p, inner, true, T, T', cols, group);
    case Call(fn, args) =>
      MentionsOfCall(fn, args, hidden);
      UnderUnion(p, ArgMentions(args));
      CallFramed(I, p, args, T, T', cols, group);
    case Exists(query) =>
      UnderPart(p, InQuery(query, true), InExpr(e, hidden));
      QueryFramed(I, p, query, true, T, T', Enclosing(cols, group));
  }

  lemma {:induction false} CallFramed(I: Interp, p: string, args: seq<Expr>, T: Tables, T': Tables, cols: seq<Col>, group: seq<Row>)
    requires (forall i | 0 <= i < |args| :: AllUnder(p, ArgMentions(args)[i])) && SameUnder(p, T, T')
    ensures EvalArgs(I, args, T, cols, group) == EvalArgs(I, args, T', cols, group)
    ensures seq(|group|, g requires 0 <= g < |group| => EvalArgs(I, args, T, cols, [group[g]]))
         == seq(|group|, g requires 0 <= g < |group| => EvalArgs(I, args, T', cols, [group[g]]))
    decreases args, 1
  {
    ArgsFramed(I, p, args, T, T', cols, group);
    forall g | 0 <= g < |group| ensures EvalArgs(I, args, T, cols, [group[g]]) == EvalArgs(I, args, T', cols, [group[g]]) {
      ArgsFramed(I, p, args, T, T', cols, [group[g]]);
    }
  }

  lemma {:induction false} ArgsFramed(I: Interp, p: string, args: seq<Expr>, T: Tables, T': Tables, cols: seq<Col>, group: seq<Row>)
    requires (forall i | 0 <= i < |args| :: AllUnder(p, ArgMentions(args)[i])) && SameUnder(p, T, T')
    ensures EvalArgs(I, args, T, cols, group) == EvalArgs(I, args, T', cols, group)
    decreases args, 0
  {
    forall i | 0 <= i < |args| ensures EvalExpr(I, args[i], T, cols, group) == EvalExpr(I, args[i], T', cols, group) {
      assert AllUnder(p, ArgMentions(args)[i]);
      ExprFramed(I, p, args[i], true, T, T', cols, group);
    }
    assert seq(|args|, i requires 0 <= i < |args| => EvalExpr(I, args[i], T, cols, group))
        == seq(|args|, i requires 0 <= i < |args| => EvalExpr(I, args[i], T', cols, group));
  }

  lemma {:induction false} WhereFramed(I: Interp, p: string, condition: Option<Expr>, hidden: bool, T: Tables, T': Tables, frame: Frame, outer: Env)
    requires AllUnder(p, SelectionMentions(condition, hidden)) && SameUnder(p, T, T')
    ensures EvalWhere(I, condition, T, frame, outer) == EvalWhere(I, condition, T', frame, outer)
    decreases condition
  {
    if condition.Some? {
      var e, cols := condition.value, frame.cols + outer.cols;
      forall i | 0 <= i < |frame.rows|
        ensures EvalExpr(I, e, T, cols, [frame.rows[i] + outer.row]) == EvalExpr(I, e, T', cols, [frame.rows[i] + outer.row])
      {
        ExprFramed(I, p, e, hidden, T, T', cols, [frame.rows[i] + outer.row]);
      }
      assert seq(|frame.rows|, i requires 0 <= i < |frame.rows| => EvalExpr(I, e, T, frame.cols + outer.cols, [frame.rows[i] + outer.row]))
          == seq(|frame.rows|, i requires 0 <= i < |frame.rows| => EvalExpr(I, e, T', frame.cols + outer.cols, [frame.rows[i] + outer.row]));
    }
  }

  // ---------- FROM ----------

  lemma {:induction false} FactorFramed(I: Interp, p: string, f: TableFactor, hidden: bool, T: Tables, T': Tables, outer: Env)
    requires AllUnder(p, InFactor(f, hidden)) && SameUnder(p, T, T')
    ensures EvalFactor(I, f, T, outer) == EvalFactor(I, f, T', outer)
    decreases f, 0
  {
    match f
    case Table(name, _) => assert TableRef(name, hidden) in InFactor(f, hidden);
    case Derived(subquery, _) =>
      UnderPart(p, InQuery(subquery, hidden), InFactor(f, hidden));
      QueryFramed(I, p, subquery, hidden, T, T', outer);
    case NestedJoin(tables) => TablesFramed(I, p, tables, hidden, T, T', outer);
  }

  lemma {:induction false} JoinFramed(I: Interp, p: string, left: Option<Frame>, j: Join, hidden: bool, T: Tables, T': Tables, outer: Env)
    requires AllUnder(p, InJoin(j, hidden)) && SameUnder(p, T, T')
    ensures EvalJoin(I, left, j, T, outer) == EvalJoin(I, left, j, T', outer)
    decreases j
  {
    UnderPart(p, InFactor(j.relation, hidden), InJoin(j, hidden));
    UnderPart(p, SelectionMentions(j.on, true), InJoin(j, hidden));
    FactorFramed(I, p, j.relation, hidden, T, T', outer);
    var right := EvalFactor(I, j.relation, T, outer);
    if left.Some? && right.Some? {
      WhereFramed(I, p, j.on, true, T, T', Product(left.value, right.value), outer);
    }
  }

  lemma {:induction false} JoinsFramed(I: Interp, p: string, t: TableWithJoins, n: nat, hidden: bool, T: Tables, T': Tables, outer: Env)
    requires n <= |t.joins| && AllUnder(p, InFactor(t.relation, hidden)) && SameUnder(p, T, T')
    requires forall i | 0 <= i < |t.joins| :: AllUnder(p, JoinMentions(t.joins, hidden)[i])
    ensures EvalJoins(I, t, n, T, outer) == EvalJoins(I, t, n, T', outer)
    decreases t, 0, n
  {
    if n == 0 {
      FactorFramed(I, p, t.relation, hidden, T, T', outer);
    } else {
      JoinsFramed(I, p, t, n - 1, hidden, T, T', outer);
      assert AllUnder(p, JoinMentions(t.joins, hidden)[n - 1]);
      JoinFramed(I, p, EvalJoins(I, t, n - 1, T, outer), t.joins[n - 1], hidden, T, T', outer);
    }
  }

  lemma {:induction false} TablesFramed(I: Interp, p: string, t: TableWithJoins, hidden: bool, T: Tables, T': Tables, outer: Env)
    requires AllUnder(p, InTables(t, hidden)) && SameUnder(p, T, T')
    ensures EvalJoins(I, t, |t.joins|, T, outer) == EvalJoins(I, t, |t.joins|, T', outer)
    decreases t, 1
  {
    MentionsOfTables(t, hidden);
    UnderPart(p, InFactor(t.relation, hidden), InTables(t, hidden));
    UnderPart(p, Union(JoinMentions(t.joins, hidden)), InTables(t, hidden));
    UnderUnion(p, JoinMentions(t.joins, hidden));
    JoinsFramed(I, p, t, |t.joins|, hidden, T, T', outer);
  }

  lemma {:induction false} FromFramed(I: Interp, p: string, from: seq<TableWithJoins>, hidden: bool, T: Tables, T': Tables, outer: Env)
    requires (forall i | 0 <= i < |from| :: AllUnder(p, FromMentions(from, hidden)[i])) && SameUnder(p, T, T')
    ensures EvalFrom(I, from, T, outer) == EvalFrom(I, from, T', outer)
    decreases from
  {
    forall i | 0 <= i < |from|
      ensures EvalJoins(I, from[i], |from[i].joins|, T, outer) == EvalJoins(I, from[i], |from[i].joins|, T', outer)
    {
      assert AllUnder(p, FromMentions(from, hidden)[i]);
      TablesFramed(I, p, from[i], hidden, T, T', outer);
    }
    assert seq(|from|, i requires 0 <= i < |from| => EvalJoins(I, from[i], |from[i].joins|, T, outer))
        == seq(|from|, i requires 0 <= i < |from| => EvalJoins(I, from[i], |from[i].joins|, T', outer));
  }

  // ---------- SELECT ----------

  ghost predicate ItemsUnder(p: string, items: seq<SelectItem>, hidden: bool) {
    forall i | 0 <= i < |items| :: AllUnder(p, ItemMentions(items, hidden)[i])
  }

  lemma {:induction false} ItemFramed(I: Interp, p: string, item: SelectItem, hidden: bool, T: Tables, T': Tables, cols: seq<Col>, width: nat, group: seq<Row>)
    requires AllUnder(p, InItem(item, hidden)) && SameUnder(p, T, T')
    ensures EvalItem(I, item, T, cols, width, group) == EvalItem(I, item, T', cols, width, group)
    decreases item
  {
    if item.Item? { ExprFramed(I, p, item.expr, hidden, T, T', cols, group); }
  }

  lemma {:induction false} ItemsFramed(I: Interp, p: string, items: seq<SelectItem>, hidden: bool, T: Tables, T': Tables, cols: seq<Col>, width: nat, group: seq<Row>)
    requires ItemsUnder(p, items, hidden) && SameUnder(p, T, T')
    ensures EvalItems(I, items, T, cols, width, group) == EvalItems(I, items, T', cols, width, group)
    decreases items, 0
  {
    forall i | 0 <= i < |items| ensures EvalItem(I, items[i], T, cols, width, group) == EvalItem(I, items[i], T', cols, width, group) {
      assert AllUnder(p, ItemMentions(items, hidden)[i]);
      ItemFramed(I, p, items[i], hidden, T, T', cols, width, group);
    }
    assert seq(|items|, i requires 0 <= i < |items| => EvalItem(I, items[i], T, cols, width, group))
        == seq(|items|, i requires 0 <= i < |items| => EvalItem(I, items[i], T', cols, width, group));
  }

  lemma {:induction false} ProjectFramed(I: Interp, p: string, items: seq<SelectItem>, hidden: bool, T: Tables, T': Tables, frame: Frame, outer: Env)
    requires ItemsUnder(p, items, hidden) && SameUnder(p, T, T')
    ensures Project(I, items, T, frame, outer) == Project(I, items, T', frame, outer)
    decreases items, 1
  {
    var cols := frame.cols + outer.cols;
    var rows := seq(|frame.rows|, i requires 0 <= i < |frame.rows| => frame.rows[i] + outer.row);
    ItemsFramed(I, p, items, hidden, T, T', cols, |frame.cols|, rows);
    forall i | 0 <= i < |rows|
      ensures EvalItems(I, items, T, cols, |frame.cols|, [rows[i]]) == EvalItems(I, items, T', cols, |frame.cols|, [rows[i]])
    {
      ItemsFramed(I, p, items, hidden, T, T', cols, |frame.cols|, [rows[i]]);
    }
    assert seq(|rows|, i requires 0 <= i < |rows| => EvalItems(I, items, T, cols, |frame.cols|, [rows[i]]))
        == seq(|rows|, i requires 0 <= i < |rows| => EvalItems(I, items, T', cols, |frame.cols|, [rows[i]]));
  }

  lemma {:induction false} SelectFramed(I: Interp, p: string, s: SetExpr, hidden: bool, T: Tables, T': Tables, outer: Env)
    requires s.Select? && AllUnder(p, InSetExpr(s, hidden)) && SameUnder(p, T, T')
    ensures EvalSetExpr(I, s, T, outer) == EvalSetExpr(I, s, T', outer)
    decreases s, 0
  {
    MentionsOfSelect(s, hidden);
    UnderPart(p, Union(ItemMentions(s.projection, hidden)), InSetExpr(s, hidden));
    UnderPart(p, Union(FromMentions(s.from, hidden)), InSetExpr(s, hidden));
    UnderPart(p, SelectionMentions(s.selection, hidden), InSetExpr(s, hidden));
    UnderUnion(p, ItemMentions(s.projection, hidden));
    UnderUnion(p, FromMentions(s.from, hidden));
    FromFramed(I, p, s.from, hidden, T, T', outer);
    var frame := EvalFrom(I, s.from, T, outer);
    if frame.Some? {
      WhereFramed(I, p, s.selection, hidden, T, T', frame.value, outer);
      var kept := EvalWhere(I, s.selection, T, frame.value, outer);
      if kept.Some? { ProjectFramed(I, p, s.projection, hidden, T, T', kept.value, outer); }
    }
  }

  lemma {:induction false} SetExprFramed(I: Interp, p: string, s: SetExpr, hidden: bool, T: Tables, T': Tables, outer: Env)
    requires AllUnder(p, InSetExpr(s, hidden)) && SameUnder(p, T, T')
    ensures EvalSetExpr(I, s, T, outer) == EvalSetExpr(I, s, T', outer)
    decreases s, 1
  {
    match s
    case Select(_, _, _) => SelectFramed(I, p, s, hidden, T, T', outer);
    case SetOperation(_, left, right) =>
      UnderPart(p, InSetExpr(left, hidden), InSetExpr(s, hidden));
      UnderPart(p, InSetExpr(right, hidden), InSetExpr(s, hidden));
      SetExprFramed(I, p, left, hidden, T, T', outer);
      SetExprFramed(I, p, right, hidden, T, T', outer);
    case Parenthesized(query) => QueryFramed(I, p, query, hidden, T, T', outer);
    case Values(row) =>
      MentionsOfValues(row, hidden);
      UnderUnion(p, ArgMentions(row));
      ArgsFramed(I, p, row, T, T', outer.cols, [outer.row]);
  }

  // ---------- WITH ----------

  lemma {:induction false} CtesFramed(I: Interp, p: string, q: Query, n: nat, hidden: bool, T: Tables, T': Tables, outer: Env)
    requires n <= |q.ctes| && SameUnder(p, T, T')
    requires forall i | 0 <= i < |q.ctes| :: AllUnder(p, CteMentions(q.ctes, hidden)[i])
    ensures
      var (U, U') := (WithCtes(I, q, n, T, outer), WithCtes(I, q, n, T', outer));
      U.Some? == U'.Some? && (U.Some? ==> SameUnder(p, U.value, U'.value))
    decreases q, 0, n
  {
    if n != 0 {
      CtesFramed(I, p, q, n - 1, hidden, T, T', outer);
      var U, U' := WithCtes(I, q, n - 1, T, outer), WithCtes(I, q, n - 1, T', outer);
      if U.Some? {
        var cte := q.ctes[n - 1];
        assert AllUnder(p, CteMentions(q.ctes, hidden)[n - 1]);
        UnderPart(p, InQuery(cte.query, hidden), InCte(cte, hidden));
        QueryFramed(I, p, cte.query, hidden, U.value, U'.value, outer);
        var rel := EvalQuery(I, cte.query, U.value, outer);
        if rel.Some? { SameUnderUpdate(p, U.value, U'.value, cte.name, rel.value); }
      }
    }
  }

  // A query that names only tables under the prefix sees no others.
  lemma {:induction false} QueryFramed(I: Interp, p: string, q: Query, hidden: bool, T: Tables, T': Tables, outer: Env)
    requires AllUnder(p, InQuery(q, hidden)) && SameUnder(p, T, T')
    ensures EvalQuery(I, q, T, outer) == EvalQuery(I, q, T', outer)
    decreases q, 1
  {
    MentionsOfQuery(q, hidden);
    UnderPart(p, InSetExpr(q.body, hidden), InQuery(q, hidden));
    UnderPart(p, Union(CteMentions(q.ctes, hidden)), InQuery(q, hidden));
    UnderUnion(p, CteMentions(q.ctes, hidden));
    CtesFramed(I, p, q, |q.ctes|, hidden, T, T', outer);
    var U, U' := WithCtes(I, q, |q.ctes|, T, outer), WithCtes(I, q, |q.ctes|, T', outer);
    if U.Some? { SetExprFramed(I, p, q.body, hidden, U.value, U'.value, outer); }
  }

  // ---------- Statements ----------

  // The outcome is the same in both databases as far as the tables under the prefix go, and
  // in the first one all other tables are as they were.
  ghost predicate SameOutcome(p: string, T: Tables, after: Option<Outcome>, after': Option<Outcome>) {
    && after.Some? == after'.Some?
    && (after.Some? ==>
          && after.value.result == after'.value.result
          && SameUnder(p, after.value.tables, after'.value.tables)
          && AgreeOutside(p, T, after.value.tables))
  }

  lemma UpdateOutcome(p: string, T: Tables, T': Tables, n: Name, rel: Relation, result: Relation)
    requires SameUnder(p, T, T') && p <= n
    ensures SameOutcome(p, T, Some(Outcome(T[n := rel], result)), Some(Outcome(T'[n := rel], result)))
  {}

  lemma ConditionFramed(I: Interp, p: string, selection: Option<Expr>, hidden: bool, T: Tables, T': Tables, frame: Frame)
    requires AllUnder(p, SelectionMentions(selection, hidden)) && SameUnder(p, T, T')
    ensures seq(|frame.rows|, i requires 0 <= i < |frame.rows| => Condition(I, selection, T, frame.cols, frame.rows[i]))
         == seq(|frame.rows|, i requires 0 <= i < |frame.rows| => Condition(I, selection, T', frame.cols, frame.rows[i]))
  {
    forall i | 0 <= i < |frame.rows|
      ensures Condition(I, selection, T, frame.cols, frame.rows[i]) == Condition(I, selection, T', frame.cols, frame.rows[i])
    {
      if selection.Some? { ExprFramed(I, p, selection.value, hidden, T, T', frame.cols, [frame.rows[i]]); }
    }
  }

  lemma AssignmentsFramed(I: Interp, p: string, xs: seq<Assignment>, T: Tables, T': Tables, cols: seq<Col>, row: Row)
    requires (forall i | 0 <= i < |xs| :: AllUnder(p, AssignedMentions(xs)[i])) && SameUnder(p, T, T')
    ensures EvalAssignments(I, xs, T, cols, row) == EvalAssignments(I, xs, T', cols, row)
  {
    forall i | 0 <= i < |xs| ensures EvalExpr(I, xs[i].value, T, cols, [row]) == EvalExpr(I, xs[i].value, T', cols, [row]) {
      assert AllUnder(p, AssignedMentions(xs)[i]);
      ExprFramed(I, p, xs[i].value, true, T, T', cols, [row]);
    }
    assert seq(|xs|, i requires 0 <= i < |xs| => EvalExpr(I, xs[i].value, T, cols, [row]))
        == seq(|xs|, i requires 0 <= i < |xs| => EvalExpr(I, xs[i].value, T', cols, [row]));
  }

  lemma UpdateFramed(I: Interp, p: string, s: Statement, T: Tables, T': Tables)
    requires s.Update? && AllUnder(p, InStatement(s)) && SameUnder(p, T, T')
    ensures SameOutcome(p, T, Exec(I, s, T), Exec(I, s, T'))
  {
    MentionsOfUpdate(s);
    UnderPart(p, InFactor(s.target, false), InStatement(s));
    UnderPart(p, SelectionMentions(s.selection, true), InStatement(s));
    UnderPart(p, Union(AssignedMentions(s.assignments)), InStatement(s));
    UnderUnion(p, AssignedMentions(s.assignments));
    FactorFramed(I, p, s.target, false, T, T', TopLevel());
    if s.target.Table? && s.target.name in T {
      assert TableRef(s.target.name, false) in InFactor(s.target, false);
      var frame := EvalFactor(I, s.target, T, TopLevel()).value;
      ConditionFramed(I, p, s.selection, true, T, T', frame);
      forall i | 0 <= i < |frame.rows|
        ensures EvalAssignments(I, s.assignments, T, frame.cols, frame.rows[i]) == EvalAssignments(I, s.assignments, T', frame.cols, frame.rows[i])
      {
        AssignmentsFramed(I, p, s.assignments, T, T', frame.cols, frame.rows[i]);
      }
      assert seq(|frame.rows|, i requires 0 <= i < |frame.rows| => EvalAssignments(I, s.assignments, T, frame.cols, frame.rows[i]))
          == seq(|frame.rows|, i requires 0 <= i < |frame.rows| => EvalAssignments(I, s.assignments, T', frame.cols, frame.rows[i]));
      var changes := EvalUpdate(I, s.assignments, s.selection, T, frame);
      assert changes == EvalUpdate(I, s.assignments, s.selection, T', frame);
      if changes.Some? {
        var after := I.write(T[s.target.name], changes.value);
        if after.Some? { UpdateOutcome(p, T, T', s.target.name, after.value, Nothing); }
      }
    } else if s.target.Table? {
      assert TableRef(s.target.name, false) in InFactor(s.target, false);
    }
  }

  lemma DeleteFramed(I: Interp, p: string, s: Statement, T: Tables, T': Tables)
    requires s.Delete? && AllUnder(p, InStatement(s)) && SameUnder(p, T, T')
    ensures SameOutcome(p, T, Exec(I, s, T), Exec(I, s, T'))
  {
    UnderPart(p, InFactor(s.from, false), InStatement(s));
    UnderPart(p, SelectionMentions(s.selection, false), InStatement(s));
    FactorFramed(I, p, s.from, false, T, T', TopLevel());
    if s.from.Table? {
      assert TableRef(s.from.name, false) in InFactor(s.from, false);
      if s.from.name in T {
        var frame := EvalFactor(I, s.from, T, TopLevel()).value;
        ConditionFramed(I, p, s.selection, false, T, T', frame);
        var hits := AllSome(seq(|frame.rows|, i requires 0 <= i < |frame.rows| => Condition(I, s.selection, T, frame.cols, frame.rows[i])));
        if hits.Some? {
          UpdateOutcome(p, T, T', s.from.name, T[s.from.name].(rows := Survivors(frame.rows, hits.value)), Nothing);
        }
      }
    }
  }

  lemma {:induction false} DropFramed(p: string, names: seq<Name>, n: nat, T: Tables, T': Tables)
    requires n <= |names| && (forall i | 0 <= i < |names| :: p <= names[i]) && SameUnder(p, T, T')
    ensures
      var (U, U') := (DropAll(names, n, T), DropAll(names, n, T'));
      U.Some? == U'.Some? && (U.Some? ==> SameUnder(p, U.value, U'.value) && AgreeOutside(p, T, U.value))
  {
    if n != 0 { DropFramed(p, names, n - 1, T, T'); }
  }

  lemma InsertFramed(I: Interp, p: string, s: Statement, T: Tables, T': Tables)
    requires s.Insert? && AllUnder(p, InStatement(s)) && SameUnder(p, T, T')
    ensures SameOutcome(p, T, Exec(I, s, T), Exec(I, s, T'))
  {
    UnderPart(p, InQuery(s.source, false), InStatement(s));
    QueryFramed(I, p, s.source, false, T, T', TopLevel());
    assert TableRef(s.table, false) in InStatement(s);
    var rel := EvalQuery(I, s.source, T, TopLevel());
    if rel.Some? && s.table in T {
      var after := I.insert(T[s.table], s.columns, rel.value.rows);
      if after.Some? { UpdateOutcome(p, T, T', s.table, after.value, Nothing); }
    }
  }

  lemma CreateFramed(I: Interp, p: string, s: Statement, T: Tables, T': Tables)
    requires s.CreateTable? && AllUnder(p, InStatement(s)) && SameUnder(p, T, T')
    ensures SameOutcome(p, T, Exec(I, s, T), Exec(I, s, T'))
  {
    assert TableRef(s.name, false) in InStatement(s);
    if s.asQuery.Some? {
      UnderPart(p, InQuery(s.asQuery.value, false), InStatement(s));
      QueryFramed(I, p, s.asQuery.value, false, T, T', TopLevel());
      var rel := EvalQuery(I, s.asQuery.value, T, TopLevel());
      if rel.Some? { UpdateOutcome(p, T, T', s.name, rel.value, Nothing); }
    } else {
      UpdateOutcome(p, T, T', s.name, Relation(seq(|s.defs|, i requires 0 <= i < |s.defs| => s.defs[i].name), []), Nothing);
    }
  }

  // A statement that names only tables under the prefix reads and writes no others.
  lemma StatementFramed(I: Interp, p: string, s: Statement, T: Tables, T': Tables)
    requires AllUnder(p, InStatement(s)) && SameUnder(p, T, T')
    ensures SameOutcome(p, T, Exec(I, s, T), Exec(I, s, T'))
  {
    match s
    case QueryStatement(query) => QueryFramed(I, p, query, false, T, T', TopLevel());
    case Insert(_, _, _) => InsertFramed(I, p, s, T, T');
    case Update(_, _, _) => UpdateFramed(I, p, s, T, T');
    case Delete(_, _) => DeleteFramed(I, p, s, T, T');
    case CreateTable(_, _, _, _) => CreateFramed(I, p, s, T, T');
    case Drop(names) =>
      assert forall i | 0 <= i < |names| :: TableRef(names[i], false) in InStatement(s);
      DropFramed(p, names, |names|, T, T');
    case AlterTable(name, operation) =>
      assert TableRef(name, false) in InStatement(s);
      if name in T && operation.AddColumn? {
        var after := I.addColumn(T[name], operation.column.name);
        if after.Some? { UpdateOutcome(p, T, T', name, after.value, Nothing); }
      }
    case CreateIndex(_, table) => assert TableRef(table, false) in InStatement(s);
    case Transaction(_) =>
    case Unsupported(_) =>
  }

  // ISOLATION, of every statement that names no table outside the prefix where the traversal
  // does not go. Nothing is asked about qualifiers, aliases or collected names.
  lemma IsolatedUnlessHidden(I: Interp, p: string, names: set<Name>, s: Statement, T: Tables, T': Tables)
    requires PrefixStatement(p, s).Ok? && HiddenUnder(p, InStatement(s)) && SameUnder(p, T, T')
    ensures
      var scoped := RenameStatement(p, names, PrefixStatement(p, s).value);
      SameOutcome(p, T, Exec(I, scoped, T), Exec(I, scoped, T'))
  {
    NamedTablesUnderIff(p, names, s);
    StatementFramed(I, p, RenameStatement(p, names, PrefixStatement(p, s).value), T, T');
  }
}
