/**
What a query means.  A table is a relation; a FROM clause yields a frame, whose
columns carry the name of the table or alias they came from; a row of the
enclosing query is passed to subqueries, so that they may be correlated.

Operators, functions, aggregates, set operations and the effect of a write on one
table are parameters: whatever they are, they see values and never table names.
*/
module SqlEval {
  import opened Wrappers
  import opened SqlAst

  type Row = seq<Value>

  datatype Relation = Relation(columns: seq<Name>, rows: seq<Row>)

  type Tables = map<Name, Relation>

  datatype Col = Col(table: Option<Name>, name: Name)

  datatype Frame = Frame(cols: seq<Col>, rows: seq<Row>)

  datatype Env = Env(cols: seq<Col>, row: Row)

  datatype Interp = Interp(
    truth: Value -> bool,
    binary: (string, Value, Value) -> Value,
    call: (string, seq<Value>) -> Value,
    aggregate: string -> bool,
    combine: (string, seq<Row>, seq<Row>) -> seq<Row>,
    insert: (Relation, seq<Name>, seq<Row>) -> Option<Relation>,
    write: (Relation, seq<Option<seq<(Name, Value)>>>) -> Option<Relation>,
    addColumn: (Relation, Name) -> Option<Relation>
  )

  // ---------- Values ----------

  function AllSome<T>(xs: seq<Option<T>>): Option<seq<T>> {
    if forall i | 0 <= i < |xs| :: xs[i].Some?
    then Some(seq(|xs|, i requires 0 <= i < |xs| && xs[i].Some? => xs[i].value))
    else None
  }

  function Concat<T>(xss: seq<seq<T>>): seq<T> {
    if xss == [] then [] else Concat(xss[..|xss| - 1]) + xss[|xss| - 1]
  }

  function Filter(truth: Value -> bool, rows: seq<Row>, verdicts: seq<Value>): seq<Row>
    requires |rows| == |verdicts|
  {
    if rows == [] then []
    else
      var n := |rows| - 1;
      Filter(truth, rows[..n], verdicts[..n]) + (if truth(verdicts[n]) then [rows[n]] else [])
  }

  // The rows for which the condition, evaluated for each of them, is true.
  function Keep(truth: Value -> bool, rows: seq<Row>, verdicts: seq<Option<Value>>): Option<seq<Row>>
    requires |rows| == |verdicts|
  {
    var vs :- AllSome(verdicts);
    Some(Filter(truth, rows, vs))
  }

  function ProductRows(left: seq<Row>, right: seq<Row>): seq<Row> {
    Concat(seq(|left|, i requires 0 <= i < |left| =>
      seq(|right|, j requires 0 <= j < |right| => left[i] + right[j])))
  }

  function Product(left: Frame, right: Frame): Frame {
    Frame(left.cols + right.cols, ProductRows(left.rows, right.rows))
  }

  function ProductAll(frames: seq<Frame>): Frame {
    if frames == [] then Frame([], [[]])
    else Product(ProductAll(frames[..|frames| - 1]), frames[|frames| - 1])
  }

  function Scalar(rel: Relation): Value {
    if rel.rows == [] || rel.rows[0] == [] then Null else rel.rows[0][0]
  }

  // ---------- Name resolution: the innermost column that fits ----------

  predicate Fits(c: Col, table: Option<Name>, name: Name) {
    c.name == name && (table == None || c.table == table)
  }

  function Lookup(cols: seq<Col>, row: Row, table: Option<Name>, name: Name): Option<Value> {
    if cols == [] || row == [] then None
    else if Fits(cols[0], table, name) then Some(row[0])
    else Lookup(cols[1..], row[1..], table, name)
  }

  function Tag(table: Option<Name>, columns: seq<Name>): seq<Col> {
    seq(|columns|, i requires 0 <= i < |columns| => Col(table, columns[i]))
  }

  // ---------- Expressions ----------

  // The value of e for a group of rows: its columns are read from the first one,
  // and an aggregate ranges over all of them.
  function EvalExpr(I: Interp, e: Expr, T: Tables, cols: seq<Col>, group: seq<Row>): Option<Value>
    decreases e, 0
  {
    match e
    case Column(name) =>
      if group == [] then Some(Null) else Lookup(cols, group[0], None, name)
    case Qualified(table, name) =>
      if group == [] then Some(Null) else Lookup(cols, group[0], Some(table), name)
    case Literal(value) => Some(value)
    case Binary(op, left, right) =>
      var l :- EvalExpr(I, left, T, cols, group);
      var r :- EvalExpr(I, right, T, cols, group);
      Some(I.binary(op, l, r))
    case All(arg) =>
      var v :- EvalExpr(I, arg, T, cols, group);
      Some(I.call("ALL", [v]))
    case Subquery(query) =>
      var rel :- EvalQuery(I, query, T, Enclosing(cols, group));
      Some(Scalar(rel))
    case Nested(inner) => EvalExpr(I, inner, T, cols, group)
    case Call(fn, args) =>
      if I.aggregate(fn) then
        var vss :- AllSome(seq(|group|, g requires 0 <= g < |group| => EvalArgs(I, args, T, cols, [group[g]])));
        Some(I.call(fn, Concat(vss)))
      else
        var vs :- EvalArgs(I, args, T, cols, group);
        Some(I.call(fn, vs))
    case Exists(query) =>
      var rel :- EvalQuery(I, query, T, Enclosing(cols, group));
      Some(Int(if rel.rows == [] then 0 else 1))
  }

  function Enclosing(cols: seq<Col>, group: seq<Row>): Env {
    if group == [] then Env([], []) else Env(cols, group[0])
  }

  function EvalArgs(I: Interp, args: seq<Expr>, T: Tables, cols: seq<Col>, group: seq<Row>): Option<seq<Value>>
    decreases args
  {
    AllSome(seq(|args|, i requires 0 <= i < |args| => EvalExpr(I, args[i], T, cols, group)))
  }

  // Evaluates e once for every row, each extended with the row of the enclosing query.
  function EvalEach(I: Interp, e: Expr, T: Tables, frame: Frame, outer: Env): Option<seq<Row>>
    decreases e, 1
  {
    Keep(I.truth, frame.rows, seq(|frame.rows|, i requires 0 <= i < |frame.rows| =>
      EvalExpr(I, e, T, frame.cols + outer.cols, [frame.rows[i] + outer.row])))
  }

  function EvalWhere(I: Interp, condition: Option<Expr>, T: Tables, frame: Frame, outer: Env): Option<Frame>
    decreases condition
  {
    match condition
    case None => Some(frame)
    case Some(e) =>
      var rows :- EvalEach(I, e, T, frame, outer);
      Some(frame.(rows := rows))
  }

  // ---------- FROM ----------

  function EvalFactor(I: Interp, f: TableFactor, T: Tables, outer: Env): Option<Frame>
    decreases f
  {
    match f
    case Table(name, alias) =>
      if name in T
      then Some(Frame(Tag(if alias.Some? then alias else Some(name), T[name].columns), T[name].rows))
      else None
    case Derived(subquery, alias) =>
      var rel :- EvalQuery(I, subquery, T, outer);
      Some(Frame(Tag(alias, rel.columns), rel.rows))
    case NestedJoin(tables) => EvalJoins(I, tables, |tables.joins|, T, outer)
  }

  // The relation joined with its first n joins.
  function EvalJoins(I: Interp, t: TableWithJoins, n: nat, T: Tables, outer: Env): Option<Frame>
    requires n <= |t.joins|
    decreases t, n
  {
    if n == 0 then EvalFactor(I, t.relation, T, outer)
    else EvalJoin(I, EvalJoins(I, t, n - 1, T, outer), t.joins[n - 1], T, outer)
  }

  // The frame so far, joined with one more relation.
  function EvalJoin(I: Interp, left: Option<Frame>, j: Join, T: Tables, outer: Env): Option<Frame>
    decreases j
  {
    var l :- left;
    var r :- EvalFactor(I, j.relation, T, outer);
    EvalWhere(I, j.on, T, Product(l, r), outer)
  }

  function EvalFrom(I: Interp, from: seq<TableWithJoins>, T: Tables, outer: Env): Option<Frame>
    decreases from
  {
    var frames :- AllSome(seq(|from|, i requires 0 <= i < |from| =>
      EvalJoins(I, from[i], |from[i].joins|, T, outer)));
    Some(ProductAll(frames))
  }

  // ---------- SELECT ----------

  predicate IsAggregate(I: Interp, item: SelectItem) {
    item.Item? && item.expr.Call? && I.aggregate(item.expr.fn)
  }

  function ItemColumns(item: SelectItem, cols: seq<Col>): seq<Name> {
    match item
    case Wildcard => seq(|cols|, i requires 0 <= i < |cols| => cols[i].name)
    case Item(_, Some(alias)) => [alias]
    case Item(Column(name), None) => [name]
    case Item(Qualified(_, name), None) => [name]
    case Item(_, None) => [""]
  }

  // The values an item contributes; a wildcard gives the first `width` of the row.
  function EvalItem(I: Interp, item: SelectItem, T: Tables, cols: seq<Col>, width: nat, group: seq<Row>)
    : Option<seq<Value>>
    decreases item
  {
    match item
    case Wildcard =>
      Some(if group == [] then [] else if width <= |group[0]| then group[0][..width] else group[0])
    case Item(expr, _) =>
      var v :- EvalExpr(I, expr, T, cols, group);
      Some([v])
  }

  function EvalItems(I: Interp, items: seq<SelectItem>, T: Tables, cols: seq<Col>, width: nat, group: seq<Row>)
    : Option<Row>
    decreases items, 0
  {
    var vss :- AllSome(seq(|items|, i requires 0 <= i < |items| => EvalItem(I, items[i], T, cols, width, group)));
    Some(Concat(vss))
  }

  function Project(I: Interp, items: seq<SelectItem>, T: Tables, frame: Frame, outer: Env): Option<Relation>
    decreases items, 1
  {
    var columns := Concat(seq(|items|, i requires 0 <= i < |items| => ItemColumns(items[i], frame.cols)));
    var cols := frame.cols + outer.cols;
    var rows := seq(|frame.rows|, i requires 0 <= i < |frame.rows| => frame.rows[i] + outer.row);
    if exists i | 0 <= i < |items| :: IsAggregate(I, items[i]) then
      var row :- EvalItems(I, items, T, cols, |frame.cols|, rows);
      Some(Relation(columns, [row]))
    else
      var out :- AllSome(seq(|rows|, i requires 0 <= i < |rows| =>
        EvalItems(I, items, T, cols, |frame.cols|, [rows[i]])));
      Some(Relation(columns, out))
  }

  function EvalSetExpr(I: Interp, s: SetExpr, T: Tables, outer: Env): Option<Relation>
    decreases s
  {
    match s
    case Select(projection, from, selection) =>
      var frame :- EvalFrom(I, from, T, outer);
      var kept :- EvalWhere(I, selection, T, frame, outer);
      Project(I, projection, T, kept, outer)
    case SetOperation(op, left, right) =>
      var l :- EvalSetExpr(I, left, T, outer);
      var r :- EvalSetExpr(I, right, T, outer);
      Some(Relation(l.columns, I.combine(op, l.rows, r.rows)))
    case Parenthesized(query) => EvalQuery(I, query, T, outer)
    case Values(row) =>
      var vs :- EvalArgs(I, row, T, outer.cols, [outer.row]);
      Some(Relation(seq(|vs|, _ => ""), [vs]))
  }

  // ---------- WITH ----------

  // The tables in scope after the first n common table expressions; each sees the earlier ones.
  function WithCtes(I: Interp, q: Query, n: nat, T: Tables, outer: Env): Option<Tables>
    requires n <= |q.ctes|
    decreases q, n
  {
    if n == 0 then Some(T)
    else
      var T1 :- WithCtes(I, q, n - 1, T, outer);
      var rel :- EvalQuery(I, q.ctes[n - 1].query, T1, outer);
      Some(T1[q.ctes[n - 1].name := rel])
  }

  function EvalQuery(I: Interp, q: Query, T: Tables, outer: Env): Option<Relation>
    decreases q
  {
    var T1 :- WithCtes(I, q, |q.ctes|, T, outer);
    EvalSetExpr(I, q.body, T1, outer)
  }

  // ---------- Statements ----------

  datatype Outcome = Outcome(tables: Tables, result: Relation)

  const Nothing := Relation([], [])

  function TopLevel(): Env {
    Env([], [])
  }

  function EvalAssignments(I: Interp, assignments: seq<Assignment>, T: Tables, cols: seq<Col>, row: Row)
    : Option<seq<(Name, Value)>>
  {
    var vs :- AllSome(seq(|assignments|, i requires 0 <= i < |assignments| =>
      EvalExpr(I, assignments[i].value, T, cols, [row])));
    Some(seq(|assignments|, i requires 0 <= i < |assignments| && |vs| == |assignments| =>
      (assignments[i].column, vs[i])))
  }

  function Condition(I: Interp, selection: Option<Expr>, T: Tables, cols: seq<Col>, row: Row): Option<bool> {
    match selection
    case None => Some(true)
    case Some(e) =>
      var v :- EvalExpr(I, e, T, cols, [row]);
      Some(I.truth(v))
  }

  // For each row of the target: None to leave it alone, Some(assignments) to change it.
  function EvalUpdate(I: Interp, assignments: seq<Assignment>, selection: Option<Expr>, T: Tables, frame: Frame)
    : Option<seq<Option<seq<(Name, Value)>>>>
  {
    var hits :- AllSome(seq(|frame.rows|, i requires 0 <= i < |frame.rows| =>
      Condition(I, selection, T, frame.cols, frame.rows[i])));
    var news :- AllSome(seq(|frame.rows|, i requires 0 <= i < |frame.rows| =>
      EvalAssignments(I, assignments, T, frame.cols, frame.rows[i])));
    Some(seq(|frame.rows|, i requires 0 <= i < |frame.rows| && |hits| == |news| == |frame.rows| =>
      if hits[i] then Some(news[i]) else None))
  }

  function Survivors(rows: seq<Row>, hits: seq<bool>): seq<Row>
    requires |rows| == |hits|
  {
    if rows == [] then []
    else
      var n := |rows| - 1;
      Survivors(rows[..n], hits[..n]) + (if hits[n] then [] else [rows[n]])
  }

  function DropAll(names: seq<Name>, n: nat, T: Tables): Option<Tables>
    requires n <= |names|
  {
    if n == 0 then Some(T)
    else
      var T1 :- DropAll(names, n - 1, T);
      if names[n - 1] in T1 then Some(T1 - {names[n - 1]}) else None
  }

  // The effect of one statement on the stored tables; None when it fails.
  function Exec(I: Interp, s: Statement, T: Tables): Option<Outcome> {
    match s
    case QueryStatement(query) =>
      var rel :- EvalQuery(I, query, T, TopLevel());
      Some(Outcome(T, rel))
    case Insert(table, columns, source) =>
      var rel :- EvalQuery(I, source, T, TopLevel());
      if table !in T then None
      else
        var after :- I.insert(T[table], columns, rel.rows);
        Some(Outcome(T[table := after], Nothing))
    case Update(target, assignments, selection) =>
      if !target.Table? || target.name !in T then None
      else
        var frame :- EvalFactor(I, target, T, TopLevel());
        var changes :- EvalUpdate(I, assignments, selection, T, frame);
        var after :- I.write(T[target.name], changes);
        Some(Outcome(T[target.name := after], Nothing))
    case Delete(from, selection) =>
      if !from.Table? || from.name !in T then None
      else
        var frame :- EvalFactor(I, from, T, TopLevel());
        var hits :- AllSome(seq(|frame.rows|, i requires 0 <= i < |frame.rows| =>
          Condition(I, selection, T, frame.cols, frame.rows[i])));
        Some(Outcome(T[from.name := T[from.name].(rows := Survivors(frame.rows, hits))], Nothing))
    case CreateTable(name, defs, _, asQuery) =>
      if name in T then None
      else if asQuery.Some? then
        var rel :- EvalQuery(I, asQuery.value, T, TopLevel());
        Some(Outcome(T[name := rel], Nothing))
      else
        Some(Outcome(T[name := Relation(seq(|defs|, i requires 0 <= i < |defs| => defs[i].name), [])], Nothing))
    case Drop(names) =>
      var T1 :- DropAll(names, |names|, T);
      Some(Outcome(T1, Nothing))
    case AlterTable(name, AddColumn(column)) =>
      if name !in T then None
      else
        var after :- I.addColumn(T[name], column.name);
        Some(Outcome(T[name := after], Nothing))
    case AlterTable(_, RenameTable(_)) => None
    case CreateIndex(_, table) => if table in T then Some(Outcome(T, Nothing)) else None
    case Transaction(_) => Some(Outcome(T, Nothing))
    case Unsupported(_) => None
  }

  // A script stops at its first failing statement.
  function ExecAll(I: Interp, script: seq<Statement>, n: nat, T: Tables): Option<Tables>
    requires n <= |script|
  {
    if n == 0 then Some(T)
    else
      var T1 :- ExecAll(I, script, n - 1, T);
      var outcome :- Exec(I, script[n - 1], T1);
      Some(outcome.tables)
  }
}
