/**
The fragment of SQL that scoped queries are written in.  An expression form that
the table traversal does not enter is marked "not entered".
*/
module SqlAst {
  import opened Wrappers

  type Name = string

  datatype Value = Null | Int(n: int) | Text(s: string)

  datatype Expr =
    | Column(name: Name)
    | Qualified(table: Name, name: Name)
    | Literal(value: Value)
    | Binary(op: string, left: Expr, right: Expr)
    | All(arg: Expr)
    | Subquery(query: Query)
    | Nested(inner: Expr)               // not entered
    | Call(fn: string, args: seq<Expr>) // not entered
    | Exists(query: Query)              // not entered

  datatype SelectItem = Wildcard | Item(expr: Expr, alias: Option<Name>)

  datatype TableFactor =
    | Table(name: Name, alias: Option<Name>)
    | Derived(subquery: Query, alias: Option<Name>)
    | NestedJoin(tables: TableWithJoins)

  // The condition of a join is not entered.
  datatype Join = Join(relation: TableFactor, on: Option<Expr>)

  datatype TableWithJoins = TableWithJoins(relation: TableFactor, joins: seq<Join>)

  datatype SetExpr =
    | Select(projection: seq<SelectItem>, from: seq<TableWithJoins>, selection: Option<Expr>)
    | SetOperation(op: string, left: SetExpr, right: SetExpr)
    | Parenthesized(query: Query)
    | Values(row: seq<Expr>) // not entered

  datatype Cte = Cte(name: Name, query: Query)

  datatype Query = Query(ctes: seq<Cte>, body: SetExpr)

  datatype ReferentialAction = Restrict | OtherAction(action: string)

  datatype ForeignKey =
    ForeignKey(table: Name, onDelete: Option<ReferentialAction>, onUpdate: Option<ReferentialAction>)

  datatype ColumnDef = ColumnDef(name: Name, references: Option<ForeignKey>)

  // The assigned expressions and the condition of an update are not entered.
  datatype Assignment = Assignment(column: Name, value: Expr)

  datatype AlterOperation = AddColumn(column: ColumnDef) | RenameTable(newName: Name)

  datatype Statement =
    | QueryStatement(query: Query)
    | Insert(table: Name, columns: seq<Name>, source: Query)
    | Update(target: TableFactor, assignments: seq<Assignment>, selection: Option<Expr>)
    | Delete(from: TableFactor, selection: Option<Expr>)
    | CreateTable(name: Name, defs: seq<ColumnDef>, constraints: seq<ForeignKey>, asQuery: Option<Query>)
    | Drop(names: seq<Name>)
    | AlterTable(name: Name, operation: AlterOperation)
    | CreateIndex(name: Name, table: Name)
    | Transaction(words: seq<string>)
    | Unsupported(text: string)
}
