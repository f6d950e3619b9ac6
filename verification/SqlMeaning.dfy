/**
A scoped statement means, on the tables stored under its prefix, what the original
means on those tables without the prefix, and it leaves every other table alone.
*/
module SqlMeaning {
  import opened Wrappers
  import opened SqlAst
  import opened SqlEval
  import opened SqlScope

  // What the rewriter supports: no subquery where the traversal does not go, everything
  // named is collected, and a qualifier that is not collected does not carry the prefix.
  predicate Supported(p: string, names: set<Name>, m: Mention) {
    match m
    case TableRef(n, hidden) => !hidden && Scoped(p, n) in names
    case AliasName(n, hidden) => !hidden && Scoped(p, n) in names
    case Qualifier(x) => Scoped(p, x) in names || !(p <= x)
    case HiddenQuery => false
  }

  predicate AllSupported(p: string, names: set<Name>, ms: set<Mention>) {
    forall m | m in ms :: Supported(p, names, m)
  }

  // ---------- The tables under a prefix ----------

  function Unscoped(p: string, stored: set<Name>): (r: set<Name>)
    ensures forall t: Name {:trigger Scoped(p, t)} :: t in r <==> Scoped(p, t) in stored
  {
    assert forall n | n in stored && p <= n :: Scoped(p, n[|p|..]) == n;
    assert forall t: Name :: p <= Scoped(p, t) && Scoped(p, t)[|p|..] == t;
    set n | n in stored && p <= n :: n[|p|..]
  }

  // The tables as the mount sees them: t is the one stored as p + t.
  function View(p: string, stored: Tables): Tables {
    map t | t in Unscoped(p, stored.Keys) :: stored[Scoped(p, t)]
  }

  function ScopedKeys(p: string, inner: set<Name>): (r: set<Name>)
    ensures forall n: Name {:trigger n in r} :: n in r <==> p <= n && n[|p|..] in inner
  {
    assert forall t: Name :: p <= Scoped(p, t) && Scoped(p, t)[|p|..] == t;
    assert forall n: Name | p <= n && n[|p|..] in inner :: Scoped(p, n[|p|..]) == n;
    set t | t in inner :: Scoped(p, t)
  }

  // The stored tables with those under the prefix replaced by `inner`.
  function Overlay(p: string, stored: Tables, inner: Tables): Tables {
    map n | n in stored.Keys + ScopedKeys(p, inner.Keys) && (p <= n ==> n[|p|..] in inner) ::
      if p <= n then inner[n[|p|..]] else stored[n]
  }

  // `inner` is what the mount sees of `stored`.
  ghost predicate Sees(p: string, stored: Tables, inner: Tables) {
    forall t: Name {:trigger Scoped(p, t)} :: (t in inner <==> Scoped(p, t) in stored) && (t in inner ==> stored[Scoped(p, t)] == inner[t])
  }

  lemma SeesUpdate(p: string, stored: Tables, inner: Tables, t: Name, rel: Relation)
    requires Sees(p, stored, inner)
    ensures Sees(p, stored[Scoped(p, t) := rel], inner[t := rel])
  {
    forall n: Name ensures Scoped(p, n) == Scoped(p, t) <==> n == t {
      ScopedInjective(p, n, t);
    }
    var stored', inner' := stored[Scoped(p, t) := rel], inner[t := rel];
    forall n: Name ensures (n in inner' <==> Scoped(p, n) in stored') && (n in inner' ==> stored'[Scoped(p, n)] == inner'[n]) {
      assert n in inner <==> Scoped(p, n) in stored;
    }
  }

  // ---------- Columns ----------

  function TagCols(p: string, cols: seq<Col>): seq<Col> {
    seq(|cols|, i requires 0 <= i < |cols| => Col(ScopedOption(p, cols[i].table), cols[i].name))
  }

  function TagFrame(p: string, f: Frame): Frame {
    Frame(TagCols(p, f.cols), f.rows)
  }

  function TagEnv(p: string, e: Env): Env {
    Env(TagCols(p, e.cols), e.row)
  }

  // Every table or alias a column is known by has been collected.
  predicate Named(p: string, names: set<Name>, cols: seq<Col>) {
    forall i | 0 <= i < |cols| :: cols[i].table.Some? ==> Scoped(p, cols[i].table.value) in names
  }

  lemma TagConcat(p: string, a: seq<Col>, b: seq<Col>)
    ensures TagCols(p, a + b) == TagCols(p, a) + TagCols(p, b)
  {}

  lemma {:induction false} LookupPreserved(p: string, names: set<Name>, cols: seq<Col>, row: Row, table: Option<Name>, c: Name)
    requires Named(p, names, cols)
    requires table.Some? ==> Supported(p, names, Qualifier(table.value))
    ensures
      var table' := if table.Some? then Some(RenamedQualifier(p, names, table.value)) else None;
      Lookup(TagCols(p, cols), row, table', c) == Lookup(cols, row, table, c)
  {
    if cols != [] && row != [] {
      var table' := if table.Some? then Some(RenamedQualifier(p, names, table.value)) else None;
      assert TagCols(p, cols)[1..] == TagCols(p, cols[1..]);
      if table.Some? && cols[0].table.Some? {
        ScopedInjective(p, cols[0].table.value, table.value);
        assert p <= Scoped(p, cols[0].table.value);
      }
      assert Fits(TagCols(p, cols)[0], table', c) == Fits(cols[0], table, c);
      LookupPreserved(p, names, cols[1..], row[1..], table, c);
    }
  }

  // ---------- Positions that are not entered ----------

  lemma {:induction false} HiddenExpr(I: Interp, p: string, names: set<Name>, e: Expr, stored: Tables, inner: Tables, cols: seq<Col>, group: seq<Row>)
    requires AllSupported(p, names, InExpr(e, true)) && Named(p, names, cols)
    ensures EvalExpr(I, RenameExpr(p, names, e), stored, TagCols(p, cols), group) == EvalExpr(I, e, inner, cols, group)
    decreases e, 0
  {
    match e
    case Column(c) =>
      if group != [] { LookupPreserved(p, names, cols, group[0], None, c); }
    case Qualified(t, c) =>
      if group != [] { LookupPreserved(p, names, cols, group[0], Some(t), c); }
    case Literal(_) =>
    case Binary(_, left, right) =>
      HiddenExpr(I, p, names, left, stored, inner, cols, group);
      HiddenExpr(I, p, names, right, stored, inner, cols, group);
    case All(arg) => HiddenExpr(I, p, names, arg, stored, inner, cols, group);
    case Nested(arg) => HiddenExpr(I, p, names, arg, stored, inner, cols, group);
    case Call(fn, args) =>
      var args' := RenameExpr(p, names, e).args;
      HiddenArgs(I, p, names, args, stored, inner, cols, group);
      forall g | 0 <= g < |group|
        ensures EvalArgs(I, args', stored, TagCols(p, cols), [group[g]]) == EvalArgs(I, args, inner, cols, [group[g]])
      {
        HiddenArgs(I, p, names, args, stored, inner, cols, [group[g]]);
      }
      assert seq(|group|, g requires 0 <= g < |group| => EvalArgs(I, args', stored, TagCols(p, cols), [group[g]]))
          == seq(|group|, g requires 0 <= g < |group| => EvalArgs(I, args, inner, cols, [group[g]]));
    case Subquery(_) => assert false;
    case Exists(_) => assert false;
  }

  lemma {:induction false} HiddenArgs(I: Interp, p: string, names: set<Name>, args: seq<Expr>, stored: Tables, inner: Tables, cols: seq<Col>, group: seq<Row>)
    requires forall i | 0 <= i < |args| :: AllSupported(p, names, InExpr(args[i], true))
    requires Named(p, names, cols)
    ensures
      var args' := seq(|args|, i requires 0 <= i < |args| => RenameExpr(p, names, args[i]));
      EvalArgs(I, args', stored, TagCols(p, cols), group) == EvalArgs(I, args, inner, cols, group)
    decreases args, 1
  {
    var args' := seq(|args|, i requires 0 <= i < |args| => RenameExpr(p, names, args[i]));
    forall i | 0 <= i < |args|
      ensures EvalExpr(I, args'[i], stored, TagCols(p, cols), group) == EvalExpr(I, args[i], inner, cols, group)
    {
      HiddenExpr(I, p, names, args[i], stored, inner, cols, group);
    }
    assert seq(|args'|, i requires 0 <= i < |args'| => EvalExpr(I, args'[i], stored, TagCols(p, cols), group))
        == seq(|args|, i requires 0 <= i < |args| => EvalExpr(I, args[i], inner, cols, group));
  }

  // ---------- Positions that are entered ----------

  function ScopeExpr(p: string, names: set<Name>, e: Expr): Expr {
    RenameExpr(p, names, PrefixExpr(p, e))
  }

  function ScopeQuery(p: string, names: set<Name>, q: Query): Query {
    RenameQuery(p, names, PrefixQuery(p, q))
  }

  function ScopeSetExpr(p: string, names: set<Name>, s: SetExpr): SetExpr {
    RenameSetExpr(p, names, PrefixSetExpr(p, s))
  }

  function ScopeFactor(p: string, names: set<Name>, f: TableFactor): TableFactor {
    RenameFactor(p, names, PrefixFactor(p, f))
  }

  function ScopeTables(p: string, names: set<Name>, t: TableWithJoins): TableWithJoins {
    RenameTables(p, names, PrefixTables(p, t))
  }

  function ScopeOption(p: string, names: set<Name>, e: Option<Expr>): Option<Expr> {
    match e
    case None => None
    case Some(expr) => Some(ScopeExpr(p, names, expr))
  }

  function ScopeItems(p: string, names: set<Name>, items: seq<SelectItem>): seq<SelectItem> {
    seq(|items|, i requires 0 <= i < |items| => ScopeItem(p, names, items[i]))
  }

  function ScopeItem(p: string, names: set<Name>, item: SelectItem): SelectItem {
    RenameItem(p, names, PrefixItem(p, item))
  }

  lemma {:induction false} ExprPreserved(I: Interp, p: string, names: set<Name>, e: Expr, stored: Tables, inner: Tables, cols: seq<Col>, group: seq<Row>)
    requires AllSupported(p, names, InExpr(e, false)) && Named(p, names, cols) && Sees(p, stored, inner)
    ensures EvalExpr(I, ScopeExpr(p, names, e), stored, TagCols(p, cols), group) == EvalExpr(I, e, inner, cols, group)
    decreases e, 0
  {
    match e
    case Binary(_, left, right) =>
      ExprPreserved(I, p, names, left, stored, inner, cols, group);
      ExprPreserved(I, p, names, right, stored, inner, cols, group);
    case All(arg) => ExprPreserved(I, p, names, arg, stored, inner, cols, group);
    case Subquery(query) =>
      assert Enclosing(TagCols(p, cols), group) == TagEnv(p, Enclosing(cols, group));
      QueryPreserved(I, p, names, query, stored, inner, Enclosing(cols, group));
    case Exists(_) => assert false;
    case _ =>
      assert InExpr(e, true) == InExpr(e, false);
      HiddenExpr(I, p, names, e, stored, inner, cols, group);
  }

  lemma {:induction false} EachPreserved(I: Interp, p: string, names: set<Name>, e: Expr, hidden: bool, stored: Tables, inner: Tables, frame: Frame, outer: Env)
    requires AllSupported(p, names, InExpr(e, hidden)) && Sees(p, stored, inner)
    requires Named(p, names, frame.cols) && Named(p, names, outer.cols)
    ensures
      var e' := if hidden then RenameExpr(p, names, e) else ScopeExpr(p, names, e);
      EvalEach(I, e', stored, TagFrame(p, frame), TagEnv(p, outer)) == EvalEach(I, e, inner, frame, outer)
    decreases e, 1
  {
    var e' := if hidden then RenameExpr(p, names, e) else ScopeExpr(p, names, e);
    var cols := frame.cols + outer.cols;
    TagConcat(p, frame.cols, outer.cols);
    forall i | 0 <= i < |frame.rows|
      ensures EvalExpr(I, e', stored, TagCols(p, cols), [frame.rows[i] + outer.row])
           == EvalExpr(I, e, inner, cols, [frame.rows[i] + outer.row])
    {
      if hidden {
        HiddenExpr(I, p, names, e, stored, inner, cols, [frame.rows[i] + outer.row]);
      } else {
        ExprPreserved(I, p, names, e, stored, inner, cols, [frame.rows[i] + outer.row]);
      }
    }
    assert seq(|frame.rows|, i requires 0 <= i < |frame.rows| => EvalExpr(I, e', stored, TagCols(p, frame.cols) + TagCols(p, outer.cols), [frame.rows[i] + outer.row]))
        == seq(|frame.rows|, i requires 0 <= i < |frame.rows| => EvalExpr(I, e, inner, frame.cols + outer.cols, [frame.rows[i] + outer.row]));
  }

  function TagOptionFrame(p: string, f: Option<Frame>): Option<Frame> {
    match f
    case None => None
    case Some(frame) => Some(TagFrame(p, frame))
  }

  ghost predicate NamedFrame(p: string, names: set<Name>, f: Option<Frame>) {
    f.Some? ==> Named(p, names, f.value.cols)
  }

  lemma {:induction false} FactorPreserved(I: Interp, p: string, names: set<Name>, f: TableFactor, stored: Tables, inner: Tables, outer: Env)
    requires AllSupported(p, names, InFactor(f, false)) && Sees(p, stored, inner) && Named(p, names, outer.cols)
    ensures NamedFrame(p, names, EvalFactor(I, f, inner, outer))
    ensures EvalFactor(I, ScopeFactor(p, names, f), stored, TagEnv(p, outer)) == TagOptionFrame(p, EvalFactor(I, f, inner, outer))
    decreases f, 0
  {
    match f
    case Table(name, alias) =>
      assert Supported(p, names, TableRef(name, false));
      if alias.Some? { assert Supported(p, names, AliasName(alias.value, false)); }
      var tag := if alias.Some? then alias else Some(name);
      if name in inner { assert Tag(ScopedOption(p, tag), inner[name].columns) == TagCols(p, Tag(tag, inner[name].columns)); }
    case Derived(subquery, alias) =>
      if alias.Some? { assert Supported(p, names, AliasName(alias.value, false)); }
      QueryPreserved(I, p, names, subquery, stored, inner, outer);
      var rel := EvalQuery(I, subquery, inner, outer);
      if rel.Some? { assert Tag(ScopedOption(p, alias), rel.value.columns) == TagCols(p, Tag(alias, rel.value.columns)); }
    case NestedJoin(tables) => TablesPreserved(I, p, names, tables, stored, inner, outer);
  }

  lemma {:induction false} WherePreserved(I: Interp, p: string, names: set<Name>, condition: Option<Expr>, hidden: bool, stored: Tables, inner: Tables, frame: Frame, outer: Env)
    requires AllSupported(p, names, InOption(condition, hidden)) && Sees(p, stored, inner)
    requires Named(p, names, frame.cols) && Named(p, names, outer.cols)
    ensures
      var condition' := if hidden then RenameOption(p, names, condition) else ScopeOption(p, names, condition);
      EvalWhere(I, condition', stored, TagFrame(p, frame), TagEnv(p, outer)) == TagOptionFrame(p, EvalWhere(I, condition, inner, frame, outer))
    ensures NamedFrame(p, names, EvalWhere(I, condition, inner, frame, outer))
    decreases condition
  {
    if condition.Some? {
      EachPreserved(I, p, names, condition.value, hidden, stored, inner, frame, outer);
    }
  }

  // t' is the scoped form of t, join by join.
  ghost predicate ScopedFrom(p: string, names: set<Name>, t: TableWithJoins, t': TableWithJoins) {
    && t'.relation == ScopeFactor(p, names, t.relation)
    && |t'.joins| == |t.joins|
    && forall i | 0 <= i < |t.joins| ::
         t'.joins[i] == Join(ScopeFactor(p, names, t.joins[i].relation), RenameOption(p, names, t.joins[i].on))
  }

  lemma ScopeTablesJoins(p: string, names: set<Name>, t: TableWithJoins)
    ensures ScopedFrom(p, names, t, ScopeTables(p, names, t))
  {
    var t1 := PrefixTables(p, t);
    assert forall i | 0 <= i < |t.joins| :: t1.joins[i] == PrefixJoin(p, t.joins[i]);
    assert forall i | 0 <= i < |t.joins| :: RenameTables(p, names, t1).joins[i] == RenameJoin(p, names, t1.joins[i]);
  }

  lemma ProductTagged(p: string, left: Frame, right: Frame)
    ensures Product(TagFrame(p, left), TagFrame(p, right)) == TagFrame(p, Product(left, right))
  {
    TagConcat(p, left.cols, right.cols);
  }

  lemma {:induction false} JoinPreserved(I: Interp, p: string, names: set<Name>, left: Option<Frame>, j: Join, stored: Tables, inner: Tables, outer: Env)
    requires AllSupported(p, names, InJoin(j, false)) && Sees(p, stored, inner) && Named(p, names, outer.cols)
    requires NamedFrame(p, names, left)
    ensures NamedFrame(p, names, EvalJoin(I, left, j, inner, outer))
    ensures EvalJoin(I, TagOptionFrame(p, left), Join(ScopeFactor(p, names, j.relation), RenameOption(p, names, j.on)), stored, TagEnv(p, outer))
         == TagOptionFrame(p, EvalJoin(I, left, j, inner, outer))
    decreases j
  {
    FactorPreserved(I, p, names, j.relation, stored, inner, outer);
    var right := EvalFactor(I, j.relation, inner, outer);
    if left.Some? && right.Some? {
      ProductTagged(p, left.value, right.value);
      WherePreserved(I, p, names, j.on, true, stored, inner, Product(left.value, right.value), outer);
    }
  }

  ghost predicate SupportedJoins(p: string, names: set<Name>, t: TableWithJoins) {
    forall i | 0 <= i < |t.joins| :: AllSupported(p, names, InJoin(t.joins[i], false))
  }

  lemma {:induction false} JoinsPreserved(I: Interp, p: string, names: set<Name>, t: TableWithJoins, t': TableWithJoins, n: nat, stored: Tables, inner: Tables, outer: Env)
    requires n <= |t.joins| && ScopedFrom(p, names, t, t')
    requires AllSupported(p, names, InFactor(t.relation, false))
    requires SupportedJoins(p, names, t)
    requires Sees(p, stored, inner) && Named(p, names, outer.cols)
    ensures NamedFrame(p, names, EvalJoins(I, t, n, inner, outer))
    ensures EvalJoins(I, t', n, stored, TagEnv(p, outer)) == TagOptionFrame(p, EvalJoins(I, t, n, inner, outer))
    decreases t, 0, n
  {
    if n == 0 {
      FactorPreserved(I, p, names, t.relation, stored, inner, outer);
    } else {
      JoinsPreserved(I, p, names, t, t', n - 1, stored, inner, outer);
      JoinsStep(I, p, names, t, t', n, stored, inner, outer);
    }
  }

  lemma {:induction false} JoinsStep(I: Interp, p: string, names: set<Name>, t: TableWithJoins, t': TableWithJoins, n: nat, stored: Tables, inner: Tables, outer: Env)
    requires 0 < n <= |t.joins| && ScopedFrom(p, names, t, t')
    requires AllSupported(p, names, InJoin(t.joins[n - 1], false))
    requires Sees(p, stored, inner) && Named(p, names, outer.cols)
    requires NamedFrame(p, names, EvalJoins(I, t, n - 1, inner, outer))
    requires EvalJoins(I, t', n - 1, stored, TagEnv(p, outer)) == TagOptionFrame(p, EvalJoins(I, t, n - 1, inner, outer))
    ensures NamedFrame(p, names, EvalJoins(I, t, n, inner, outer))
    ensures EvalJoins(I, t', n, stored, TagEnv(p, outer)) == TagOptionFrame(p, EvalJoins(I, t, n, inner, outer))
    decreases t, 0, 0
  {
    JoinPreserved(I, p, names, EvalJoins(I, t, n - 1, inner, outer), t.joins[n - 1], stored, inner, outer);
  }

  lemma {:induction false} TablesPreserved(I: Interp, p: string, names: set<Name>, t: TableWithJoins, stored: Tables, inner: Tables, outer: Env)
    requires AllSupported(p, names, InTables(t, false)) && Sees(p, stored, inner) && Named(p, names, outer.cols)
    ensures NamedFrame(p, names, EvalJoins(I, t, |t.joins|, inner, outer))
    ensures |ScopeTables(p, names, t).joins| == |t.joins|
    ensures EvalJoins(I, ScopeTables(p, names, t), |t.joins|, stored, TagEnv(p, outer)) == TagOptionFrame(p, EvalJoins(I, t, |t.joins|, inner, outer))
    decreases t, 1
  {
    ScopeTablesJoins(p, names, t);
    assert forall i, m | 0 <= i < |t.joins| && m in InJoin(t.joins[i], false) :: m in InTables(t, false);
    JoinsPreserved(I, p, names, t, ScopeTables(p, names, t), |t.joins|, stored, inner, outer);
  }

  lemma {:induction false} ProductAllTagged(p: string, names: set<Name>, frames: seq<Frame>)
    requires forall i | 0 <= i < |frames| :: Named(p, names, frames[i].cols)
    ensures Named(p, names, ProductAll(frames).cols)
    ensures ProductAll(seq(|frames|, i requires 0 <= i < |frames| => TagFrame(p, frames[i]))) == TagFrame(p, ProductAll(frames))
  {
    var tagged := seq(|frames|, i requires 0 <= i < |frames| => TagFrame(p, frames[i]));
    if frames != [] {
      var n := |frames| - 1;
      ProductAllTagged(p, names, frames[..n]);
      assert tagged[..n] == seq(n, i requires 0 <= i < n => TagFrame(p, frames[..n][i]));
      TagConcat(p, ProductAll(frames[..n]).cols, frames[n].cols);
    }
  }

  // The product of several tables, some of which may have failed.
  lemma FramesTagged(p: string, names: set<Name>, frames: seq<Option<Frame>>, frames': seq<Option<Frame>>)
    requires |frames'| == |frames|
    requires forall i | 0 <= i < |frames| :: frames'[i] == TagOptionFrame(p, frames[i]) && NamedFrame(p, names, frames[i])
    ensures AllSome(frames').Some? == AllSome(frames).Some?
    ensures AllSome(frames).Some? ==>
      && ProductAll(AllSome(frames').value) == TagFrame(p, ProductAll(AllSome(frames).value))
      && Named(p, names, ProductAll(AllSome(frames).value).cols)
  {
    if AllSome(frames).Some? {
      var fs := AllSome(frames).value;
      assert AllSome(frames').value == seq(|fs|, i requires 0 <= i < |fs| => TagFrame(p, fs[i]));
      ProductAllTagged(p, names, fs);
    } else {
      var i :| 0 <= i < |frames| && frames[i].None?;
      assert frames'[i].None?;
    }
  }

  lemma {:induction false} FromPreserved(I: Interp, p: string, names: set<Name>, from: seq<TableWithJoins>, stored: Tables, inner: Tables, outer: Env)
    requires forall i | 0 <= i < |from| :: AllSupported(p, names, InTables(from[i], false))
    requires Sees(p, stored, inner) && Named(p, names, outer.cols)
    ensures
      var from' := seq(|from|, i requires 0 <= i < |from| => ScopeTables(p, names, from[i]));
      EvalFrom(I, from', stored, TagEnv(p, outer)) == TagOptionFrame(p, EvalFrom(I, from, inner, outer))
    ensures NamedFrame(p, names, EvalFrom(I, from, inner, outer))
    decreases from
  {
    var from' := seq(|from|, i requires 0 <= i < |from| => ScopeTables(p, names, from[i]));
    forall i | 0 <= i < |from|
      ensures EvalJoins(I, from'[i], |from'[i].joins|, stored, TagEnv(p, outer)) == TagOptionFrame(p, EvalJoins(I, from[i], |from[i].joins|, inner, outer))
      ensures NamedFrame(p, names, EvalJoins(I, from[i], |from[i].joins|, inner, outer))
    {
      TablesPreserved(I, p, names, from[i], stored, inner, outer);
    }
    FramesTagged(p, names,
      seq(|from|, i requires 0 <= i < |from| => EvalJoins(I, from[i], |from[i].joins|, inner, outer)),
      seq(|from'|, i requires 0 <= i < |from'| => EvalJoins(I, from'[i], |from'[i].joins|, stored, TagEnv(p, outer))));
  }

  // ---------- SELECT ----------

  lemma {:induction false} ItemPreserved(I: Interp, p: string, names: set<Name>, item: SelectItem, stored: Tables, inner: Tables, cols: seq<Col>, width: nat, group: seq<Row>)
    requires AllSupported(p, names, InItem(item, false)) && Sees(p, stored, inner) && Named(p, names, cols)
    ensures EvalItem(I, ScopeItem(p, names, item), stored, TagCols(p, cols), width, group) == EvalItem(I, item, inner, cols, width, group)
    decreases item
  {
    if item.Item? {
      ExprPreserved(I, p, names, item.expr, stored, inner, cols, group);
    }
  }

  lemma {:induction false} ItemsPreserved(I: Interp, p: string, names: set<Name>, items: seq<SelectItem>, stored: Tables, inner: Tables, cols: seq<Col>, width: nat, group: seq<Row>)
    requires forall i | 0 <= i < |items| :: AllSupported(p, names, InItem(items[i], false))
    requires Sees(p, stored, inner) && Named(p, names, cols)
    ensures EvalItems(I, ScopeItems(p, names, items), stored, TagCols(p, cols), width, group) == EvalItems(I, items, inner, cols, width, group)
    decreases items, 0
  {
    var items' := ScopeItems(p, names, items);
    forall i | 0 <= i < |items|
      ensures EvalItem(I, items'[i], stored, TagCols(p, cols), width, group) == EvalItem(I, items[i], inner, cols, width, group)
    {
      ItemPreserved(I, p, names, items[i], stored, inner, cols, width, group);
    }
    assert seq(|items'|, i requires 0 <= i < |items'| => EvalItem(I, items'[i], stored, TagCols(p, cols), width, group))
        == seq(|items|, i requires 0 <= i < |items| => EvalItem(I, items[i], inner, cols, width, group));
  }

  lemma {:induction false} ProjectPreserved(I: Interp, p: string, names: set<Name>, items: seq<SelectItem>, stored: Tables, inner: Tables, frame: Frame, outer: Env)
    requires forall i | 0 <= i < |items| :: AllSupported(p, names, InItem(items[i], false))
    requires Sees(p, stored, inner) && Named(p, names, frame.cols) && Named(p, names, outer.cols)
    ensures Project(I, ScopeItems(p, names, items), stored, TagFrame(p, frame), TagEnv(p, outer)) == Project(I, items, inner, frame, outer)
    decreases items, 1
  {
    var items' := ScopeItems(p, names, items);
    var cols := frame.cols + outer.cols;
    var rows := seq(|frame.rows|, i requires 0 <= i < |frame.rows| => frame.rows[i] + outer.row);
    TagConcat(p, frame.cols, outer.cols);
    forall i | 0 <= i < |items|
      ensures ItemColumns(items'[i], TagCols(p, frame.cols)) == ItemColumns(items[i], frame.cols)
      ensures IsAggregate(I, items'[i]) == IsAggregate(I, items[i])
    {
      ItemShape(I, p, names, items[i], frame.cols);
    }
    assert seq(|items'|, i requires 0 <= i < |items'| => ItemColumns(items'[i], TagCols(p, frame.cols)))
        == seq(|items|, i requires 0 <= i < |items| => ItemColumns(items[i], frame.cols));
    ItemsPreserved(I, p, names, items, stored, inner, cols, |frame.cols|, rows);
    forall i | 0 <= i < |rows|
      ensures EvalItems(I, items', stored, TagCols(p, cols), |frame.cols|, [rows[i]]) == EvalItems(I, items, inner, cols, |frame.cols|, [rows[i]])
    {
      ItemsPreserved(I, p, names, items, stored, inner, cols, |frame.cols|, [rows[i]]);
    }
    assert seq(|rows|, i requires 0 <= i < |rows| => EvalItems(I, items', stored, TagCols(p, cols), |frame.cols|, [rows[i]]))
        == seq(|rows|, i requires 0 <= i < |rows| => EvalItems(I, items, inner, cols, |frame.cols|, [rows[i]]));
  }

  // Scoping keeps the form of a column and of a call.
  lemma ExprShape(p: string, names: set<Name>, e: Expr)
    ensures ScopeExpr(p, names, e).Column? == e.Column? && (e.Column? ==> ScopeExpr(p, names, e).name == e.name)
    ensures ScopeExpr(p, names, e).Qualified? == e.Qualified? && (e.Qualified? ==> ScopeExpr(p, names, e).name == e.name)
    ensures ScopeExpr(p, names, e).Call? == e.Call? && (e.Call? ==> ScopeExpr(p, names, e).fn == e.fn)
  {
    match e
    case Column(_) =>
    case Qualified(_, _) =>
    case Call(_, _) =>
    case _ =>
  }

  lemma ItemShape(I: Interp, p: string, names: set<Name>, item: SelectItem, cols: seq<Col>)
    ensures ItemColumns(ScopeItem(p, names, item), TagCols(p, cols)) == ItemColumns(item, cols)
    ensures IsAggregate(I, ScopeItem(p, names, item)) == IsAggregate(I, item)
  {
    if item.Item? {
      ExprShape(p, names, item.expr);
    }
  }

  lemma {:induction false} SetExprPreserved(I: Interp, p: string, names: set<Name>, s: SetExpr, stored: Tables, inner: Tables, outer: Env)
    requires AllSupported(p, names, InSetExpr(s, false)) && Sees(p, stored, inner) && Named(p, names, outer.cols)
    ensures EvalSetExpr(I, ScopeSetExpr(p, names, s), stored, TagEnv(p, outer)) == EvalSetExpr(I, s, inner, outer)
    decreases s
  {
    match s
    case Select(projection, from, selection) =>
      SelectMentions(s);
      ScopedSelect(p, names, s);
      FromPreserved(I, p, names, from, stored, inner, outer);
      var frame := EvalFrom(I, from, inner, outer);
      if frame.Some? {
        WherePreserved(I, p, names, selection, false, stored, inner, frame.value, outer);
        var kept := EvalWhere(I, selection, inner, frame.value, outer);
        if kept.Some? {
          ProjectPreserved(I, p, names, projection, stored, inner, kept.value, outer);
        }
      }
    case SetOperation(op, left, right) =>
      SetExprPreserved(I, p, names, left, stored, inner, outer);
      SetExprPreserved(I, p, names, right, stored, inner, outer);
    case Parenthesized(query) => QueryPreserved(I, p, names, query, stored, inner, outer);
    case Values(row) => HiddenArgs(I, p, names, row, stored, inner, outer.cols, [outer.row]);
  }

  lemma SelectMentions(s: SetExpr)
    requires s.Select?
    ensures forall i | 0 <= i < |s.projection| :: InItem(s.projection[i], false) <= InSetExpr(s, false)
    ensures forall i | 0 <= i < |s.from| :: InTables(s.from[i], false) <= InSetExpr(s, false)
    ensures InOption(s.selection, false) <= InSetExpr(s, false)
  {}

  lemma ScopedSelect(p: string, names: set<Name>, s: SetExpr)
    requires s.Select?
    ensures ScopeSetExpr(p, names, s) == Select(ScopeItems(p, names, s.projection),
      seq(|s.from|, i requires 0 <= i < |s.from| => ScopeTables(p, names, s.from[i])), ScopeOption(p, names, s.selection))
  {
    var t := ScopeSetExpr(p, names, s);
    assert t.projection == ScopeItems(p, names, s.projection);
    assert t.from == seq(|s.from|, i requires 0 <= i < |s.from| => ScopeTables(p, names, s.from[i]));
  }

  // ---------- WITH ----------

  lemma ScopedCte(p: string, names: set<Name>, q: Query, n: nat)
    requires n < |q.ctes|
    ensures ScopeQuery(p, names, q).ctes[n] == Cte(Scoped(p, q.ctes[n].name), ScopeQuery(p, names, q.ctes[n].query))
  {
    var q' := PrefixQuery(p, q);
    assert q'.ctes[n] == PrefixCte(p, q.ctes[n]);
    assert RenameQuery(p, names, q').ctes[n] == RenameCte(p, names, q'.ctes[n]);
  }

  lemma {:induction false} CtesPreserved(I: Interp, p: string, names: set<Name>, q: Query, n: nat, stored: Tables, inner: Tables, outer: Env)
    requires n <= |q.ctes|
    requires AllSupported(p, names, InQuery(q, false)) && Sees(p, stored, inner) && Named(p, names, outer.cols)
    ensures
      var (stored', inner') := (WithCtes(I, ScopeQuery(p, names, q), n, stored, TagEnv(p, outer)), WithCtes(I, q, n, inner, outer));
      stored'.Some? == inner'.Some? && (inner'.Some? ==> Sees(p, stored'.value, inner'.value))
    decreases q, n
  {
    if n != 0 {
      var cte := q.ctes[n - 1];
      ScopedCte(p, names, q, n - 1);
      assert forall m | m in InCte(cte, false) :: m in InQuery(q, false);
      CtesPreserved(I, p, names, q, n - 1, stored, inner, outer);
      var stored', inner' := WithCtes(I, ScopeQuery(p, names, q), n - 1, stored, TagEnv(p, outer)), WithCtes(I, q, n - 1, inner, outer);
      if inner'.Some? {
        QueryPreserved(I, p, names, cte.query, stored'.value, inner'.value, outer);
        var rel := EvalQuery(I, cte.query, inner'.value, outer);
        if rel.Some? { SeesUpdate(p, stored'.value, inner'.value, cte.name, rel.value); }
      }
    }
  }

  // A query, whatever row it is correlated with, has the same result after scoping.
  lemma {:induction false} QueryPreserved(I: Interp, p: string, names: set<Name>, q: Query, stored: Tables, inner: Tables, outer: Env)
    requires AllSupported(p, names, InQuery(q, false)) && Sees(p, stored, inner) && Named(p, names, outer.cols)
    ensures EvalQuery(I, ScopeQuery(p, names, q), stored, TagEnv(p, outer)) == EvalQuery(I, q, inner, outer)
    decreases q
  {
    CtesPreserved(I, p, names, q, |q.ctes|, stored, inner, outer);
    var stored', inner' := WithCtes(I, ScopeQuery(p, names, q), |q.ctes|, stored, TagEnv(p, outer)), WithCtes(I, q, |q.ctes|, inner, outer);
    if inner'.Some? {
      SetExprPreserved(I, p, names, q.body, stored'.value, inner'.value, outer);
    }
  }
}
