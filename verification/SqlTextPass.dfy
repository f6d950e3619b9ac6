/**
The second pass over the printed text, and when it is the renaming of the qualifiers.
*/
module SqlTextPass {
  import opened Wrappers
  import opened Strings
  import opened SqlAst
  import opened SqlScope
  import opened SqlText

  // ---------- Statements ----------

  lemma PrintRenamedAssignments(show: Show, p: string, names: set<Name>, assignments: seq<Assignment>, assignments': seq<Assignment>)
    requires |assignments'| == |assignments|
    requires forall i | 0 <= i < |assignments| ::
      assignments'[i] == Assignment(assignments[i].column, RenameExpr(p, names, assignments[i].value))
    ensures PrintAssignments(show, assignments') == RenameLexemes(p, names, PrintAssignments(show, assignments))
  {
    forall i | 0 <= i < |assignments|
      ensures PrintAssignment(show, assignments'[i]) == RenameLexemes(p, names, PrintAssignment(show, assignments[i]))
    {
      PrintRenamedExpr(show, p, names, assignments[i].value);
      RenameConcat(p, names, Words([assignments[i].column, "="]), PrintExpr(show, assignments[i].value));
    }
    RenameCommas(p, names,
      seq(|assignments|, i requires 0 <= i < |assignments| => PrintAssignment(show, assignments[i])),
      seq(|assignments'|, i requires 0 <= i < |assignments'| => PrintAssignment(show, assignments'[i])));
  }

  // Lexemes that hold no qualified column.
  predicate Plain(ls: seq<Lexeme>) {
    forall i | 0 <= i < |ls| :: ls[i].qualifier.None?
  }

  lemma RenamePlain(p: string, names: set<Name>, ls: seq<Lexeme>)
    requires Plain(ls)
    ensures RenameLexemes(p, names, ls) == ls
  {}

  lemma {:induction false} FlattenPlain(parts: seq<seq<Lexeme>>)
    requires forall i | 0 <= i < |parts| :: Plain(parts[i])
    ensures Plain(Flatten(parts))
  {
    if parts != [] { FlattenPlain(parts[..|parts| - 1]); }
  }

  lemma CommasPlain(parts: seq<seq<Lexeme>>)
    requires forall i | 0 <= i < |parts| :: Plain(parts[i])
    ensures Plain(Commas(parts))
  {
    FlattenPlain(seq(|parts|, i requires 0 <= i < |parts| =>
      if i + 1 < |parts| then Suffixed(parts[i], ",") else parts[i]));
  }

  lemma PlainConcat(a: seq<Lexeme>, b: seq<Lexeme>)
    requires Plain(a) && Plain(b)
    ensures Plain(a + b)
  {}

  lemma ForeignKeyPlain(fk: ForeignKey)
    ensures Plain(PrintForeignKey(fk))
  {}

  lemma ColumnPlain(c: ColumnDef)
    ensures Plain(PrintColumn(c))
  {
    if c.references.Some? { ForeignKeyPlain(c.references.value); }
  }

  lemma DefinitionsPlain(defs: seq<ColumnDef>, constraints: seq<ForeignKey>)
    ensures Plain(PrintDefinitions(defs, constraints))
  {
    var columns := seq(|defs|, i requires 0 <= i < |defs| => PrintColumn(defs[i]));
    var keys := seq(|constraints|, i requires 0 <= i < |constraints| => Words(["FOREIGN", "KEY"]) + PrintForeignKey(constraints[i]));
    forall i | 0 <= i < |defs| ensures Plain(columns[i]) {
      ColumnPlain(defs[i]);
    }
    forall i | 0 <= i < |constraints| ensures Plain(keys[i]) {
      ForeignKeyPlain(constraints[i]);
      PlainConcat(Words(["FOREIGN", "KEY"]), PrintForeignKey(constraints[i]));
    }
    CommasPlain(columns + keys);
  }

  lemma NameListPlain(names: seq<Name>)
    ensures Plain(NameList(names))
  {
    CommasPlain(seq(|names|, i requires 0 <= i < |names| => Word(names[i])));
  }

  lemma PrintRenamedInsert(show: Show, p: string, names: set<Name>, s: Statement)
    requires s.Insert?
    ensures PrintStatement(show, RenameStatement(p, names, s)) == RenameLexemes(p, names, PrintStatement(show, s))
  {
    PrintRenamedQuery(show, p, names, s.source);
    NameListPlain(s.columns);
    var head := Words(["INSERT", "INTO", s.table]) + (if s.columns == [] then [] else Wrap("(", NameList(s.columns)));
    RenamePlain(p, names, head);
    RenameConcat(p, names, head, PrintQuery(show, s.source));
  }

  lemma UpdateRenamed(show: Show, p: string, names: set<Name>, s: Statement, s': Statement)
    requires s.Update? && s'.Update?
    requires PrintFactor(show, s'.target) == RenameLexemes(p, names, PrintFactor(show, s.target))
    requires PrintAssignments(show, s'.assignments) == RenameLexemes(p, names, PrintAssignments(show, s.assignments))
    requires PrintClause(show, "WHERE", s'.selection) == RenameLexemes(p, names, PrintClause(show, "WHERE", s.selection))
    ensures PrintStatement(show, s') == RenameLexemes(p, names, PrintStatement(show, s))
  {
    var target := PrintFactor(show, s.target);
    RenameConcat(p, names, Word("UPDATE"), target);
    RenameConcat4(p, names, Word("UPDATE") + target, Word("SET"), PrintAssignments(show, s.assignments), PrintClause(show, "WHERE", s.selection));
    RenamePlain(p, names, Word("UPDATE"));
    RenamePlain(p, names, Word("SET"));
  }

  lemma PrintRenamedUpdate(show: Show, p: string, names: set<Name>, s: Statement)
    requires s.Update?
    ensures PrintStatement(show, RenameStatement(p, names, s)) == RenameLexemes(p, names, PrintStatement(show, s))
  {
    var s' := RenameStatement(p, names, s);
    PrintRenamedFactor(show, p, names, s.target);
    PrintRenamedAssignments(show, p, names, s.assignments, s'.assignments);
    PrintRenamedClause(show, p, names, "WHERE", s.selection);
    UpdateRenamed(show, p, names, s, s');
  }

  lemma HeadPlain(name: Name, defs: seq<ColumnDef>, constraints: seq<ForeignKey>)
    ensures Plain(PrintTableHead(name, defs, constraints))
  {
    DefinitionsPlain(defs, constraints);
  }

  lemma PrintRenamedAs(show: Show, p: string, names: set<Name>, q: Query)
    ensures PrintAs(show, Some(RenameQuery(p, names, q))) == RenameLexemes(p, names, PrintAs(show, Some(q)))
  {
    PrintRenamedQuery(show, p, names, q);
    RenameConcat(p, names, Word("AS"), PrintQuery(show, q));
    RenamePlain(p, names, Word("AS"));
  }

  lemma PrintRenamedCreate(show: Show, p: string, names: set<Name>, s: Statement)
    requires s.CreateTable?
    ensures PrintStatement(show, RenameStatement(p, names, s)) == RenameLexemes(p, names, PrintStatement(show, s))
  {
    var head := PrintTableHead(s.name, s.defs, s.constraints);
    HeadPlain(s.name, s.defs, s.constraints);
    RenamePlain(p, names, head);
    RenameConcat(p, names, head, PrintAs(show, s.asQuery));
    if s.asQuery.Some? { PrintRenamedAs(show, p, names, s.asQuery.value); }
  }

  // Printing a statement whose qualifiers are renamed is renaming the printed lexemes.
  lemma PrintRenamedStatement(show: Show, p: string, names: set<Name>, s: Statement)
    ensures PrintStatement(show, RenameStatement(p, names, s)) == RenameLexemes(p, names, PrintStatement(show, s))
  {
    match s
    case QueryStatement(query) => PrintRenamedQuery(show, p, names, query);
    case Insert(_, _, _) => PrintRenamedInsert(show, p, names, s);
    case Update(_, _, _) => PrintRenamedUpdate(show, p, names, s);
    case Delete(from, selection) =>
      PrintRenamedFactor(show, p, names, from);
      PrintRenamedClause(show, p, names, "WHERE", selection);
      RenameConcat4(p, names, Words(["DELETE", "FROM"]), PrintFactor(show, from), PrintClause(show, "WHERE", selection), []);
    case CreateTable(_, _, _, _) => PrintRenamedCreate(show, p, names, s);
    case Drop(drops) =>
      NameListPlain(drops);
      RenamePlain(p, names, PrintStatement(show, s));
    case AlterTable(_, operation) =>
      if operation.AddColumn? { ColumnPlain(operation.column); }
      RenamePlain(p, names, PrintStatement(show, s));
    case CreateIndex(_, _) => RenamePlain(p, names, PrintStatement(show, s));
    case Transaction(_) => RenamePlain(p, names, PrintStatement(show, s));
    case Unsupported(_) => RenamePlain(p, names, PrintStatement(show, s));
  }

  // ---------- The pass ----------

  predicate AllPrefixed(p: string, names: set<Name>) {
    forall n | n in names :: p <= n
  }

  // The collected name without its prefix, as a qualifier: "table.".
  function Reference(p: string, n: Name): (r: string)
    requires p <= n
    ensures r != ""
  {
    n[|p|..] + "."
  }

  // What the loop over the collected names may make of one item of the text, whatever
  // order the names come in: the first that the item starts with is replaced.
  ghost predicate Rewrites(p: string, names: set<Name>, item: string, r: string)
    requires AllPrefixed(p, names)
  {
    || (r == item && forall n | n in names :: !(Reference(p, n) <= item))
    || (exists n | n in names && Reference(p, n) <= item :: r == Replace(item, Reference(p, n), n + "."))
  }

  ghost predicate RewritesText(p: string, names: set<Name>, text: string, r: string)
    requires AllPrefixed(p, names)
  {
    exists items: seq<string> ::
      && |items| == |SplitWhitespace(text)|
      && r == Strings.Join(items, " ")
      && forall i | 0 <= i < |items| :: Rewrites(p, names, SplitWhitespace(text)[i], items[i])
  }

  // ---------- One item ----------

  // The names of tables, aliases and common table expressions: no dot, no parenthesis.
  predicate PlainName(n: Name) {
    '.' !in n && '(' !in n
  }

  predicate PlainNames(p: string, names: set<Name>) {
    AllPrefixed(p, names) && forall n | n in names :: PlainName(n[|p|..])
  }

  lemma DotAfter(t: string, text: string)
    requires '.' !in t && t + "." <= text
    ensures IndexOf(text, '.') == |t| < |text| && text[..|t|] == t
  {
    var head := t + ".";
    assert head == text[..|head|];
    assert text[|t|] == head[|t|] && text[..|t|] == head[..|t|] == t;
    IndexOfUnique(text, '.', |t|);
  }

  lemma UpToDot(text: string, i: nat)
    requires i < |text| && text[i] == '.'
    ensures text[..i] + "." <= text
  {
    assert text[..i + 1] == text[..i] + ".";
  }

  lemma ReferenceAtDot(p: string, n: Name, text: string)
    requires p <= n && PlainName(n[|p|..])
    ensures Reference(p, n) <= text <==>
      IndexOf(text, '.') < |text| && text[..IndexOf(text, '.')] == n[|p|..]
  {
    if Reference(p, n) <= text {
      DotAfter(n[|p|..], text);
    } else if IndexOf(text, '.') < |text| {
      UpToDot(text, IndexOf(text, '.'));
    }
  }

  // No collected name refers to whatever another one refers to.
  ghost predicate Incomparable(p: string, names: set<Name>)
    requires AllPrefixed(p, names)
  {
    forall m, n | m in names && n in names && Reference(p, m) <= Reference(p, n) :: m == n
  }

  lemma PlainIsIncomparable(p: string, names: set<Name>)
    requires PlainNames(p, names)
    ensures Incomparable(p, names)
  {
    forall m, n | m in names && n in names && Reference(p, m) <= Reference(p, n)
      ensures m == n
    {
      ReferenceAtDot(p, m, Reference(p, n));
      ReferenceAtDot(p, n, Reference(p, n));
      assert m == p + m[|p|..] && n == p + n[|p|..];
    }
  }

  // Then, whatever the order of the names, an item has one outcome.
  lemma RewritesUnique(p: string, names: set<Name>, item: string, r: string, r': string)
    requires AllPrefixed(p, names) && Incomparable(p, names)
    requires Rewrites(p, names, item, r) && Rewrites(p, names, item, r')
    ensures r == r'
  {
    forall m, n | m in names && n in names && Reference(p, m) <= item && Reference(p, n) <= item
      ensures m == n
    {
      PrefixesComparable(Reference(p, m), Reference(p, n), item);
    }
  }

  // The item on which two comparable names part: the longer reference, then the shorter.
  function Parting(p: string, m: Name, n: Name): string
    requires p <= m && p <= n
  {
    Reference(p, n) + Reference(p, m)
  }

  lemma ComparableNamesPart(p: string, m: Name, n: Name)
    requires p != "" && p <= m && p <= n && m != n && Reference(p, m) <= Reference(p, n)
    ensures Reference(p, m) <= Parting(p, m, n) && Reference(p, n) <= Parting(p, m, n)
    ensures Replace(Parting(p, m, n), Reference(p, m), m + ".") != Replace(Parting(p, m, n), Reference(p, n), n + ".")
  {
    var a, b, item := Reference(p, m), Reference(p, n), Parting(p, m, n);
    assert m + "." == p + a && n + "." == p + b;
    assert m == p + a[..|a| - 1] && n == p + b[..|b| - 1];
    assert |a| < |b|;
    assert item[|b|..] == a;
    ReplaceInShorter(a, b, n + ".");
    var rest := item[|a|..];
    assert rest[|b| - |a|..] == a;
    ReplaceLengthens(rest, a, m + ".", |b| - |a|);
    assert Replace(item, a, m + ".") == m + "." + Replace(rest, a, m + ".");
  }

  // Only names without white space can match an item.
  function Matching(names: set<Name>): set<Name> {
    set n | n in names && NoSpace(n)
  }

  lemma MatchingSuffices(p: string, names: set<Name>, item: string, r: string)
    requires AllPrefixed(p, names) && NoSpace(p) && NoSpace(item)
    ensures Rewrites(p, names, item, r) <==> Rewrites(p, Matching(names), item, r)
  {
    forall n | n in names && Reference(p, n) <= item ensures n in Matching(names) {
      assert item == Reference(p, n) + item[|Reference(p, n)|..];
      NoSpaceConcat(Reference(p, n), item[|Reference(p, n)|..]);
      NoSpaceConcat(n[|p|..], ".");
      NoSpaceConcat(p, n[|p|..]);
      assert n == p + n[|p|..];
    }
  }

  // ORDER INDEPENDENCE.  The order in which the set of names is iterated does not matter...
  lemma TextPassOrderIndependent(p: string, names: set<Name>, text: string, r: string, r': string)
    requires AllPrefixed(p, names) && NoSpace(p) && Incomparable(p, Matching(names))
    requires RewritesText(p, names, text, r) && RewritesText(p, names, text, r')
    ensures r == r'
  {
    var ts := SplitWhitespace(text);
    var items :| |items| == |ts| && r == Strings.Join(items, " ")
      && forall i | 0 <= i < |items| :: Rewrites(p, names, ts[i], items[i]);
    var items' :| |items'| == |ts| && r' == Strings.Join(items', " ")
      && forall i | 0 <= i < |items'| :: Rewrites(p, names, ts[i], items'[i]);
    SplitGivesWords(text);
    forall i | 0 <= i < |ts| ensures items[i] == items'[i] {
      MatchingSuffices(p, names, ts[i], items[i]);
      MatchingSuffices(p, names, ts[i], items'[i]);
      RewritesUnique(p, Matching(names), ts[i], items[i], items'[i]);
    }
    assert items == items';
  }

  lemma RewritesWordText(p: string, names: set<Name>, word: string, r: string)
    requires AllPrefixed(p, names) && IsWord(word) && Rewrites(p, names, word, r)
    ensures RewritesText(p, names, word, r)
  {
    SplitJoinWords([word]);
    assert SplitWhitespace(word) == [word];
    assert r == Strings.Join([r], " ");
    assert Rewrites(p, names, SplitWhitespace(word)[0], [r][0]);
  }

  // ... if and only if no name is a table of a schema that is collected as a name as well.
  lemma OrderIndependentIff(p: string, names: set<Name>)
    requires p != "" && NoSpace(p) && AllPrefixed(p, names)
    ensures
      (forall text, r, r' | RewritesText(p, names, text, r) && RewritesText(p, names, text, r') :: r == r')
      <==> Incomparable(p, Matching(names))
  {
    if Incomparable(p, Matching(names)) {
      forall text, r, r' | RewritesText(p, names, text, r) && RewritesText(p, names, text, r') ensures r == r' {
        TextPassOrderIndependent(p, names, text, r, r');
      }
    } else {
      var m, n :| m in Matching(names) && n in Matching(names) && Reference(p, m) <= Reference(p, n) && m != n;
      OrderMatters(p, names, m, n);
    }
  }

  lemma OrderMatters(p: string, names: set<Name>, m: Name, n: Name)
    requires p != "" && AllPrefixed(p, names) && m in Matching(names) && n in Matching(names)
    requires m != n && Reference(p, m) <= Reference(p, n)
    ensures exists text, r, r' :: RewritesText(p, names, text, r) && RewritesText(p, names, text, r') && r != r'
  {
    var item := Parting(p, m, n);
    ComparableNamesPart(p, m, n);
    assert m == p + m[|p|..] && n == p + n[|p|..];
    NoSpaceConcat(p, m[|p|..]);
    NoSpaceConcat(p, n[|p|..]);
    NoSpaceConcat(m[|p|..], ".");
    NoSpaceConcat(n[|p|..], ".");
    NoSpaceConcat(Reference(p, n), Reference(p, m));
    RewritesWordText(p, names, item, Replace(item, Reference(p, m), m + "."));
    RewritesWordText(p, names, item, Replace(item, Reference(p, n), n + "."));
  }

  // ---------- The fragment ----------

  // A lexeme the pass can deal with: solid text; if it holds a qualified column, it is one
  // word, the only dot is the column's, and what comes before it, if anything, opens a
  // parenthesis.
  predicate WellFormed(l: Lexeme) {
    && Solid(LexemeText(l))
    && (l.qualifier.Some? ==>
          && NoSpace(LexemeText(l)) && PlainName(l.qualifier.value)
          && '.' !in l.after && '.' !in l.before && (l.before == "" || '(' in l.before))
  }

  // A collected qualifier that has something stuck in front of it.
  predicate Glued(p: string, names: set<Name>, l: Lexeme) {
    l.qualifier.Some? && Scoped(p, l.qualifier.value) in names && l.before != ""
  }

  predicate Referred(p: string, names: set<Name>, word: string)
    requires AllPrefixed(p, names)
  {
    exists n | n in names :: Reference(p, n) <= word
  }

  // What the pass treats as it should: a qualified column that is not glued; and any other
  // text, a literal with blanks in it say, whose white space is single blanks and none of
  // whose words looks like a reference to a collected name.
  predicate Survives(p: string, names: set<Name>, l: Lexeme)
    requires AllPrefixed(p, names)
  {
    if l.qualifier.Some? then !Glued(p, names, l)
    else
      var text := LexemeText(l);
      SingleSpaced(text) && forall i | 0 <= i < |SplitWhitespace(text)| :: !Referred(p, names, SplitWhitespace(text)[i])
  }

  lemma QualifiedText(l: Lexeme)
    requires l.qualifier.Some? && '.' !in l.before && '.' !in l.qualifier.value
    ensures IndexOf(LexemeText(l), '.') == |l.before + l.qualifier.value| < |LexemeText(l)|
    ensures LexemeText(l)[..IndexOf(LexemeText(l), '.')] == l.before + l.qualifier.value
  {
    var head := l.before + l.qualifier.value;
    assert LexemeText(l) == head + "." + l.after;
    assert LexemeText(l)[..|head|] == head;
    IndexOfUnique(LexemeText(l), '.', |head|);
  }

  lemma ReferencesOf(p: string, names: set<Name>, l: Lexeme, n: Name)
    requires PlainNames(p, names) && WellFormed(l) && l.qualifier.Some? && n in names
    ensures Reference(p, n) <= LexemeText(l) <==> l.before == "" && n == Scoped(p, l.qualifier.value)
  {
    QualifiedText(l);
    ReferenceAtDot(p, n, LexemeText(l));
    assert n == p + n[|p|..];
    assert l.before != "" ==> '(' in l.before + l.qualifier.value;
  }

  lemma ReplacedOnce(q: Name, after: string, to: string)
    requires '.' !in after
    ensures Replace(q + "." + after, q + ".", to) == to + after
  {
    var s := q + "." + after;
    assert s[|q + "."|..] == after;
    assert '.' in q + "." by { assert (q + ".")[|q|] == '.'; }
    ReplaceAbsent(after, q + ".", to, '.');
  }

  // The item of a qualified column is rewritten to the renamed lexeme, unless the qualifier
  // is glued: then it is left as it is.
  lemma LexemeRewritten(p: string, names: set<Name>, l: Lexeme, r: string)
    requires PlainNames(p, names) && WellFormed(l) && l.qualifier.Some?
    ensures Rewrites(p, names, LexemeText(l), r) <==>
      r == if Glued(p, names, l) then LexemeText(l) else LexemeText(RenameLexeme(p, names, l))
  {
    forall n | n in names
      ensures Reference(p, n) <= LexemeText(l) <==> l.before == "" && n == Scoped(p, l.qualifier.value)
    {
      ReferencesOf(p, names, l, n);
    }
    if l.before == "" && Scoped(p, l.qualifier.value) in names {
      var n := Scoped(p, l.qualifier.value);
      RewritesOnly(p, names, LexemeText(l), n, r);
      LexemeReplaced(p, l);
      assert RenameLexeme(p, names, l) == l.(qualifier := Some(n));
    }
  }

  // An item that exactly one collected name refers to is rewritten with that name.
  lemma RewritesOnly(p: string, names: set<Name>, item: string, n: Name, r: string)
    requires PlainNames(p, names) && n in names && Reference(p, n) <= item
    requires forall m | m in names :: Reference(p, m) <= item ==> m == n
    ensures Rewrites(p, names, item, r) <==> r == Replace(item, Reference(p, n), n + ".")
  {}

  lemma LexemeReplaced(p: string, l: Lexeme)
    requires l.qualifier.Some? && l.before == "" && '.' !in l.after
    ensures
      var n := Scoped(p, l.qualifier.value);
      Replace(LexemeText(l), Reference(p, n), n + ".") == LexemeText(l.(qualifier := Some(n)))
  {
    var q, n := l.qualifier.value, Scoped(p, l.qualifier.value);
    assert n[|p|..] == q;
    assert LexemeText(l) == q + "." + l.after;
    assert LexemeText(l.(qualifier := Some(n))) == n + "." + l.after;
    ReplacedOnce(q, l.after, n + ".");
  }

  // ---------- One word ----------

  // The one outcome of a word.
  ghost function Passed(p: string, names: set<Name>, word: string): string
    requires AllPrefixed(p, names)
  {
    if Referred(p, names, word) then
      var n :| n in names && Reference(p, n) <= word;
      Replace(word, Reference(p, n), n + ".")
    else word
  }

  lemma PassedIsOutcome(p: string, names: set<Name>, word: string, r: string)
    requires PlainNames(p, names)
    ensures Rewrites(p, names, word, r) <==> r == Passed(p, names, word)
  {
    assert Rewrites(p, names, word, Passed(p, names, word));
    PlainIsIncomparable(p, names);
    if Rewrites(p, names, word, r) { RewritesUnique(p, names, word, r, Passed(p, names, word)); }
  }

  lemma PassedWord(p: string, names: set<Name>, word: string)
    requires p != "" && NoSpace(p) && AllPrefixed(p, names) && IsWord(word)
    ensures IsWord(Passed(p, names, word))
    ensures Passed(p, names, word) == word <==> !Referred(p, names, word)
  {
    if Referred(p, names, word) {
      var n :| n in names && Reference(p, n) <= word && Passed(p, names, word) == Replace(word, Reference(p, n), n + ".");
      var r := Reference(p, n);
      assert word == r + word[|r|..];
      NoSpaceConcat(r, word[|r|..]);
      assert n + "." == p + r;
      NoSpaceConcat(p, r);
      ReplaceNoSpace(word, r, n + ".");
      ReplaceLengthens(word, r, n + ".", 0);
    }
  }

  // ---------- One lexeme ----------

  ghost function PassedWords(p: string, names: set<Name>, words: seq<string>): seq<string>
    requires AllPrefixed(p, names)
  {
    seq(|words|, i requires 0 <= i < |words| => Passed(p, names, words[i]))
  }

  // What comes out for the words of a lexeme.
  ghost function PassedLexeme(p: string, names: set<Name>, l: Lexeme): seq<string>
    requires AllPrefixed(p, names)
  {
    PassedWords(p, names, SplitWhitespace(LexemeText(l)))
  }

  lemma WordSplitsToItself(word: string)
    requires IsWord(word)
    ensures SplitWhitespace(word) == [word]
  {
    SplitJoinWords([word]);
  }

  lemma RenamedIsWord(p: string, names: set<Name>, l: Lexeme)
    requires WellFormed(l) && l.qualifier.Some? && NoSpace(p)
    ensures IsWord(LexemeText(RenameLexeme(p, names, l)))
  {
    if Scoped(p, l.qualifier.value) in names {
      var tail := l.qualifier.value + "." + l.after;
      assert LexemeText(l) == l.before + tail;
      assert LexemeText(RenameLexeme(p, names, l)) == l.before + (p + tail);
      NoSpaceConcat(l.before, tail);
      NoSpaceConcat(p, tail);
      NoSpaceConcat(l.before, p + tail);
    }
  }

  // As many words come out as the renamed lexeme has.
  lemma OutcomeSize(p: string, names: set<Name>, l: Lexeme)
    requires p != "" && NoSpace(p) && PlainNames(p, names) && WellFormed(l)
    ensures |PassedLexeme(p, names, l)| == |SplitWhitespace(LexemeText(RenameLexeme(p, names, l)))|
    ensures PassedLexeme(p, names, l) != [] && AllWords(PassedLexeme(p, names, l))
  {
    var words := SplitWhitespace(LexemeText(l));
    SplitGivesWords(LexemeText(l));
    forall i | 0 <= i < |words| ensures IsWord(Passed(p, names, words[i])) {
      PassedWord(p, names, words[i]);
    }
    if l.qualifier.Some? {
      RenamedIsWord(p, names, l);
      WordSplitsToItself(LexemeText(l));
      WordSplitsToItself(LexemeText(RenameLexeme(p, names, l)));
    }
  }

  // The words that come out, joined, are the renamed lexeme exactly if it survives.
  lemma OutcomeIff(p: string, names: set<Name>, l: Lexeme)
    requires p != "" && NoSpace(p) && PlainNames(p, names) && WellFormed(l)
    ensures Strings.Join(PassedLexeme(p, names, l), " ") == LexemeText(RenameLexeme(p, names, l)) <==> Survives(p, names, l)
  {
    var text := LexemeText(l);
    if l.qualifier.Some? {
      WordSplitsToItself(text);
      LexemeRewritten(p, names, l, Passed(p, names, text));
      PassedIsOutcome(p, names, text, Passed(p, names, text));
      assert PassedLexeme(p, names, l) == [Passed(p, names, text)];
      if Glued(p, names, l) {
        assert |LexemeText(RenameLexeme(p, names, l))| == |text| + |p|;
      }
    } else {
      PlainOutcomeIff(p, names, text);
    }
  }

  lemma PlainOutcomeIff(p: string, names: set<Name>, text: string)
    requires p != "" && NoSpace(p) && AllPrefixed(p, names) && Solid(text)
    ensures Strings.Join(PassedWords(p, names, SplitWhitespace(text)), " ") == text <==>
      SingleSpaced(text) && forall i | 0 <= i < |SplitWhitespace(text)| :: !Referred(p, names, SplitWhitespace(text)[i])
  {
    var words := SplitWhitespace(text);
    var passed := PassedWords(p, names, words);
    SplitGivesWords(text);
    RejoinedIff(text);
    forall i | 0 <= i < |words|
      ensures IsWord(passed[i]) && (passed[i] == words[i] <==> !Referred(p, names, words[i]))
    {
      PassedWord(p, names, words[i]);
    }
    if Strings.Join(passed, " ") == text {
      SplitJoinWords(passed);
      assert passed == words;
    }
    if forall i | 0 <= i < |words| :: !Referred(p, names, words[i]) {
      assert passed == words;
    }
  }

  // ---------- The whole text ----------

  predicate WellFormedAll(ls: seq<Lexeme>) {
    forall i | 0 <= i < |ls| :: WellFormed(ls[i])
  }

  ghost function PassedLexemes(p: string, names: set<Name>, ls: seq<Lexeme>): seq<seq<string>>
    requires AllPrefixed(p, names)
  {
    seq(|ls|, i requires 0 <= i < |ls| => PassedLexeme(p, names, ls[i]))
  }

  lemma {:induction false} PassedChain(p: string, names: set<Name>, parts: seq<seq<string>>)
    requires AllPrefixed(p, names)
    ensures PassedWords(p, names, Chain(parts)) == Chain(seq(|parts|, i requires 0 <= i < |parts| => PassedWords(p, names, parts[i])))
  {
    var passed := seq(|parts|, i requires 0 <= i < |parts| => PassedWords(p, names, parts[i]));
    if parts != [] {
      PassedChain(p, names, parts[1..]);
      assert passed[1..] == seq(|parts[1..]|, i requires 0 <= i < |parts[1..]| => PassedWords(p, names, parts[1..][i]));
    }
  }

  // The one text that the pass makes of the printed lexemes.
  lemma TextOutcome(p: string, names: set<Name>, ls: seq<Lexeme>, r: string)
    requires PlainNames(p, names)
    ensures RewritesText(p, names, Render(ls), r) <==> r == Strings.Join(Chain(PassedLexemes(p, names, ls)), " ")
  {
    var words := SplitWhitespace(Render(ls));
    SplitOfJoin(Texts(ls));
    PassedChain(p, names, WordsOf(Texts(ls)));
    assert PassedLexemes(p, names, ls)
        == seq(|ls|, i requires 0 <= i < |ls| => PassedWords(p, names, WordsOf(Texts(ls))[i]));
    var passed := PassedWords(p, names, words);
    assert passed == Chain(PassedLexemes(p, names, ls));
    forall i, x | 0 <= i < |words| ensures Rewrites(p, names, words[i], x) <==> x == passed[i] {
      PassedIsOutcome(p, names, words[i], x);
    }
    if RewritesText(p, names, Render(ls), r) {
      var items :| |items| == |words| && r == Strings.Join(items, " ")
        && forall i | 0 <= i < |items| :: Rewrites(p, names, words[i], items[i]);
      assert items == passed;
    }
  }

  // Parts made of words, each as many as its counterpart has, are told apart in the whole.
  lemma JoinedApart(outcomes: seq<seq<string>>, joined: seq<string>, renamed: seq<string>)
    requires |outcomes| == |joined| == |renamed|
    requires forall i | 0 <= i < |outcomes| :: AllWords(outcomes[i]) && joined[i] == Strings.Join(outcomes[i], " ")
    requires forall i | 0 <= i < |outcomes| :: |outcomes[i]| == |SplitWhitespace(renamed[i])|
    requires Strings.Join(joined, " ") == Strings.Join(renamed, " ")
    ensures joined == renamed
  {
    SplitOfJoin(renamed);
    SplitOfJoin(joined);
    forall i | 0 <= i < |joined| ensures WordsOf(joined)[i] == outcomes[i] {
      SplitJoinWords(outcomes[i]);
    }
    assert WordsOf(joined) == outcomes;
    ChainInjective(outcomes, WordsOf(renamed));
    forall i | 0 <= i < |joined| ensures |joined[i]| <= |renamed[i]| {
      assert outcomes[i] == WordsOf(renamed)[i];
      RejoinedIsShorter(renamed[i]);
    }
    JoinInjective(joined, renamed);
  }

  // The whole is the renamed text exactly if each lexeme comes out renamed.
  lemma OutcomesJoin(p: string, names: set<Name>, ls: seq<Lexeme>)
    requires p != "" && NoSpace(p) && PlainNames(p, names) && WellFormedAll(ls)
    ensures Strings.Join(Chain(PassedLexemes(p, names, ls)), " ") == Render(RenameLexemes(p, names, ls))
      <==> forall i | 0 <= i < |ls| :: Strings.Join(PassedLexeme(p, names, ls[i]), " ") == LexemeText(RenameLexeme(p, names, ls[i]))
  {
    var outcomes, renamed := PassedLexemes(p, names, ls), Texts(RenameLexemes(p, names, ls));
    var joined := seq(|ls|, i requires 0 <= i < |ls| => Strings.Join(PassedLexeme(p, names, ls[i]), " "));
    forall i | 0 <= i < |ls| ensures outcomes[i] != [] && AllWords(outcomes[i]) && |outcomes[i]| == |SplitWhitespace(renamed[i])| {
      OutcomeSize(p, names, ls[i]);
    }
    JoinChain(outcomes, joined);
    assert forall i | 0 <= i < |ls| ::
      renamed[i] == LexemeText(RenameLexeme(p, names, ls[i])) && joined[i] == Strings.Join(PassedLexeme(p, names, ls[i]), " ");
    if Strings.Join(joined, " ") == Strings.Join(renamed, " ") {
      JoinedApart(outcomes, joined, renamed);
      assert forall i | 0 <= i < |ls| :: joined[i] == renamed[i];
    }
    if forall i | 0 <= i < |ls| :: joined[i] == renamed[i] {
      assert joined == renamed;
    }
  }

  // THE TEXT PASS.  Rewriting the items of the printed text is printing with the collected
  // qualifiers renamed exactly when every lexeme survives: no collected qualifier has
  // something stuck in front of it, and no literal has other white space than single blanks
  // or a word in it that looks like a reference.
  lemma TextPassIsRenaming(p: string, names: set<Name>, ls: seq<Lexeme>)
    requires p != "" && NoSpace(p)
    requires PlainNames(p, names) && WellFormedAll(ls)
    ensures RewritesText(p, names, Render(ls), Render(RenameLexemes(p, names, ls)))
      <==> forall i | 0 <= i < |ls| :: Survives(p, names, ls[i])
  {
    TextOutcome(p, names, ls, Render(RenameLexemes(p, names, ls)));
    OutcomesJoin(p, names, ls);
    forall i | 0 <= i < |ls|
      ensures Strings.Join(PassedLexeme(p, names, ls[i]), " ") == LexemeText(RenameLexeme(p, names, ls[i])) <==> Survives(p, names, ls[i])
    {
      OutcomeIff(p, names, ls[i]);
    }
  }

  // The same for a printed statement: the pass renames the qualifiers of its syntax tree.
  lemma TextPassRenamesStatement(show: Show, p: string, names: set<Name>, prefixed: Statement)
    requires p != "" && NoSpace(p)
    requires PlainNames(p, names) && WellFormedAll(PrintStatement(show, prefixed))
    ensures RewritesText(p, names, Render(PrintStatement(show, prefixed)), Render(PrintStatement(show, RenameStatement(p, names, prefixed))))
      <==> forall i | 0 <= i < |PrintStatement(show, prefixed)| :: Survives(p, names, PrintStatement(show, prefixed)[i])
  {
    PrintRenamedStatement(show, p, names, prefixed);
    TextPassIsRenaming(p, names, PrintStatement(show, prefixed));
  }
}
