/** Histories: reenacting each statement, and merging the reenacted statements, agrees with executing them. */
module History {
  import opened Sql
  import opened Updates
  import opened Reenactment

  // ----- One statement -----

  /** The condition of the statement is true or false on every row it is applied to; only asked where the
      translation splits the rows by the condition and its negation. */
  ghost predicate ConditionDecided(st: Statement, db: Database, useCase: bool) {
    match st
    case Update(table, _, Where(cond)) => useCase || Decided(cond, TableAt(db, table).rows)
    case Delete(table, cond) => Decided(cond, TableAt(db, table).rows)
    case _ => true
  }

  /** A database and a statement on which the analyzer succeeds. */
  ghost predicate Ready(st: Statement, db: Database) {
    WellFormed(db) && Legal(st, SchemasOf(db)) && Analyze(SchemasOf(db), st).Analyzed?
  }

  function Query_(st: Statement, visible: Schemas, useCase: bool): Query
    requires Analyze(visible, st).Analyzed?
  {
    var a := Analyze(visible, st);
    Translated(st, a.before, a.after, useCase)
  }

  lemma WidenedRows(n: nat, rows: seq<Row>)
    requires Arity(rows, n)
    ensures FlatMap(Image(AllAttrs(n) + [Const(Null)]), rows) == FlatMap(Widen(), rows)
  {
    var exprs := AllAttrs(n) + [Const(Null)];
    forall r | r in rows ensures Image(exprs)(r) == Widen()(r) {
      assert EvalAll(exprs, r) == r + [Null];
    }
    FlatMapSame(Image(exprs), Widen(), rows);
  }

  lemma NarrowedRows(attrs: seq<string>, column: string, rows: seq<Row>)
    requires Arity(rows, |attrs|) && NoDuplicates(attrs)
    ensures FlatMap(Image(Refs(attrs, Kept(attrs, column, attrs))), rows) == FlatMap(Narrow(attrs, column), rows)
  {
    var f := Image(Refs(attrs, Kept(attrs, column, attrs)));
    KeptNames(attrs, column);
    forall r | r in rows ensures f(r) == Narrow(attrs, column)(r) {
      RemovedRow(attrs, column, r);
    }
    FlatMapSame(f, Narrow(attrs, column), rows);
  }

  /** The rows of each translation, in terms of the rows of the table. */
  function Reenacted(st: Statement, before: seq<string>, after: seq<string>, useCase: bool, c: Contents): seq<Row> {
    var rows := RowsOf(c, st.table);
    match st
    case InsertValues(_, values) => rows + [values]
    case InsertQuery(_, query) => rows + Rows(query, c)
    case Update(_, sets, cond) =>
      if useCase || cond.NoCondition? then FlatMap(Image(ProjExprs(sets, cond, |before|)), rows)
      else UnionForm(sets, cond.cond, |before|, rows)
    case Delete(_, cond) => FlatMap(Keep(Negation(cond)), rows)
    case AddColumn(_, _) => FlatMap(Image(AllAttrs(|before|) + [Const(Null)]), rows)
    case RemoveColumn(_, _) => FlatMap(Image(Refs(before, after)), rows)
    case CreateTable(_, _) => []
    case CreateTableAs(_, query) => Rows(query, c)
  }

  lemma TranslatedRows(st: Statement, before: seq<string>, after: seq<string>, useCase: bool, c: Contents)
    ensures Rows(Translated(st, before, after, useCase), c) == Reenacted(st, before, after, useCase, c)
  {
    hide FlatMap, Eval, Image, Keep, Negation, ProjExprs, AllAttrs, Refs, Nulls;
    if st.CreateTable? {
      NoRow(after, c);
    } else if st.Update? && !useCase && st.cond.Where? {
      var in_ := Table(st.table, before);
      assert Rows(Select(st.cond.cond, in_), c) == FlatMap(Keep(st.cond.cond), RowsOf(c, st.table));
    }
  }

  lemma UpdateExactIff(st: Statement, db: Database, useCase: bool)
    requires Ready(st, db) && st.Update?
    ensures multiset(Rows(Query_(st, SchemasOf(db), useCase), ContentsOf(db))) == multiset(Executed(st, db).rows)
       <==> ConditionDecided(st, db, useCase)
  {
    AnalyzedAs(st, db);
    var t, a := TableAt(db, st.table), Analyze(SchemasOf(db), st);
    TranslatedRows(st, a.before, a.after, useCase, ContentsOf(db));
    hide Rows, Translated, Analyze, WellFormed, Legal, Eval, FlatMap, Decided, ProjExprs, Negation, Arity, UnionForm;
    if useCase || st.cond.NoCondition? {
      CaseFormExact(st.sets, st.cond, |t.attrs|, t.rows);
    } else {
      UnionFormExactIff(st.sets, st.cond.cond, |t.attrs|, t.rows);
    }
  }

  lemma DeleteStatementExactIff(st: Statement, db: Database, useCase: bool)
    requires Ready(st, db) && st.Delete?
    ensures multiset(Rows(Query_(st, SchemasOf(db), useCase), ContentsOf(db))) == multiset(Executed(st, db).rows)
       <==> ConditionDecided(st, db, useCase)
  {
    AnalyzedAs(st, db);
    var t, a := TableAt(db, st.table), Analyze(SchemasOf(db), st);
    TranslatedRows(st, a.before, a.after, useCase, ContentsOf(db));
    hide Rows, Translated, Analyze, WellFormed, Legal, Eval, FlatMap, Decided, Negation;
    DeleteExactIff(st.where_, t.rows);
  }

  lemma OtherExact(st: Statement, db: Database, useCase: bool)
    requires Ready(st, db) && !st.Update? && !st.Delete?
    ensures Rows(Query_(st, SchemasOf(db), useCase), ContentsOf(db)) == Executed(st, db).rows
  {
    AnalyzedAs(st, db);
    var t, a := TableAt(db, st.table), Analyze(SchemasOf(db), st);
    TranslatedRows(st, a.before, a.after, useCase, ContentsOf(db));
    hide Rows, Translated, Analyze, WellFormed, Legal, Eval, FlatMap, Refs, Kept, AllAttrs;
    if st.AddColumn? {
      WidenedRows(|t.attrs|, t.rows);
    } else if st.RemoveColumn? {
      NarrowedRows(t.attrs, st.column, t.rows);
    }
  }

  lemma StatementColumns(st: Statement, db: Database, useCase: bool)
    requires Ready(st, db)
    ensures Columns(Query_(st, SchemasOf(db), useCase)) == Executed(st, db).attrs == Analyze(SchemasOf(db), st).after
  {
    AnalyzedAs(st, db);
    var a := Analyze(SchemasOf(db), st);
    TranslatedColumns(st, a.before, a.after, useCase);
    hide Analyze, WellFormed, Legal, Eval, FlatMap, Translated, Columns, Arity, NoDuplicates, Rows, Kept;
  }

  lemma TranslatedColumns(st: Statement, before: seq<string>, after: seq<string>, useCase: bool)
    ensures Columns(Translated(st, before, after, useCase))
         == if st.CreateTableAs? then Columns(st.query)
            else if st.AddColumn? || st.RemoveColumn? || st.CreateTable? then after else before
  {
    hide ProjExprs, Negation, AllAttrs, Refs, Nulls;
  }

  /** The query of a statement returns the new bag of rows iff its condition is decided; its columns are the
      schema the analyzer recorded. */
  lemma StatementExactIff(st: Statement, db: Database, useCase: bool)
    requires Ready(st, db)
    ensures var q := Query_(st, SchemasOf(db), useCase);
      && Columns(q) == Executed(st, db).attrs == Analyze(SchemasOf(db), st).after
      && (multiset(Rows(q, ContentsOf(db))) == multiset(Executed(st, db).rows) <==> ConditionDecided(st, db, useCase))
  {
    StatementColumns(st, db, useCase);
    hide Executed, Translated, Rows, Columns, Analyze, WellFormed, Legal, Query_;
    if st.Update? {
      UpdateExactIff(st, db, useCase);
    } else if st.Delete? {
      DeleteStatementExactIff(st, db, useCase);
    } else {
      OtherExact(st, db, useCase);
    }
  }

  lemma NoRow(columns: seq<string>, c: Contents)
    ensures Rows(Select(Const(Bool(false)), ConstRow(Nulls(|columns|), columns)), c) == []
  {
    var never, row := Const(Bool(false)), Nulls(|columns|);
    assert Rows(ConstRow(row, columns), c) == [row] && [row][1..] == [];
    assert FlatMap(Keep(never), []) == [] && Keep(never)(row) == [];
  }

  /** What the analyzer records, per kind of statement. */
  lemma AnalyzedAs(st: Statement, db: Database)
    requires Ready(st, db)
    ensures var a := Analyze(SchemasOf(db), st);
      && (st.CreateTable? ==> a == Analyzed([], st.columns))
      && (st.CreateTableAs? ==> a == Analyzed([], Columns(st.query)))
      && (!st.CreateTable? && !st.CreateTableAs? ==> ReadsTable(st, db, a))
  {
  }

  ghost predicate ReadsTable(st: Statement, db: Database, a: Analysis)
    requires a.Analyzed?
  {
    && st.table in db && a.before == db[st.table].attrs
    && NoDuplicates(a.before) && Arity(db[st.table].rows, |a.before|)
    && a.after == (if st.AddColumn? then a.before + [st.column]
                   else if st.RemoveColumn? then Kept(a.before, st.column, a.before) else a.before)
  }

  lemma SchemasAfter(st: Statement, db: Database)
    requires Ready(st, db)
    ensures SchemasOf(Execute(st, db)) == SchemasOf(db)[st.table := Analyze(SchemasOf(db), st).after]
  {
    hide Executed, Analyze, Translated, WellFormed, Legal;
    StatementColumns(st, db, true);
    PutSchema(db, st.table, Executed(st, db));
  }

  lemma PutSchema(db: Database, t: string, rel: Relation)
    ensures SchemasOf(db[t := rel]) == SchemasOf(db)[t := rel.attrs]
  {
  }

  lemma StaysWellFormed(st: Statement, db: Database)
    requires Ready(st, db)
    ensures WellFormed(Execute(st, db))
  {
    AnalyzedAs(st, db);
    var r := Executed(st, db);
    assert NoDuplicates(r.attrs) && Arity(r.rows, |r.attrs|) by { ExecutedFits(st, db); }
    hide Executed, NoDuplicates, Arity;
  }

  lemma ExecutedFits(st: Statement, db: Database)
    requires Ready(st, db)
    ensures NoDuplicates(Executed(st, db).attrs) && Arity(Executed(st, db).rows, |Executed(st, db).attrs|)
  {
    AnalyzedAs(st, db);
    LegalAs(st, db);
    var t := TableAt(db, st.table);
    hide Analyze, WellFormed, Legal, FlatMap, Rows, Kept, NoDuplicates, Eval, Assigned, Columns, Affected, Holds;
    match st
    case InsertValues(_, _) =>
    case InsertQuery(_, q) =>
    case Update(_, sets, cond) => FlatMapArity(UpdateRow(sets, cond), t.rows, |t.attrs|);
    case Delete(_, cond) => FlatMapArity(UnlessHolds(cond), t.rows, |t.attrs|);
    case AddColumn(_, column) =>
      PushDistinct(t.attrs, column);
      FlatMapArity(Widen(), t.rows, |t.attrs| + 1);
    case RemoveColumn(_, column) =>
      KeptNames(t.attrs, column);
      NarrowedFit(t.attrs, column, t.rows);
    case CreateTable(_, _) =>
    case CreateTableAs(_, q) =>
  }

  lemma NarrowedFit(attrs: seq<string>, column: string, rows: seq<Row>)
    requires Arity(rows, |attrs|)
    ensures Arity(FlatMap(Narrow(attrs, column), rows), |Kept(attrs, column, attrs)|)
  {
    forall r | r in rows ensures Arity(Narrow(attrs, column)(r), |Kept(attrs, column, attrs)|) {
      KeptLength(attrs, column, r);
    }
    FlatMapArity(Narrow(attrs, column), rows, |Kept(attrs, column, attrs)|);
  }

  lemma PushDistinct(names: seq<string>, name: string)
    requires NoDuplicates(names) && name !in names
    ensures NoDuplicates(names + [name])
  {
  }

  lemma LegalAs(st: Statement, db: Database)
    requires Ready(st, db)
    ensures st.InsertValues? ==> |st.values| == |TableAt(db, st.table).attrs|
    ensures st.InsertQuery? ==> Arity(Rows(st.query, ContentsOf(db)), |TableAt(db, st.table).attrs|)
    ensures st.CreateTable? ==> NoDuplicates(st.columns)
    ensures st.CreateTableAs? ==> NoDuplicates(Columns(st.query)) && Arity(Rows(st.query, ContentsOf(db)), |Columns(st.query)|)
    ensures st.AddColumn? ==> st.column !in TableAt(db, st.table).attrs
  {
    if st.InsertQuery? || st.CreateTableAs? {
      RowsArity(st.query, db);
    }
  }

  // ----- Histories -----

  function ExecuteAll(sts: seq<Statement>, db: Database): Database {
    if sts == [] then db else Execute(sts[|sts| - 1], ExecuteAll(sts[..|sts| - 1], db))
  }

  /** The schemas the analyzer sees after a history. */
  function VisibleAfter(sts: seq<Statement>, visible: Schemas): Schemas {
    if sts == [] then visible
    else
      var before, st := VisibleAfter(sts[..|sts| - 1], visible), sts[|sts| - 1];
      match Analyze(before, st)
      case Analyzed(_, after) => before[st.table := after]
      case Rejected => before
  }

  predicate Accepted(sts: seq<Statement>, visible: Schemas) {
    sts != [] ==>
      var front, st := sts[..|sts| - 1], sts[|sts| - 1];
      && Accepted(front, visible)
      && Analyze(VisibleAfter(front, visible), st).Analyzed? && Legal(st, VisibleAfter(front, visible))
  }

  ghost predicate AllDecided(sts: seq<Statement>, db: Database, useCase: bool) {
    sts != [] ==>
      var front := sts[..|sts| - 1];
      AllDecided(front, db, useCase) && ConditionDecided(sts[|sts| - 1], ExecuteAll(front, db), useCase)
  }

  function TranslatedAll(sts: seq<Statement>, visible: Schemas, useCase: bool): (qs: seq<Query>)
    requires Accepted(sts, visible)
    ensures |qs| == |sts|
  {
    if sts == [] then []
    else
      var front := sts[..|sts| - 1];
      TranslatedAll(front, visible, useCase) + [Query_(sts[|sts| - 1], VisibleAfter(front, visible), useCase)]
  }

  function TableNames(sts: seq<Statement>): (names: seq<string>)
    ensures |names| == |sts| && forall i :: 0 <= i < |sts| ==> names[i] == sts[i].table
  {
    seq(|sts|, i requires 0 <= i < |sts| => sts[i].table)
  }

  /** The current query of every updated table: each statement reads the tables as the statements before it
      left them. */
  function Merged(qs: seq<Query>, names: seq<string>): map<string, Query>
    requires |qs| == |names|
  {
    if qs == [] then map[]
    else
      var last := |qs| - 1;
      var cur := Merged(qs[..last], names[..last]);
      cur[names[last] := Substitute(qs[last], cur)]
  }

  method MergeUpdates(qs: seq<Query>, names: seq<string>) returns (cur: map<string, Query>)
    requires |qs| == |names|
    ensures cur == Merged(qs, names)
  {
    cur := map[];
    for i := 0 to |qs|
      invariant cur == Merged(qs[..i], names[..i])
    {
      assert qs[..i + 1][..i] == qs[..i] && names[..i + 1][..i] == names[..i];
      cur := cur[names[i] := Substitute(qs[i], cur)];
    }
    assert qs[..|qs|] == qs && names[..|names|] == names;
  }

  /** After a history that the analyzer accepts, its schemas are those of the executed tables. */
  lemma {:induction false} SchemasAgree(sts: seq<Statement>, db: Database)
    requires WellFormed(db) && Accepted(sts, SchemasOf(db))
    ensures WellFormed(ExecuteAll(sts, db)) && SchemasOf(ExecuteAll(sts, db)) == VisibleAfter(sts, SchemasOf(db))
  {
    hide Analyze, Execute, WellFormed, SchemasOf, Legal;
    if sts != [] {
      var front, st := sts[..|sts| - 1], sts[|sts| - 1];
      SchemasAgree(front, db);
      SchemasAfter(st, ExecuteAll(front, db));
      StaysWellFormed(st, ExecuteAll(front, db));
    }
  }

  /** The statement at `i` can be executed on what the statements before it left. */
  ghost predicate Executable(sts: seq<Statement>, i: nat, db: Database)
    requires i < |sts|
  {
    var now := SchemasOf(ExecuteAll(sts[..i], db));
    Acceptable(now, sts[i]) && Legal(sts[i], now)
  }

  /** The analyzer accepts a history iff every statement can be executed when its turn comes. */
  lemma {:induction false} AcceptedIff(sts: seq<Statement>, db: Database)
    requires WellFormed(db)
    ensures Accepted(sts, SchemasOf(db)) <==> forall i :: 0 <= i < |sts| ==> Executable(sts, i, db)
  {
    hide Accepted, ExecuteAll, WellFormed, SchemasOf, Legal, Acceptable;
    if sts == [] {
      NothingAccepted(SchemasOf(db));
    } else {
      var n := |sts| - 1;
      var front := sts[..n];
      AcceptedIff(front, db);
      forall i | 0 <= i < n ensures Executable(front, i, db) <==> Executable(sts, i, db) {
        assert front[..i] == sts[..i];
      }
      AcceptedPush(sts, db);
    }
  }

  lemma NothingAccepted(visible: Schemas)
    ensures Accepted([], visible)
  {
  }

  lemma AcceptedPush(sts: seq<Statement>, db: Database)
    requires WellFormed(db) && sts != []
    ensures var n := |sts| - 1;
      Accepted(sts, SchemasOf(db)) <==> Accepted(sts[..n], SchemasOf(db)) && Executable(sts, n, db)
  {
    hide Analyze, ExecuteAll, WellFormed, SchemasOf, Legal, Acceptable;
    var n := |sts| - 1;
    if Accepted(sts[..n], SchemasOf(db)) {
      SchemasAgree(sts[..n], db);
      AnalyzedIff(VisibleAfter(sts[..n], SchemasOf(db)), sts[n]);
    }
  }

  /** An acceptable statement without a query is legal iff executing it leaves all tables well-formed. */
  lemma LegalIff(st: Statement, db: Database)
    requires WellFormed(db) && Acceptable(SchemasOf(db), st) && !st.InsertQuery? && !st.CreateTableAs?
    ensures Legal(st, SchemasOf(db)) <==> WellFormed(Execute(st, db))
  {
    AnalyzedIff(SchemasOf(db), st);
    if Legal(st, SchemasOf(db)) {
      StaysWellFormed(st, db);
    } else {
      hide FlatMap, Kept, Assigned, Eval, Rows;
      assert Execute(st, db)[st.table] == Executed(st, db);
      if st.InsertValues? {
        var rows := Executed(st, db).rows;
        assert rows[|rows| - 1] == st.values && rows[|rows| - 1] in rows;
      }
    }
  }

  lemma {:induction false} SubstituteColumns(q: Query, env: map<string, Query>, visible: Schemas)
    requires Fits(q, visible) && forall name :: name in env ==> name in visible && Columns(env[name]) == visible[name]
    ensures Columns(Substitute(q, env)) == Columns(q)
  {
    match q
    case Select(_, input) => SubstituteColumns(input, env, visible);
    case _ =>
  }

  lemma TranslatedFits(st: Statement, visible: Schemas, useCase: bool)
    requires Analyze(visible, st).Analyzed? && Legal(st, visible)
    ensures Fits(Query_(st, visible, useCase), visible)
  {
    if st.Update? && st.cond.Where? {
      var in_ := Table(st.table, visible[st.table]);
      assert Fits(Select(st.cond.cond, in_), visible) && Fits(Select(Negation(st.cond.cond), in_), visible);
    }
  }

  /** The merged queries, evaluated over the tables before the history. */
  ghost predicate Reenacts(cur: map<string, Query>, db: Database, final: Database) {
    && (forall t :: t in cur ==>
          t in final && multiset(Rows(cur[t], ContentsOf(db))) == multiset(final[t].rows)
          && Columns(cur[t]) == final[t].attrs)
    && (forall t :: t in final && t !in cur ==> t in db && final[t] == db[t])
    && (forall t :: t in db ==> t in final)
  }

  lemma OverlayAgrees(cur: map<string, Query>, db: Database, now: Database)
    requires Reenacts(cur, db, now)
    ensures SameBags(Overlay(cur, ContentsOf(db)), ContentsOf(now))
  {
    hide Rows, Columns;
    var o := Overlay(cur, ContentsOf(db));
    forall name ensures multiset(RowsOf(o, name)) == multiset(RowsOf(ContentsOf(now), name)) {
      if name !in cur && name in now {
        assert now[name] == db[name];
      }
    }
  }

  lemma ReenactTable(cur: map<string, Query>, db: Database, now: Database, t: string, q: Query, rel: Relation)
    requires Reenacts(cur, db, now)
    requires multiset(Rows(q, ContentsOf(db))) == multiset(rel.rows) && Columns(q) == rel.attrs
    ensures Reenacts(cur[t := q], db, now[t := rel])
  {
    hide Rows, Columns;
  }

  lemma ReenactStep(cur: map<string, Query>, db: Database, now: Database, st: Statement, useCase: bool)
    requires Reenacts(cur, db, now) && Ready(st, now) && ConditionDecided(st, now, useCase)
    ensures Reenacts(cur[st.table := Substitute(Query_(st, SchemasOf(now), useCase), cur)], db, Execute(st, now))
  {
    hide Rows, Columns, Executed, Substitute, Translated, Analyze, Fits, ConditionDecided, Legal, WellFormed, Overlay,
         Reenacts, SameBags, Query_;
    var q := Query_(st, SchemasOf(now), useCase);
    SubstituteRows(q, cur, ContentsOf(db));
    OverlayAgrees(cur, db, now);
    RowsBag(q, Overlay(cur, ContentsOf(db)), ContentsOf(now));
    StatementExactIff(st, now, useCase);
    TranslatedFits(st, SchemasOf(now), useCase);
    CurrentColumns(cur, db, now);
    SubstituteColumns(q, cur, SchemasOf(now));
    ReenactTable(cur, db, now, st.table, Substitute(q, cur), Executed(st, now));
  }

  lemma CurrentColumns(cur: map<string, Query>, db: Database, now: Database)
    requires Reenacts(cur, db, now)
    ensures forall name :: name in cur ==> name in SchemasOf(now) && Columns(cur[name]) == SchemasOf(now)[name]
  {
    hide Rows, Columns;
  }

  /** The merged queries of a history. */
  function MergedHistory(sts: seq<Statement>, visible: Schemas, useCase: bool): map<string, Query>
    requires Accepted(sts, visible)
  {
    Merged(TranslatedAll(sts, visible, useCase), TableNames(sts))
  }

  /** For every accepted history whose conditions are decided, the merged query of each table, over the
      tables before the history, returns the rows and the columns of the executed table. */
  lemma {:induction false} HistoryReenacted(sts: seq<Statement>, db: Database, useCase: bool)
    requires WellFormed(db) && Accepted(sts, SchemasOf(db)) && AllDecided(sts, db, useCase)
    ensures Reenacts(MergedHistory(sts, SchemasOf(db), useCase), db, ExecuteAll(sts, db))
  {
    hide *;
    if sts == [] {
      NothingReenacted(sts, db, useCase);
    } else {
      var front, st := sts[..|sts| - 1], sts[|sts| - 1];
      HistoryUnfold(sts, db, useCase);
      HistoryReenacted(front, db, useCase);
      SchemasAgree(front, db);
      ReenactStep(MergedHistory(front, SchemasOf(db), useCase), db, ExecuteAll(front, db), st, useCase);
    }
  }

  lemma NothingReenacted(sts: seq<Statement>, db: Database, useCase: bool)
    requires sts == [] && Accepted(sts, SchemasOf(db))
    ensures Reenacts(MergedHistory(sts, SchemasOf(db), useCase), db, ExecuteAll(sts, db))
  {
  }

  lemma HistoryUnfold(sts: seq<Statement>, db: Database, useCase: bool)
    requires sts != [] && Accepted(sts, SchemasOf(db)) && AllDecided(sts, db, useCase) && WellFormed(db)
    ensures var front, st, visible := sts[..|sts| - 1], sts[|sts| - 1], SchemasOf(db);
      var before, now := VisibleAfter(front, visible), ExecuteAll(front, db);
      && Accepted(front, visible) && AllDecided(front, db, useCase) && Analyze(before, st).Analyzed? && Legal(st, before)
      && ConditionDecided(st, now, useCase) && ExecuteAll(sts, db) == Execute(st, now)
      && SchemasOf(now) == before && WellFormed(now) && Ready(st, now)
      && MergedHistory(sts, visible, useCase)
         == (var cur := MergedHistory(front, visible, useCase); cur[st.table := Substitute(Query_(st, before, useCase), cur)])
  {
    hide Substitute, Translated, Analyze, WellFormed, Legal, ConditionDecided, SchemasOf, Execute, Query_;
    var front, visible := sts[..|sts| - 1], SchemasOf(db);
    SchemasAgree(front, db);
    var qs := TranslatedAll(sts, visible, useCase);
    assert qs[..|sts| - 1] == TranslatedAll(front, visible, useCase);
    assert TableNames(sts)[..|sts| - 1] == TableNames(front);
  }
}
