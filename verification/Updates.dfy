/** Reenactment of single statements: DML and DDL turned into queries over the table before the statement. */
module Updates {
  import opened Sql

  datatype Assignment = Set(target: nat, expr: Expr)

  datatype Statement =
    | InsertValues(table: string, values: Row)
    | InsertQuery(table: string, query: Query)
    | Update(table: string, sets: seq<Assignment>, cond: Condition)
    | Delete(table: string, where_: Expr)
    | AddColumn(table: string, column: string)
    | RemoveColumn(table: string, column: string)
    | CreateTable(table: string, columns: seq<string>)
    | CreateTableAs(table: string, query: Query)

  datatype Condition = NoCondition | Where(cond: Expr)

  // ----- What executing a statement does to a table -----

  datatype Relation = Relation(attrs: seq<string>, rows: seq<Row>)

  type Database = map<string, Relation>

  function ContentsOf(db: Database): (c: Contents)
    ensures forall name :: RowsOf(c, name) == if name in db then db[name].rows else []
  {
    map name | name in db :: db[name].rows
  }

  /** All new values are computed from the old row. */
  function Assigned(sets: seq<Assignment>, old_: Row, row: Row): (r: Row)
    ensures |r| == |row|
  {
    if sets == [] then row
    else
      var s := sets[0];
      Assigned(sets[1..], old_, if s.target < |row| then row[s.target := Eval(s.expr, old_)] else row)
  }

  predicate Affected(cond: Condition, row: Row) {
    cond.NoCondition? || Holds(cond.cond, row)
  }

  function UpdateRow(sets: seq<Assignment>, cond: Condition): Row -> seq<Row> {
    r => [if Affected(cond, r) then Assigned(sets, r, r) else r]
  }

  function UnlessHolds(cond: Expr): Row -> seq<Row> {
    r => if Holds(cond, r) then [] else [r]
  }

  function Widen(): Row -> seq<Row> {
    r => [r + [Null]]
  }

  /** Keep the cells of the columns that are not called `column`. */
  function Narrow(attrs: seq<string>, column: string): Row -> seq<Row> {
    r => [Kept(attrs, column, r)]
  }

  function Kept<T>(attrs: seq<string>, column: string, cells: seq<T>): seq<T> {
    if attrs == [] || cells == [] then []
    else (if attrs[0] == column then [] else [cells[0]]) + Kept(attrs[1..], column, cells[1..])
  }

  function TableAt(db: Database, name: string): Relation {
    if name in db then db[name] else Relation([], [])
  }

  /** The new state of the table a statement affects. */
  function Executed(st: Statement, db: Database): Relation {
    var t := TableAt(db, st.table);
    match st
    case InsertValues(_, values) => Relation(t.attrs, t.rows + [values])
    case InsertQuery(_, q) => Relation(t.attrs, t.rows + Rows(q, ContentsOf(db)))
    case Update(_, sets, cond) => Relation(t.attrs, FlatMap(UpdateRow(sets, cond), t.rows))
    case Delete(_, cond) => Relation(t.attrs, FlatMap(UnlessHolds(cond), t.rows))
    case AddColumn(_, column) => Relation(t.attrs + [column], FlatMap(Widen(), t.rows))
    case RemoveColumn(_, column) => Relation(Kept(t.attrs, column, t.attrs), FlatMap(Narrow(t.attrs, column), t.rows))
    case CreateTable(_, columns) => Relation(columns, [])
    case CreateTableAs(_, q) => Relation(Columns(q), Rows(q, ContentsOf(db)))
  }

  function Execute(st: Statement, db: Database): Database {
    db[st.table := Executed(st, db)]
  }

  // ----- Translation -----

  function AllAttrs(n: nat): (es: seq<Expr>)
    ensures |es| == n
  {
    seq(n, i requires 0 <= i < n => Attr(0, i))
  }

  /** The output expression for column `i`: the last assignment to it, made conditional if there is a WHERE
      clause, or the column itself. */
  function ProjExpr(sets: seq<Assignment>, cond: Condition, i: nat): Expr {
    if sets == [] then Attr(0, i)
    else
      var last := sets[|sets| - 1];
      if last.target == i then
        match cond
        case NoCondition => last.expr
        case Where(c) => Case(c, last.expr, Attr(0, i))
      else ProjExpr(sets[..|sets| - 1], cond, i)
  }

  function ProjExprs(sets: seq<Assignment>, cond: Condition, n: nat): (es: seq<Expr>)
    ensures |es| == n
  {
    seq(n, i requires 0 <= i < n => ProjExpr(sets, cond, i))
  }

  /** `generateProjectionForUpdate`: for every column, scan all assignments. */
  method GenerateProjection(sets: seq<Assignment>, cond: Condition, n: nat) returns (projExprs: seq<Expr>)
    ensures projExprs == ProjExprs(sets, cond, n)
  {
    projExprs := [];
    for i := 0 to n
      invariant |projExprs| == i && forall k :: 0 <= k < i ==> projExprs[k] == ProjExpr(sets, cond, k)
    {
      var projExpr := Attr(0, i);
      for j := 0 to |sets|
        invariant projExpr == ProjExpr(sets[..j], cond, i)
      {
        assert sets[..j + 1][..j] == sets[..j];
        var o := sets[j];
        if o.target == i {
          projExpr := if cond.NoCondition? then o.expr else Case(cond.cond, o.expr, Attr(0, i));
        }
      }
      assert sets[..|sets|] == sets;
      projExprs := projExprs + [projExpr];
    }
  }

  function Position(attrs: seq<string>, name: string): nat {
    if attrs == [] || attrs[0] == name then 0 else 1 + Position(attrs[1..], name)
  }

  function Refs(attrs: seq<string>, names: seq<string>): (es: seq<Expr>)
    ensures |es| == |names|
  {
    seq(|names|, i requires 0 <= i < |names| => Attr(0, Position(attrs, names[i])))
  }

  function Nulls(n: nat): (row: Row)
    ensures |row| == n
  {
    seq(n, _ => Null)
  }

  /** The query for a statement; `before` and `after` are the columns the analyzer recorded, and `useCase`
      selects the CASE translation of updates. */
  function Translated(st: Statement, before: seq<string>, after: seq<string>, useCase: bool): Query {
    var in_ := Table(st.table, before);
    match st
    case InsertValues(_, values) => UnionAll(in_, ConstRow(values, before), before)
    case InsertQuery(_, q) => UnionAll(in_, q, before)
    case Update(_, sets, cond) =>
      var exprs := ProjExprs(sets, cond, |before|);
      if useCase || cond.NoCondition? then Project(exprs, in_, before)
      else UnionAll(Project(exprs, Select(cond.cond, in_), before), Select(Negation(cond.cond), in_), before)
    case Delete(_, cond) => Select(Negation(cond), in_)
    case AddColumn(_, column) => Project(AllAttrs(|before|) + [Const(Null)], in_, after)
    case RemoveColumn(_, _) => Project(Refs(before, after), in_, after)
    case CreateTable(_, _) => Select(Const(Bool(false)), ConstRow(Nulls(|after|), after))
    case CreateTableAs(_, q) => q
  }

  // ----- Updates -----

  lemma {:induction false} AssignedAt(sets: seq<Assignment>, old_: Row, row: Row, i: nat)
    requires i < |row| == |old_|
    ensures Assigned(sets, old_, row)[i] == AssignedCell(sets, old_, row[i], i)
  {
    if sets != [] {
      var s := sets[0];
      AssignedAt(sets[1..], old_, if s.target < |row| then row[s.target := Eval(s.expr, old_)] else row, i);
    }
  }

  /** The value of one cell after the assignments. */
  function AssignedCell(sets: seq<Assignment>, old_: Row, cell: Value, i: nat): Value {
    if sets == [] then cell
    else AssignedCell(sets[1..], old_, if sets[0].target == i then Eval(sets[0].expr, old_) else cell, i)
  }

  lemma {:induction false} AssignedCellLast(sets: seq<Assignment>, old_: Row, cell: Value, i: nat)
    requires sets != []
    ensures var last := sets[|sets| - 1];
      AssignedCell(sets, old_, cell, i)
        == if last.target == i then Eval(last.expr, old_) else AssignedCell(sets[..|sets| - 1], old_, cell, i)
  {
    if |sets| > 1 {
      AssignedCellLast(sets[1..], old_, if sets[0].target == i then Eval(sets[0].expr, old_) else cell, i);
      assert sets[1..][..|sets| - 2] == sets[..|sets| - 1][1..];
    }
  }

  /** Each output expression yields the cell of the assigned row. */
  lemma {:induction false} ProjExprEval(sets: seq<Assignment>, cond: Condition, i: nat, row: Row)
    requires i < |row|
    ensures Eval(ProjExpr(sets, cond, i), row)
         == if Affected(cond, row) then AssignedCell(sets, row, row[i], i) else row[i]
  {
    if sets != [] {
      AssignedCellLast(sets, row, row[i], i);
      ProjExprEval(sets[..|sets| - 1], cond, i, row);
    }
  }

  lemma ProjectedRow(sets: seq<Assignment>, cond: Condition, n: nat, row: Row)
    requires |row| == n
    ensures [EvalAll(ProjExprs(sets, cond, n), row)] == UpdateRow(sets, cond)(row)
  {
    var out := EvalAll(ProjExprs(sets, cond, n), row);
    forall i | 0 <= i < n ensures out[i] == UpdateRow(sets, cond)(row)[0][i] {
      ProjExprEval(sets, cond, i, row);
      AssignedAt(sets, row, row, i);
    }
    assert out == UpdateRow(sets, cond)(row)[0];
  }

  ghost predicate Arity(rows: seq<Row>, n: nat) {
    forall r :: r in rows ==> |r| == n
  }

  lemma {:induction false} FlatMapSame(f: Row -> seq<Row>, g: Row -> seq<Row>, s: seq<Row>)
    requires forall r :: r in s ==> f(r) == g(r)
    ensures FlatMap(f, s) == FlatMap(g, s)
  {
    if s != [] {
      FlatMapSame(f, g, s[1..]);
    }
  }

  /** Without a WHERE clause, or in CASE form, the projection is the simultaneous assignment, row by row. */
  lemma CaseFormExact(sets: seq<Assignment>, cond: Condition, n: nat, rows: seq<Row>)
    requires Arity(rows, n)
    ensures FlatMap(Image(ProjExprs(sets, cond, n)), rows) == FlatMap(UpdateRow(sets, cond), rows)
  {
    forall r | r in rows ensures Image(ProjExprs(sets, cond, n))(r) == UpdateRow(sets, cond)(r) {
      ProjectedRow(sets, cond, n, r);
    }
    FlatMapSame(Image(ProjExprs(sets, cond, n)), UpdateRow(sets, cond), rows);
  }

  function IfUnknown(cond: Expr): Row -> seq<Row> {
    r => if Unknown(cond, r) then [r] else []
  }

  ghost predicate Decided(cond: Expr, rows: seq<Row>) {
    forall r :: r in rows ==> !Unknown(cond, r)
  }

  function UnionForm(sets: seq<Assignment>, cond: Expr, n: nat, rows: seq<Row>): seq<Row> {
    FlatMap(Image(ProjExprs(sets, Where(cond), n)), FlatMap(Keep(cond), rows)) + FlatMap(Keep(Negation(cond)), rows)
  }

  /** The union form loses exactly the rows whose condition is unknown. */
  lemma UnionFormLoses(sets: seq<Assignment>, cond: Expr, n: nat, rows: seq<Row>)
    requires Arity(rows, n)
    ensures multiset(FlatMap(UpdateRow(sets, Where(cond)), rows))
         == multiset(UnionForm(sets, cond, n, rows)) + multiset(FlatMap(IfUnknown(cond), rows))
  {
    var exprs := ProjExprs(sets, Where(cond), n);
    var matched := KeepImage(cond, exprs);
    forall r | r in rows
      ensures multiset(UpdateRow(sets, Where(cond))(r)) == multiset(matched(r)) + multiset(UnlessHolds(cond)(r))
    {
      ProjectedRow(sets, Where(cond), n, r);
    }
    FlatMapPartition(UpdateRow(sets, Where(cond)), matched, UnlessHolds(cond), rows);
    KeepThenImage(cond, exprs, rows);
    DeleteLoses(cond, rows);
  }

  function KeepImage(cond: Expr, exprs: seq<Expr>): Row -> seq<Row> {
    r => if Holds(cond, r) then [EvalAll(exprs, r)] else []
  }

  lemma {:induction false} KeepThenImage(cond: Expr, exprs: seq<Expr>, rows: seq<Row>)
    ensures FlatMap(Image(exprs), FlatMap(Keep(cond), rows)) == FlatMap(KeepImage(cond, exprs), rows)
  {
    if rows != [] {
      KeepThenImage(cond, exprs, rows[1..]);
      var first := Keep(cond)(rows[0]);
      FlatMapSplit(Image(exprs), first, FlatMap(Keep(cond), rows[1..]));
      assert FlatMap(Image(exprs), first) == KeepImage(cond, exprs)(rows[0]) by {
        assert first != [] ==> first[1..] == [];
      }
    }
  }

  /** If every row's image splits in two, so does the image of the bag. */
  lemma {:induction false} FlatMapPartition(f: Row -> seq<Row>, g: Row -> seq<Row>, h: Row -> seq<Row>, s: seq<Row>)
    requires forall r :: r in s ==> multiset(f(r)) == multiset(g(r)) + multiset(h(r))
    ensures multiset(FlatMap(f, s)) == multiset(FlatMap(g, s)) + multiset(FlatMap(h, s))
  {
    if s != [] {
      FlatMapStep(f, s);
      FlatMapStep(g, s);
      FlatMapStep(h, s);
      FlatMapPartition(f, g, h, s[1..]);
    }
  }

  lemma {:induction false} NoUnknown(cond: Expr, rows: seq<Row>)
    ensures FlatMap(IfUnknown(cond), rows) == [] <==> Decided(cond, rows)
  {
    if rows != [] {
      NoUnknown(cond, rows[1..]);
      assert rows == [rows[0]] + rows[1..];
    }
  }

  /** The union form is exact iff the condition is true or false on every row. */
  lemma UnionFormExactIff(sets: seq<Assignment>, cond: Expr, n: nat, rows: seq<Row>)
    requires Arity(rows, n)
    ensures multiset(UnionForm(sets, cond, n, rows)) == multiset(FlatMap(UpdateRow(sets, Where(cond)), rows))
       <==> Decided(cond, rows)
  {
    UnionFormLoses(sets, cond, n, rows);
    NoUnknown(cond, rows);
    var lost := FlatMap(IfUnknown(cond), rows);
    assert lost != [] ==> lost[0] in multiset(lost);
  }

  // ----- Deletes -----

  /** The translated delete also drops the rows whose condition is unknown. */
  lemma DeleteLoses(cond: Expr, rows: seq<Row>)
    ensures multiset(FlatMap(UnlessHolds(cond), rows))
         == multiset(FlatMap(Keep(Negation(cond)), rows)) + multiset(FlatMap(IfUnknown(cond), rows))
  {
    FlatMapPartition(UnlessHolds(cond), Keep(Negation(cond)), IfUnknown(cond), rows);
  }

  lemma DeleteExactIff(cond: Expr, rows: seq<Row>)
    ensures multiset(FlatMap(Keep(Negation(cond)), rows)) == multiset(FlatMap(UnlessHolds(cond), rows))
       <==> Decided(cond, rows)
  {
    DeleteLoses(cond, rows);
    NoUnknown(cond, rows);
    var lost := FlatMap(IfUnknown(cond), rows);
    assert lost != [] ==> lost[0] in multiset(lost);
  }
}
