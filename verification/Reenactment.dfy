/** Reenactment of whole histories: analysis of schemas, translation of every statement, and merging of the
    translated statements into one query per table. */
module Reenactment {
  import opened Sql
  import opened Updates

  datatype Analysis = Analyzed(before: seq<string>, after: seq<string>) | Rejected

  type Schemas = map<string, seq<string>>

  // ----- Analysis -----

  /** What the analyzer records for a statement, given the schemas visible to it. */
  function Analyze(visible: Schemas, st: Statement): Analysis {
    if st.CreateTable? || st.CreateTableAs? then
      if st.table in visible then Rejected
      else Analyzed([], if st.CreateTable? then st.columns else Columns(st.query))
    else if st.table !in visible then Rejected
    else
      var schema := visible[st.table];
      match st
      case AddColumn(_, column) => if column in schema then Rejected else Analyzed(schema, schema + [column])
      case RemoveColumn(_, column) =>
        if column in schema then Analyzed(schema, Kept(schema, column, schema)) else Rejected
      case _ => Analyzed(schema, schema)
  }

  /** New tables must not exist, other tables must; a column must be new to be added and there to be removed. */
  predicate Acceptable(visible: Schemas, st: Statement) {
    match st
    case CreateTable(table, _) => table !in visible
    case CreateTableAs(table, _) => table !in visible
    case AddColumn(table, column) => table in visible && column !in visible[table]
    case RemoveColumn(table, column) => table in visible && column in visible[table]
    case InsertValues(_, _) => st.table in visible
    case InsertQuery(_, _) => st.table in visible
    case Update(_, _, _) => st.table in visible
    case Delete(_, _) => st.table in visible
  }

  /** The schemas of the statement's table before and after it. */
  ghost predicate Recorded(visible: Schemas, st: Statement, before: seq<string>, after: seq<string>) {
    && before == (if st.table in visible then visible[st.table] else [])
    && match st
       case CreateTable(_, columns) => after == columns
       case CreateTableAs(_, q) => after == Columns(q)
       case AddColumn(_, column) => after == before + [column]
       case RemoveColumn(_, column) => WithoutColumn(before, column, after)
       case _ => after == before
  }

  /** The column is gone, and what was around it is still there. */
  ghost predicate WithoutColumn(before: seq<string>, column: string, after: seq<string>) {
    && column !in after
    && forall x, y :: before == x + [column] + y && column !in x && column !in y ==> after == x + y
  }

  lemma AnalyzedIff(visible: Schemas, st: Statement)
    ensures Analyze(visible, st).Analyzed? <==> Acceptable(visible, st)
    ensures var a := Analyze(visible, st); a.Analyzed? ==> Recorded(visible, st, a.before, a.after)
  {
    hide Kept;
    if st.RemoveColumn? && st.table in visible {
      KeptWithout(visible[st.table], st.column);
    }
  }

  lemma KeptWithout(schema: seq<string>, column: string)
    ensures WithoutColumn(schema, column, Kept(schema, column, schema))
  {
    hide Kept;
    KeptNames(schema, column);
    forall x, y | schema == x + [column] + y && column !in x && column !in y ensures Kept(schema, column, schema) == x + y {
      KeptAround(x, column, y);
    }
  }

  lemma {:induction false} KeptAround(x: seq<string>, column: string, y: seq<string>)
    requires column !in x && column !in y
    ensures Kept(x + [column] + y, column, x + [column] + y) == x + y
  {
    hide Kept;
    var s := x + [column] + y;
    KeptCons(s, column, s);
    if x == [] {
      assert s[1..] == y;
      KeptOthers(y, column);
    } else {
      assert s[1..] == x[1..] + [column] + y && s[0] == x[0] && x[0] in x;
      KeptAround(x[1..], column, y);
      assert [x[0]] + (x[1..] + y) == x + y;
    }
  }

  lemma {:induction false} KeptOthers(s: seq<string>, column: string)
    requires column !in s
    ensures Kept(s, column, s) == s
  {
    hide Kept;
    if s == [] {
      KeptNothing(column);
    } else {
      KeptCons(s, column, s);
      KeptOthers(s[1..], column);
      assert s[0] in s;
    }
  }

  class Analyzer {
    const catalog: Schemas
    var schemaInfo: Schemas

    constructor (catalog: Schemas)
      ensures this.catalog == catalog && Visible() == catalog
    {
      this.catalog := catalog;
      schemaInfo := map[];
    }

    /** Schemas cached for this history take precedence over the catalog. */
    function Visible(): Schemas
      reads this
    {
      catalog + schemaInfo
    }

    method GetSchema(table: string) returns (schema: seq<string>)
      requires table in Visible()
      ensures schema == Visible()[table]
    {
      schema := if table in schemaInfo then schemaInfo[table] else catalog[table];
    }

    method AnalyzeCreateTable(table: string, columns: seq<string>) returns (r: Analysis)
      modifies this
      ensures r == if table in old(Visible()) then Rejected else Analyzed([], columns)
      ensures Visible() == if r.Rejected? then old(Visible()) else old(Visible())[table := columns]
    {
      if table in catalog || table in schemaInfo {
        return Rejected;
      }
      schemaInfo := schemaInfo[table := columns];
      r := Analyzed([], columns);
    }

    method RemoveFromList(schema: seq<string>, column: string) returns (result: seq<string>)
      ensures result == Kept(schema, column, schema)
    {
      hide Kept;
      result := [];
      assert schema[0..] == schema && schema[|schema|..] == [];
      for i := 0 to |schema|
        invariant result + Kept(schema[i..], column, schema[i..]) == Kept(schema, column, schema)
      {
        ghost var before, rest := result, Kept(schema[i + 1..], column, schema[i + 1..]);
        KeptFrom(schema, column, i);
        if schema[i] != column {
          result := result + [schema[i]];
          assert before + ([schema[i]] + rest) == result + rest;
        }
      }
      KeptNothing(column);
      assert result + [] == result;
    }

    method AnalyzeAlterTable(st: Statement) returns (r: Analysis)
      requires st.AddColumn? || st.RemoveColumn?
      modifies this
      ensures r == Analyze(old(Visible()), st) && (r.Analyzed? <==> Acceptable(old(Visible()), st))
      ensures r.Analyzed? ==> Recorded(old(Visible()), st, r.before, r.after)
      ensures Visible() == if r.Rejected? then old(Visible()) else old(Visible())[st.table := r.after]
    {
      AnalyzedIff(Visible(), st);
      if st.table !in catalog && st.table !in schemaInfo {
        return Rejected;
      }
      var schema := GetSchema(st.table);
      var before := schema;
      if st.AddColumn? {
        if st.column in schema {
          return Rejected;
        }
        schema := schema + [st.column];
      } else {
        if st.column !in schema {
          return Rejected;
        }
        schema := RemoveFromList(schema, st.column);
      }
      schemaInfo := schemaInfo[st.table := schema];
      r := Analyzed(before, schema);
    }

    method AnalyzeStatement(st: Statement) returns (r: Analysis)
      modifies this
      ensures r == Analyze(old(Visible()), st) && (r.Analyzed? <==> Acceptable(old(Visible()), st))
      ensures r.Analyzed? ==> Recorded(old(Visible()), st, r.before, r.after)
      ensures Visible() == if r.Rejected? then old(Visible()) else old(Visible())[st.table := r.after]
    {
      AnalyzedIff(Visible(), st);
      hide Acceptable, Recorded;
      match st
      case CreateTable(table, columns) => r := AnalyzeCreateTable(table, columns);
      case CreateTableAs(table, q) => r := AnalyzeCreateTable(table, Columns(q));
      case AddColumn(_, _) => r := AnalyzeAlterTable(st);
      case RemoveColumn(_, _) => r := AnalyzeAlterTable(st);
      case _ =>
        if st.table !in catalog && st.table !in schemaInfo {
          return Rejected;
        }
        var schema := GetSchema(st.table);
        assert Visible()[st.table := schema] == Visible();
        r := Analyzed(schema, schema);
    }
  }

  // ----- Well-formed databases and statements -----

  predicate NoDuplicates(names: seq<string>) {
    forall i, j :: 0 <= i < j < |names| ==> names[i] != names[j]
  }

  ghost predicate WellFormed(db: Database) {
    forall name :: name in db ==> NoDuplicates(db[name].attrs) && Arity(db[name].rows, |db[name].attrs|)
  }

  function SchemasOf(db: Database): Schemas {
    map name | name in db :: db[name].attrs
  }

  /** The query reads existing tables by their current columns and combines results of matching widths. */
  predicate Fits(q: Query, visible: Schemas) {
    match q
    case Table(name, attrs) => name in visible && attrs == visible[name]
    case ConstRow(values, attrs) => |values| == |attrs|
    case Project(exprs, input, attrs) => |exprs| == |attrs| && Fits(input, visible)
    case Select(_, input) => Fits(input, visible)
    case Join(_, l, r, attrs) => |attrs| == |Columns(l)| + |Columns(r)| && Fits(l, visible) && Fits(r, visible)
    case UnionAll(l, r, attrs) => |attrs| == |Columns(l)| == |Columns(r)| && Fits(l, visible) && Fits(r, visible)
  }

  function Inputs(q: Query): (inputs: seq<Query>)
    ensures forall i :: 0 <= i < |inputs| ==> inputs[i] < q
  {
    match q
    case Table(_, _) => []
    case ConstRow(_, _) => []
    case Project(_, input, _) => [input]
    case Select(_, input) => [input]
    case Join(_, l, r, _) => [l, r]
    case UnionAll(l, r, _) => [l, r]
  }

  /** `s` is reached from `q` by going down to the inputs along the path. */
  ghost predicate SubqueryAt(q: Query, path: seq<nat>, s: Query)
    decreases |path|
  {
    if path == [] then s == q else path[0] < |Inputs(q)| && SubqueryAt(Inputs(q)[path[0]], path[1..], s)
  }

  ghost predicate IsSubquery(q: Query, s: Query) {
    exists path :: SubqueryAt(q, path, s)
  }

  lemma SubqueriesAre(q: Query, s: Query)
    ensures IsSubquery(q, s) <==> s == q || exists i :: 0 <= i < |Inputs(q)| && IsSubquery(Inputs(q)[i], s)
  {
    assert SubqueryAt(q, [], q);
    if path :| SubqueryAt(q, path, s) && path != [] {
      assert SubqueryAt(Inputs(q)[path[0]], path[1..], s);
    }
    if i :| 0 <= i < |Inputs(q)| && IsSubquery(Inputs(q)[i], s) {
      var path :| SubqueryAt(Inputs(q)[i], path, s);
      assert ([i] + path)[1..] == path;
      assert SubqueryAt(q, [i] + path, s);
    }
  }

  /** Tables are read by their current columns, and there is a column for every value. */
  ghost predicate WidthsFit(s: Query, visible: Schemas) {
    && (s.Table? ==> s.name in visible && s.attrs == visible[s.name])
    && (s.ConstRow? ==> |s.values| == |s.attrs|) && (s.Project? ==> |s.exprs| == |s.attrs|)
    && (s.Join? ==> |Columns(s.left)| + |Columns(s.right)| == |s.attrs|)
    && (s.UnionAll? ==> |Columns(s.left)| == |s.attrs| && |Columns(s.right)| == |s.attrs|)
  }

  /** A query fits iff all its subqueries have the widths they need. */
  lemma {:induction false} FitsIff(q: Query, visible: Schemas)
    ensures Fits(q, visible) <==> forall s :: IsSubquery(q, s) ==> WidthsFit(s, visible)
  {
    FitsInputs(q, visible);
    hide Fits, WidthsFit, Columns;
    forall i | 0 <= i < |Inputs(q)|
      ensures Fits(Inputs(q)[i], visible) <==> forall s :: IsSubquery(Inputs(q)[i], s) ==> WidthsFit(s, visible)
    {
      FitsIff(Inputs(q)[i], visible);
    }
    forall s ensures IsSubquery(q, s) <==> s == q || exists i :: 0 <= i < |Inputs(q)| && IsSubquery(Inputs(q)[i], s) {
      SubqueriesAre(q, s);
    }
  }

  lemma FitsInputs(q: Query, visible: Schemas)
    ensures Fits(q, visible) <==> WidthsFit(q, visible) && forall i :: 0 <= i < |Inputs(q)| ==> Fits(Inputs(q)[i], visible)
  {
    var qs := Inputs(q);
    if |qs| == 1 {
      assert (forall i :: 0 <= i < |qs| ==> Fits(qs[i], visible)) <==> Fits(qs[0], visible);
    } else if |qs| == 2 {
      assert (forall i :: 0 <= i < |qs| ==> Fits(qs[i], visible)) <==> Fits(qs[0], visible) && Fits(qs[1], visible);
    }
  }

  lemma {:induction false} FlatMapArity(f: Row -> seq<Row>, s: seq<Row>, n: nat)
    requires forall r :: r in s ==> Arity(f(r), n)
    ensures Arity(FlatMap(f, s), n)
  {
    if s != [] {
      FlatMapStep(f, s);
      FlatMapArity(f, s[1..], n);
    }
  }

  lemma {:induction false} RowsArity(q: Query, db: Database)
    requires WellFormed(db) && Fits(q, SchemasOf(db))
    ensures Arity(Rows(q, ContentsOf(db)), |Columns(q)|)
  {
    var c := ContentsOf(db);
    match q
    case Table(_, _) =>
    case ConstRow(_, _) =>
    case Project(exprs, input, _) => FlatMapArity(Image(exprs), Rows(input, c), |exprs|);
    case Select(cond, input) =>
      RowsArity(input, db);
      FlatMapArity(Keep(cond), Rows(input, c), |Columns(q)|);
    case Join(cond, l, r, _) =>
      RowsArity(l, db);
      RowsArity(r, db);
      forall x | x in Rows(l, c) ensures Arity(Joining(cond, Rows(r, c))(x), |Columns(q)|) {
        FlatMapArity(Matching(cond, x), Rows(r, c), |Columns(q)|);
      }
      FlatMapArity(Joining(cond, Rows(r, c)), Rows(l, c), |Columns(q)|);
    case UnionAll(l, r, _) =>
      RowsArity(l, db);
      RowsArity(r, db);
  }

  /** Inserted rows have the width of the table, queries fit, and created columns have distinct names. */
  predicate Legal(st: Statement, visible: Schemas) {
    match st
    case InsertValues(table, values) => table in visible && |values| == |visible[table]|
    case InsertQuery(table, q) => table in visible && Fits(q, visible) && |Columns(q)| == |visible[table]|
    case CreateTable(_, columns) => NoDuplicates(columns)
    case CreateTableAs(_, q) => Fits(q, visible) && NoDuplicates(Columns(q))
    case _ => true
  }

  // ----- Removing a column -----

  lemma {:induction false} KeptNames(attrs: seq<string>, column: string)
    ensures forall name :: name in Kept(attrs, column, attrs) <==> name in attrs && name != column
    ensures NoDuplicates(attrs) ==> NoDuplicates(Kept(attrs, column, attrs))
  {
    if attrs != [] {
      KeptNames(attrs[1..], column);
      assert attrs == [attrs[0]] + attrs[1..];
      if NoDuplicates(attrs) {
        forall i, j | 0 <= i < j < |attrs[1..]| ensures attrs[1..][i] != attrs[1..][j] { assert attrs[i + 1] != attrs[j + 1]; }
        var rest := Kept(attrs[1..], column, attrs[1..]);
        forall j | 0 <= j < |rest| ensures rest[j] != attrs[0] {
          assert rest[j] in rest;
          var k :| 0 <= k < |attrs[1..]| && attrs[1..][k] == rest[j];
          assert attrs[0] != attrs[k + 1];
        }
      }
    }
  }

  lemma {:induction false} KeptLength<T>(attrs: seq<string>, column: string, cells: seq<T>)
    requires |cells| == |attrs|
    ensures |Kept(attrs, column, cells)| == |Kept(attrs, column, attrs)|
  {
    if attrs != [] { KeptLength(attrs[1..], column, cells[1..]); }
  }

  lemma KeptFrom(schema: seq<string>, column: string, i: nat)
    requires i < |schema|
    ensures var rest := Kept(schema[i + 1..], column, schema[i + 1..]);
      Kept(schema[i..], column, schema[i..]) == if schema[i] == column then rest else [schema[i]] + rest
  {
    KeptCons(schema[i..], column, schema[i..]);
    assert schema[i..][1..] == schema[i + 1..];
  }

  lemma KeptNothing(column: string)
    ensures Kept<string>([], column, []) == []
  {
  }

  /** Looking the remaining names up by position finds the remaining cells. */
  lemma {:induction false} KeptByPosition(attrs: seq<string>, column: string, row: Row, i: nat)
    requires |row| == |attrs| && NoDuplicates(Kept(attrs, column, attrs)) && i < |Kept(attrs, column, attrs)|
    ensures |Kept(attrs, column, row)| == |Kept(attrs, column, attrs)|
    ensures var p := Position(attrs, Kept(attrs, column, attrs)[i]); p < |row| && row[p] == Kept(attrs, column, row)[i]
  {
    hide Kept, NoDuplicates;
    KeptLength(attrs, column, row);
    assert attrs != [] by { KeptNothing(column); }
    KeptStep(attrs, column, row);
    var rest := Kept(attrs[1..], column, attrs[1..]);
    if attrs[0] == column {
      KeptNames(attrs[1..], column);
      assert rest[i] in rest;
      KeptByPosition(attrs[1..], column, row[1..], i);
    } else if i > 0 {
      assert rest[i - 1] in rest;
      KeptByPosition(attrs[1..], column, row[1..], i - 1);
    }
  }

  lemma KeptCons<T>(attrs: seq<string>, column: string, cells: seq<T>)
    requires |cells| == |attrs| > 0
    ensures var rest := Kept(attrs[1..], column, cells[1..]);
      Kept(attrs, column, cells) == if attrs[0] == column then rest else [cells[0]] + rest
  {
    var rest := Kept(attrs[1..], column, cells[1..]);
    assert [] + rest == rest;
  }

  lemma KeptStep(attrs: seq<string>, column: string, row: Row)
    requires |row| == |attrs| > 0 && NoDuplicates(Kept(attrs, column, attrs))
    ensures var names, rest := Kept(attrs, column, attrs), Kept(attrs[1..], column, attrs[1..]);
      && NoDuplicates(rest)
      && (if attrs[0] == column then names == rest && Kept(attrs, column, row) == Kept(attrs[1..], column, row[1..])
          else names == [attrs[0]] + rest && attrs[0] !in rest
               && Kept(attrs, column, row) == [row[0]] + Kept(attrs[1..], column, row[1..]))
  {
    var names, rest := Kept(attrs, column, attrs), Kept(attrs[1..], column, attrs[1..]);
    KeptCons(attrs, column, attrs);
    KeptCons(attrs, column, row);
    hide Kept;
    if attrs[0] != column {
      forall j, k | 0 <= j < k < |rest| ensures rest[j] != rest[k] { assert names[j + 1] != names[k + 1]; }
      forall j | 0 <= j < |rest| ensures rest[j] != attrs[0] { assert names[0] != names[j + 1]; }
    }
  }

  lemma RemovedRow(attrs: seq<string>, column: string, row: Row)
    requires |row| == |attrs| && NoDuplicates(Kept(attrs, column, attrs))
    ensures Image(Refs(attrs, Kept(attrs, column, attrs)))(row) == Narrow(attrs, column)(row)
  {
    var names := Kept(attrs, column, attrs);
    var out := EvalAll(Refs(attrs, names), row);
    KeptLength(attrs, column, row);
    forall i | 0 <= i < |names| ensures out[i] == Kept(attrs, column, row)[i] {
      KeptByPosition(attrs, column, row, i);
    }
    assert out == Kept(attrs, column, row);
  }

  /** A row of pairwise distinct cells. */
  function Numbered(from: nat, n: nat): (row: Row)
    ensures |row| == n && forall i :: 0 <= i < n ==> row[i] == Num(from + i)
  {
    seq(n, i requires 0 <= i < n => Num(from + i))
  }

  lemma {:induction false} KeptIncreasing(attrs: seq<string>, column: string, from: nat)
    ensures var r := Kept(attrs, column, Numbered(from, |attrs|));
      (forall v :: v in r ==> v.Num? && v.n >= from) && forall i, j :: 0 <= i < j < |r| ==> r[i] != r[j]
  {
    if attrs != [] {
      assert Numbered(from, |attrs|)[1..] == Numbered(from + 1, |attrs| - 1);
      KeptIncreasing(attrs[1..], column, from + 1);
      var rest := Kept(attrs[1..], column, Numbered(from + 1, |attrs| - 1));
      forall i | 0 <= i < |rest| ensures rest[i] != Num(from) { assert rest[i] in rest; }
    }
  }

  /** The projection by names removes the right cells from every row iff the remaining names are distinct. */
  lemma RemoveColumnExactIff(attrs: seq<string>, column: string)
    ensures (forall row: Row :: |row| == |attrs| ==>
               Image(Refs(attrs, Kept(attrs, column, attrs)))(row) == Narrow(attrs, column)(row))
       <==> NoDuplicates(Kept(attrs, column, attrs))
  {
    var names := Kept(attrs, column, attrs);
    if NoDuplicates(names) {
      forall row: Row | |row| == |attrs| ensures Image(Refs(attrs, names))(row) == Narrow(attrs, column)(row) {
        RemovedRow(attrs, column, row);
      }
    } else {
      var i, j :| 0 <= i < j < |names| && names[i] == names[j];
      var row := Numbered(0, |attrs|);
      KeptLength(attrs, column, row);
      KeptIncreasing(attrs, column, 0);
      var out := EvalAll(Refs(attrs, names), row);
      assert out[i] == out[j];
      assert Image(Refs(attrs, names))(row)[0] == out && Narrow(attrs, column)(row)[0] == Kept(attrs, column, row);
    }
  }
}
