/** SQL expressions with NULL and three-valued logic, and a bag algebra over rows. */
module Sql {
  datatype Value = Null | Bool(b: bool) | Num(n: int) | Str(s: string)

  type Row = seq<Value>

  /** `Attr(item, pos)` is column `pos` of FROM item `item`; operator inputs have a single item, 0. */
  datatype Expr =
    | Attr(item: nat, pos: nat)
    | Const(v: Value)
    | Apply(op: string, args: seq<Expr>)
    | Call(name: string, agg: bool, args: seq<Expr>)
    | Case(cond: Expr, then_: Expr, else_: Expr)

  /** The direct subexpressions. */
  function Operands(e: Expr): (es: seq<Expr>)
    ensures forall x :: x in es ==> x < e
  {
    match e
    case Attr(_, _) => []
    case Const(_) => []
    case Apply(_, args) => args
    case Call(_, _, args) => args
    case Case(c, t, f) => [c, t, f]
  }

  /** `s` is reached from `e` by going down to the operands along the path. */
  ghost predicate PartAt(e: Expr, path: seq<nat>, s: Expr)
    decreases |path|
  {
    if path == [] then s == e else path[0] < |Operands(e)| && PartAt(Operands(e)[path[0]], path[1..], s)
  }

  ghost predicate IsPart(e: Expr, s: Expr) {
    exists path :: PartAt(e, path, s)
  }

  lemma OperandSmaller(e: Expr, i: nat)
    requires i < |Operands(e)|
    ensures Operands(e)[i] < e
  {
    assert Operands(e)[i] in Operands(e);
  }

  lemma PartsAre(e: Expr, s: Expr)
    ensures IsPart(e, s) <==> s == e || exists i :: 0 <= i < |Operands(e)| && IsPart(Operands(e)[i], s)
  {
    assert PartAt(e, [], e);
    if path :| PartAt(e, path, s) && path != [] {
      assert PartAt(Operands(e)[path[0]], path[1..], s);
    }
    if i :| 0 <= i < |Operands(e)| && IsPart(Operands(e)[i], s) {
      var path :| PartAt(Operands(e)[i], path, s);
      assert ([i] + path)[1..] == path;
      assert PartAt(e, [i] + path, s);
    }
  }

  function Cell(row: Row, pos: nat): Value {
    if pos < |row| then row[pos] else Null
  }

  function Not(v: Value): Value {
    if v.Bool? then Bool(!v.b) else Null
  }

  function And(l: Value, r: Value): Value {
    if l == Bool(false) || r == Bool(false) then Bool(false)
    else if l == Bool(true) && r == Bool(true) then Bool(true)
    else Null
  }

  function Or(l: Value, r: Value): Value {
    Not(And(Not(l), Not(r)))
  }

  /** False, unknown and true, in this order; whatever is no truth value is unknown. */
  function Truth(v: Value): nat {
    if v == Bool(false) then 0 else if v == Bool(true) then 2 else 1
  }

  function Compare(op: string, l: Value, r: Value): Value {
    if l == Null || r == Null then Null
    else if op == "=" then Bool(l == r)
    else if op == "<>" then Bool(l != r)
    else if l.Num? && r.Num? && op == "<" then Bool(l.n < r.n)
    else if l.Num? && r.Num? && op == "<=" then Bool(l.n <= r.n)
    else Null
  }

  function Arith(op: string, l: Value, r: Value): Value {
    if !l.Num? || !r.Num? then Null
    else if op == "+" then Num(l.n + r.n)
    else if op == "-" then Num(l.n - r.n)
    else if op == "*" then Num(l.n * r.n)
    else Null
  }

  function ApplyOp(op: string, vs: seq<Value>): Value {
    if |vs| == 1 then
      if op == "NOT" then Not(vs[0]) else if op == "IS NULL" then Bool(vs[0] == Null) else Null
    else if |vs| == 2 then
      if op == "AND" then And(vs[0], vs[1])
      else if op == "OR" then Or(vs[0], vs[1])
      else if op == "=" || op == "<>" || op == "<" || op == "<=" then Compare(op, vs[0], vs[1])
      else Arith(op, vs[0], vs[1])
    else Null
  }

  /** Scalar functions; an aggregate has no value on a single row. */
  function ApplyFunction(name: string, vs: seq<Value>): Value {
    if name == "coalesce" then FirstKnown(vs)
    else if name == "abs" && |vs| == 1 && vs[0].Num? then Num(if vs[0].n < 0 then -vs[0].n else vs[0].n)
    else Null
  }

  function FirstKnown(vs: seq<Value>): Value {
    if vs == [] then Null else if vs[0] != Null then vs[0] else FirstKnown(vs[1..])
  }

  lemma {:induction false} FirstKnownIs(vs: seq<Value>, i: nat)
    requires i < |vs| && vs[i] != Null && forall k :: 0 <= k < i ==> vs[k] == Null
    ensures FirstKnown(vs) == vs[i]
  {
    if i > 0 { FirstKnownIs(vs[1..], i - 1); }
  }

  lemma {:induction false} NothingKnown(vs: seq<Value>)
    ensures FirstKnown(vs) == Null <==> forall k :: 0 <= k < |vs| ==> vs[k] == Null
  {
    if vs != [] {
      NothingKnown(vs[1..]);
      assert forall k :: 0 < k < |vs| ==> vs[k] == vs[1..][k - 1];
    }
  }

  // ----- Laws -----

  function Binary(op: string, l: Value, r: Value): Value {
    ApplyOp(op, [l, r])
  }

  /** Conjunction is the minimum, disjunction the maximum, and negation turns the order around. */
  lemma Kleene(l: Value, r: Value)
    ensures Truth(Binary("AND", l, r)) == if Truth(l) <= Truth(r) then Truth(l) else Truth(r)
    ensures Truth(Binary("OR", l, r)) == if Truth(l) >= Truth(r) then Truth(l) else Truth(r)
    ensures Truth(ApplyOp("NOT", [l])) == 2 - Truth(l)
    ensures Truth(ApplyOp("IS NULL", [l])) == if l == Null then 2 else 0
  {
  }

  /** Comparing with NULL is unknown; equality and inequality exclude each other; numbers are ordered. */
  lemma ComparisonLaws(l: Value, r: Value)
    ensures Binary("=", l, r) == Null <==> l == Null || r == Null
    ensures Binary("=", l, r) == Bool(true) <==> l != Null && r != Null && l == r
    ensures Binary("<>", l, r) == Not(Binary("=", l, r))
    ensures Binary("<", l, r).Bool? <==> l.Num? && r.Num?
    ensures Binary("<=", l, r) == Or(Binary("<", l, r), if l.Num? && r.Num? then Binary("=", l, r) else Null)
    ensures l.Num? && r.Num? ==> Binary("<", l, r) == Not(Binary("<=", r, l))
    ensures Binary("<", l, Binary("+", l, Num(1))) == if l.Num? then Bool(true) else Null
  {
  }

  /** Addition by successors, multiplication by repeated addition, subtraction as the inverse of addition. */
  lemma ArithmeticLaws(l: Value, r: Value)
    ensures !l.Num? || !r.Num? ==> Binary("+", l, r) == Binary("-", l, r) == Binary("*", l, r) == Null
    ensures l.Num? && r.Num? ==>
              var next := Binary("+", r, Num(1));
              && Binary("+", l, Num(1)) == Num(l.n + 1)
              && Binary("+", l, Num(0)) == l && Binary("+", l, next) == Binary("+", Binary("+", l, r), Num(1))
              && Binary("*", l, Num(0)) == Num(0) && Binary("*", l, next) == Binary("+", Binary("*", l, r), l)
              && Binary("-", Binary("+", l, r), r) == l
  {
    if l.Num? && r.Num? { assert l.n * (r.n + 1) == l.n * r.n + l.n; }
  }

  /** The functions: the first known value, and the distance from zero. */
  lemma FunctionsAre(vs: seq<Value>, n: int)
    requires n >= 0
    ensures forall i :: 0 <= i < |vs| && vs[i] != Null && (forall k :: 0 <= k < i ==> vs[k] == Null) ==>
              ApplyFunction("coalesce", vs) == vs[i]
    ensures ApplyFunction("coalesce", vs) == Null <==> forall k :: 0 <= k < |vs| ==> vs[k] == Null
    ensures ApplyFunction("abs", [Num(n)]) == ApplyFunction("abs", [Num(-n)]) == Num(n)
  {
    forall i | 0 <= i < |vs| && vs[i] != Null && (forall k :: 0 <= k < i ==> vs[k] == Null)
      ensures FirstKnown(vs) == vs[i]
    {
      FirstKnownIs(vs, i);
    }
    NothingKnown(vs);
  }

  function Eval(e: Expr, row: Row): Value {
    match e
    case Attr(_, pos) => Cell(row, pos)
    case Const(v) => v
    case Apply(op, args) => ApplyOp(op, EvalAll(args, row))
    case Call(name, agg, args) => if agg then Null else ApplyFunction(name, EvalAll(args, row))
    case Case(c, t, f) => if Eval(c, row) == Bool(true) then Eval(t, row) else Eval(f, row)
  }

  function EvalAll(es: seq<Expr>, row: Row): (vs: seq<Value>)
    ensures |vs| == |es|
    ensures forall i :: 0 <= i < |es| ==> vs[i] == Eval(es[i], row)
  {
    seq(|es|, i requires 0 <= i < |es| => Eval(es[i], row))
  }

  predicate Holds(cond: Expr, row: Row) {
    Eval(cond, row) == Bool(true)
  }

  predicate Unknown(cond: Expr, row: Row) {
    !Eval(cond, row).Bool?
  }

  function Negation(cond: Expr): (n: Expr)
    ensures forall row :: Holds(n, row) <==> !Holds(cond, row) && !Unknown(cond, row)
  {
    var n := Apply("NOT", [cond]);
    assert forall row :: EvalAll([cond], row) == [Eval(cond, row)];
    n
  }

  // ----- Queries -----

  datatype Query =
    | Table(name: string, attrs: seq<string>)
    | ConstRow(values: Row, attrs: seq<string>)
    | Project(exprs: seq<Expr>, input: Query, attrs: seq<string>)
    | Select(cond: Expr, input: Query)
    | Join(cond: Expr, left: Query, right: Query, attrs: seq<string>)
    | UnionAll(left: Query, right: Query, attrs: seq<string>)

  /** The attribute names of the result. */
  function Columns(q: Query): seq<string> {
    match q
    case Select(_, input) => Columns(input)
    case _ => q.attrs
  }

  type Contents = map<string, seq<Row>>

  function RowsOf(db: Contents, name: string): seq<Row> {
    if name in db then db[name] else []
  }

  function FlatMap(f: Row -> seq<Row>, s: seq<Row>): seq<Row> {
    if s == [] then [] else f(s[0]) + FlatMap(f, s[1..])
  }

  function Keep(cond: Expr): Row -> seq<Row> {
    r => if Holds(cond, r) then [r] else []
  }

  function Image(exprs: seq<Expr>): Row -> seq<Row> {
    r => [EvalAll(exprs, r)]
  }

  function Matching(cond: Expr, l: Row): Row -> seq<Row> {
    r => if Holds(cond, l + r) then [l + r] else []
  }

  function Joining(cond: Expr, rs: seq<Row>): Row -> seq<Row> {
    l => FlatMap(Matching(cond, l), rs)
  }

  function Rows(q: Query, db: Contents): seq<Row> {
    match q
    case Table(name, _) => RowsOf(db, name)
    case ConstRow(values, _) => [values]
    case Project(exprs, input, _) => FlatMap(Image(exprs), Rows(input, db))
    case Select(cond, input) => FlatMap(Keep(cond), Rows(input, db))
    case Join(cond, l, r, _) => FlatMap(Joining(cond, Rows(r, db)), Rows(l, db))
    case UnionAll(l, r, _) => Rows(l, db) + Rows(r, db)
  }

  lemma {:induction false} FlatMapIn(f: Row -> seq<Row>, s: seq<Row>, x: Row)
    ensures x in FlatMap(f, s) <==> exists r :: r in s && x in f(r)
  {
    if s != [] {
      FlatMapIn(f, s[1..], x);
      assert s == [s[0]] + s[1..];
    }
  }

  /** The rows of a selection, a projection, a join and a union. */
  ghost predicate RowOf(q: Query, db: Contents, x: Row) {
    match q
    case Table(name, _) => name in db && x in db[name]
    case ConstRow(values, _) => x == values
    case Project(exprs, input, _) => exists r :: r in Rows(input, db) && x == EvalAll(exprs, r)
    case Select(cond, input) => x in Rows(input, db) && Eval(cond, x) == Bool(true)
    case Join(cond, l, r, _) => exists a, b :: a in Rows(l, db) && b in Rows(r, db) && x == a + b && Eval(cond, x) == Bool(true)
    case UnionAll(l, r, _) => x in Rows(l, db) || x in Rows(r, db)
  }

  lemma RowsIn(q: Query, db: Contents, x: Row)
    ensures x in Rows(q, db) <==> RowOf(q, db, x)
  {
    hide Eval, EvalAll;
    match q
    case Table(_, _) =>
    case ConstRow(_, _) =>
    case Project(exprs, input, _) =>
      FlatMapIn(Image(exprs), Rows(input, db), x);
      assert forall r :: x in Image(exprs)(r) <==> x == EvalAll(exprs, r);
    case Select(cond, input) =>
      FlatMapIn(Keep(cond), Rows(input, db), x);
      assert forall r :: x in Keep(cond)(r) <==> x == r && Holds(cond, r);
    case Join(cond, l, r, _) =>
      var rs := Rows(r, db);
      FlatMapIn(Joining(cond, rs), Rows(l, db), x);
      forall a ensures x in Joining(cond, rs)(a) <==> exists b :: b in rs && x == a + b && Holds(cond, x) {
        FlatMapIn(Matching(cond, a), rs, x);
      }
    case UnionAll(_, _, _) =>
  }

  // ----- Bags -----

  lemma {:induction false} FlatMapSplit(f: Row -> seq<Row>, s: seq<Row>, t: seq<Row>)
    ensures FlatMap(f, s + t) == FlatMap(f, s) + FlatMap(f, t)
  {
    if s == [] {
      assert s + t == t;
    } else {
      assert (s + t)[1..] == s[1..] + t;
      FlatMapSplit(f, s[1..], t);
    }
  }

  lemma FlatMapStep(f: Row -> seq<Row>, s: seq<Row>)
    requires s != []
    ensures s == [s[0]] + s[1..] && s[0] in s && (forall r :: r in s[1..] ==> r in s)
    ensures multiset(s) == multiset{s[0]} + multiset(s[1..])
    ensures multiset(FlatMap(f, s)) == multiset(f(s[0])) + multiset(FlatMap(f, s[1..]))
  {
    assert s == [s[0]] + s[1..];
  }

  /** Any row may be taken out first. */
  lemma FlatMapAt(f: Row -> seq<Row>, s: seq<Row>, k: nat)
    requires k < |s|
    ensures var rest := s[..k] + s[k + 1..];
      && multiset(rest) == multiset(s) - multiset{s[k]}
      && multiset(FlatMap(f, s)) == multiset(f(s[k])) + multiset(FlatMap(f, rest))
  {
    var front, back := s[..k], s[k + 1..];
    assert s[k..] == [s[k]] + back;
    assert s == front + s[k..];
    FlatMapSplit(f, front, s[k..]);
    FlatMapSplit(f, front, back);
    assert s[k..][1..] == back;
  }

  /** The images of a bag of rows do not depend on the order of the rows. */
  lemma {:induction false} FlatMapBag(f: Row -> seq<Row>, s: seq<Row>, t: seq<Row>)
    requires multiset(s) == multiset(t)
    ensures multiset(FlatMap(f, s)) == multiset(FlatMap(f, t))
  {
    if s == [] {
      assert |t| == |multiset(t)| == 0;
    } else {
      hide FlatMap;
      FlatMapStep(f, s);
      assert s[0] in multiset(s) && s[0] in multiset(t);
      var k :| 0 <= k < |t| && t[k] == s[0];
      FlatMapAt(f, t, k);
      FlatMapBag(f, s[1..], t[..k] + t[k + 1..]);
    }
  }

  /** Pointwise equal images give equal bags. */
  lemma {:induction false} FlatMapPointwise(f: Row -> seq<Row>, g: Row -> seq<Row>, s: seq<Row>)
    requires forall r :: r in s ==> multiset(f(r)) == multiset(g(r))
    ensures multiset(FlatMap(f, s)) == multiset(FlatMap(g, s))
  {
    if s != [] {
      FlatMapStep(f, s);
      FlatMapStep(g, s);
      FlatMapPointwise(f, g, s[1..]);
    }
  }

  ghost predicate SameBags(a: Contents, b: Contents) {
    forall name :: multiset(RowsOf(a, name)) == multiset(RowsOf(b, name))
  }

  /** A query maps equal bags to equal bags. */
  lemma {:induction false} RowsBag(q: Query, a: Contents, b: Contents)
    requires SameBags(a, b)
    ensures multiset(Rows(q, a)) == multiset(Rows(q, b))
  {
    match q
    case Table(_, _) =>
    case ConstRow(_, _) =>
    case Project(exprs, input, _) =>
      RowsBag(input, a, b);
      FlatMapBag(Image(exprs), Rows(input, a), Rows(input, b));
    case Select(cond, input) =>
      RowsBag(input, a, b);
      FlatMapBag(Keep(cond), Rows(input, a), Rows(input, b));
    case Join(cond, l, r, _) =>
      RowsBag(l, a, b);
      RowsBag(r, a, b);
      var ra, rb, la, lb := Rows(r, a), Rows(r, b), Rows(l, a), Rows(l, b);
      FlatMapBag(Joining(cond, ra), la, lb);
      forall x | x in lb ensures multiset(Joining(cond, ra)(x)) == multiset(Joining(cond, rb)(x)) {
        FlatMapBag(Matching(cond, x), ra, rb);
      }
      FlatMapPointwise(Joining(cond, ra), Joining(cond, rb), lb);
    case UnionAll(l, r, _) =>
      RowsBag(l, a, b);
      RowsBag(r, a, b);
  }

  // ----- Replacing table accesses by queries -----

  function Substitute(q: Query, env: map<string, Query>): Query {
    match q
    case Table(name, _) => if name in env then env[name] else q
    case ConstRow(_, _) => q
    case Project(exprs, input, attrs) => Project(exprs, Substitute(input, env), attrs)
    case Select(cond, input) => Select(cond, Substitute(input, env))
    case Join(cond, l, r, attrs) => Join(cond, Substitute(l, env), Substitute(r, env), attrs)
    case UnionAll(l, r, attrs) => UnionAll(Substitute(l, env), Substitute(r, env), attrs)
  }

  /** The contents in which the substituted tables hold what their queries return. */
  function Overlay(env: map<string, Query>, db: Contents): (r: Contents)
    ensures forall name :: RowsOf(r, name) == if name in env then Rows(env[name], db) else RowsOf(db, name)
  {
    map name | name in env.Keys + db.Keys :: if name in env then Rows(env[name], db) else db[name]
  }

  lemma {:induction false} SubstituteRows(q: Query, env: map<string, Query>, db: Contents)
    ensures Rows(Substitute(q, env), db) == Rows(q, Overlay(env, db))
  {
    match q
    case Table(_, _) =>
    case ConstRow(_, _) =>
    case Project(_, input, _) => SubstituteRows(input, env, db);
    case Select(_, input) => SubstituteRows(input, env, db);
    case Join(_, l, r, _) => SubstituteRows(l, env, db); SubstituteRows(r, env, db);
    case UnionAll(l, r, _) => SubstituteRows(l, env, db); SubstituteRows(r, env, db);
  }
}
