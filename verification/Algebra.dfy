/** Relational algebra operators over bags of rows.  A bag is represented by a sequence of rows, so
    that multiplicities are kept; attributes are addressed by position. */
module Algebra {
  import opened Names

  datatype Value = Num(n: int) | Text(s: string)

  type Row = seq<Value>

  type Database = map<string, seq<Row>>

  function Rows(db: Database, rel: string): seq<Row> {
    if rel in db then db[rel] else []
  }

  function LexLess(s: string, t: string): bool {
    t != "" && (s == "" || s[0] < t[0] || (s[0] == t[0] && LexLess(s[1..], t[1..])))
  }

  function Less(a: Value, b: Value): bool {
    match (a, b)
    case (Num(m), Num(n)) => m < n
    case (Text(s), Text(t)) => LexLess(s, t)
    case (Num(_), Text(_)) => true
    case (Text(_), Num(_)) => false
  }

  function Compare(op: string, a: Value, b: Value): bool {
    if op == "=" then a == b
    else if op == "!=" then a != b
    else if op == "<" then Less(a, b)
    else if op == ">" then Less(b, a)
    else if op == "<=" then !Less(b, a)
    else !Less(a, b)
  }

  function ApplyOp(op: string, a: Value, b: Value): Value {
    match (a, b)
    case (Num(m), Num(n)) => if op == "+" then Num(m + n) else if op == "-" then Num(m - n) else Num(m * n)
    case (Text(s), Text(t)) => Text(s + t)
    case _ => a
  }

  function Sum(vals: seq<Value>): int {
    if vals == [] then 0 else Sum(vals[..|vals| - 1]) + match vals[|vals| - 1] case Num(n) => n case Text(_) => 0
  }

  function Least(vals: seq<Value>): Value
    requires vals != []
  {
    if |vals| == 1 then vals[0]
    else var m := Least(vals[..|vals| - 1]); if Less(vals[|vals| - 1], m) then vals[|vals| - 1] else m
  }

  function Greatest(vals: seq<Value>): Value
    requires vals != []
  {
    if |vals| == 1 then vals[0]
    else var m := Greatest(vals[..|vals| - 1]); if Less(m, vals[|vals| - 1]) then vals[|vals| - 1] else m
  }

  /** An aggregation function applied to the bag of its inputs. */
  function ApplyAgg(fn: string, vals: seq<Value>): Value {
    if fn == "count" then Num(|vals|)
    else if fn == "sum" then Num(Sum(vals))
    else if vals == [] then Num(0)
    else if fn == "avg" then Num(Sum(vals) / |vals|)
    else if fn == "max" then Greatest(vals)
    else Least(vals)
  }

  /** An expression over the columns of an operator's inputs: `Ref(i, p)` is column `p` of input `i`. */
  datatype Scalar =
    | Ref(side: nat, pos: int)
    | Lit(v: Value)
    | App(op: string, left: Scalar, right: Scalar)
    | AggCall(fn: string, arg: Scalar)

  datatype Comparison = Comparison(op: string, left: Scalar, right: Scalar)

  datatype Op =
    | TableAccess(rel: string, arity: nat, idb: bool)
    | ConstRel(values: Row, names: seq<string>)
    | Projection(exprs: seq<Scalar>, input: Op, names: seq<string>)
    | Selection(cond: seq<Comparison>, input: Op)
    | Join(cond: seq<Comparison>, left: Op, right: Op, names: seq<string>)
    | Union(left: Op, right: Op, names: seq<string>)
    | Difference(left: Op, right: Op, names: seq<string>)
    | DupRemoval(input: Op)
    | Aggregation(aggs: seq<Scalar>, groupBy: seq<Scalar>, input: Op, names: seq<string>)

  function DefaultNames(n: nat): (names: seq<string>)
    ensures |names| == n
  {
    seq(n, i requires 0 <= i < n => "A" + Dec(i))
  }

  /** The attribute names of an operator's result. */
  function Schema(op: Op): seq<string> {
    match op
    case TableAccess(_, arity, _) => DefaultNames(arity)
    case Selection(_, input) => Schema(input)
    case DupRemoval(input) => Schema(input)
    case _ => op.names
  }

  function Cell(row: Row, pos: int): Value {
    if 0 <= pos < |row| then row[pos] else Num(0)
  }

  function EvalScalar(e: Scalar, l: Row, r: Row): Value {
    match e
    case Ref(side, pos) => Cell(if side == 0 then l else r, pos)
    case Lit(v) => v
    case App(op, a, b) => ApplyOp(op, EvalScalar(a, l, r), EvalScalar(b, l, r))
    case AggCall(_, _) => Num(0)
  }

  predicate Satisfies(c: Comparison, l: Row, r: Row) {
    Compare(c.op, EvalScalar(c.left, l, r), EvalScalar(c.right, l, r))
  }

  predicate Holds(cond: seq<Comparison>, l: Row, r: Row) {
    forall c :: c in cond ==> Satisfies(c, l, r)
  }

  function EvalAll(exprs: seq<Scalar>, row: Row): (vals: Row)
    ensures |vals| == |exprs|
    ensures forall i :: 0 <= i < |exprs| ==> vals[i] == EvalScalar(exprs[i], row, [])
  {
    seq(|exprs|, i requires 0 <= i < |exprs| => EvalScalar(exprs[i], row, []))
  }

  function ProjectRows(exprs: seq<Scalar>, rows: seq<Row>): (r: seq<Row>)
    ensures |r| == |rows|
    ensures forall i :: 0 <= i < |rows| ==> r[i] == EvalAll(exprs, rows[i])
  {
    if rows == [] then [] else [EvalAll(exprs, rows[0])] + ProjectRows(exprs, rows[1..])
  }

  function SelectRows(cond: seq<Comparison>, rows: seq<Row>): seq<Row> {
    if rows == [] then []
    else (if Holds(cond, rows[0], []) then [rows[0]] else []) + SelectRows(cond, rows[1..])
  }

  function JoinRow(cond: seq<Comparison>, l: Row, right: seq<Row>): seq<Row> {
    if right == [] then []
    else (if Holds(cond, l, right[0]) then [l + right[0]] else []) + JoinRow(cond, l, right[1..])
  }

  function JoinRows(cond: seq<Comparison>, left: seq<Row>, right: seq<Row>): seq<Row> {
    if left == [] then [] else JoinRow(cond, left[0], right) + JoinRows(cond, left[1..], right)
  }

  /** The distinct elements, in the order of their first occurrences. */
  function Distinct<T(==)>(s: seq<T>): seq<T> {
    if s == [] then []
    else
      var front, last := s[..|s| - 1], s[|s| - 1];
      if last in front then Distinct(front) else Distinct(front) + [last]
  }

  /** Set difference, the meaning of MINUS. */
  function Minus(left: seq<Row>, right: seq<Row>): seq<Row> {
    if left == [] then []
    else
      var front, last := left[..|left| - 1], left[|left| - 1];
      if last in front || last in right then Minus(front, right) else Minus(front, right) + [last]
  }

  function RowsOfGroup(groupBy: seq<Scalar>, key: Row, rows: seq<Row>): seq<Row> {
    if rows == [] then []
    else (if EvalAll(groupBy, rows[0]) == key then [rows[0]] else []) + RowsOfGroup(groupBy, key, rows[1..])
  }

  function Column(e: Scalar, rows: seq<Row>): (vals: seq<Value>)
    ensures |vals| == |rows|
    ensures forall i :: 0 <= i < |rows| ==> vals[i] == EvalScalar(e, rows[i], [])
  {
    seq(|rows|, i requires 0 <= i < |rows| => EvalScalar(e, rows[i], []))
  }

  function AggValue(call: Scalar, rows: seq<Row>): Value {
    if call.AggCall? then ApplyAgg(call.fn, Column(call.arg, rows)) else Num(0)
  }

  function AggValues(aggs: seq<Scalar>, rows: seq<Row>): (r: Row)
    ensures |r| == |aggs| && forall i :: 0 <= i < |aggs| ==> r[i] == AggValue(aggs[i], rows)
  {
    seq(|aggs|, i requires 0 <= i < |aggs| => AggValue(aggs[i], rows))
  }

  function GroupRow(aggs: seq<Scalar>, groupBy: seq<Scalar>, key: Row, rows: seq<Row>): (r: Row) {
    AggValues(aggs, RowsOfGroup(groupBy, key, rows)) + key
  }

  function GroupRows(aggs: seq<Scalar>, groupBy: seq<Scalar>, keys: seq<Row>, rows: seq<Row>): (r: seq<Row>)
    ensures |r| == |keys|
    ensures forall i :: 0 <= i < |keys| ==> r[i] == GroupRow(aggs, groupBy, keys[i], rows)
  {
    seq(|keys|, i requires 0 <= i < |keys| => GroupRow(aggs, groupBy, keys[i], rows))
  }

  /** One row per group; without group-by expressions there is a single group, empty or not. */
  function AggregateRows(aggs: seq<Scalar>, groupBy: seq<Scalar>, rows: seq<Row>): seq<Row> {
    var keys := if groupBy == [] then [[]] else Distinct(ProjectRows(groupBy, rows));
    GroupRows(aggs, groupBy, keys, rows)
  }

  function Eval(op: Op, db: Database): seq<Row> {
    match op
    case TableAccess(rel, _, _) => Rows(db, rel)
    case ConstRel(values, _) => [values]
    case Projection(exprs, input, _) => ProjectRows(exprs, Eval(input, db))
    case Selection(cond, input) => SelectRows(cond, Eval(input, db))
    case Join(cond, left, right, _) => JoinRows(cond, Eval(left, db), Eval(right, db))
    case Union(left, right, _) => Eval(left, db) + Eval(right, db)
    case Difference(left, right, _) => Minus(Eval(left, db), Eval(right, db))
    case DupRemoval(input) => Distinct(Eval(input, db))
    case Aggregation(aggs, groupBy, input, _) => AggregateRows(aggs, groupBy, Eval(input, db))
  }

  // ----- Values -----

  /** Texts are ordered by the first character in which they differ, prefixes first. */
  ghost predicate TextBefore(s: string, t: string, k: nat) {
    && k <= |s| && k < |t| && s[..k] == t[..k]
    && (k == |s| || s[k] < t[k])
  }

  lemma {:induction false} LexLessIff(s: string, t: string)
    ensures LexLess(s, t) <==> exists k: nat :: TextBefore(s, t, k)
  {
    if t != "" {
      if s == "" || s[0] < t[0] {
        assert TextBefore(s, t, 0);
      } else if s[0] == t[0] {
        LexLessIff(s[1..], t[1..]);
        if k: nat :| TextBefore(s[1..], t[1..], k) {
          assert s[..k + 1] == [s[0]] + s[1..][..k] && t[..k + 1] == [t[0]] + t[1..][..k];
          assert TextBefore(s, t, k + 1);
        }
      }
      if k: nat :| TextBefore(s, t, k) && k > 0 {
        assert s[..k][0] == s[0] && t[..k][0] == t[0];
        assert s[1..][..k - 1] == s[..k][1..] && t[1..][..k - 1] == t[..k][1..];
        assert TextBefore(s[1..], t[1..], k - 1);
      }
    }
  }

  lemma {:induction false} LexOrder(s: string, t: string, u: string)
    ensures !LexLess(s, s) && (LexLess(s, t) || s == t || LexLess(t, s)) && !(LexLess(s, t) && LexLess(t, s))
    ensures LexLess(s, t) && LexLess(t, u) ==> LexLess(s, u)
  {
    if s != "" {
      LexOrder(s[1..], if t == "" then "" else t[1..], if u == "" then "" else u[1..]);
      if t != "" { assert s == [s[0]] + s[1..] && t == [t[0]] + t[1..]; }
    }
  }

  /** The order of values is total: numbers by size, before texts. */
  lemma LessOrder(a: Value, b: Value, c: Value)
    ensures !Less(a, a) && (Less(a, b) || a == b || Less(b, a)) && !(Less(a, b) && Less(b, a))
    ensures Less(a, b) && Less(b, c) ==> Less(a, c)
    ensures a.Num? && b.Num? ==> (Less(a, b) <==> a.n < b.n)
    ensures a.Num? && b.Text? ==> Less(a, b)
  {
    if a.Text? { LexOrder(a.s, if b.Text? then b.s else "", if c.Text? then c.s else ""); }
  }

  /** The six comparisons in terms of the order; exactly one of `<`, `=` and `>` holds. */
  lemma ComparisonLaws(a: Value, b: Value)
    ensures Compare("<", a, b) <==> Less(a, b)
    ensures Compare("=", a, b) <==> a == b
    ensures Compare("!=", a, b) <==> !Compare("=", a, b)
    ensures Compare("<=", a, b) <==> Compare("<", a, b) || Compare("=", a, b)
    ensures Compare(">=", a, b) <==> Compare("<=", b, a)
    ensures Compare(">", a, b) <==> Compare("<", b, a)
  {
    LessOrder(a, b, a);
  }

  /** Addition by successors, multiplication by repeated addition, subtraction as the inverse of addition; texts are
      joined. */
  lemma ArithmeticLaws(m: int, n: int, s: string, t: string)
    ensures ApplyOp("+", Num(m), Num(0)) == Num(m) && ApplyOp("*", Num(m), Num(0)) == Num(0)
    ensures ApplyOp("+", Num(m), ApplyOp("+", Num(n), Num(1))) == ApplyOp("+", ApplyOp("+", Num(m), Num(n)), Num(1))
    ensures ApplyOp("*", Num(m), ApplyOp("+", Num(n), Num(1))) == ApplyOp("+", ApplyOp("*", Num(m), Num(n)), Num(m))
    ensures ApplyOp("-", ApplyOp("+", Num(m), Num(n)), Num(n)) == Num(m)
    ensures ApplyOp("+", Num(m), Num(1)) == Num(m + 1)
    ensures var st := ApplyOp("||", Text(s), Text(t)); st.Text? && st.s[..|s|] == s && st.s[|s|..] == t
  {
    assert m * (n + 1) == m * n + m;
  }

  function Amount(v: Value): int {
    if v.Num? then v.n else 0
  }

  lemma {:induction false} SumConcat(a: seq<Value>, b: seq<Value>)
    ensures Sum(a + b) == Sum(a) + Sum(b)
  {
    if b == [] {
      assert a + b == a;
    } else {
      assert (a + b)[..|a + b| - 1] == a + b[..|b| - 1];
      SumConcat(a, b[..|b| - 1]);
    }
  }

  /** Taking one value out takes its amount out. */
  lemma SumWithout(vals: seq<Value>, i: nat)
    requires i < |vals|
    ensures Sum(vals) == Amount(vals[i]) + Sum(vals[..i] + vals[i + 1..])
  {
    assert vals == vals[..i] + ([vals[i]] + vals[i + 1..]);
    SumConcat(vals[..i], [vals[i]] + vals[i + 1..]);
    SumConcat([vals[i]], vals[i + 1..]);
    SumConcat(vals[..i], vals[i + 1..]);
    assert [vals[i]][..0] == [];
  }

  lemma {:induction false} SumBag(a: seq<Value>, b: seq<Value>)
    requires multiset(a) == multiset(b)
    ensures Sum(a) == Sum(b) && |a| == |b|
  {
    hide *;
    assert |a| == |multiset(a)| && |b| == |multiset(b)|;
    if a != [] {
      assert a[0] in multiset(b);
      var i :| 0 <= i < |b| && b[i] == a[0];
      TakenOut(a, 0);
      TakenOut(b, i);
      SumWithout(a, 0);
      SumWithout(b, i);
      var restA, restB := a[..0] + a[1..], b[..i] + b[i + 1..];
      assert |restA| == |a| - 1 && multiset(restA) == multiset(restB);
      SumBag(restA, restB);
    } else {
      assert b == [];
    }
  }

  lemma TakenOut(vals: seq<Value>, i: nat)
    requires i < |vals|
    ensures multiset(vals[..i] + vals[i + 1..]) == multiset(vals) - multiset{vals[i]}
  {
    assert vals == vals[..i] + [vals[i]] + vals[i + 1..];
  }

  lemma {:induction false} LeastIs(vals: seq<Value>)
    requires vals != []
    ensures Least(vals) in vals && forall v :: v in vals ==> !Less(v, Least(vals))
  {
    var front, last := vals[..|vals| - 1], vals[|vals| - 1];
    assert vals == front + [last];
    LessOrder(last, last, last);
    if front != [] {
      LeastIs(front);
      forall v | v in front ensures !Less(v, Least(vals)) { LessOrder(v, last, Least(front)); }
    }
  }

  lemma {:induction false} GreatestIs(vals: seq<Value>)
    requires vals != []
    ensures Greatest(vals) in vals && forall v :: v in vals ==> !Less(Greatest(vals), v)
  {
    var front, last := vals[..|vals| - 1], vals[|vals| - 1];
    assert vals == front + [last];
    LessOrder(last, last, last);
    if front != [] {
      GreatestIs(front);
      forall v | v in front ensures !Less(Greatest(vals), v) { LessOrder(Greatest(front), last, v); }
    }
  }

  /** An aggregate depends on the bag of its inputs only. */
  lemma AggregateBag(fn: string, a: seq<Value>, b: seq<Value>)
    requires multiset(a) == multiset(b)
    ensures ApplyAgg(fn, a) == ApplyAgg(fn, b)
  {
    SumBag(a, b);
    if a != [] {
      LeastIs(a);
      LeastIs(b);
      GreatestIs(a);
      GreatestIs(b);
      assert Least(a) in multiset(b) && Least(b) in multiset(a) && Greatest(a) in multiset(b) && Greatest(b) in multiset(a);
      LessOrder(Least(a), Least(b), Least(a));
      LessOrder(Greatest(a), Greatest(b), Greatest(a));
    }
  }

  /** The number of values, their extremes, and the rounded quotient of their sum and number. */
  lemma AggregatesAre(vals: seq<Value>)
    requires vals != []
    ensures ApplyAgg("count", vals) == Num(|vals|)
    ensures var low, high := ApplyAgg("min", vals), ApplyAgg("max", vals);
      low in vals && high in vals && forall v :: v in vals ==> !Less(v, low) && !Less(high, v)
    ensures var sum, avg := ApplyAgg("sum", vals), ApplyAgg("avg", vals);
      sum.Num? && avg.Num? && avg.n * |vals| <= sum.n < (avg.n + 1) * |vals|
  {
    hide Sum, Least, Greatest, Less;
    LeastIs(vals);
    GreatestIs(vals);
  }

  lemma {:induction false} DistinctProps<T>(s: seq<T>)
    ensures forall x :: x in Distinct(s) <==> x in s
    ensures forall i, j :: 0 <= i < j < |Distinct(s)| ==> Distinct(s)[i] != Distinct(s)[j]
  {
    if s != [] {
      DistinctProps(s[..|s| - 1]);
      assert s == s[..|s| - 1] + [s[|s| - 1]];
    }
  }

  lemma {:induction false} MinusProps(left: seq<Row>, right: seq<Row>)
    ensures forall x :: x in Minus(left, right) <==> x in left && x !in right
    ensures forall i, j :: 0 <= i < j < |Minus(left, right)| ==> Minus(left, right)[i] != Minus(left, right)[j]
  {
    if left != [] {
      MinusProps(left[..|left| - 1], right);
      assert left == left[..|left| - 1] + [left[|left| - 1]];
    }
  }
}
