/** SELECT blocks with aggregation: what they mean on groups of rows, and their two-phase rewriting into
    expressions over the output of a projection and of an aggregation operator. */
module Grouping {
  import opened Sql

  // ----- Meaning -----

  /** The value of an aggregate over the argument lists of all rows of a group. */
  function Aggregate(name: string, args: seq<seq<Value>>): Value {
    if name == "count" then Num(Count(args))
    else if name == "sum" then Total(args)
    else Least(args)
  }

  function Count(args: seq<seq<Value>>): nat {
    if args == [] then 0 else (if args[0] == [] || args[0][0] != Null then 1 else 0) + Count(args[1..])
  }

  /** Sum of the known numbers, or NULL if there are none. */
  function Total(args: seq<seq<Value>>): Value {
    if args == [] then Null
    else
      var rest := Total(args[1..]);
      if args[0] == [] || !args[0][0].Num? then rest
      else if rest == Null then args[0][0]
      else Arith("+", args[0][0], rest)
  }

  function Least(args: seq<seq<Value>>): Value {
    if args == [] then Null
    else
      var rest := Least(args[1..]);
      if args[0] == [] || !args[0][0].Num? then rest
      else if rest.Num? && rest.n <= args[0][0].n then rest
      else args[0][0]
  }

  /** A number that counts towards a sum or a minimum. */
  predicate IsKnown(arg: seq<Value>) {
    arg != [] && arg[0].Num?
  }

  function SumKnown(args: seq<seq<Value>>): int {
    if args == [] then 0 else (if IsKnown(args[0]) then args[0][0].n else 0) + SumKnown(args[1..])
  }

  lemma {:induction false} CountConcat(a: seq<seq<Value>>, b: seq<seq<Value>>)
    ensures Count(a + b) == Count(a) + Count(b) && SumKnown(a + b) == SumKnown(a) + SumKnown(b)
  {
    if a == [] {
      assert a + b == b;
    } else {
      assert (a + b)[1..] == a[1..] + b;
      CountConcat(a[1..], b);
    }
  }

  /** An argument list counts unless its first value is NULL. */
  lemma CountOne(arg: seq<Value>)
    ensures Count([arg]) == if arg != [] && arg[0] == Null then 0 else 1
    ensures SumKnown([arg]) == if IsKnown(arg) then arg[0].n else 0
  {
    assert [arg][1..] == [];
  }

  /** Without known numbers there is no sum and no minimum; otherwise the sum is that of the known numbers and the
      minimum is the least of them. */
  lemma {:induction false} TotalIs(args: seq<seq<Value>>)
    ensures Total(args) == (if exists i :: 0 <= i < |args| && IsKnown(args[i]) then Num(SumKnown(args)) else Null)
    ensures (forall i :: 0 <= i < |args| ==> !IsKnown(args[i])) ==> SumKnown(args) == 0
  {
    if args != [] {
      TotalIs(args[1..]);
      if i :| 0 <= i < |args[1..]| && IsKnown(args[1..][i]) { assert IsKnown(args[i + 1]); }
      if forall i :: 0 <= i < |args| ==> !IsKnown(args[i]) {
        forall i | 0 <= i < |args[1..]| ensures !IsKnown(args[1..][i]) { assert !IsKnown(args[i + 1]); }
      }
      if i :| 0 < i < |args| && IsKnown(args[i]) { assert IsKnown(args[1..][i - 1]); }
    }
  }

  lemma {:induction false} LeastIs(args: seq<seq<Value>>)
    ensures (exists i :: 0 <= i < |args| && IsKnown(args[i])) <==> Least(args) != Null
    ensures Least(args) == Null ||
      (Least(args).Num? && exists i :: 0 <= i < |args| && IsKnown(args[i]) && args[i][0] == Least(args))
    ensures Least(args).Num? ==> forall i :: 0 <= i < |args| && IsKnown(args[i]) ==> Least(args).n <= args[i][0].n
  {
    if args != [] {
      var rest := args[1..];
      LeastIs(rest);
      forall i | 0 <= i < |rest| ensures rest[i] == args[i + 1] {}
      if i :| 0 <= i < |rest| && IsKnown(rest[i]) && rest[i][0] == Least(rest) { assert IsKnown(args[i + 1]); }
      forall i | 0 < i < |args| ensures args[i] == rest[i - 1] {}
    }
  }

  /** The aggregates by name: a count, a sum and a minimum. */
  lemma AggregatesAre(args: seq<seq<Value>>)
    ensures Aggregate("count", args) == Num(Count(args)) && Count(args) <= |args|
    ensures if exists i :: 0 <= i < |args| && IsKnown(args[i])
            then Aggregate("sum", args) == Num(SumKnown(args)) && Aggregate("min", args).Num?
            else Aggregate("sum", args) == Null == Aggregate("min", args)
    ensures forall i :: 0 <= i < |args| && IsKnown(args[i]) ==> Aggregate("min", args).n <= args[i][0].n
    ensures Count(args) == |args| <==>
              forall i :: 0 <= i < |args| ==> args[i] == [] || args[i][0] != Null
  {
    TotalIs(args);
    LeastIs(args);
    AllCounted(args);
  }

  lemma {:induction false} AllCounted(args: seq<seq<Value>>)
    ensures Count(args) <= |args|
    ensures Count(args) == |args| <==> forall i :: 0 <= i < |args| ==> args[i] == [] || args[i][0] != Null
  {
    if args != [] {
      AllCounted(args[1..]);
      assert forall i :: 0 < i < |args| ==> args[i] == args[1..][i - 1];
    }
  }

  function ArgRows(args: seq<Expr>, rows: seq<Row>): (r: seq<seq<Value>>)
    ensures |r| == |rows| && forall i :: 0 <= i < |rows| ==> r[i] == EvalAll(args, rows[i])
  {
    seq(|rows|, i requires 0 <= i < |rows| => EvalAll(args, rows[i]))
  }

  predicate IsAgg(e: Expr) {
    e.Call? && e.agg
  }

  function IndexOf(es: seq<Expr>, e: Expr): (i: nat)
    requires e in es
    ensures i < |es| && es[i] == e && e !in es[..i]
  {
    if es[0] == e then 0
    else
      assert es == [es[0]] + es[1..];
      var i := IndexOf(es[1..], e);
      assert es[..i + 1] == [es[0]] + es[1..][..i];
      i + 1
  }

  /** The value of a SELECT or HAVING expression on a group with the given key: aggregates range over the
      rows of the group, grouping expressions have the value of the key. */
  function GroupValue(e: Expr, gb: seq<Expr>, rows: seq<Row>, key: Row): Value
    requires |key| == |gb|
  {
    if IsAgg(e) then Aggregate(e.name, ArgRows(e.args, rows))
    else if e in gb then key[IndexOf(gb, e)]
    else
      match e
      case Attr(_, _) => Null
      case Const(v) => v
      case Apply(op, args) => ApplyOp(op, GroupValues(args, gb, rows, key))
      case Call(name, _, args) => ApplyFunction(name, GroupValues(args, gb, rows, key))
      case Case(c, t, f) =>
        if GroupValue(c, gb, rows, key) == Bool(true) then GroupValue(t, gb, rows, key) else GroupValue(f, gb, rows, key)
  }

  function GroupValues(es: seq<Expr>, gb: seq<Expr>, rows: seq<Row>, key: Row): (vs: seq<Value>)
    requires |key| == |gb|
    ensures |vs| == |es| && forall i :: 0 <= i < |es| ==> vs[i] == GroupValue(es[i], gb, rows, key)
  {
    seq(|es|, i requires 0 <= i < |es| => GroupValue(es[i], gb, rows, key))
  }

  /** `searchNonGroupByRefs`: outside aggregates and grouping expressions there is no attribute reference. */
  predicate Accepted(e: Expr, gb: seq<Expr>) {
    if IsAgg(e) || e in gb then true
    else
      match e
      case Attr(_, _) => false
      case Const(_) => true
      case Apply(_, args) => forall i :: 0 <= i < |args| ==> Accepted(args[i], gb)
      case Call(_, _, args) => forall i :: 0 <= i < |args| ==> Accepted(args[i], gb)
      case Case(c, t, f) => Accepted(c, gb) && Accepted(t, gb) && Accepted(f, gb)
  }

  /** Following the path leads to an attribute reference without passing an aggregate or a grouping expression. */
  ghost predicate StrayAt(e: Expr, gb: seq<Expr>, path: seq<nat>)
    decreases |path|
  {
    && !IsAgg(e) && e !in gb
    && if path == [] then e.Attr?
       else path[0] < |Operands(e)| && StrayAt(Operands(e)[path[0]], gb, path[1..])
  }

  ghost predicate HasStray(e: Expr, gb: seq<Expr>) {
    exists path :: StrayAt(e, gb, path)
  }

  /** An expression is accepted iff it has no stray reference. */
  lemma {:induction false} AcceptedIff(e: Expr, gb: seq<Expr>)
    ensures Accepted(e, gb) <==> !HasStray(e, gb)
    decreases e
  {
    hide *;
    if IsAgg(e) || e in gb {
      NothingStray(e, gb);
    } else {
      forall i | 0 <= i < |Operands(e)| ensures Accepted(Operands(e)[i], gb) <==> !HasStray(Operands(e)[i], gb) {
        assert Operands(e)[i] in Operands(e);
        AcceptedIff(Operands(e)[i], gb);
      }
      AcceptedParts(e, gb);
      StrayParts(e, gb);
    }
  }

  lemma NothingStray(e: Expr, gb: seq<Expr>)
    requires IsAgg(e) || e in gb
    ensures Accepted(e, gb) && !HasStray(e, gb)
  {
  }

  lemma AcceptedParts(e: Expr, gb: seq<Expr>)
    requires !IsAgg(e) && e !in gb
    ensures Accepted(e, gb) <==> !e.Attr? && forall i :: 0 <= i < |Operands(e)| ==> Accepted(Operands(e)[i], gb)
  {
    match e
    case Attr(_, _) =>
    case Const(_) =>
    case Apply(_, args) => assert Operands(e) == args;
    case Call(_, _, args) => assert Operands(e) == args;
    case Case(c, t, f) =>
      var es := Operands(e);
      assert |es| == 3 && es[0] == c && es[1] == t && es[2] == f;
  }

  lemma StrayParts(e: Expr, gb: seq<Expr>)
    requires !IsAgg(e) && e !in gb
    ensures HasStray(e, gb) <==> e.Attr? || exists i :: 0 <= i < |Operands(e)| && HasStray(Operands(e)[i], gb)
  {
    hide Operands;
    if e.Attr? {
      assert StrayAt(e, gb, []);
    } else if path :| StrayAt(e, gb, path) {
      assert StrayAt(Operands(e)[path[0]], gb, path[1..]);
    }
    if i :| 0 <= i < |Operands(e)| && HasStray(Operands(e)[i], gb) {
      var path :| StrayAt(Operands(e)[i], gb, path);
      assert ([i as nat] + path)[1..] == path;
      assert StrayAt(e, gb, [i as nat] + path);
    }
  }

  // ----- Collecting -----

  /** `visitAggregFunctionCall`: aggregates in traversal order, not looking inside aggregates. */
  function AggsOf(e: Expr): seq<Expr> {
    if IsAgg(e) then [e]
    else
      match e
      case Attr(_, _) => []
      case Const(_) => []
      case Apply(_, args) => AggsOfAll(args)
      case Call(_, _, args) => AggsOfAll(args)
      case Case(c, t, f) => AggsOf(c) + AggsOf(t) + AggsOf(f)
  }

  function AggsOfAll(es: seq<Expr>): seq<Expr> {
    if es == [] then [] else AggsOf(es[0]) + AggsOfAll(es[1..])
  }

  /** Following the path leads to this aggregate without passing another one. */
  ghost predicate AggAt(e: Expr, path: seq<nat>, a: Expr)
    decreases |path|
  {
    if path == [] then IsAgg(e) && e == a
    else !IsAgg(e) && path[0] < |Operands(e)| && AggAt(Operands(e)[path[0]], path[1..], a)
  }

  ghost predicate HasAggregate(e: Expr, a: Expr) {
    exists path :: AggAt(e, path, a)
  }

  /** Exactly the outermost aggregates are collected. */
  lemma {:induction false} AggsOfIff(e: Expr, a: Expr)
    ensures a in AggsOf(e) <==> HasAggregate(e, a)
    decreases e
  {
    hide *;
    if IsAgg(e) {
      OnlyItself(e, a);
    } else {
      forall i | 0 <= i < |Operands(e)| ensures a in AggsOf(Operands(e)[i]) <==> HasAggregate(Operands(e)[i], a) {
        assert Operands(e)[i] in Operands(e);
        AggsOfIff(Operands(e)[i], a);
      }
      AggsOfParts(e, a);
      AggregateParts(e, a);
    }
  }

  lemma OnlyItself(e: Expr, a: Expr)
    requires IsAgg(e)
    ensures AggsOf(e) == [e] && (HasAggregate(e, a) <==> a == e)
  {
    if a == e { assert AggAt(e, [], a); }
  }

  lemma AggregateParts(e: Expr, a: Expr)
    requires !IsAgg(e)
    ensures HasAggregate(e, a) <==> exists i :: 0 <= i < |Operands(e)| && HasAggregate(Operands(e)[i], a)
  {
    hide Operands;
    if path :| AggAt(e, path, a) {
      assert AggAt(Operands(e)[path[0]], path[1..], a);
    }
    if i :| 0 <= i < |Operands(e)| && HasAggregate(Operands(e)[i], a) {
      var path :| AggAt(Operands(e)[i], path, a);
      assert ([i as nat] + path)[1..] == path;
      assert AggAt(e, [i as nat] + path, a);
    }
  }

  lemma AggsOfParts(e: Expr, a: Expr)
    requires !IsAgg(e)
    ensures a in AggsOf(e) <==> exists i :: 0 <= i < |Operands(e)| && a in AggsOf(Operands(e)[i])
  {
    match e
    case Attr(_, _) => assert Operands(e) == [];
    case Const(_) => assert Operands(e) == [];
    case Apply(_, args) =>
      AggsOfAllIff(args, a);
      assert Operands(e) == args;
    case Call(_, _, args) =>
      AggsOfAllIff(args, a);
      assert Operands(e) == args;
    case Case(c, t, f) => CaseAggs(c, t, f, a);
  }

  lemma CaseAggs(c: Expr, t: Expr, f: Expr, a: Expr)
    ensures var e := Case(c, t, f); a in AggsOf(e) <==> exists i :: 0 <= i < |Operands(e)| && a in AggsOf(Operands(e)[i])
  {
    var e := Case(c, t, f);
    var es := Operands(e);
    assert es[0] == c && es[1] == t && es[2] == f;
    assert AggsOf(e) == AggsOf(c) + AggsOf(t) + AggsOf(f);
    hide AggsOf, Operands;
  }

  lemma {:induction false} AggsOfAllIff(es: seq<Expr>, a: Expr)
    ensures a in AggsOfAll(es) <==> exists i :: 0 <= i < |es| && a in AggsOf(es[i])
  {
    hide AggsOf;
    if es != [] {
      AggsOfAllIff(es[1..], a);
      if a in AggsOfAll(es[1..]) {
        var i :| 0 <= i < |es[1..]| && a in AggsOf(es[1..][i]);
        assert es[1..][i] == es[i + 1];
      }
      if i :| 0 <= i < |es| && a in AggsOf(es[i]) {
        assert i > 0 ==> es[1..][i - 1] == es[i];
      }
    }
  }

  function ArgsOf(aggs: seq<Expr>): seq<Expr>
    requires forall a :: a in aggs ==> IsAgg(a)
  {
    if aggs == [] then []
    else
      assert IsAgg(aggs[0]);
      aggs[0].args + ArgsOf(aggs[1..])
  }

  predicate NeedsProjection(inputs: seq<Expr>) {
    exists e :: e in inputs && !e.Attr?
  }

  // ----- The mutator -----

  datatype Scope = Everywhere | GroupedOr(groupBy: seq<Expr>)

  /** `replaceAggsAndGroupByMutator`: an expression equal to a listed one becomes a reference to its first
      position in the list; when preparing the input projection, only inside aggregates or if it is a
      grouping expression. */
  function Replace(e: Expr, listed: seq<Expr>, scope: Scope, inAgg: bool): Expr {
    if e in listed && (scope.Everywhere? || e in scope.groupBy || inAgg) then Attr(0, IndexOf(listed, e))
    else
      match e
      case Attr(_, _) => e
      case Const(_) => e
      case Apply(op, args) => Apply(op, ReplaceAll(args, listed, scope, inAgg))
      case Call(name, agg, args) => Call(name, agg, ReplaceAll(args, listed, scope, inAgg || agg))
      case Case(c, t, f) =>
        Case(Replace(c, listed, scope, inAgg), Replace(t, listed, scope, inAgg), Replace(f, listed, scope, inAgg))
  }

  function ReplaceAll(es: seq<Expr>, listed: seq<Expr>, scope: Scope, inAgg: bool): (r: seq<Expr>)
    ensures |r| == |es| && forall i :: 0 <= i < |es| ==> r[i] == Replace(es[i], listed, scope, inAgg)
  {
    seq(|es|, i requires 0 <= i < |es| => Replace(es[i], listed, scope, inAgg))
  }

  // ----- First phase: inputs of the aggregation -----

  function ProjectRows(inputs: seq<Expr>, rows: seq<Row>): (r: seq<Row>)
    ensures |r| == |rows| && forall i :: 0 <= i < |rows| ==> r[i] == EvalAll(inputs, rows[i])
  {
    seq(|rows|, i requires 0 <= i < |rows| => EvalAll(inputs, rows[i]))
  }

  /** All arguments of the aggregates in `e` are among the inputs. */
  ghost predicate ArgsListed(e: Expr, inputs: seq<Expr>) {
    forall a, x :: a in AggsOf(e) && IsAgg(a) && x in a.args ==> x in inputs
  }

  ghost predicate Rewritable(e: Expr, gb: seq<Expr>, inputs: seq<Expr>) {
    && Accepted(e, gb) && ArgsListed(e, inputs)
    && (forall g :: g in gb ==> g in inputs && !IsAgg(g))
  }

  function Prepared(e: Expr, inputs: seq<Expr>, gb: seq<Expr>): Expr {
    Replace(e, inputs, GroupedOr(gb), false)
  }

  function PreparedAll(es: seq<Expr>, inputs: seq<Expr>, gb: seq<Expr>): (r: seq<Expr>)
    ensures |r| == |es| && forall i :: 0 <= i < |es| ==> r[i] == Prepared(es[i], inputs, gb)
  {
    seq(|es|, i requires 0 <= i < |es| => Prepared(es[i], inputs, gb))
  }

  lemma PreparedGroup(g: Expr, gb: seq<Expr>, inputs: seq<Expr>)
    requires g in gb && g in inputs
    ensures Prepared(g, inputs, gb) == Attr(0, IndexOf(inputs, g))
  {
  }

  lemma PreparedInjective(g: Expr, h: Expr, gb: seq<Expr>, inputs: seq<Expr>)
    requires g in gb && h in gb && g in inputs && h in inputs && Prepared(g, inputs, gb) == Prepared(h, inputs, gb)
    ensures g == h
  {
  }

  lemma {:induction false} IndexFirst(es: seq<Expr>, e: Expr, k: nat)
    requires k < |es| && es[k] == e
    ensures e in es && IndexOf(es, e) <= k
  {
    if es[0] != e {
      IndexFirst(es[1..], e, k - 1);
    }
  }

  /** Grouping expressions keep their position. */
  lemma PreparedIndex(g: Expr, gb: seq<Expr>, inputs: seq<Expr>)
    requires g in gb && forall h :: h in gb ==> h in inputs
    ensures var gb' := PreparedAll(gb, inputs, gb); Prepared(g, inputs, gb) in gb'
    ensures var gb' := PreparedAll(gb, inputs, gb); IndexOf(gb', Prepared(g, inputs, gb)) == IndexOf(gb, g)
  {
    var gb', p := PreparedAll(gb, inputs, gb), Prepared(g, inputs, gb);
    var i := IndexOf(gb, g);
    assert gb'[i] == p;
    var j := IndexOf(gb', p);
    PreparedInjective(gb[j], g, gb, inputs);
    IndexFirst(gb', p, i);
    IndexFirst(gb, g, j);
  }

  /** An aggregate reads its arguments from the projected rows. */
  lemma PreparedArgs(args: seq<Expr>, gb: seq<Expr>, inputs: seq<Expr>, rows: seq<Row>)
    requires forall x :: x in args ==> x in inputs
    ensures ArgRows(ReplaceAll(args, inputs, GroupedOr(gb), true), ProjectRows(inputs, rows)) == ArgRows(args, rows)
  {
    var args', rows' := ReplaceAll(args, inputs, GroupedOr(gb), true), ProjectRows(inputs, rows);
    forall i | 0 <= i < |rows| ensures EvalAll(args', rows'[i]) == EvalAll(args, rows[i]) {
      forall k | 0 <= k < |args| ensures Eval(args'[k], rows'[i]) == Eval(args[k], rows[i]) {
        assert args[k] in args;
        assert args'[k] == Attr(0, IndexOf(inputs, args[k]));
      }
    }
  }

  lemma {:induction false} AggsOfAllMember(es: seq<Expr>, i: nat)
    requires i < |es|
    ensures forall a :: a in AggsOf(es[i]) ==> a in AggsOfAll(es)
  {
    if i > 0 {
      AggsOfAllMember(es[1..], i - 1);
    }
  }

  lemma {:induction false} AggsAreAggs(e: Expr)
    ensures forall a :: a in AggsOf(e) ==> IsAgg(a)
    decreases e
  {
    match e
    case Attr(_, _) =>
    case Const(_) =>
    case Apply(_, args) => AggsOfAllAre(args);
    case Call(_, _, args) => AggsOfAllAre(args);
    case Case(c, t, f) => AggsAreAggs(c); AggsAreAggs(t); AggsAreAggs(f);
  }

  lemma {:induction false} AggsOfAllAre(es: seq<Expr>)
    ensures forall a :: a in AggsOfAll(es) ==> IsAgg(a)
    decreases es
  {
    if es != [] {
      AggsAreAggs(es[0]);
      AggsOfAllAre(es[1..]);
    }
  }

  /** The parts of an accepted expression that is neither an aggregate nor a grouping expression. */
  lemma PartsRewritable(e: Expr, gb: seq<Expr>, inputs: seq<Expr>)
    requires Rewritable(e, gb, inputs) && !IsAgg(e) && e !in gb
    ensures e.Apply? || e.Call? ==> forall i :: 0 <= i < |e.args| ==> Rewritable(e.args[i], gb, inputs)
    ensures e.Case? ==> Rewritable(e.cond, gb, inputs) && Rewritable(e.then_, gb, inputs) && Rewritable(e.else_, gb, inputs)
  {
    if e.Apply? || e.Call? {
      forall i | 0 <= i < |e.args| ensures ArgsListed(e.args[i], inputs) {
        AggsOfAllMember(e.args, i);
      }
    }
  }

  /** Over the projected rows, a prepared expression has the same value on the group. */
  lemma {:induction false} PreparedValue(e: Expr, gb: seq<Expr>, inputs: seq<Expr>, rows: seq<Row>, key: Row)
    requires Rewritable(e, gb, inputs) && |key| == |gb|
    ensures GroupValue(Prepared(e, inputs, gb), PreparedAll(gb, inputs, gb), ProjectRows(inputs, rows), key)
         == GroupValue(e, gb, rows, key)
    decreases e
  {
    var e', gb', rows' := Prepared(e, inputs, gb), PreparedAll(gb, inputs, gb), ProjectRows(inputs, rows);
    GroupsAreRefs(gb, inputs);
    if IsAgg(e) {
      assert e in AggsOf(e);
      PreparedArgs(e.args, gb, inputs, rows);
    } else if e in gb {
      PreparedIndex(e, gb, inputs);
      PreparedGroup(e, gb, inputs);
    } else {
      PartsRewritable(e, gb, inputs);
      match e
      case Attr(_, _) =>
      case Const(_) =>
      case Apply(_, args) =>
        PreparedValues(args, gb, inputs, rows, key);
      case Call(_, _, args) =>
        PreparedValues(args, gb, inputs, rows, key);
      case Case(c, t, f) =>
        PreparedValue(c, gb, inputs, rows, key);
        PreparedValue(t, gb, inputs, rows, key);
        PreparedValue(f, gb, inputs, rows, key);
    }
  }

  lemma {:induction false} PreparedValues(es: seq<Expr>, gb: seq<Expr>, inputs: seq<Expr>, rows: seq<Row>, key: Row)
    requires (forall i :: 0 <= i < |es| ==> Rewritable(es[i], gb, inputs)) && |key| == |gb|
    ensures GroupValues(ReplaceAll(es, inputs, GroupedOr(gb), false), PreparedAll(gb, inputs, gb), ProjectRows(inputs, rows), key)
         == GroupValues(es, gb, rows, key)
    decreases es
  {
    var es' := ReplaceAll(es, inputs, GroupedOr(gb), false);
    forall i | 0 <= i < |es|
      ensures GroupValue(es'[i], PreparedAll(gb, inputs, gb), ProjectRows(inputs, rows), key) == GroupValue(es[i], gb, rows, key)
    {
      PreparedValue(es[i], gb, inputs, rows, key);
      assert es'[i] == Prepared(es[i], inputs, gb);
    }
  }

  lemma GroupsAreRefs(gb: seq<Expr>, inputs: seq<Expr>)
    requires forall g :: g in gb ==> g in inputs
    ensures forall h :: h in PreparedAll(gb, inputs, gb) ==> h.Attr?
  {
    forall i | 0 <= i < |gb| ensures PreparedAll(gb, inputs, gb)[i].Attr? {
      PreparedGroup(gb[i], gb, inputs);
    }
  }

  // ----- Second phase: references to the aggregation output -----

  function AggValue(a: Expr, rows: seq<Row>): Value
    requires IsAgg(a)
  {
    Aggregate(a.name, ArgRows(a.args, rows))
  }

  predicate AllAggs(aggs: seq<Expr>) {
    forall i :: 0 <= i < |aggs| ==> IsAgg(aggs[i])
  }

  function AggValues(aggs: seq<Expr>, rows: seq<Row>): (r: Row)
    requires AllAggs(aggs)
    ensures |r| == |aggs| && forall i :: 0 <= i < |aggs| ==> r[i] == AggValue(aggs[i], rows)
  {
    seq(|aggs|, i requires 0 <= i < |aggs| => AggValue(aggs[i], rows))
  }

  /** What the second phase is applied to: grouping expressions are references, and the aggregates of the
      expression are among those computed. */
  ghost predicate Final(e: Expr, aggs: seq<Expr>, gb: seq<Expr>) {
    && Accepted(e, gb) && (forall a :: a in AggsOf(e) ==> a in aggs)
    && AllAggs(aggs) && (forall g :: g in gb ==> g.Attr?)
  }

  lemma PartsFinal(e: Expr, aggs: seq<Expr>, gb: seq<Expr>)
    requires Final(e, aggs, gb) && !IsAgg(e) && e !in gb
    ensures e.Apply? || e.Call? ==> forall i :: 0 <= i < |e.args| ==> Final(e.args[i], aggs, gb)
    ensures e.Case? ==> Final(e.cond, aggs, gb) && Final(e.then_, aggs, gb) && Final(e.else_, aggs, gb)
  {
    if e.Apply? || e.Call? {
      forall i | 0 <= i < |e.args| ensures Final(e.args[i], aggs, gb) {
        AggsOfAllMember(e.args, i);
      }
    }
  }

  lemma IndexInSecond(aggs: seq<Expr>, gb: seq<Expr>, g: Expr)
    requires g in gb && g !in aggs
    ensures g in aggs + gb && IndexOf(aggs + gb, g) == |aggs| + IndexOf(gb, g)
  {
    var all, j := aggs + gb, IndexOf(gb, g);
    assert all[|aggs| + j] == g;
    IndexFirst(all, g, |aggs| + j);
    var k := IndexOf(all, g);
    forall i | 0 <= i < |aggs| ensures all[i] != g { assert aggs[i] in aggs; }
    IndexFirst(gb, g, k - |aggs|);
  }

  /** On the row of the aggregation output, the rewritten expression has the value of the group. */
  lemma {:induction false} FinalValue(e: Expr, aggs: seq<Expr>, gb: seq<Expr>, rows: seq<Row>, key: Row)
    requires Final(e, aggs, gb) && |key| == |gb|
    ensures Eval(Replace(e, aggs + gb, Everywhere, false), AggValues(aggs, rows) + key) == GroupValue(e, gb, rows, key)
    decreases e
  {
    var all, out := aggs + gb, AggValues(aggs, rows) + key;
    if IsAgg(e) {
      assert e in AggsOf(e);
      var k := IndexOf(all, e);
      var i :| 0 <= i < |aggs| && aggs[i] == e;
      assert all[i] == e;
      IndexFirst(all, e, i);
    } else if e in gb {
      assert e !in aggs;
      IndexInSecond(aggs, gb, e);
    } else {
      PartsFinal(e, aggs, gb);
      assert e !in all;
      match e
      case Attr(_, _) =>
      case Const(_) =>
      case Apply(_, args) => FinalValues(args, aggs, gb, rows, key);
      case Call(_, _, args) => FinalValues(args, aggs, gb, rows, key);
      case Case(c, t, f) =>
        FinalValue(c, aggs, gb, rows, key);
        FinalValue(t, aggs, gb, rows, key);
        FinalValue(f, aggs, gb, rows, key);
    }
  }

  lemma {:induction false} FinalValues(es: seq<Expr>, aggs: seq<Expr>, gb: seq<Expr>, rows: seq<Row>, key: Row)
    requires (forall i :: 0 <= i < |es| ==> Final(es[i], aggs, gb)) && |key| == |gb| && AllAggs(aggs)
    ensures EvalAll(ReplaceAll(es, aggs + gb, Everywhere, false), AggValues(aggs, rows) + key) == GroupValues(es, gb, rows, key)
    decreases es
  {
    var es', out := ReplaceAll(es, aggs + gb, Everywhere, false), AggValues(aggs, rows) + key;
    forall i | 0 <= i < |es| ensures Eval(es'[i], out) == GroupValue(es[i], gb, rows, key) {
      FinalValue(es[i], aggs, gb, rows, key);
    }
  }

  predicate RefersBelow(e: Expr, n: nat) {
    match e
    case Attr(item, pos) => item == 0 && pos < n
    case Const(_) => true
    case Apply(_, args) => forall i :: 0 <= i < |args| ==> RefersBelow(args[i], n)
    case Call(_, agg, args) => !agg && forall i :: 0 <= i < |args| ==> RefersBelow(args[i], n)
    case Case(c, t, f) => RefersBelow(c, n) && RefersBelow(t, n) && RefersBelow(f, n)
  }

  /** The expression is neither a reference to something else than the first `n` columns nor an aggregate. */
  ghost predicate IsBelow(s: Expr, n: nat) {
    !IsAgg(s) && (s.Attr? ==> s.item == 0 && s.pos < n)
  }

  lemma {:induction false} RefersBelowIff(e: Expr, n: nat)
    ensures RefersBelow(e, n) <==> forall s :: IsPart(e, s) ==> IsBelow(s, n)
    decreases e
  {
    BelowOperands(e, n);
    hide RefersBelow, IsBelow, Operands;
    forall i | 0 <= i < |Operands(e)|
      ensures RefersBelow(Operands(e)[i], n) <==> forall s :: IsPart(Operands(e)[i], s) ==> IsBelow(s, n)
    {
      OperandSmaller(e, i);
      RefersBelowIff(Operands(e)[i], n);
    }
    forall s ensures IsPart(e, s) <==> s == e || exists i :: 0 <= i < |Operands(e)| && IsPart(Operands(e)[i], s) {
      PartsAre(e, s);
    }
  }

  lemma BelowOperands(e: Expr, n: nat)
    ensures RefersBelow(e, n) <==> IsBelow(e, n) && forall i :: 0 <= i < |Operands(e)| ==> RefersBelow(Operands(e)[i], n)
  {
    var es := Operands(e);
    match e
    case Attr(_, _) =>
    case Const(_) =>
    case Apply(_, args) => assert es == args;
    case Call(_, _, args) => assert es == args;
    case Case(c, t, f) =>
      assert es[0] == c && es[1] == t && es[2] == f && |es| == 3;
      assert (forall i :: 0 <= i < |es| ==> RefersBelow(es[i], n)) <==>
        RefersBelow(es[0], n) && RefersBelow(es[1], n) && RefersBelow(es[2], n);
  }

  /** The rewritten expression refers to nothing but columns of the aggregation output. */
  lemma {:induction false} FinalRefs(e: Expr, aggs: seq<Expr>, gb: seq<Expr>)
    requires Final(e, aggs, gb)
    ensures RefersBelow(Replace(e, aggs + gb, Everywhere, false), |aggs| + |gb|)
    decreases e
  {
    if IsAgg(e) {
      assert e in AggsOf(e) && e in aggs + gb;
    } else if e !in gb {
      PartsFinal(e, aggs, gb);
      assert e !in aggs + gb;
      match e
      case Attr(_, _) =>
      case Const(_) =>
      case Apply(_, args) =>
        forall i | 0 <= i < |args| ensures RefersBelow(ReplaceAll(args, aggs + gb, Everywhere, false)[i], |aggs| + |gb|) {
          FinalRefs(args[i], aggs, gb);
        }
      case Call(_, _, args) =>
        forall i | 0 <= i < |args| ensures RefersBelow(ReplaceAll(args, aggs + gb, Everywhere, false)[i], |aggs| + |gb|) {
          FinalRefs(args[i], aggs, gb);
        }
      case Case(c, t, f) =>
        FinalRefs(c, aggs, gb);
        FinalRefs(t, aggs, gb);
        FinalRefs(f, aggs, gb);
    }
  }

  // ----- Both phases -----

  ghost predicate FromAggs(a: Expr, source: seq<Expr>, gb: seq<Expr>, inputs: seq<Expr>) {
    exists a0 :: a0 in source && a == Prepared(a0, inputs, gb)
  }

  ghost predicate AllFromAggs(aggs: seq<Expr>, source: seq<Expr>, gb: seq<Expr>, inputs: seq<Expr>) {
    forall a :: a in aggs ==> FromAggs(a, source, gb, inputs)
  }

  lemma FromMoreAggs(aggs: seq<Expr>, source: seq<Expr>, more: seq<Expr>, gb: seq<Expr>, inputs: seq<Expr>)
    requires AllFromAggs(aggs, source, gb, inputs) && forall a :: a in source ==> a in more
    ensures AllFromAggs(aggs, more, gb, inputs)
  {
  }

  /** The aggregates of a prepared expression are its aggregates, prepared. */
  lemma {:induction false} PreparedAggs(e: Expr, gb: seq<Expr>, inputs: seq<Expr>)
    requires Rewritable(e, gb, inputs)
    ensures AllFromAggs(AggsOf(Prepared(e, inputs, gb)), AggsOf(e), gb, inputs)
    decreases e
  {
    if IsAgg(e) {
      assert e in AggsOf(e);
    } else if e !in gb {
      PartsRewritable(e, gb, inputs);
      match e
      case Attr(_, _) =>
      case Const(_) =>
      case Apply(_, args) => PreparedAggsAll(args, gb, inputs);
      case Call(_, _, args) => PreparedAggsAll(args, gb, inputs);
      case Case(c, t, f) =>
        PreparedAggs(c, gb, inputs);
        PreparedAggs(t, gb, inputs);
        PreparedAggs(f, gb, inputs);
        FromMoreAggs(AggsOf(Prepared(c, inputs, gb)), AggsOf(c), AggsOf(e), gb, inputs);
        FromMoreAggs(AggsOf(Prepared(t, inputs, gb)), AggsOf(t), AggsOf(e), gb, inputs);
        FromMoreAggs(AggsOf(Prepared(f, inputs, gb)), AggsOf(f), AggsOf(e), gb, inputs);
    } else {
      PreparedGroup(e, gb, inputs);
    }
  }

  lemma {:induction false} PreparedAggsAll(es: seq<Expr>, gb: seq<Expr>, inputs: seq<Expr>)
    requires forall i :: 0 <= i < |es| ==> Rewritable(es[i], gb, inputs)
    ensures AllFromAggs(AggsOfAll(ReplaceAll(es, inputs, GroupedOr(gb), false)), AggsOfAll(es), gb, inputs)
    decreases es
  {
    if es != [] {
      var es' := ReplaceAll(es, inputs, GroupedOr(gb), false);
      assert es'[1..] == ReplaceAll(es[1..], inputs, GroupedOr(gb), false);
      assert es'[0] == Prepared(es[0], inputs, gb);
      PreparedAggs(es[0], gb, inputs);
      PreparedAggsAll(es[1..], gb, inputs);
      FromMoreAggs(AggsOf(es'[0]), AggsOf(es[0]), AggsOfAll(es), gb, inputs);
      FromMoreAggs(AggsOfAll(es'[1..]), AggsOfAll(es[1..]), AggsOfAll(es), gb, inputs);
    }
  }

  lemma {:induction false} PreparedAccepted(e: Expr, gb: seq<Expr>, inputs: seq<Expr>)
    requires Rewritable(e, gb, inputs)
    ensures Accepted(Prepared(e, inputs, gb), PreparedAll(gb, inputs, gb))
    decreases e
  {
    if e in gb && !IsAgg(e) {
      PreparedIndex(e, gb, inputs);
    } else if !IsAgg(e) {
      PartsRewritable(e, gb, inputs);
      match e
      case Attr(_, _) =>
      case Const(_) =>
      case Apply(op, args) =>
        PreparedAcceptedAll(args, gb, inputs);
        assert Prepared(e, inputs, gb) == Apply(op, ReplaceAll(args, inputs, GroupedOr(gb), false));
      case Call(name, agg, args) =>
        PreparedAcceptedAll(args, gb, inputs);
        assert Prepared(e, inputs, gb) == Call(name, false, ReplaceAll(args, inputs, GroupedOr(gb), false));
      case Case(c, t, f) =>
        PreparedAccepted(c, gb, inputs);
        PreparedAccepted(t, gb, inputs);
        PreparedAccepted(f, gb, inputs);
        assert Prepared(e, inputs, gb) == Case(Prepared(c, inputs, gb), Prepared(t, inputs, gb), Prepared(f, inputs, gb));
    }
  }

  lemma {:induction false} PreparedAcceptedAll(es: seq<Expr>, gb: seq<Expr>, inputs: seq<Expr>)
    requires forall i :: 0 <= i < |es| ==> Rewritable(es[i], gb, inputs)
    ensures forall i :: 0 <= i < |es| ==> Accepted(ReplaceAll(es, inputs, GroupedOr(gb), false)[i], PreparedAll(gb, inputs, gb))
    decreases es
  {
    forall i | 0 <= i < |es|
      ensures Accepted(ReplaceAll(es, inputs, GroupedOr(gb), false)[i], PreparedAll(gb, inputs, gb))
    {
      PreparedAccepted(es[i], gb, inputs);
    }
  }

  lemma PreparedAggregates(aggs: seq<Expr>, gb: seq<Expr>, inputs: seq<Expr>, rows: seq<Row>)
    requires AllAggs(aggs) && forall i :: 0 <= i < |aggs| ==> Rewritable(aggs[i], gb, inputs)
    ensures AllAggs(PreparedAll(aggs, inputs, gb))
    ensures AggValues(PreparedAll(aggs, inputs, gb), ProjectRows(inputs, rows)) == AggValues(aggs, rows)
  {
    var aggs' := PreparedAll(aggs, inputs, gb);
    forall i | 0 <= i < |aggs|
      ensures IsAgg(aggs'[i]) && AggValue(aggs'[i], ProjectRows(inputs, rows)) == AggValue(aggs[i], rows)
    {
      var a := aggs[i];
      assert a in AggsOf(a);
      PreparedArgs(a.args, gb, inputs, rows);
    }
  }
}
