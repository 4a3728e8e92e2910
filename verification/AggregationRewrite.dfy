/** Whole SELECT blocks with aggregation: the operators built for a block return what the block means. */
module AggregationRewrite {
  import opened Sql
  import opened Grouping

  datatype Having = NoHaving | Having(cond: Expr)

  datatype Block = Block(select: seq<Expr>, having: Having, groupBy: seq<Expr>)

  // ----- Meaning of a block over the rows of its FROM and WHERE clauses -----

  /** The keys of the groups, in order of first occurrence. */
  function Keys(gb: seq<Expr>, rows: seq<Row>): (keys: seq<Row>)
    ensures forall k :: k in keys ==> |k| == |gb|
  {
    if rows == [] then []
    else
      var front, key := Keys(gb, rows[..|rows| - 1]), EvalAll(gb, rows[|rows| - 1]);
      if key in front then front else front + [key]
  }

  /** Without GROUP BY there is exactly one group, even over no rows. */
  function GroupKeys(gb: seq<Expr>, rows: seq<Row>): (keys: seq<Row>)
    ensures forall k :: k in keys ==> |k| == |gb|
  {
    if gb == [] then [[]] else Keys(gb, rows)
  }

  function Members(gb: seq<Expr>, rows: seq<Row>, key: Row): seq<Row> {
    if rows == [] then []
    else (if EvalAll(gb, rows[0]) == key then [rows[0]] else []) + Members(gb, rows[1..], key)
  }

  predicate HavingHolds(having: Having, gb: seq<Expr>, rows: seq<Row>, key: Row)
    requires |key| == |gb|
  {
    having.NoHaving? || GroupValue(having.cond, gb, rows, key) == Bool(true)
  }

  function OutputOf(b: Block, rows: seq<Row>, key: Row): seq<Row>
    requires |key| == |b.groupBy|
  {
    var m := Members(b.groupBy, rows, key);
    if HavingHolds(b.having, b.groupBy, m, key) then [GroupValues(b.select, b.groupBy, m, key)] else []
  }

  function OutputFor(b: Block, rows: seq<Row>, keys: seq<Row>): seq<Row>
    requires forall k :: k in keys ==> |k| == |b.groupBy|
  {
    if keys == [] then []
    else
      assert keys[0] in keys;
      OutputOf(b, rows, keys[0]) + OutputFor(b, rows, keys[1..])
  }

  function BlockRows(b: Block, rows: seq<Row>): seq<Row> {
    OutputFor(b, rows, GroupKeys(b.groupBy, rows))
  }

  // ----- Groups, said without recursion -----

  /** Every row belongs to a group, every group has a row, and no group occurs twice. */
  lemma {:induction false} GroupKeysAre(gb: seq<Expr>, rows: seq<Row>)
    ensures gb == [] ==> GroupKeys(gb, rows) == [[]]
    ensures gb != [] ==> forall k :: k in GroupKeys(gb, rows) <==> exists r :: r in rows && EvalAll(gb, r) == k
    ensures forall i, j :: 0 <= i < j < |GroupKeys(gb, rows)| ==> GroupKeys(gb, rows)[i] != GroupKeys(gb, rows)[j]
  {
    if gb != [] { KeysAre(gb, rows); }
  }

  lemma {:induction false} KeysAre(gb: seq<Expr>, rows: seq<Row>)
    ensures forall k :: k in Keys(gb, rows) <==> exists r :: r in rows && EvalAll(gb, r) == k
    ensures forall i, j :: 0 <= i < j < |Keys(gb, rows)| ==> Keys(gb, rows)[i] != Keys(gb, rows)[j]
  {
    hide EvalAll;
    if rows != [] {
      var front, last := rows[..|rows| - 1], rows[|rows| - 1];
      KeysAre(gb, front);
      assert rows == front + [last];
      forall k ensures k in Keys(gb, rows) <==> exists r :: r in rows && EvalAll(gb, r) == k {
        if r :| r in front && EvalAll(gb, r) == k { assert r in rows; }
        assert last in rows;
      }
    }
  }

  /** The rows of a group are those with its key, each as often as it occurs. */
  lemma {:induction false} MembersAre(gb: seq<Expr>, rows: seq<Row>, key: Row, r: Row)
    ensures multiset(Members(gb, rows, key))[r] == if EvalAll(gb, r) == key then multiset(rows)[r] else 0
  {
    hide EvalAll;
    if rows != [] {
      MembersAre(gb, rows[1..], key, r);
      assert rows == [rows[0]] + rows[1..];
    }
  }

  /** One row per group that HAVING keeps. */
  lemma {:induction false} OutputIs(b: Block, rows: seq<Row>, keys: seq<Row>, t: Row)
    requires forall k :: k in keys ==> |k| == |b.groupBy|
    ensures t in OutputFor(b, rows, keys) <==> exists k :: k in keys && Yields(b, rows, k, t)
  {
    hide GroupValue, GroupValues, Members;
    if keys != [] {
      assert keys == [keys[0]] + keys[1..];
      OutputIs(b, rows, keys[1..], t);
      assert keys[0] in keys;
      assert Yields(b, rows, keys[0], t) <==> t in OutputOf(b, rows, keys[0]);
      if k :| k in keys[1..] && Yields(b, rows, k, t) { assert k in keys; }
    }
  }

  /** The group passes HAVING and has these values. */
  ghost predicate Yields(b: Block, rows: seq<Row>, key: Row, t: Row) {
    && |key| == |b.groupBy|
    && var m := Members(b.groupBy, rows, key);
       && (b.having.Having? ==> GroupValue(b.having.cond, b.groupBy, m, key) == Bool(true))
       && t == GroupValues(b.select, b.groupBy, m, key)
  }

  // ----- Translation -----

  function Clauses(b: Block): seq<Expr> {
    b.select + if b.having.Having? then [b.having.cond] else []
  }

  function BlockAggs(b: Block): (aggs: seq<Expr>)
    ensures AllAggs(aggs) && forall a :: a in aggs ==> IsAgg(a)
  {
    AggsOfAllAre(Clauses(b));
    AggsOfAll(Clauses(b))
  }

  function BlockInputs(b: Block): seq<Expr> {
    ArgsOf(BlockAggs(b)) + b.groupBy
  }

  /** What the aggregation operator and the operators around it are built from. */
  datatype Plan = Plan(projected: bool, inputs: seq<Expr>, aggs: seq<Expr>, groupBy: seq<Expr>, select: seq<Expr>,
                       having: Having)

  function MapHaving(h: Having, f: Expr -> Expr): Having {
    if h.NoHaving? then h else Having(f(h.cond))
  }

  function Prepare(b: Block): Plan {
    var inputs, aggs, gb := BlockInputs(b), BlockAggs(b), b.groupBy;
    if NeedsProjection(inputs) then
      Plan(true, inputs, PreparedAll(aggs, inputs, gb), PreparedAll(gb, inputs, gb), PreparedAll(b.select, inputs, gb),
           MapHaving(b.having, e => Prepared(e, inputs, gb)))
    else Plan(false, inputs, aggs, gb, b.select, b.having)
  }

  function Finish(p: Plan): Plan {
    var all := p.aggs + p.groupBy;
    p.(select := ReplaceAll(p.select, all, Everywhere, false),
       having := MapHaving(p.having, e => Replace(e, all, Everywhere, false)))
  }

  function TranslateAggregation(b: Block): Plan {
    Finish(Prepare(b))
  }

  // ----- Running the plan -----

  function AggregateFor(p: Plan, rows: seq<Row>, keys: seq<Row>): seq<Row>
    requires AllAggs(p.aggs)
  {
    if keys == [] then []
    else [AggValues(p.aggs, Members(p.groupBy, rows, keys[0])) + keys[0]] + AggregateFor(p, rows, keys[1..])
  }

  function PlanRows(p: Plan, rows: seq<Row>): seq<Row>
    requires AllAggs(p.aggs)
  {
    var input := InputRows(p, rows);
    var groups := AggregateFor(p, input, GroupKeys(p.groupBy, input));
    var kept := if p.having.NoHaving? then groups else FlatMap(Keep(p.having.cond), groups);
    FlatMap(Image(p.select), kept)
  }

  // ----- Preservation -----

  /** Blocks the analyzer accepts: no stray attribute reference, and no aggregate under GROUP BY. */
  ghost predicate Legal(b: Block) {
    && (forall e :: e in Clauses(b) ==> Accepted(e, b.groupBy))
    && (forall g :: g in b.groupBy ==> !IsAgg(g))
  }

  lemma {:induction false} ArgsOfMember(aggs: seq<Expr>, a: Expr)
    requires (forall x :: x in aggs ==> IsAgg(x)) && a in aggs && IsAgg(a)
    ensures forall x :: x in a.args ==> x in ArgsOf(aggs)
  {
    if aggs[0] != a {
      ArgsOfMember(aggs[1..], a);
    }
  }

  lemma ClausesRewritable(b: Block)
    requires Legal(b)
    ensures forall e :: e in Clauses(b) ==> Rewritable(e, b.groupBy, BlockInputs(b))
    ensures forall a :: a in BlockAggs(b) ==> Rewritable(a, b.groupBy, BlockInputs(b))
  {
    var es, inputs := Clauses(b), BlockInputs(b);
    forall a | a in BlockAggs(b) ensures forall x :: x in a.args ==> x in inputs {
      ArgsOfMember(BlockAggs(b), a);
    }
    forall e | e in es ensures ArgsListed(e, inputs) {
      var i :| 0 <= i < |es| && es[i] == e;
      AggsOfAllMember(es, i);
    }
    forall a | a in BlockAggs(b) ensures ArgsListed(a, inputs) {
      assert AggsOf(a) == [a];
    }
  }

  /** Both phases leave the plan with final expressions. */
  lemma PreparedFinal(b: Block, e: Expr)
    requires Legal(b) && e in Clauses(b)
    ensures var p, inputs := Prepare(b), BlockInputs(b);
      Final(if p.projected then Prepared(e, inputs, b.groupBy) else e, p.aggs, p.groupBy)
  {
    var p, inputs, gb, es := Prepare(b), BlockInputs(b), b.groupBy, Clauses(b);
    ClausesRewritable(b);
    var i :| 0 <= i < |es| && es[i] == e;
    AggsOfAllMember(es, i);
    if p.projected {
      GroupsAreRefs(gb, inputs);
      PreparedAccepted(e, gb, inputs);
      PreparedAggs(e, gb, inputs);
      PreparedAggregates(BlockAggs(b), gb, inputs, []);
      forall a | a in AggsOf(Prepared(e, inputs, gb)) ensures a in p.aggs {
        assert FromAggs(a, AggsOf(e), gb, inputs);
        var a0 :| a0 in AggsOf(e) && a == Prepared(a0, inputs, gb);
        var k :| 0 <= k < |BlockAggs(b)| && BlockAggs(b)[k] == a0;
        assert p.aggs[k] == a;
      }
    } else {
      assert forall g :: g in gb ==> g in inputs;
    }
  }

  // ----- Grouping the projected rows is grouping the rows -----

  lemma PreparedKey(gb: seq<Expr>, inputs: seq<Expr>, row: Row)
    requires forall g :: g in gb ==> g in inputs
    ensures EvalAll(PreparedAll(gb, inputs, gb), EvalAll(inputs, row)) == EvalAll(gb, row)
  {
    var gb' := PreparedAll(gb, inputs, gb);
    forall i | 0 <= i < |gb| ensures Eval(gb'[i], EvalAll(inputs, row)) == Eval(gb[i], row) {
      PreparedGroup(gb[i], gb, inputs);
    }
  }

  lemma KeysStep(gb: seq<Expr>, rows: seq<Row>)
    ensures rows == [] ==> Keys(gb, rows) == []
    ensures rows != [] ==>
      var front, key := Keys(gb, rows[..|rows| - 1]), EvalAll(gb, rows[|rows| - 1]);
      Keys(gb, rows) == if key in front then front else front + [key]
  {
  }

  lemma MembersStep(gb: seq<Expr>, rows: seq<Row>, key: Row)
    ensures rows == [] ==> Members(gb, rows, key) == []
    ensures rows != [] ==>
      Members(gb, rows, key) == (if EvalAll(gb, rows[0]) == key then [rows[0]] else []) + Members(gb, rows[1..], key)
  {
  }

  lemma ProjectParts(inputs: seq<Expr>, rows: seq<Row>)
    requires rows != []
    ensures var rows', n := ProjectRows(inputs, rows), |rows| - 1;
      && rows'[..n] == ProjectRows(inputs, rows[..n]) && rows'[n] == EvalAll(inputs, rows[n])
      && rows'[1..] == ProjectRows(inputs, rows[1..]) && rows'[0] == EvalAll(inputs, rows[0])
  {
  }

  lemma {:induction false} PreparedKeys(gb: seq<Expr>, inputs: seq<Expr>, rows: seq<Row>)
    requires forall g :: g in gb ==> g in inputs
    ensures Keys(PreparedAll(gb, inputs, gb), ProjectRows(inputs, rows)) == Keys(gb, rows)
  {
    hide *;
    var gb', rows' := PreparedAll(gb, inputs, gb), ProjectRows(inputs, rows);
    KeysStep(gb, rows);
    KeysStep(gb', rows');
    if rows != [] {
      ProjectParts(inputs, rows);
      PreparedKeys(gb, inputs, rows[..|rows| - 1]);
      PreparedKey(gb, inputs, rows[|rows| - 1]);
    }
  }

  lemma {:induction false} PreparedMembers(gb: seq<Expr>, inputs: seq<Expr>, rows: seq<Row>, key: Row)
    requires forall g :: g in gb ==> g in inputs
    ensures Members(PreparedAll(gb, inputs, gb), ProjectRows(inputs, rows), key) == ProjectRows(inputs, Members(gb, rows, key))
  {
    hide *;
    var gb', rows' := PreparedAll(gb, inputs, gb), ProjectRows(inputs, rows);
    MembersStep(gb, rows, key);
    MembersStep(gb', rows', key);
    if rows != [] {
      ProjectParts(inputs, rows);
      PreparedMembers(gb, inputs, rows[1..], key);
      PreparedKey(gb, inputs, rows[0]);
      ProjectJoin(inputs, if EvalAll(gb, rows[0]) == key then [rows[0]] else [], Members(gb, rows[1..], key));
    } else {
      assert rows' == [];
    }
  }

  lemma ProjectJoin(inputs: seq<Expr>, a: seq<Row>, b: seq<Row>)
    ensures ProjectRows(inputs, a + b) == ProjectRows(inputs, a) + ProjectRows(inputs, b)
    ensures |a| == 1 ==> ProjectRows(inputs, a) == [EvalAll(inputs, a[0])]
    ensures ProjectRows(inputs, []) == []
  {
  }

  function InputRows(p: Plan, rows: seq<Row>): seq<Row> {
    if p.projected then ProjectRows(p.inputs, rows) else rows
  }

  lemma PlanAggs(b: Block)
    requires Legal(b)
    ensures AllAggs(Prepare(b).aggs) && |Prepare(b).groupBy| == |b.groupBy|
  {
    ClausesRewritable(b);
    if Prepare(b).projected {
      PreparedAggregates(BlockAggs(b), b.groupBy, BlockInputs(b), []);
    }
  }

  /** The plan sees the same groups: same keys, and on each group the same values for all clauses. */
  lemma PlanGroups(b: Block, rows: seq<Row>)
    requires Legal(b)
    ensures var p := Prepare(b); GroupKeys(p.groupBy, InputRows(p, rows)) == GroupKeys(b.groupBy, rows)
  {
    var inputs, gb := BlockInputs(b), b.groupBy;
    if Prepare(b).projected {
      PreparedKeys(gb, inputs, rows);
    }
  }

  lemma PlanValue(b: Block, e: Expr, rows: seq<Row>, key: Row)
    requires Legal(b) && e in Clauses(b) && |key| == |b.groupBy|
    ensures var p := Prepare(b);
      && AllAggs(p.aggs) && |p.groupBy| == |key|
      && var e' := Replace(if p.projected then Prepared(e, BlockInputs(b), b.groupBy) else e, p.aggs + p.groupBy, Everywhere, false);
      Eval(e', AggValues(p.aggs, Members(p.groupBy, InputRows(p, rows), key)) + key)
        == GroupValue(e, b.groupBy, Members(b.groupBy, rows, key), key)
  {
    var p, inputs, gb := Prepare(b), BlockInputs(b), b.groupBy;
    PlanAggs(b);
    PreparedFinal(b, e);
    ClausesRewritable(b);
    var m := Members(gb, rows, key);
    if p.projected {
      PreparedMembers(gb, inputs, rows, key);
      FinalValue(Prepared(e, inputs, gb), p.aggs, p.groupBy, ProjectRows(inputs, m), key);
      PreparedValue(e, gb, inputs, m, key);
    } else {
      FinalValue(e, p.aggs, p.groupBy, m, key);
    }
  }

  /** One group: the row of the aggregation operator passes HAVING and is projected to the output row iff
      the block outputs that row for the group. */
  lemma PlanOutput(b: Block, rows: seq<Row>, key: Row)
    requires Legal(b) && |key| == |b.groupBy|
    ensures var p, t := Prepare(b), TranslateAggregation(b);
      && AllAggs(p.aggs)
      && var row := AggValues(p.aggs, Members(p.groupBy, InputRows(p, rows), key)) + key;
      OutputOf(b, rows, key) == if t.having.NoHaving? || Holds(t.having.cond, row) then [EvalAll(t.select, row)] else []
  {
    var p, t := Prepare(b), TranslateAggregation(b);
    PlanAggs(b);
    var row := AggValues(p.aggs, Members(p.groupBy, InputRows(p, rows), key)) + key;
    var m := Members(b.groupBy, rows, key);
    hide Members, InputRows;
    if b.having.Having? {
      assert b.having.cond in Clauses(b);
      PlanValue(b, b.having.cond, rows, key);
    }
    forall i | 0 <= i < |b.select| ensures Eval(t.select[i], row) == GroupValue(b.select[i], b.groupBy, m, key) {
      assert Clauses(b)[i] == b.select[i];
      PlanValue(b, b.select[i], rows, key);
    }
    assert EvalAll(t.select, row) == GroupValues(b.select, b.groupBy, m, key);
  }

  lemma {:induction false} PlanOutputs(b: Block, rows: seq<Row>, keys: seq<Row>)
    requires Legal(b) && forall k :: k in keys ==> |k| == |b.groupBy|
    ensures var p, t := Prepare(b), TranslateAggregation(b);
      && AllAggs(p.aggs)
      && var groups := AggregateFor(p, InputRows(p, rows), keys);
      FlatMap(Image(t.select), if t.having.NoHaving? then groups else FlatMap(Keep(t.having.cond), groups))
        == OutputFor(b, rows, keys)
  {
    PlanAggs(b);
    var p, t := Prepare(b), TranslateAggregation(b);
    hide Prepare, Finish, TranslateAggregation, Members, OutputOf;
    if keys != [] {
      PlanOutputs(b, rows, keys[1..]);
      assert keys[0] in keys;
      PlanOutput(b, rows, keys[0]);
      var row := AggValues(p.aggs, Members(p.groupBy, InputRows(p, rows), keys[0])) + keys[0];
      var rest := AggregateFor(p, InputRows(p, rows), keys[1..]);
      OneMore(t, row, rest);
    }
  }

  lemma OneMore(t: Plan, row: Row, rest: seq<Row>)
    ensures var kept, more := if t.having.NoHaving? then rest else FlatMap(Keep(t.having.cond), rest),
                              if t.having.NoHaving? then [row] + rest else FlatMap(Keep(t.having.cond), [row] + rest);
      FlatMap(Image(t.select), more)
        == (if t.having.NoHaving? || Holds(t.having.cond, row) then [EvalAll(t.select, row)] else [])
           + FlatMap(Image(t.select), kept)
  {
    var image, kept := Image(t.select), if t.having.NoHaving? then rest else FlatMap(Keep(t.having.cond), rest);
    FlatMapPush(image, row, kept);
    if t.having.Having? {
      FlatMapPush(Keep(t.having.cond), row, rest);
    }
    hide FlatMap;
    assert [] + kept == kept;
  }

  lemma FlatMapPush(f: Row -> seq<Row>, row: Row, rest: seq<Row>)
    ensures FlatMap(f, [row] + rest) == f(row) + FlatMap(f, rest)
  {
    assert ([row] + rest)[1..] == rest;
  }

  predicate IsGrouped(b: Block) {
    BlockAggs(b) != [] || b.groupBy != []
  }

  /** A block is translated with an aggregation operator iff it has GROUP BY or an aggregate in some clause. */
  lemma IsGroupedIff(b: Block)
    ensures IsGrouped(b) <==> b.groupBy != [] || exists e, a :: e in Clauses(b) && HasAggregate(e, a)
  {
    hide AggsOf, HasAggregate, AggsOfAll, Clauses;
    var es := Clauses(b);
    if BlockAggs(b) != [] {
      var a := BlockAggs(b)[0];
      AggsOfAllIff(es, a);
      var i :| 0 <= i < |es| && a in AggsOf(es[i]);
      AggsOfIff(es[i], a);
      assert es[i] in es;
    }
    if e, a :| e in es && HasAggregate(e, a) {
      AggsOfIff(e, a);
      AggsOfAllIff(es, a);
      var i :| 0 <= i < |es| && es[i] == e;
      assert a in AggsOf(es[i]);
    }
  }

  /** The rows of the operators built for a block: without aggregates and GROUP BY there is no aggregation
      operator, and HAVING and SELECT apply to single rows. */
  function TranslatedRows(b: Block, rows: seq<Row>): seq<Row>
    requires Legal(b)
  {
    if IsGrouped(b) then
      PlanAggs(b);
      PlanRows(TranslateAggregation(b), rows)
    else PlainRows(b, rows)
  }

  function PlainRows(b: Block, rows: seq<Row>): seq<Row> {
    FlatMap(Image(b.select), if b.having.NoHaving? then rows else FlatMap(Keep(b.having.cond), rows))
  }

  /** The operators built for a block with aggregates or GROUP BY return the rows the block means. */
  lemma BlockPreserved(b: Block, rows: seq<Row>)
    requires Legal(b) && IsGrouped(b)
    ensures TranslatedRows(b, rows) == BlockRows(b, rows)
  {
    PlanAggs(b);
    PlanGroups(b, rows);
    hide Members, OutputOf;
    var p, t := Prepare(b), TranslateAggregation(b);
    PlanOutputs(b, rows, GroupKeys(b.groupBy, rows));
    SameGroups(p, t, InputRows(p, rows), GroupKeys(b.groupBy, rows));
  }

  lemma {:induction false} SameGroups(p: Plan, t: Plan, rows: seq<Row>, keys: seq<Row>)
    requires AllAggs(p.aggs) && t.aggs == p.aggs && t.groupBy == p.groupBy
    ensures AggregateFor(t, rows, keys) == AggregateFor(p, rows, keys)
  {
    if keys != [] {
      SameGroups(p, t, rows, keys[1..]);
    }
  }

  lemma ClauseRefs(b: Block, e: Expr)
    requires Legal(b) && e in Clauses(b)
    ensures var p := Prepare(b);
      var e' := if p.projected then Prepared(e, BlockInputs(b), b.groupBy) else e;
      RefersBelow(Replace(e', p.aggs + p.groupBy, Everywhere, false), |p.aggs| + |p.groupBy|)
  {
    hide *;
    PreparedFinal(b, e);
    var p := Prepare(b);
    FinalRefs(if p.projected then Prepared(e, BlockInputs(b), b.groupBy) else e, p.aggs, p.groupBy);
  }

  /** Its SELECT and HAVING expressions refer only to columns of the aggregation output. */
  lemma BlockRefs(b: Block)
    requires Legal(b)
    ensures var t := TranslateAggregation(b);
      && (forall i :: 0 <= i < |t.select| ==> RefersBelow(t.select[i], |t.aggs| + |t.groupBy|))
      && (t.having.Having? ==> RefersBelow(t.having.cond, |t.aggs| + |t.groupBy|))
  {
    hide Replace, Prepared, RefersBelow, Legal, BlockAggs, BlockInputs, NeedsProjection, AggsOfAll, ArgsOf;
    var t := TranslateAggregation(b);
    forall i | 0 <= i < |t.select| ensures RefersBelow(t.select[i], |t.aggs| + |t.groupBy|) {
      assert Clauses(b)[i] == b.select[i];
      ClauseRefs(b, b.select[i]);
    }
    if t.having.Having? {
      assert Clauses(b)[|b.select|] == b.having.cond;
      ClauseRefs(b, b.having.cond);
    }
  }

  // ----- HAVING without aggregates and GROUP BY -----

  /** Such clauses contain no attribute reference, so they have one value. */
  lemma {:induction false} ConstantValue(e: Expr, m: seq<Row>, row: Row)
    requires Accepted(e, []) && AggsOf(e) == []
    ensures Eval(e, row) == GroupValue(e, [], m, [])
    decreases e
  {
    match e
    case Attr(_, _) =>
    case Const(_) =>
    case Apply(_, args) => ConstantValues(args, m, row);
    case Call(_, _, args) => ConstantValues(args, m, row);
    case Case(c, t, f) =>
      ConstantValue(c, m, row);
      ConstantValue(t, m, row);
      ConstantValue(f, m, row);
  }

  lemma {:induction false} ConstantValues(es: seq<Expr>, m: seq<Row>, row: Row)
    requires (forall i :: 0 <= i < |es| ==> Accepted(es[i], [])) && AggsOfAll(es) == []
    ensures EvalAll(es, row) == GroupValues(es, [], m, [])
    decreases es
  {
    forall i | 0 <= i < |es| ensures Eval(es[i], row) == GroupValue(es[i], [], m, []) {
      NoAggsAt(es, i);
      ConstantValue(es[i], m, row);
    }
  }

  lemma {:induction false} NoAggsAt(es: seq<Expr>, i: nat)
    requires AggsOfAll(es) == [] && i < |es|
    ensures AggsOf(es[i]) == []
  {
    assert |AggsOfAll(es)| == |AggsOf(es[0])| + |AggsOfAll(es[1..])|;
    if i > 0 {
      NoAggsAt(es[1..], i - 1);
    }
  }

  lemma {:induction false} MembersOfAll(rows: seq<Row>)
    ensures Members([], rows, []) == rows
  {
    if rows != [] {
      MembersOfAll(rows[1..]);
      assert EvalAll([], rows[0]) == [];
    }
  }

  lemma {:induction false} PlainCount(b: Block, rows: seq<Row>, out: Row, holds: bool)
    requires forall r :: r in rows ==> EvalAll(b.select, r) == out
    requires forall r :: r in rows ==> (holds <==> b.having.NoHaving? || Holds(b.having.cond, r))
    ensures PlainRows(b, rows) == if holds then seq(|rows|, _ => out) else []
  {
    if rows != [] {
      assert rows == [rows[0]] + rows[1..];
      PlainCount(b, rows[1..], out, holds);
      var t := Plan(false, [], [], [], b.select, b.having);
      OneMore(t, rows[0], rows[1..]);
    }
  }

  /** A block whose only grouping clause is HAVING means one row or none; its translation returns that row
      once per input row.  The two agree iff there is one input row or HAVING does not hold. */
  lemma HavingAloneExactIff(b: Block, rows: seq<Row>)
    requires Legal(b) && !IsGrouped(b) && b.having.Having?
    ensures TranslatedRows(b, rows) == BlockRows(b, rows) <==> |rows| == 1 || !HavingHolds(b.having, [], rows, [])
  {
    hide GroupValue, Eval, Legal, IsGrouped, BlockRows, TranslatedRows, PlainRows, OutputFor;
    var out, holds := GroupValues(b.select, [], rows, []), HavingHolds(b.having, [], rows, []);
    ConstantClauses(b);
    OneGroup(b, rows);
    forall r | r in rows ensures EvalAll(b.select, r) == out && (holds <==> Holds(b.having.cond, r)) {
      ConstantValues(b.select, rows, r);
      ConstantValue(b.having.cond, rows, r);
    }
    PlainCount(b, rows, out, holds);
  }

  lemma OneGroup(b: Block, rows: seq<Row>)
    requires Legal(b) && !IsGrouped(b)
    ensures TranslatedRows(b, rows) == PlainRows(b, rows)
    ensures BlockRows(b, rows)
         == if HavingHolds(b.having, [], rows, []) then [GroupValues(b.select, [], rows, [])] else []
  {
    MembersOfAll(rows);
    var keys: seq<Row> := [[]];
    assert keys[1..] == [];
    assert OutputFor(b, rows, keys) == OutputOf(b, rows, []) + OutputFor(b, rows, keys[1..]);
  }

  lemma ConstantClauses(b: Block)
    requires Legal(b) && !IsGrouped(b) && b.having.Having?
    ensures AggsOfAll(b.select) == [] && AggsOf(b.having.cond) == [] && Accepted(b.having.cond, [])
    ensures forall i :: 0 <= i < |b.select| ==> Accepted(b.select[i], [])
  {
    var es := Clauses(b);
    AggsOfAllSplit(b.select, [b.having.cond]);
    assert es[|b.select|] == b.having.cond;
    NoAggsAt(es, |b.select|);
    forall i | 0 <= i < |b.select| ensures Accepted(b.select[i], []) { assert es[i] == b.select[i]; }
  }

  lemma {:induction false} AggsOfAllSplit(a: seq<Expr>, b: seq<Expr>)
    ensures AggsOfAll(a + b) == AggsOfAll(a) + AggsOfAll(b)
  {
    if a == [] {
      assert a + b == b;
    } else {
      assert (a + b)[1..] == a[1..] + b;
      AggsOfAllSplit(a[1..], b);
    }
  }
}
