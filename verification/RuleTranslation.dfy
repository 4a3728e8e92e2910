/** The translation of one safe Datalog rule into an operator tree, as functions.  The loops that
    build these trees are in `RuleTranslator`. */
module RuleTranslation {
  import opened Names
  import opened UniqueNames
  import opened Algebra
  import opened Datalog

  function NamePos(names: seq<string>, name: string): (pos: int)
    ensures -1 <= pos < |names|
    ensures pos == -1 <==> name !in names
    ensures pos >= 0 ==> names[pos] == name && name !in names[..pos]
  {
    if names == [] then -1
    else
      var front := NamePos(names[..|names| - 1], name);
      assert names == names[..|names| - 1] + [names[|names| - 1]];
      if front >= 0 then
        assert names[..front] == names[..|names| - 1][..front];
        front
      else if names[|names| - 1] == name then |names| - 1 else -1
  }

  function Elements(names: seq<string>): set<string> {
    set s | s in names
  }

  // ----- Goals -----

  function ConstCount(args: seq<Term>): nat {
    if args == [] then 0
    else ConstCount(args[..|args| - 1]) + if args[|args| - 1].Const? then 1 else 0
  }

  /** Variables name their columns; the constants of a goal are numbered. */
  function RawName(args: seq<Term>, goalPos: nat, i: nat): string
    requires i < |args|
  {
    if args[i].Var? then args[i].name else ConstName(goalPos, ConstCount(args[..i]))
  }

  function RawNames(args: seq<Term>, goalPos: nat): (names: seq<string>)
    ensures |names| == |args|
    ensures forall i :: 0 <= i < |args| ==> names[i] == RawName(args, goalPos, i)
  {
    seq(|args|, i requires 0 <= i < |args| => RawName(args, goalPos, i))
  }

  function GoalNames(args: seq<Term>, goalPos: nat): (names: seq<string>)
    ensures |names| == |args|
  {
    MakeUnique(RawNames(args, goalPos), Elements(RawNames(args, goalPos)))
  }

  function ConstConds(args: seq<Term>, n: nat): seq<Comparison>
    requires n <= |args|
  {
    if n == 0 then []
    else
      ConstConds(args, n - 1)
      + if args[n - 1].Const? then [Comparison("=", Ref(0, n - 1), Lit(args[n - 1].v))] else []
  }

  /** Equate position `i` with the later positions of the same variable, up to position `m`. */
  function RepeatCondsOf(args: seq<Term>, i: nat, m: nat): seq<Comparison>
    requires i < |args| && m <= |args|
  {
    if m == 0 then []
    else
      RepeatCondsOf(args, i, m - 1)
      + if args[i].Var? && args[m - 1] == args[i] && m - 1 > i
        then [Comparison("=", Ref(0, i), Ref(0, m - 1))] else []
  }

  function RepeatConds(args: seq<Term>, n: nat): seq<Comparison>
    requires n <= |args|
  {
    if n == 0 then [] else RepeatConds(args, n - 1) + RepeatCondsOf(args, n - 1, |args|)
  }

  function GoalConds(args: seq<Term>): seq<Comparison> {
    ConstConds(args, |args|) + RepeatConds(args, |args|)
  }

  function AllRefs(n: nat): (refs: seq<Scalar>)
    ensures |refs| == n
    ensures forall i :: 0 <= i < n ==> refs[i] == Ref(0, i)
  {
    seq(n, i requires 0 <= i < n => Ref(0, i))
  }

  function SelectIfAny(cond: seq<Comparison>, input: Op): Op {
    if cond == [] then input else Selection(cond, input)
  }

  function RenamedGoal(base: Op, args: seq<Term>, goalPos: nat): Op {
    Projection(AllRefs(|args|), SelectIfAny(GoalConds(args), base), GoalNames(args, goalPos))
  }

  function Access(a: Atom, idb: set<string>): Op {
    TableAccess(a.rel, |a.args|, a.rel in idb)
  }

  function PosGoal(a: Atom, goalPos: nat, idb: set<string>): Op {
    RenamedGoal(Access(a, idb), a.args, goalPos)
  }

  function DomainExpr(t: Term, schema: seq<string>): Scalar {
    match t
    case Var(x) => Ref(0, NamePos(schema, x))
    case Const(v) => Lit(v)
  }

  function DomainExprs(args: seq<Term>, schema: seq<string>): (exprs: seq<Scalar>)
    ensures |exprs| == |args|
    ensures forall i :: 0 <= i < |args| ==> exprs[i] == DomainExpr(args[i], schema)
  {
    seq(|args|, i requires 0 <= i < |args| => DomainExpr(args[i], schema))
  }

  function DomainNames(args: seq<Term>): (names: seq<string>)
    ensures |names| == |args|
  {
    if args == [] then []
    else
      var front, pos := DomainNames(args[..|args| - 1]), |args| - 1;
      front + match args[pos]
              case Var(x) => [if x in front then x + Dec(pos) else x]
              case Const(_) => ["C_" + Dec(pos)]
  }

  /** The rows the arguments of a negated goal take over the positive part, minus its relation. */
  function NegBase(a: Atom, posPart: Op, idb: set<string>): Op {
    var dom := Projection(DomainExprs(a.args, Schema(posPart)), posPart, DomainNames(a.args));
    Difference(dom, Access(a, idb), DomainNames(a.args))
  }

  function NegGoal(a: Atom, goalPos: nat, posPart: Op, idb: set<string>): Op {
    RenamedGoal(NegBase(a, posPart, idb), a.args, goalPos)
  }

  function PosGoals(atoms: seq<Atom>, idb: set<string>): seq<Op> {
    if atoms == [] then []
    else
      var n := |atoms| - 1;
      PosGoals(atoms[..n], idb) + if atoms[n].negated then [] else [PosGoal(atoms[n], n, idb)]
  }

  function NegGoals(atoms: seq<Atom>, posPart: Op, idb: set<string>): seq<Op> {
    if atoms == [] then []
    else
      var n := |atoms| - 1;
      NegGoals(atoms[..n], posPart, idb)
      + if atoms[n].negated then [NegGoal(atoms[n], n, posPart, idb)] else []
  }

  // ----- Joins -----

  function CondsOfRight(leftOrig: seq<string>, name: string, rPos: nat, n: nat): seq<Comparison>
    requires n <= |leftOrig|
  {
    if n == 0 then []
    else
      CondsOfRight(leftOrig, name, rPos, n - 1)
      + if leftOrig[n - 1] == name then [Comparison("=", Ref(0, n - 1), Ref(1, rPos))] else []
  }

  /** Equate every right column with the left columns that carried the same name originally. */
  function JoinConds(leftOrig: seq<string>, right: seq<string>, m: nat): seq<Comparison>
    requires m <= |right|
  {
    if m == 0 then []
    else JoinConds(leftOrig, right, m - 1) + CondsOfRight(leftOrig, right[m - 1], m - 1, |leftOrig|)
  }

  function OrigNames(ops: seq<Op>): seq<string> {
    if ops == [] then [] else OrigNames(ops[..|ops| - 1]) + Schema(ops[|ops| - 1])
  }

  /** The join so far, and the names its columns had in their goals. */
  datatype JoinState = JoinState(op: Op, orig: seq<string>)

  /** One round of the join loop. */
  function JoinNext(s: JoinState, goal: Op, allNames: set<string>): JoinState {
    var names := Schema(goal);
    JoinState(Join(JoinConds(s.orig, names, |names|), s.op, goal, MakeUnique(Schema(s.op) + names, allNames)),
              s.orig + names)
  }

  function JoinUpTo(ops: seq<Op>, allNames: set<string>, k: nat): JoinState
    requires 1 <= k <= |ops|
  {
    if k == 1 then JoinState(ops[0], Schema(ops[0])) else JoinNext(JoinUpTo(ops, allNames, k - 1), ops[k - 1], allNames)
  }

  function JoinGoals(ops: seq<Op>): Op
    requires ops != []
  {
    JoinUpTo(ops, Elements(OrigNames(ops[1..])), |ops|).op
  }

  // ----- Comparisons -----

  function ReplaceByName(e: Expr, names: seq<string>): Scalar {
    match e
    case EVar(x) => Ref(0, NamePos(names, x))
    case EConst(v) => Lit(v)
    case EApp(op, l, r) => App(op, ReplaceByName(l, names), ReplaceByName(r, names))
    case EAgg(fn, a) => AggCall(fn, ReplaceByName(a, names))
  }

  function TestConds(body: seq<Literal>, names: seq<string>): seq<Comparison> {
    if body == [] then []
    else
      var last := body[|body| - 1];
      TestConds(body[..|body| - 1], names)
      + if last.Test?
        then [Comparison(last.op, ReplaceByName(last.left, names), ReplaceByName(last.right, names))] else []
  }

  // ----- Heads -----

  /** Where each variable is found: the column of one of its occurrences that carries its name. */
  function HeadMap(args: seq<Term>, names: seq<string>, n: nat): map<string, nat>
    requires n <= |args| && n <= |names|
  {
    if n == 0 then map[]
    else
      var m := HeadMap(args, names, n - 1);
      if args[n - 1].Var? && names[n - 1] == args[n - 1].name then m[names[n - 1] := n - 1] else m
  }

  function ReplaceByMap(e: Expr, m: map<string, nat>): Scalar {
    match e
    case EVar(x) => Ref(0, if x in m then m[x] else -1)
    case EConst(v) => Lit(v)
    case EApp(op, l, r) => App(op, ReplaceByMap(l, m), ReplaceByMap(r, m))
    case EAgg(fn, a) => AggCall(fn, ReplaceByMap(a, m))
  }

  function HeadExprs(args: seq<Expr>, m: map<string, nat>): (exprs: seq<Scalar>)
    ensures |exprs| == |args|
    ensures forall i :: 0 <= i < |args| ==> exprs[i] == ReplaceByMap(args[i], m)
  {
    seq(|args|, i requires 0 <= i < |args| => ReplaceByMap(args[i], m))
  }

  function AggCalls(exprs: seq<Scalar>): seq<Scalar> {
    if exprs == [] then []
    else AggCalls(exprs[..|exprs| - 1]) + if exprs[|exprs| - 1].AggCall? then [exprs[|exprs| - 1]] else []
  }

  function GroupRefs(exprs: seq<Scalar>): seq<Scalar> {
    if exprs == [] then []
    else GroupRefs(exprs[..|exprs| - 1]) + if exprs[|exprs| - 1].Ref? then [exprs[|exprs| - 1]] else []
  }

  function NumberedNames(prefix: string, n: nat): (names: seq<string>)
    ensures |names| == n
    ensures forall i :: 0 <= i < n ==> names[i] == prefix + Dec(i)
  {
    seq(n, i requires 0 <= i < n => prefix + Dec(i))
  }

  /** The names of the head columns in the output of the aggregation, in head order. */
  function AggHeadNames(exprs: seq<Scalar>): seq<string> {
    if exprs == [] then []
    else
      var front, last := exprs[..|exprs| - 1], exprs[|exprs| - 1];
      AggHeadNames(front)
      + if last.Ref? then ["GROUP_" + Dec(|GroupRefs(front)|)]
        else if last.AggCall? then ["AGGR_" + Dec(|AggCalls(front)|)] else []
  }

  function RefsByName(names: seq<string>, schema: seq<string>): (refs: seq<Scalar>)
    ensures |refs| == |names|
    ensures forall i :: 0 <= i < |names| ==> refs[i] == Ref(0, NamePos(schema, names[i]))
  {
    seq(|names|, i requires 0 <= i < |names| => Ref(0, NamePos(schema, names[i])))
  }

  /** Only aggregation calls and plain columns may be mixed in a head. */
  predicate AggHeadAllowed(exprs: seq<Scalar>) {
    forall e :: e in exprs ==> e.Ref? || e.AggCall?
  }

  function AggHead(exprs: seq<Scalar>, joined: Op): Op {
    var aggs, groups := AggCalls(exprs), GroupRefs(exprs);
    var names := NumberedNames("AGGR_", |aggs|) + NumberedNames("GROUP_", |groups|);
    var headNames := AggHeadNames(exprs);
    Projection(RefsByName(headNames, names), Aggregation(aggs, groups, joined, names), DefaultNames(|headNames|))
  }

  function PlainHead(exprs: seq<Scalar>, joined: Op): Op {
    DupRemoval(Projection(exprs, joined, DefaultNames(|exprs|)))
  }

  // ----- Rules -----

  function JoinedPositive(r: Rule, idb: set<string>): Op
    requires PosGoals(Atoms(r.body), idb) != []
  {
    var posPart := JoinGoals(PosGoals(Atoms(r.body), idb));
    SelectIfAny(TestConds(r.body, Schema(posPart)), posPart)
  }

  function JoinedBody(r: Rule, idb: set<string>): Op
    requires PosGoals(Atoms(r.body), idb) != []
  {
    var posPart := JoinedPositive(r, idb);
    JoinGoals([posPart] + NegGoals(Atoms(r.body), posPart, idb))
  }

  /** The map is built over the shorter of both lists; for safe goals they have the same length. */
  function BodyMap(r: Rule, joined: Op): map<string, nat> {
    var args, names := BodyArgs(Atoms(r.body)), Schema(joined);
    HeadMap(args, names, if |args| <= |names| then |args| else |names|)
  }

  /** `None` stands for a rule the translator gives up on: no positive goal (another translation is
      used then), a head variable without a column, or a head that mixes aggregation with
      other expressions. */
  function TranslateRule(r: Rule, idb: set<string>): Option<Op> {
    if PosGoals(Atoms(r.body), idb) == [] then None
    else
      var joined := JoinedBody(r, idb);
      var m := BodyMap(r, joined);
      var exprs := HeadExprs(r.headArgs, m);
      if exists e :: e in r.headArgs && !(ExprVars(e) <= m.Keys) then None
      else if !Aggregates(r) then Some(PlainHead(exprs, joined))
      else if AggHeadAllowed(exprs) then Some(AggHead(exprs, joined))
      else None
  }
}
