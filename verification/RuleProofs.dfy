/** The translation of a safe rule computes the rows the rule derives. */
module RuleProofs {
  import opened Names
  import opened UniqueNames
  import opened Algebra
  import opened Datalog
  import opened RuleTranslation
  import opened GoalNaming
  import opened RowProofs

  /** Row `i` holds, column by column, the values that binding `i` gives to `args`. */
  ghost predicate Represents(rows: seq<Row>, args: seq<Term>, bs: seq<Binding>) {
    && |rows| == |bs|
    && forall i :: 0 <= i < |rows| ==> |rows[i]| == |args| && Extend(map[], args, rows[i]) == Some(bs[i])
  }

  lemma RepresentsConcat(r1: seq<Row>, b1: seq<Binding>, r2: seq<Row>, b2: seq<Binding>, args: seq<Term>)
    requires Represents(r1, args, b1) && Represents(r2, args, b2)
    ensures Represents(r1 + r2, args, b1 + b2)
  {
  }

  ghost predicate HasArity(rows: seq<Row>, n: nat) {
    forall r :: r in rows ==> |r| == n
  }

  lemma HasArityTail(rows: seq<Row>, n: nat)
    requires HasArity(rows, n) && rows != []
    ensures |rows[0]| == n && HasArity(rows[1..], n)
  {
    assert rows[0] in rows;
    forall r | r in rows[1..] ensures |r| == n { assert r in rows; }
  }

  // ----- Goals -----

  lemma {:induction false} ProjectAllRefs(rows: seq<Row>, n: nat)
    requires HasArity(rows, n)
    ensures ProjectRows(AllRefs(n), rows) == rows
  {
    if rows != [] {
      HasArityTail(rows, n);
      ProjectAllRefs(rows[1..], n);
      assert EvalAll(AllRefs(n), rows[0]) == rows[0];
    }
  }

  lemma {:induction false} SelectRowsProps(cond: seq<Comparison>, rows: seq<Row>)
    ensures cond == [] ==> SelectRows(cond, rows) == rows
    ensures forall r :: r in SelectRows(cond, rows) <==> r in rows && Holds(cond, r, [])
    ensures NoDup(rows) ==> NoDup(SelectRows(cond, rows))
  {
    if rows != [] {
      SelectRowsProps(cond, rows[1..]);
      assert rows == [rows[0]] + rows[1..];
      if NoDup(rows) {
        NoDupTail(rows);
      }
    }
  }

  lemma NoDupTail<T>(s: seq<T>)
    requires NoDup(s) && s != []
    ensures NoDup(s[1..]) && s[0] !in s[1..]
  {
    forall i, j | 0 <= i < j < |s[1..]| ensures s[1..][i] != s[1..][j] {
      assert s[1 + i] != s[1 + j];
    }
  }

  lemma RenamedGoalSchema(base: Op, args: seq<Term>, goalPos: nat)
    ensures Schema(RenamedGoal(base, args, goalPos)) == GoalNames(args, goalPos)
  {
  }

  lemma RenamedGoalRows(base: Op, args: seq<Term>, goalPos: nat, db: Database)
    requires HasArity(Eval(base, db), |args|)
    ensures Eval(RenamedGoal(base, args, goalPos), db) == SelectRows(GoalConds(args), Eval(base, db))
  {
    hide *;
    RenamedGoalEval(base, args, goalPos, db);
    SelectRowsProps(GoalConds(args), Eval(base, db));
    HasAritySelected(GoalConds(args), Eval(base, db), |args|);
    ProjectAllRefs(SelectRows(GoalConds(args), Eval(base, db)), |args|);
  }

  lemma RenamedGoalEval(base: Op, args: seq<Term>, goalPos: nat, db: Database)
    ensures Eval(RenamedGoal(base, args, goalPos), db)
         == ProjectRows(AllRefs(|args|), if GoalConds(args) == [] then Eval(base, db)
                                         else SelectRows(GoalConds(args), Eval(base, db)))
  {
    hide GoalConds, GoalNames, SelectRows, ProjectRows, AllRefs;
  }

  lemma HasAritySelected(cond: seq<Comparison>, rows: seq<Row>, n: nat)
    requires HasArity(rows, n)
    ensures HasArity(SelectRows(cond, rows), n)
  {
    SelectRowsProps(cond, rows);
    hide SelectRows, Holds;
    forall r | r in SelectRows(cond, rows) ensures |r| == n {
      assert r in rows;
    }
  }

  // ----- Joins with positive goals -----

  lemma {:induction false} JoinRowRepresents(left: seq<string>, a1: seq<Term>, l: Row, right: seq<string>,
      a2: seq<Term>, rows: seq<Row>, c: Binding)
    requires JoinSide(left, a1, right, a2)
    requires |l| == |a1| && Extend(map[], a1, l) == Some(c) && HasArity(rows, |a2|)
    ensures Represents(JoinRow(JoinConds(left, right, |right|), l, SelectRows(GoalConds(a2), rows)),
                       a1 + a2, ExtendWithRows(c, a2, rows))
  {
    if rows != [] {
      HasArityTail(rows, |a2|);
      JoinRowRepresents(left, a1, l, right, a2, rows[1..], c);
      StepMatches(left, a1, l, right, a2, rows[0], c);
      ExtendConcat(map[], a1, l, a2, rows[0]);
      var cond := JoinConds(left, right, |right|);
      var kept := if Holds(GoalConds(a2), rows[0], []) then [rows[0]] else [];
      JoinRowConcat(cond, l, kept, SelectRows(GoalConds(a2), rows[1..]));
      assert JoinRow(cond, l, kept) == if Extend(c, a2, rows[0]).Some? then [l + rows[0]] else [];
    }
  }

  lemma {:induction false} JoinRowConcat(cond: seq<Comparison>, l: Row, r1: seq<Row>, r2: seq<Row>)
    ensures JoinRow(cond, l, r1 + r2) == JoinRow(cond, l, r1) + JoinRow(cond, l, r2)
  {
    hide *;
    JoinRowStep(cond, l, r1);
    if r1 == [] {
      assert r1 + r2 == r2;
    } else {
      JoinRowConcat(cond, l, r1[1..], r2);
      assert (r1 + r2)[0] == r1[0] && (r1 + r2)[1..] == r1[1..] + r2;
      JoinRowStep(cond, l, r1 + r2);
    }
  }

  lemma JoinRowStep(cond: seq<Comparison>, l: Row, right: seq<Row>)
    ensures right == [] ==> JoinRow(cond, l, right) == []
    ensures right != [] ==>
      JoinRow(cond, l, right) == (if Holds(cond, l, right[0]) then [l + right[0]] else []) + JoinRow(cond, l, right[1..])
  {
    hide Holds;
  }

  lemma {:induction false} JoinRowsRepresent(left: seq<string>, a1: seq<Term>, ls: seq<Row>, right: seq<string>,
      a2: seq<Term>, rows: seq<Row>, bs: seq<Binding>)
    requires JoinSide(left, a1, right, a2)
    requires Represents(ls, a1, bs) && HasArity(rows, |a2|)
    ensures Represents(JoinRows(JoinConds(left, right, |right|), ls, SelectRows(GoalConds(a2), rows)),
                       a1 + a2, ExtendEach(bs, a2, rows))
  {
    if ls != [] {
      JoinRowRepresents(left, a1, ls[0], right, a2, rows, bs[0]);
      assert Represents(ls[1..], a1, bs[1..]);
      JoinRowsRepresent(left, a1, ls[1..], right, a2, rows, bs[1..]);
      var cond := JoinConds(left, right, |right|);
      var goal := SelectRows(GoalConds(a2), rows);
      RepresentsConcat(JoinRow(cond, ls[0], goal), ExtendWithRows(bs[0], a2, rows),
                       JoinRows(cond, ls[1..], goal), ExtendEach(bs[1..], a2, rows), a1 + a2);
    }
  }

  lemma {:induction false} JoinNothing(rows: seq<Row>)
    ensures JoinRow([], [], rows) == rows
  {
    if rows != [] {
      JoinNothing(rows[1..]);
      assert [] + rows[0] == rows[0];
    }
  }

  lemma JoinEmptyRow(rows: seq<Row>)
    ensures JoinRows([], [[]], rows) == rows
  {
    JoinNothing(rows);
    var ls: seq<Row> := [[]];
    assert JoinRows([], ls, rows) == JoinRow([], ls[0], rows) + JoinRows([], ls[1..], rows);
  }

  lemma FirstGoalRepresents(args: seq<Term>, rows: seq<Row>)
    requires HasArity(rows, |args|)
    ensures Represents(SelectRows(GoalConds(args), rows), args, ExtendEach([map[]], args, rows))
  {
    var names := GoalNames(args, 0);
    NoLeftConds(names, |names|);
    var none: seq<Term> := [];
    assert none + args == args && TermVars(none) == {};
    assert JoinSide([], none, names, args);
    JoinRowsRepresent([], none, [[]], names, args, rows, [map[]]);
    JoinEmptyRow(SelectRows(GoalConds(args), rows));
  }

  lemma {:induction false} NoLeftConds(right: seq<string>, m: nat)
    requires m <= |right|
    ensures JoinConds([], right, m) == []
  {
    if m > 0 {
      NoLeftConds(right, m - 1);
    }
  }

  /** One round of the join loop extends every binding by the rows of the goal that unify with it. */
  lemma JoinStep(s: JoinState, a1: seq<Term>, bs: seq<Binding>, goal: Op, base: Op, a2: seq<Term>, goalPos: nat,
                 all: set<string>, db: Database)
    requires JoinSide(s.orig, a1, GoalNames(a2, goalPos), a2)
    requires Represents(Eval(s.op, db), a1, bs) && HasArity(Eval(base, db), |a2|)
    requires goal == RenamedGoal(base, a2, goalPos)
    ensures Represents(Eval(JoinNext(s, goal, all).op, db), a1 + a2, ExtendEach(bs, a2, Eval(base, db)))
  {
    hide JoinSide, Represents, HasArity, GoalNames, GoalConds, RenamedGoal, JoinConds, TermVars, MakeUnique;
    RenamedGoalRows(base, a2, goalPos, db);
    assert Schema(goal) == GoalNames(a2, goalPos) by { RenamedGoalSchema(base, a2, goalPos); }
    JoinRowsRepresent(s.orig, a1, Eval(s.op, db), GoalNames(a2, goalPos), a2, Eval(base, db), bs);
  }

  // ----- Names of joins -----

  /** The goals joined after the first one are goals `lo`, `lo + 1`, ... of the rule. */
  ghost predicate NamedGoals(goals: seq<Op>, start: seq<string>, atoms: seq<Atom>, at: seq<nat>, lo: nat) {
    && goals != [] && lo + |goals| - 1 <= |atoms| == |at| && Schema(goals[0]) == start
    && forall j :: 1 <= j < |goals| ==> Schema(goals[j]) == GoalNames(atoms[lo + j - 1].args, at[lo + j - 1])
  }

  lemma {:induction false} JoinNames(goals: seq<Op>, start: seq<string>, atoms: seq<Atom>, at: seq<nat>, lo: nat,
                                     all: set<string>, k: nat)
    requires NamedGoals(goals, start, atoms, at, lo) && 1 <= k <= |goals|
    ensures JoinUpTo(goals, all, k).orig == NamesBefore(start, atoms, at, lo, lo + k - 1)
    ensures Schema(JoinUpTo(goals, all, k).op) == SchemaAfter(start, atoms, at, lo, lo + k - 1, all)
  {
    hide GoalNames, MakeUnique, JoinConds;
    if k > 1 {
      JoinNames(goals, start, atoms, at, lo, all, k - 1);
    }
  }

  lemma {:induction false} LaterNames(goals: seq<Op>, start: seq<string>, atoms: seq<Atom>, at: seq<nat>, lo: nat, k: nat)
    requires NamedGoals(goals, start, atoms, at, lo) && 1 <= k <= |goals|
    ensures OrigNames(goals[1..k]) == NamesBefore([], atoms, at, lo, lo + k - 1)
  {
    hide GoalNames, Schema;
    if k > 1 {
      LaterNames(goals, start, atoms, at, lo, k - 1);
      assert goals[1..k][..k - 2] == goals[1..k - 1];
    }
  }

  lemma {:induction false} FirstGoalFirst(atoms: seq<Atom>, at: seq<nat>, k: nat)
    requires 1 <= k <= |atoms| == |at|
    ensures NamesBefore(GoalNames(atoms[0].args, at[0]), atoms, at, 1, k) == NamesBefore([], atoms, at, 0, k)
  {
    hide GoalNames;
    if k == 1 {
      assert NamesBefore([], atoms, at, 0, 0) == [];
    } else {
      FirstGoalFirst(atoms, at, k - 1);
    }
  }

  lemma JoinedSchema(goals: seq<Op>, start: seq<string>, atoms: seq<Atom>, at: seq<nat>, lo: nat)
    requires NamedGoals(goals, start, atoms, at, lo)
    ensures var k := lo + |goals| - 1;
      Schema(JoinGoals(goals)) == SchemaAfter(start, atoms, at, lo, k, Elements(NamesBefore([], atoms, at, lo, k)))
  {
    hide SchemaAfter, NamesBefore, Elements, JoinUpTo, GoalNames;
    assert goals[1..|goals|] == goals[1..];
    LaterNames(goals, start, atoms, at, lo, |goals|);
    JoinNames(goals, start, atoms, at, lo, Elements(OrigNames(goals[1..])), |goals|);
  }

  /** Goals `0` to `n - 1`, positive. */
  ghost predicate ArePosGoals(goals: seq<Op>, atoms: seq<Atom>, at: seq<nat>, idb: set<string>) {
    |goals| <= |atoms| == |at| && forall i :: 0 <= i < |goals| ==> goals[i] == PosGoal(atoms[i], at[i], idb)
  }

  lemma PosGoalsNamed(goals: seq<Op>, atoms: seq<Atom>, at: seq<nat>, idb: set<string>)
    requires ArePosGoals(goals, atoms, at, idb) && goals != []
    ensures NamedGoals(goals, GoalNames(atoms[0].args, at[0]), atoms, at, 1)
  {
    hide GoalNames, GoalConds;
  }

  lemma TermVarsConcat(a1: seq<Term>, a2: seq<Term>)
    ensures TermVars(a1 + a2) == TermVars(a1) + TermVars(a2)
  {
    forall t | t in a1 ensures t in a1 + a2 {}
    forall t | t in a2 ensures t in a1 + a2 {}
  }

  lemma BodyArgsStep(atoms: seq<Atom>, k: nat)
    requires 0 < k <= |atoms|
    ensures BodyArgs(atoms[..k]) == BodyArgs(atoms[..k - 1]) + atoms[k - 1].args
  {
    assert atoms[..k][..k - 1] == atoms[..k - 1];
  }

  lemma {:induction false} BodyArgsVars(atoms: seq<Atom>, k: nat, n: nat)
    requires k <= n <= |atoms|
    ensures TermVars(BodyArgs(atoms[..k])) <= TermVars(BodyArgs(atoms[..n]))
    ensures forall i :: 0 <= i < k ==> TermVars(atoms[i].args) <= TermVars(BodyArgs(atoms[..n]))
  {
    if n > 0 {
      BodyArgsStep(atoms, n);
      TermVarsConcat(BodyArgs(atoms[..n - 1]), atoms[n - 1].args);
      BodyArgsVars(atoms, if k == n then k - 1 else k, n - 1);
    }
  }

  /** The translated positive goals are those of the positive atoms at their places. */
  lemma {:induction false} PosGoalsAre(atoms: seq<Atom>, idb: set<string>)
    ensures var goals, pos, at := PosGoals(atoms, idb), PosAtoms(atoms), PosPlaces(atoms);
      |goals| == |pos| && forall i :: 0 <= i < |goals| ==> goals[i] == PosGoal(pos[i], at[i], idb)
  {
    hide PosGoal;
    if atoms != [] {
      PosGoalsAre(atoms[..|atoms| - 1], idb);
    }
  }

  lemma FirstJoined(a: Atom, goalPos: nat, goal: Op, idb: set<string>, db: Database)
    requires HasArity(Rows(db, a.rel), |a.args|) && goal == PosGoal(a, goalPos, idb)
    ensures Represents(Eval(goal, db), a.args, ExtendEach([map[]], a.args, Rows(db, a.rel)))
  {
    hide GoalConds, GoalNames, RenamedGoal, Represents, ExtendEach, SelectRows;
    FirstGoalRepresents(a.args, Rows(db, a.rel));
    RenamedGoalRows(Access(a, idb), a.args, goalPos, db);
  }

  lemma SolveStep(atoms: seq<Atom>, k: nat, db: Database)
    requires 0 < k <= |atoms|
    ensures var last := atoms[k - 1];
      Solve(atoms[..k], db) == ExtendEach(Solve(atoms[..k - 1], db), last.args, Rows(db, last.rel))
  {
    assert atoms[..k][..k - 1] == atoms[..k - 1];
  }

  /** If the names of the goals are apart, joining the first `k` positive goals yields the bindings that satisfy them. */
  lemma {:induction false} JoinUpToSolves(atoms: seq<Atom>, at: seq<nat>, goals: seq<Op>, all: set<string>, k: nat,
                                          idb: set<string>, db: Database)
    requires 1 <= k <= |goals| && ArePosGoals(goals, atoms, at, idb) && JoinsApart([], atoms, at, 0, |goals|) && NoDup(at)
    requires forall i :: 0 <= i < |goals| ==> HasArity(Rows(db, atoms[i].rel), |atoms[i].args|)
    ensures Represents(Eval(JoinUpTo(goals, all, k).op, db), BodyArgs(atoms[..k]), Solve(atoms[..k], db))
  {
    hide *;
    IsPosGoal(goals, atoms, at, idb, k - 1, db);
    var last := atoms[k - 1];
    if k == 1 {
      NothingSolved(atoms, db);
      SolveStep(atoms, 1, db);
      BodyArgsStep(atoms, 1);
      JoinUpStep(goals, all, 1);
      FirstJoined(last, at[0], goals[0], idb, db);
    } else {
      JoinUpToSolves(atoms, at, goals, all, k - 1, idb, db);
      PositiveSide(atoms, at, k - 1, |goals|);
      PosGoalsNamed(goals, atoms, at, idb);
      JoinNames(goals, GoalNames(atoms[0].args, at[0]), atoms, at, 1, all, k - 1);
      FirstGoalFirst(atoms, at, k - 1);
      BodyArgsStep(atoms, k);
      SolveStep(atoms, k, db);
      JoinUpStep(goals, all, k);
      JoinStep(JoinUpTo(goals, all, k - 1), BodyArgs(atoms[..k - 1]), Solve(atoms[..k - 1], db), goals[k - 1],
               Access(last, idb), last.args, at[k - 1], all, db);
    }
  }

  lemma IsPosGoal(goals: seq<Op>, atoms: seq<Atom>, at: seq<nat>, idb: set<string>, i: nat, db: Database)
    requires ArePosGoals(goals, atoms, at, idb) && i < |goals|
    ensures |goals| <= |atoms| == |at| && goals[i] == PosGoal(atoms[i], at[i], idb)
    ensures goals[i] == RenamedGoal(Access(atoms[i], idb), atoms[i].args, at[i])
    ensures Eval(Access(atoms[i], idb), db) == Rows(db, atoms[i].rel)
  {
  }

  lemma NothingSolved(atoms: seq<Atom>, db: Database)
    requires atoms != []
    ensures BodyArgs(atoms[..0]) == [] && [] + atoms[0].args == atoms[0].args && Solve(atoms[..0], db) == [map[]]
  {
  }

  lemma JoinUpStep(goals: seq<Op>, all: set<string>, k: nat)
    requires 1 <= k <= |goals|
    ensures k == 1 ==> JoinUpTo(goals, all, k).op == goals[0]
    ensures k > 1 ==> JoinUpTo(goals, all, k) == JoinNext(JoinUpTo(goals, all, k - 1), goals[k - 1], all)
  {
    hide JoinNext;
  }

  // ----- Comparisons -----

  ghost predicate FindsVars(row: Row, b: Binding, names: seq<string>, vars: set<string>) {
    forall x :: x in vars ==> x in b && 0 <= NamePos(names, x) < |row| && row[NamePos(names, x)] == b[x]
  }

  lemma NamesFindVars(names: seq<string>, args: seq<Term>, row: Row, b: Binding, vars: set<string>)
    requires AllFindOwn(names, args, vars) && |row| == |args| && Extend(map[], args, row) == Some(b)
    ensures FindsVars(row, b, names, vars)
  {
    ExtendProps(map[], args, row);
    forall x | x in vars ensures x in b && 0 <= NamePos(names, x) < |row| && row[NamePos(names, x)] == b[x] {
      assert FindsOwn(names, args, x);
    }
  }

  lemma {:induction false} ReplaceByNameValue(e: Expr, names: seq<string>, row: Row, b: Binding, vars: set<string>)
    requires FindsVars(row, b, names, vars) && ExprVars(e) <= vars
    ensures EvalScalar(ReplaceByName(e, names), row, []) == EvalExpr(e, b)
  {
    match e
    case EVar(x) =>
    case EConst(_) =>
    case EApp(_, l, r) =>
      ReplaceByNameValue(l, names, row, b, vars);
      ReplaceByNameValue(r, names, row, b, vars);
    case EAgg(_, _) =>
  }

  ghost predicate TestsOver(body: seq<Literal>, keys: set<string>) {
    forall t :: t in body && t.Test? ==> ExprVars(t.left) + ExprVars(t.right) <= keys
  }

  lemma {:induction false} TestCondsMean(body: seq<Literal>, names: seq<string>, row: Row, b: Binding, vars: set<string>)
    requires FindsVars(row, b, names, vars) && TestsOver(body, vars)
    ensures Holds(TestConds(body, names), row, []) <==> TestsHold(body, b)
  {
    if body != [] {
      var front, last := body[..|body| - 1], body[|body| - 1];
      assert body == front + [last] && last in body;
      forall t | t in front && t.Test? ensures ExprVars(t.left) + ExprVars(t.right) <= vars { assert t in body; }
      TestCondsMean(front, names, row, b, vars);
      var cond := if last.Test?
        then [Comparison(last.op, ReplaceByName(last.left, names), ReplaceByName(last.right, names))] else [];
      HoldsConcat(TestConds(front, names), cond, row, []);
      if last.Test? {
        ReplaceByNameValue(last.left, names, row, b, vars);
        ReplaceByNameValue(last.right, names, row, b, vars);
        assert Satisfies(cond[0], row, []) <==> TestHolds(last, b);
      }
    }
  }

  lemma {:induction false} SelectTested(body: seq<Literal>, names: seq<string>, args: seq<Term>, vars: set<string>,
                                        rows: seq<Row>, bs: seq<Binding>)
    requires AllFindOwn(names, args, vars) && TestsOver(body, vars) && Represents(rows, args, bs)
    ensures Represents(SelectRows(TestConds(body, names), rows), args, KeepTested(body, bs))
  {
    if rows != [] {
      NamesFindVars(names, args, rows[0], bs[0], vars);
      TestCondsMean(body, names, rows[0], bs[0], vars);
      assert Represents(rows[1..], args, bs[1..]);
      SelectTested(body, names, args, vars, rows[1..], bs[1..]);
      RepresentsConcat(if TestsHold(body, bs[0]) then [rows[0]] else [], if TestsHold(body, bs[0]) then [bs[0]] else [],
                       SelectRows(TestConds(body, names), rows[1..]), KeepTested(body, bs[1..]), args);
    }
  }

  // ----- Negated goals -----

  lemma InstanceAgrees(args: seq<Term>, b: Binding)
    requires TermVars(args) <= b.Keys
    ensures Agrees(args, Instance(args, b), b)
  {
    forall i | 0 <= i < |args| && args[i].Var? ensures args[i].name in b { assert args[i].name in TermVars(args); }
  }

  /** Once all variables are bound, exactly one row unifies, and it adds nothing. */
  lemma OnlyInstance(args: seq<Term>, b: Binding, row: Row)
    requires TermVars(args) <= b.Keys && |row| == |args|
    ensures Extend(b, args, row) == if row == Instance(args, b) then Some(b) else None
  {
    if Extend(b, args, row).Some? {
      ExtendProps(b, args, row);
      InstanceAgrees(args, b);
      assert Extend(b, args, row).value == b;
      assert row == Instance(args, b);
    } else if row == Instance(args, b) {
      InstanceAgrees(args, b);
      ExtendComplete(b, args, row, b);
    }
  }

  lemma DomainRow(args: seq<Term>, names: seq<string>, row: Row, b: Binding)
    requires FindsVars(row, b, names, TermVars(args))
    ensures EvalAll(DomainExprs(args, names), row) == Instance(args, b)
  {
    forall i | 0 <= i < |args|
      ensures EvalScalar(DomainExpr(args[i], names), row, []) == TermValue(args[i], b)
    {
      if args[i].Var? { assert args[i].name in TermVars(args); }
    }
  }

  lemma {:induction false} ExtendNone(b: Binding, args: seq<Term>, rows: seq<Row>)
    requires TermVars(args) <= b.Keys && HasArity(rows, |args|) && NoDup(rows)
    ensures ExtendWithRows(b, args, rows) == if Instance(args, b) in rows then [b] else []
  {
    hide Extend, Instance, TermVars, NoDup, HasArity;
    if rows != [] {
      HasArityTail(rows, |args|);
      NoDupTail(rows);
      ExtendNone(b, args, rows[1..]);
      OnlyInstance(args, b, rows[0]);
      assert rows == [rows[0]] + rows[1..];
    }
  }

  /** Joining with `domain MINUS relation` drops exactly the bindings whose instance is in the relation. */
  lemma {:induction false} ExtendMinusKeepsAbsent(a: Atom, bs: seq<Binding>, rows: seq<Row>, db: Database)
    requires HasArity(rows, |a.args|) && NoDup(rows)
    requires forall b :: b in bs ==> TermVars(a.args) <= b.Keys
    requires forall b :: b in bs ==> (Instance(a.args, b) in rows <==> Instance(a.args, b) !in Rows(db, a.rel))
    ensures ExtendEach(bs, a.args, rows) == KeepAbsent(a, bs, db)
  {
    if bs != [] {
      assert bs[0] in bs;
      ExtendNone(bs[0], a.args, rows);
      forall b | b in bs[1..] ensures b in bs {}
      ExtendMinusKeepsAbsent(a, bs[1..], rows, db);
    }
  }

  lemma {:induction false} KeepAbsentSubset(a: Atom, bs: seq<Binding>, db: Database)
    ensures forall b :: b in KeepAbsent(a, bs, db) <==> b in bs && Instance(a.args, b) !in Rows(db, a.rel)
  {
    if bs != [] {
      KeepAbsentSubset(a, bs[1..], db);
      assert bs == [bs[0]] + bs[1..];
    }
  }

  ghost predicate AllAbsent(atoms: seq<Atom>, b: Binding, db: Database) {
    forall a :: a in atoms ==> Instance(a.args, b) !in Rows(db, a.rel)
  }

  lemma {:induction false} KeepAllAbsentSubset(atoms: seq<Atom>, bs: seq<Binding>, db: Database)
    ensures forall b :: b in KeepAllAbsent(atoms, bs, db) <==> b in bs && AllAbsent(atoms, b, db)
  {
    if atoms != [] {
      KeepAllAbsentSubset(atoms[..|atoms| - 1], bs, db);
      KeepAbsentSubset(atoms[|atoms| - 1], KeepAllAbsent(atoms[..|atoms| - 1], bs, db), db);
      assert atoms == atoms[..|atoms| - 1] + [atoms[|atoms| - 1]];
    }
  }

  /** The rows of `domain MINUS relation`: instances under the bindings of the positive part. */
  lemma NegBaseRows(a: Atom, posPart: Op, pargs: seq<Term>, pbs: seq<Binding>, idb: set<string>, db: Database)
    requires AllFindOwn(Schema(posPart), pargs, TermVars(a.args)) && Represents(Eval(posPart, db), pargs, pbs)
    ensures var rows := Eval(NegBase(a, posPart, idb), db);
      && HasArity(rows, |a.args|) && NoDup(rows)
      && forall b :: b in pbs ==> (Instance(a.args, b) in rows <==> Instance(a.args, b) !in Rows(db, a.rel))
  {
    hide AllFindOwn, FindsVars, Instance, DomainExprs, DomainNames, Extend, TermVars, Minus, NamePos, Rows;
    var pos := Eval(posPart, db);
    var exprs := DomainExprs(a.args, Schema(posPart));
    var dom := ProjectRows(exprs, pos);
    MinusProps(dom, Rows(db, a.rel));
    forall b | b in pbs ensures Instance(a.args, b) in dom {
      var i :| 0 <= i < |pbs| && pbs[i] == b;
      NamesFindVars(Schema(posPart), pargs, pos[i], b, TermVars(a.args));
      DomainRow(a.args, Schema(posPart), pos[i], b);
      assert dom[i] == Instance(a.args, b);
    }
  }

  lemma {:induction false} NegGoalsAre(atoms: seq<Atom>, posPart: Op, idb: set<string>)
    ensures var goals, neg, at := NegGoals(atoms, posPart, idb), NegAtoms(atoms), NegPlaces(atoms);
      |goals| == |neg| && forall i :: 0 <= i < |goals| ==> goals[i] == NegGoal(neg[i], at[i], posPart, idb)
  {
    hide NegGoal;
    if atoms != [] {
      NegGoalsAre(atoms[..|atoms| - 1], posPart, idb);
    }
  }

  /** Joining one negated goal back removes the bindings it excludes. */
  lemma NegStep(posPart: Op, pargs: seq<Term>, pbs: seq<Binding>, s: JoinState, args: seq<Term>, bs: seq<Binding>, a: Atom,
                goal: Op, goalPos: nat, all: set<string>, idb: set<string>, db: Database)
    requires AllFindOwn(Schema(posPart), pargs, TermVars(a.args)) && Represents(Eval(posPart, db), pargs, pbs)
    requires JoinSide(s.orig, args, GoalNames(a.args, goalPos), a.args) && Represents(Eval(s.op, db), args, bs)
    requires forall b :: b in bs ==> b in pbs
    requires goal == NegGoal(a, goalPos, posPart, idb)
    ensures Represents(Eval(JoinNext(s, goal, all).op, db), args + a.args, KeepAbsent(a, bs, db))
  {
    hide JoinSide, JoinNext, Represents, Eval, Schema, RenamedGoal, NegBase, HasArity, NoDup, Instance, Rows, ExtendEach,
         KeepAbsent, GoalNames;
    var base := NegBase(a, posPart, idb);
    NegBaseRows(a, posPart, pargs, pbs, idb, db);
    JoinStep(s, args, bs, goal, base, a.args, goalPos, all, db);
    BindingKeys(Eval(posPart, db), pargs, pbs);
    FoundVars(Schema(posPart), pargs, TermVars(a.args));
    hide TermVars, AllFindOwn;
    ExtendMinusKeepsAbsent(a, bs, Eval(base, db), db);
  }

  lemma FoundVars(names: seq<string>, args: seq<Term>, vars: set<string>)
    requires AllFindOwn(names, args, vars)
    ensures vars <= TermVars(args)
  {
    hide NamePos;
    forall x | x in vars ensures x in TermVars(args) {
      assert FindsOwn(names, args, x);
      assert args[NamePos(names, x)] in args;
    }
  }

  /** The negated goals, joined back over the positive part. */
  ghost predicate AreNegGoals(goals: seq<Op>, atoms: seq<Atom>, at: seq<nat>, n: nat, posPart: Op, idb: set<string>) {
    && n + |goals| == |atoms| == |at|
    && forall j :: 0 <= j < |goals| ==> goals[j] == NegGoal(atoms[n + j], at[n + j], posPart, idb)
  }

  lemma NegGoalsNamed(negGoals: seq<Op>, atoms: seq<Atom>, at: seq<nat>, n: nat, posPart: Op, idb: set<string>)
    requires AreNegGoals(negGoals, atoms, at, n, posPart, idb)
    ensures NamedGoals([posPart] + negGoals, Schema(posPart), atoms, at, n)
  {
    hide GoalNames, GoalConds, NegBase;
    var goals := [posPart] + negGoals;
    forall j | 1 <= j < |goals| ensures Schema(goals[j]) == GoalNames(atoms[n + j - 1].args, at[n + j - 1]) {
      assert goals[j] == negGoals[j - 1];
      assert negGoals[j - 1] == NegGoal(atoms[n + (j - 1)], at[n + (j - 1)], posPart, idb);
    }
  }

  /** Joining the negated goals back one by one removes the bindings they exclude. */
  lemma {:induction false} NegatedRemoved(posPart: Op, atoms: seq<Atom>, at: seq<nat>, n: nat, pbs: seq<Binding>,
                                          negGoals: seq<Op>, all: set<string>, c: nat, idb: set<string>, db: Database)
    requires AreNegGoals(negGoals, atoms, at, n, posPart, idb) && n + |negGoals| == |atoms| == |at| && c <= |negGoals|
    requires JoinsApart(Schema(posPart), atoms, at, n, |atoms|) && |Schema(posPart)| == |BodyArgs(atoms[..n])|
    requires forall h :: n <= h < |atoms| ==> AllFindOwn(Schema(posPart), BodyArgs(atoms[..n]), TermVars(atoms[h].args))
    requires Represents(Eval(posPart, db), BodyArgs(atoms[..n]), pbs)
    ensures Represents(Eval(JoinUpTo([posPart] + negGoals, all, c + 1).op, db), BodyArgs(atoms[..n + c]),
                       KeepAllAbsent(atoms[n..n + c], pbs, db))
  {
    hide *;
    var goals := [posPart] + negGoals;
    JoinUpStep(goals, all, c + 1);
    AbsentStep(atoms, n, c, pbs, db);
    if c > 0 {
      NegatedRemoved(posPart, atoms, at, n, pbs, negGoals, all, c - 1, idb, db);
      var h := n + c - 1;
      var bs := KeepAllAbsent(atoms[n..h], pbs, db);
      IsNegGoal(negGoals, atoms, at, n, posPart, idb, c - 1);
      KeepAllAbsentSubset(atoms[n..h], pbs, db);
      BodyArgsStep(atoms, h + 1);
      NegatedSide(Schema(posPart), atoms, at, n, h);
      NegGoalsNamed(negGoals, atoms, at, n, posPart, idb);
      JoinNames(goals, Schema(posPart), atoms, at, n, all, c);
      NegStep(posPart, BodyArgs(atoms[..n]), pbs, JoinUpTo(goals, all, c), BodyArgs(atoms[..h]), bs, atoms[h], goals[c],
              at[h], all, idb, db);
    }
  }

  lemma AbsentStep(atoms: seq<Atom>, n: nat, c: nat, bs: seq<Binding>, db: Database)
    requires n + c <= |atoms|
    ensures c == 0 ==> atoms[..n + c] == atoms[..n] && KeepAllAbsent(atoms[n..n + c], bs, db) == bs
    ensures c > 0 ==>
      KeepAllAbsent(atoms[n..n + c], bs, db) == KeepAbsent(atoms[n + c - 1], KeepAllAbsent(atoms[n..n + c - 1], bs, db), db)
  {
    hide KeepAbsent;
    if c > 0 {
      assert atoms[n..n + c][..c - 1] == atoms[n..n + c - 1];
    }
  }

  lemma IsNegGoal(negGoals: seq<Op>, atoms: seq<Atom>, at: seq<nat>, n: nat, posPart: Op, idb: set<string>, j: nat)
    requires AreNegGoals(negGoals, atoms, at, n, posPart, idb) && j < |negGoals|
    ensures n + j < |atoms| == |at| && negGoals[j] == NegGoal(atoms[n + j], at[n + j], posPart, idb)
  {
  }

  lemma BindingKeys(rows: seq<Row>, args: seq<Term>, bs: seq<Binding>)
    requires Represents(rows, args, bs)
    ensures forall b :: b in bs ==> b.Keys == TermVars(args)
  {
    forall b | b in bs ensures b.Keys == TermVars(args) {
      var i :| 0 <= i < |bs| && bs[i] == b;
      ExtendProps(map[], args, rows[i]);
    }
  }
}
