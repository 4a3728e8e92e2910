/** The main theorem about one rule, for plain and for aggregating heads. */
module RuleTheorem {
  import opened Names
  import opened UniqueNames
  import opened Algebra
  import opened Datalog
  import opened RuleTranslation
  import opened GoalNaming
  import opened RowProofs
  import opened RuleProofs

  // ----- Bodies -----

  lemma {:induction false} BodyArgsConcat(a1: seq<Atom>, a2: seq<Atom>)
    ensures BodyArgs(a1 + a2) == BodyArgs(a1) + BodyArgs(a2)
  {
    if a2 == [] {
      assert a1 + a2 == a1;
    } else {
      var front, last := a2[..|a2| - 1], a2[|a2| - 1];
      BodyArgsConcat(a1, front);
      assert (a1 + a2)[..|a1 + a2| - 1] == a1 + front && (a1 + a2)[|a1 + a2| - 1] == last;
      assert BodyArgs(a1 + a2) == BodyArgs(a1 + front) + last.args;
    }
  }

  lemma {:induction false} NoTestsNoConds(body: seq<Literal>, names: seq<string>, bs: seq<Binding>)
    requires TestConds(body, names) == []
    ensures forall t :: t in body ==> !t.Test?
  {
    if body != [] {
      NoTestsNoConds(body[..|body| - 1], names, bs);
      assert body == body[..|body| - 1] + [body[|body| - 1]];
    }
  }

  lemma PositiveGoalsOf(r: Rule, idb: set<string>)
    requires Safe(r)
    ensures var goals := PosGoals(Atoms(r.body), idb);
      0 < PosCount(r) == |goals| && ArePosGoals(goals, JoinOrder(r), Places(r), idb)
  {
    hide PosGoal, Safe;
    SafeIff(r);
    PosGoalsAre(Atoms(r.body), idb);
  }

  /** The schemas the check speaks of are those of the operators. */
  lemma SchemasOfBody(r: Rule, idb: set<string>)
    requires Safe(r)
    ensures PosGoals(Atoms(r.body), idb) != [] && 0 < PosCount(r) <= |JoinOrder(r)|
    ensures Schema(JoinedPositive(r, idb)) == PositiveSchema(JoinOrder(r), Places(r), PosCount(r))
    ensures Schema(JoinedBody(r, idb)) == RuleSchema(r)
  {
    hide *;
    var atoms, at, n, goals := JoinOrder(r), Places(r), PosCount(r), PosGoals(Atoms(r.body), idb);
    PositiveGoalsOf(r, idb);
    PosGoalsNamed(goals, atoms, at, idb);
    JoinedSchema(goals, GoalNames(atoms[0].args, at[0]), atoms, at, 1);
    JoinedPositiveIs(r, idb);
    var posPart := JoinedPositive(r, idb);
    var negGoals := NegGoals(Atoms(r.body), posPart, idb);
    NegGoalsOf(r, posPart, idb);
    NegGoalsNamed(negGoals, atoms, at, n, posPart, idb);
    JoinedSchema([posPart] + negGoals, Schema(posPart), atoms, at, n);
    JoinedBodyIs(r, idb);
  }

  lemma JoinedPositiveIs(r: Rule, idb: set<string>)
    requires PosGoals(Atoms(r.body), idb) != [] && 0 < PosCount(r)
    ensures Schema(JoinedPositive(r, idb)) == Schema(JoinGoals(PosGoals(Atoms(r.body), idb)))
    ensures var atoms, at, n := JoinOrder(r), Places(r), PosCount(r);
      PositiveSchema(atoms, at, n)
        == SchemaAfter(GoalNames(atoms[0].args, at[0]), atoms, at, 1, n, Elements(NamesBefore([], atoms, at, 1, n)))
  {
    hide GoalNames, SchemaAfter, NamesBefore, JoinGoals, PosGoals, PosAtoms, NegAtoms, PosPlaces, NegPlaces;
  }

  lemma JoinedBodyIs(r: Rule, idb: set<string>)
    requires PosGoals(Atoms(r.body), idb) != [] && 0 < PosCount(r)
    ensures var posPart := JoinedPositive(r, idb);
      JoinedBody(r, idb) == JoinGoals([posPart] + NegGoals(Atoms(r.body), posPart, idb))
    ensures var atoms, at, n := JoinOrder(r), Places(r), PosCount(r);
      var m := |atoms|;
      RuleSchema(r) == SchemaAfter(PositiveSchema(atoms, at, n), atoms, at, n, m, Elements(NamesBefore([], atoms, at, n, m)))
  {
    hide PositiveSchema, SchemaAfter, NamesBefore, JoinGoals, PosGoals, JoinedPositive, PosAtoms, NegAtoms, PosPlaces,
         NegPlaces;
  }

  /** What the theorem needs to know of the body of a rule. */
  ghost predicate Setting(r: Rule, db: Database) {
    Safe(r) && BodyApart(r) && AritiesFit(r, db)
  }

  lemma PositiveJoined(r: Rule, idb: set<string>, db: Database)
    requires Setting(r, db)
    ensures PosGoals(Atoms(r.body), idb) != []
    ensures var pos := PosAtoms(Atoms(r.body));
      Represents(Eval(JoinGoals(PosGoals(Atoms(r.body), idb)), db), BodyArgs(pos), Solve(pos, db))
  {
    var atoms, at, n, goals := JoinOrder(r), Places(r), PosCount(r), PosGoals(Atoms(r.body), idb);
    PositiveGoalsOf(r, idb);
    PlacesDistinct(r);
    hide PosGoals, JoinUpTo, Represents, JoinsApart, Elements, OrigNames, HasArity, Atoms, PosAtoms, NegAtoms, Places, NoDup;
    PositiveArities(r, db);
    JoinUpToSolves(atoms, at, goals, Elements(OrigNames(goals[1..])), n, idb, db);
  }

  lemma PositiveArities(r: Rule, db: Database)
    requires AritiesFit(r, db)
    ensures forall i :: 0 <= i < PosCount(r) ==> HasArity(Rows(db, JoinOrder(r)[i].rel), |JoinOrder(r)[i].args|)
  {
    hide PosAtoms, NegAtoms, Rows;
    forall i | 0 <= i < PosCount(r) ensures HasArity(Rows(db, JoinOrder(r)[i].rel), |JoinOrder(r)[i].args|) {
      OrderedAtoms(Atoms(r.body));
      AtomsIn(r.body);
      assert JoinOrder(r)[i] == PosAtoms(Atoms(r.body))[i];
      assert JoinOrder(r)[i] in PosAtoms(Atoms(r.body));
    }
  }

  /** The positive part below the negated goals: joined, then filtered by the comparisons. */
  lemma FilteredJoined(r: Rule, idb: set<string>, db: Database)
    requires Setting(r, db) && PosGoals(Atoms(r.body), idb) != []
    ensures var pos := PosAtoms(Atoms(r.body));
      Represents(Eval(JoinedPositive(r, idb), db), BodyArgs(pos), KeepTested(r.body, Solve(pos, db)))
  {
    hide *;
    SettingParts(r, db);
    var pos := PosAtoms(Atoms(r.body));
    var joined := JoinGoals(PosGoals(Atoms(r.body), idb));
    PositiveJoined(r, idb, db);
    SchemasOfBody(r, idb);
    JoinedPositiveIs(r, idb);
    TestsIn(r.body);
    SelectTested(r.body, Schema(joined), BodyArgs(pos), TestVars(r.body), Eval(joined, db), Solve(pos, db));
    FilteredEval(r, idb, db);
  }

  lemma FilteredEval(r: Rule, idb: set<string>, db: Database)
    requires PosGoals(Atoms(r.body), idb) != []
    ensures var joined := JoinGoals(PosGoals(Atoms(r.body), idb));
      Eval(JoinedPositive(r, idb), db) == SelectRows(TestConds(r.body, Schema(joined)), Eval(joined, db))
  {
    hide JoinGoals, PosGoals, TestConds, Schema;
    var joined := JoinGoals(PosGoals(Atoms(r.body), idb));
    SelectRowsProps(TestConds(r.body, Schema(joined)), Eval(joined, db));
  }

  lemma TestsIn(body: seq<Literal>)
    ensures TestsOver(body, TestVars(body))
  {
    hide ExprVars;
  }

  lemma SettingParts(r: Rule, db: Database)
    requires Setting(r, db)
    ensures var atoms, at, n := JoinOrder(r), Places(r), PosCount(r);
      && Safe(r) && 0 < n <= |atoms| == |at| && var names, args := PositiveSchema(atoms, at, n), BodyArgs(atoms[..n]);
      && JoinsApart(names, atoms, at, n, |atoms|) && AllFindOwn(names, args, TestVars(r.body))
      && forall h :: n <= h < |atoms| ==> AllFindOwn(names, args, TermVars(atoms[h].args))
    ensures PosAtoms(Atoms(r.body)) == JoinOrder(r)[..PosCount(r)] && NegAtoms(Atoms(r.body)) == JoinOrder(r)[PosCount(r)..]
  {
    hide PositiveSchema, JoinsApart, FindsOwn, JoinOrder, PosCount, AritiesFit, Atoms, Places;
    var atoms, n := JoinOrder(r), PosCount(r);
    forall h | n <= h < |atoms| ensures TermVars(atoms[h].args) <= TermVars(BodyArgs(atoms[n..])) {
      assert atoms[n..][..|atoms| - n] == atoms[n..] && atoms[n..][h - n] == atoms[h];
      BodyArgsVars(atoms[n..], |atoms| - n, |atoms| - n);
    }
  }

  /** The whole body: the joined rows are the bindings that satisfy it, in the same order and number. */
  lemma BodyJoined(r: Rule, idb: set<string>, db: Database)
    requires Setting(r, db) && PosGoals(Atoms(r.body), idb) != []
    ensures Represents(Eval(JoinedBody(r, idb), db), BodyArgs(JoinOrder(r)), BodyBindings(r, db))
  {
    hide *;
    SettingParts(r, db);
    var atoms, at, n := JoinOrder(r), Places(r), PosCount(r);
    var posPart := JoinedPositive(r, idb);
    var negGoals := NegGoals(Atoms(r.body), posPart, idb);
    var goals := [posPart] + negGoals;
    SchemasOfBody(r, idb);
    JoinedPositiveIs(r, idb);
    FilteredJoined(r, idb, db);
    NegGoalsOf(r, posPart, idb);
    PositiveSize(r);
    NegatedRemoved(posPart, atoms, at, n, KeepTested(r.body, Solve(atoms[..n], db)), negGoals,
                   Elements(OrigNames(goals[1..])), |negGoals|, idb, db);
    assert atoms[..|atoms|] == atoms && atoms[n..|atoms|] == atoms[n..];
    JoinedBodyIs(r, idb);
    WholeBody(r, goals, db);
  }

  lemma WholeBody(r: Rule, goals: seq<Op>, db: Database)
    requires goals != []
    ensures JoinGoals(goals) == JoinUpTo(goals, Elements(OrigNames(goals[1..])), |goals|).op
    ensures var atoms := Atoms(r.body);
      BodyBindings(r, db) == KeepAllAbsent(NegAtoms(atoms), KeepTested(r.body, Solve(PosAtoms(atoms), db)), db)
  {
    hide JoinUpTo, Elements, OrigNames, KeepAllAbsent, KeepTested, Solve;
  }

  /** The schema of the positive part has one name for each column. */
  lemma PositiveSize(r: Rule)
    requires Safe(r)
    ensures 0 < PosCount(r) && |PositiveSchema(JoinOrder(r), Places(r), PosCount(r))| == |BodyArgs(JoinOrder(r)[..PosCount(r)])|
  {
    SafeIff(r);
    hide Safe;
    var atoms, at, n := JoinOrder(r), Places(r), PosCount(r);
    BodyArgsStep(atoms, 1);
    assert BodyArgs(atoms[..0]) == [];
    SchemaLength(GoalNames(atoms[0].args, at[0]), atoms, at, 1, n, Elements(NamesBefore([], atoms, at, 1, n)));
  }

  lemma {:induction false} SchemaLength(start: seq<string>, atoms: seq<Atom>, at: seq<nat>, lo: nat, k: nat, all: set<string>)
    requires lo <= k <= |atoms| == |at| && |start| == |BodyArgs(atoms[..lo])|
    ensures |SchemaAfter(start, atoms, at, lo, k, all)| == |BodyArgs(atoms[..k])|
    decreases k
  {
    hide GoalNames, MakeUnique;
    if lo < k {
      SchemaLength(start, atoms, at, lo, k - 1, all);
      BodyArgsStep(atoms, k);
    }
  }

  lemma NegGoalsOf(r: Rule, posPart: Op, idb: set<string>)
    requires Safe(r)
    ensures var goals := NegGoals(Atoms(r.body), posPart, idb);
      PosCount(r) + |goals| == |JoinOrder(r)| && AreNegGoals(goals, JoinOrder(r), Places(r), PosCount(r), posPart, idb)
  {
    hide *;
    var atoms := Atoms(r.body);
    NegGoalsAre(atoms, posPart, idb);
    OrderIs(r);
    PlacedNegGoals(NegGoals(atoms, posPart, idb), PosAtoms(atoms), NegAtoms(atoms), PosPlaces(atoms), NegPlaces(atoms),
                   posPart, idb);
  }

  lemma OrderIs(r: Rule)
    ensures var atoms := Atoms(r.body);
      && JoinOrder(r) == PosAtoms(atoms) + NegAtoms(atoms) && Places(r) == PosPlaces(atoms) + NegPlaces(atoms)
      && PosCount(r) == |PosAtoms(atoms)| == |PosPlaces(atoms)| && |NegAtoms(atoms)| == |NegPlaces(atoms)|
  {
    hide Atoms, PosAtoms, NegAtoms, PosPlaces, NegPlaces;
  }

  lemma PlacedNegGoals(goals: seq<Op>, pos: seq<Atom>, neg: seq<Atom>, posAt: seq<nat>, negAt: seq<nat>, posPart: Op,
                       idb: set<string>)
    requires |pos| == |posAt| && |goals| == |neg| == |negAt|
    requires forall i :: 0 <= i < |goals| ==> goals[i] == NegGoal(neg[i], negAt[i], posPart, idb)
    ensures AreNegGoals(goals, pos + neg, posAt + negAt, |pos|, posPart, idb)
  {
    hide NegGoal;
    forall j | 0 <= j < |goals| ensures goals[j] == NegGoal((pos + neg)[|pos| + j], (posAt + negAt)[|pos| + j], posPart, idb) {
      assert (pos + neg)[|pos| + j] == neg[j] && (posAt + negAt)[|pos| + j] == negAt[j];
    }
  }

  // ----- Heads -----

  lemma {:induction false} HeadMapProps(args: seq<Term>, names: seq<string>, n: nat)
    requires n <= |args| && n <= |names|
    ensures var m := HeadMap(args, names, n);
      && (forall x :: x in m ==> m[x] < n && args[m[x]] == Var(x) && names[m[x]] == x)
      && (forall i :: 0 <= i < n && args[i].Var? && names[i] == args[i].name ==> args[i].name in m)
  {
    if n > 0 {
      HeadMapProps(args, names, n - 1);
    }
  }

  /** The map leads every variable it knows to a column that holds it. */
  ghost predicate MapFindsVars(m: map<string, nat>, row: Row, b: Binding) {
    forall x :: x in m ==> x in b && m[x] < |row| && row[m[x]] == b[x]
  }

  lemma {:induction false} ReplaceByMapValue(e: Expr, m: map<string, nat>, row: Row, b: Binding)
    requires MapFindsVars(m, row, b) && ExprVars(e) <= m.Keys
    ensures EvalScalar(ReplaceByMap(e, m), row, []) == EvalExpr(e, b)
  {
    match e
    case EVar(x) =>
    case EConst(_) =>
    case EApp(_, l, r) =>
      ReplaceByMapValue(l, m, row, b);
      ReplaceByMapValue(r, m, row, b);
    case EAgg(_, _) =>
  }

  /** The rows of a body seen by head expressions. */
  ghost predicate HeadSees(rows: seq<Row>, bs: seq<Binding>, m: map<string, nat>, vars: set<string>) {
    && |rows| == |bs| && vars <= m.Keys
    && forall i :: 0 <= i < |rows| ==> MapFindsVars(m, rows[i], bs[i])
  }

  /** Head expressions look at the variables of the head only. */
  function Restricted(m: map<string, nat>, vars: set<string>): map<string, nat> {
    map x | x in m && x in vars :: m[x]
  }

  lemma {:induction false} SameReplacement(e: Expr, m: map<string, nat>, vars: set<string>)
    requires ExprVars(e) <= vars
    ensures ReplaceByMap(e, Restricted(m, vars)) == ReplaceByMap(e, m)
  {
    match e
    case EVar(_) =>
    case EConst(_) =>
    case EApp(_, l, r) =>
      SameReplacement(l, m, vars);
      SameReplacement(r, m, vars);
    case EAgg(_, a) => SameReplacement(a, m, vars);
  }

  lemma SameExprs(head: seq<Expr>, m: map<string, nat>)
    ensures HeadExprs(head, Restricted(m, HeadVars(head))) == HeadExprs(head, m)
  {
    hide Restricted, ReplaceByMap;
    HeadVarsIn(head, HeadVars(head));
    forall i | 0 <= i < |head| ensures ReplaceByMap(head[i], Restricted(m, HeadVars(head))) == ReplaceByMap(head[i], m) {
      assert head[i] in head;
      SameReplacement(head[i], m, HeadVars(head));
    }
  }

  /** The map is made from the arguments in body order; the rows have their columns in join order. */
  lemma FoundInRow(names: seq<string>, found: seq<Term>, args: seq<Term>, vars: set<string>, row: Row, b: Binding)
    requires |names| == |found| == |args| == |row| && Extend(map[], args, row) == Some(b)
    requires forall x :: x in vars ==> OnlyOwn(names, found, args, x)
    ensures MapFindsVars(Restricted(HeadMap(found, names, |found|), vars), row, b)
  {
    ExtendProps(map[], args, row);
    HeadMapProps(found, names, |found|);
    var m := HeadMap(found, names, |found|);
    hide HeadMap, Extend;
    forall x | x in m && x in vars ensures x in b && row[m[x]] == b[x] {
      assert OnlyOwn(names, found, args, x);
      assert args[m[x]] == Var(x);
    }
  }

  lemma HeadSeesBody(names: seq<string>, found: seq<Term>, args: seq<Term>, vars: set<string>, rows: seq<Row>,
                     bs: seq<Binding>)
    requires |names| == |found| == |args| && Represents(rows, args, bs)
    requires forall x :: x in vars ==> OnlyOwn(names, found, args, x)
    ensures var m := Restricted(HeadMap(found, names, |found|), vars); HeadSees(rows, bs, m, m.Keys)
  {
    hide OnlyOwn, Extend, HeadMap, Restricted, MapFindsVars;
    forall i | 0 <= i < |rows| ensures MapFindsVars(Restricted(HeadMap(found, names, |found|), vars), rows[i], bs[i]) {
      FoundInRow(names, found, args, vars, rows[i], bs[i]);
    }
  }

  lemma PlainHeadRows(head: seq<Expr>, rows: seq<Row>, bs: seq<Binding>, m: map<string, nat>, vars: set<string>)
    requires HeadSees(rows, bs, m, vars) && forall e :: e in head ==> ExprVars(e) <= vars
    ensures ProjectRows(HeadExprs(head, m), rows) == HeadRows(head, bs)
  {
    forall i | 0 <= i < |rows| ensures EvalAll(HeadExprs(head, m), rows[i]) == HeadRow(head, bs[i]) {
      forall j | 0 <= j < |head| ensures EvalScalar(ReplaceByMap(head[j], m), rows[i], []) == EvalExpr(head[j], bs[i]) {
        assert head[j] in head;
        ReplaceByMapValue(head[j], m, rows[i], bs[i]);
      }
    }
  }

  // ----- Aggregating heads -----

  ghost predicate AggHeadOk(head: seq<Expr>) {
    forall e :: e in head ==> e.EVar? || e.EAgg?
  }

  lemma HeadExprsMirror(head: seq<Expr>, m: map<string, nat>)
    ensures AggHeadAllowed(HeadExprs(head, m)) <==> AggHeadOk(head)
  {
    var exprs := HeadExprs(head, m);
    if AggHeadAllowed(exprs) {
      forall e | e in head ensures e.EVar? || e.EAgg? {
        var i :| 0 <= i < |head| && head[i] == e;
        assert exprs[i] in exprs;
      }
    }
  }

  lemma HeadPrefix(head: seq<Expr>, m: map<string, nat>)
    requires head != []
    ensures HeadExprs(head, m)[..|head| - 1] == HeadExprs(head[..|head| - 1], m)
  {
  }

  lemma {:induction false} GroupKeyValue(head: seq<Expr>, m: map<string, nat>, row: Row, b: Binding)
    requires AggHeadOk(head) && MapFindsVars(m, row, b) && forall e :: e in head ==> ExprVars(e) <= m.Keys
    ensures EvalAll(GroupRefs(HeadExprs(head, m)), row) == GroupKey(head, b)
  {
    if head != [] {
      var front, last := head[..|head| - 1], head[|head| - 1];
      assert head == front + [last] && last in head;
      HeadPrefix(head, m);
      forall e | e in front ensures (e.EVar? || e.EAgg?) && ExprVars(e) <= m.Keys { assert e in head; }
      GroupKeyValue(front, m, row, b);
      var refs := GroupRefs(HeadExprs(front, m));
      if last.EVar? {
        ReplaceByMapValue(last, m, row, b);
        EvalAllConcat(refs, [ReplaceByMap(last, m)], row);
      } else {
        EvalAllConcat(refs, [], row);
      }
    }
  }

  lemma EvalAllConcat(e1: seq<Scalar>, e2: seq<Scalar>, row: Row)
    ensures EvalAll(e1 + e2, row) == EvalAll(e1, row) + EvalAll(e2, row)
  {
  }

  lemma KeysAgree(head: seq<Expr>, m: map<string, nat>, rows: seq<Row>, bs: seq<Binding>, vars: set<string>)
    requires AggHeadOk(head) && HeadSees(rows, bs, m, vars) && forall e :: e in head ==> ExprVars(e) <= vars
    ensures ProjectRows(GroupRefs(HeadExprs(head, m)), rows) == GroupKeys(head, bs)
  {
    forall i | 0 <= i < |rows| ensures EvalAll(GroupRefs(HeadExprs(head, m)), rows[i]) == GroupKey(head, bs[i]) {
      GroupKeyValue(head, m, rows[i], bs[i]);
    }
  }

  lemma {:induction false} MembersAgree(head: seq<Expr>, m: map<string, nat>, rows: seq<Row>, bs: seq<Binding>,
                                        vars: set<string>, key: Row)
    requires AggHeadOk(head) && HeadSees(rows, bs, m, vars) && forall e :: e in head ==> ExprVars(e) <= vars
    ensures HeadSees(RowsOfGroup(GroupRefs(HeadExprs(head, m)), key, rows), Members(head, key, bs), m, vars)
  {
    if rows != [] {
      GroupKeyValue(head, m, rows[0], bs[0]);
      assert HeadSees(rows[1..], bs[1..], m, vars);
      MembersAgree(head, m, rows[1..], bs[1..], vars, key);
    }
  }

  lemma AggValueAgrees(arg: Expr, m: map<string, nat>, rows: seq<Row>, bs: seq<Binding>, vars: set<string>)
    requires HeadSees(rows, bs, m, vars) && arg.EAgg? && ExprVars(arg) <= vars
    ensures AggValue(ReplaceByMap(arg, m), rows) == GroupValue(arg, bs)
  {
    var input := ReplaceByMap(arg.arg, m);
    forall i | 0 <= i < |rows| ensures EvalScalar(input, rows[i], []) == EvalExpr(arg.arg, bs[i]) {
      ReplaceByMapValue(arg.arg, m, rows[i], bs[i]);
    }
    assert Column(input, rows) == Values(arg.arg, bs);
  }

  /** Head argument `i` is the `AggIndex`-th aggregate or the `GroupIndex`-th group-by column. */
  function AggIndex(exprs: seq<Scalar>, i: nat): nat
    requires i <= |exprs|
  {
    |AggCalls(exprs[..i])|
  }

  function GroupIndex(exprs: seq<Scalar>, i: nat): nat
    requires i <= |exprs|
  {
    |GroupRefs(exprs[..i])|
  }

  lemma {:induction false} HeadSlots(exprs: seq<Scalar>, i: nat)
    requires AggHeadAllowed(exprs) && i < |exprs|
    ensures |AggHeadNames(exprs)| == |exprs|
    ensures exprs[i].AggCall? ==>
      && AggIndex(exprs, i) < |AggCalls(exprs)| && AggCalls(exprs)[AggIndex(exprs, i)] == exprs[i]
      && AggHeadNames(exprs)[i] == "AGGR_" + Dec(AggIndex(exprs, i))
    ensures exprs[i].Ref? ==>
      && GroupIndex(exprs, i) < |GroupRefs(exprs)| && GroupRefs(exprs)[GroupIndex(exprs, i)] == exprs[i]
      && AggHeadNames(exprs)[i] == "GROUP_" + Dec(GroupIndex(exprs, i))
  {
    var front, last := exprs[..|exprs| - 1], exprs[|exprs| - 1];
    assert exprs == front + [last];
    forall e | e in front ensures e.Ref? || e.AggCall? { assert e in exprs; }
    assert last in exprs && exprs[i] in exprs;
    if front != [] {
      HeadSlots(front, if i < |front| then i else 0);
    }
    if i < |front| {
      assert exprs[..i] == front[..i];
    } else {
      assert exprs[..i] == front;
    }
  }

  lemma PrefixesApart(m: nat, n: nat)
    ensures "AGGR_" + Dec(m) != "GROUP_" + Dec(n)
  {
    hide Dec;
    assert ("AGGR_" + Dec(m))[0] == 'A' && ("GROUP_" + Dec(n))[0] == 'G';
  }

  lemma FoundAt(names: seq<string>, i: nat)
    requires i < |names| && forall k :: 0 <= k < |names| && k != i ==> names[k] != names[i]
    ensures NamePos(names, names[i]) == i
  {
    assert names[i] in names;
  }

  /** The attribute names of the aggregation operator's output. */
  function SlotNames(aggs: nat, groups: nat): (names: seq<string>)
    ensures |names| == aggs + groups
    ensures forall i :: 0 <= i < aggs ==> names[i] == "AGGR_" + Dec(i)
    ensures forall i :: aggs <= i < aggs + groups ==> names[i] == "GROUP_" + Dec(i - aggs)
  {
    var first, second := NumberedNames("AGGR_", aggs), NumberedNames("GROUP_", groups);
    assert forall i :: aggs <= i < aggs + groups ==> (first + second)[i] == second[i - aggs];
    first + second
  }

  lemma SlotNamesDiffer(aggs: nat, groups: nat, i: nat, k: nat)
    requires i < k < aggs + groups
    ensures SlotNames(aggs, groups)[i] != SlotNames(aggs, groups)[k]
  {
    hide SlotNames, Dec;
    if k < aggs {
      SuffixesDiffer("AGGR_", i, k);
    } else if i >= aggs {
      SuffixesDiffer("GROUP_", i - aggs, k - aggs);
    } else {
      PrefixesApart(i, k - aggs);
    }
  }

  /** Looking up `AGGR_i` and `GROUP_i` by name finds the right output column. */
  lemma SlotPositions(aggs: nat, groups: nat, i: nat)
    requires i < aggs + groups
    ensures NamePos(SlotNames(aggs, groups), SlotNames(aggs, groups)[i]) == i
  {
    hide SlotNames, NamePos;
    var names := SlotNames(aggs, groups);
    forall k | 0 <= k < |names| && k != i ensures names[k] != names[i] {
      if k < i { SlotNamesDiffer(aggs, groups, k, i); } else { SlotNamesDiffer(aggs, groups, i, k); }
    }
    FoundAt(names, i);
  }

  /** Column `i` of the final projection is the value of head argument `i` for the group, although the
      aggregation operator emits all aggregates before all group-by columns. */
  lemma HeadColumn(head: seq<Expr>, m: map<string, nat>, key: Row, groupRows: seq<Row>, members: seq<Binding>,
                   vars: set<string>, i: nat)
    requires i < |head| && AggHeadOk(head) && HeadSees(groupRows, members, m, vars)
    requires forall e :: e in head ==> ExprVars(e) <= vars
    requires members != [] || forall e :: e in head ==> e.EAgg?
    requires members != [] ==> GroupKey(head, members[0]) == key
    requires |key| == |GroupRefs(HeadExprs(head, m))|
    ensures var exprs := HeadExprs(head, m);
      var aggs, groups := AggCalls(exprs), GroupRefs(exprs);
      var names := SlotNames(|aggs|, |groups|);
      var out := AggValues(aggs, groupRows) + key;
      && |AggHeadNames(exprs)| == |head|
      && Cell(out, NamePos(names, AggHeadNames(exprs)[i])) == GroupValue(head[i], members)
  {
    var exprs := HeadExprs(head, m);
    var aggs, groups := AggCalls(exprs), GroupRefs(exprs);
    HeadExprsMirror(head, m);
    assert head[i] in head && exprs[i] == ReplaceByMap(head[i], m);
    HeadSlots(exprs, i);
    hide NamePos, SlotNames, HeadExprs, AggCalls, GroupRefs, AggHeadNames, Dec, MapFindsVars, ExprVars, GroupKey,
         EvalExpr, AggValues;
    if head[i].EAgg? {
      hide AggValue, GroupValue;
      SlotPositions(|aggs|, |groups|, AggIndex(exprs, i));
      AggValueAgrees(head[i], m, groupRows, members, vars);
    } else {
      SlotPositions(|aggs|, |groups|, |aggs| + GroupIndex(exprs, i));
      GroupSlotValue(head, m, key, groupRows[0], members[0], i);
    }
  }

  /** A group-by column holds the value its head argument has on any member of the group. */
  lemma GroupSlotValue(head: seq<Expr>, m: map<string, nat>, key: Row, row: Row, b: Binding, i: nat)
    requires i < |head| && AggHeadOk(head) && MapFindsVars(m, row, b) && GroupKey(head, b) == key
    requires (forall e :: e in head ==> ExprVars(e) <= m.Keys) && !head[i].EAgg?
    ensures GroupIndex(HeadExprs(head, m), i) < |key| && key[GroupIndex(HeadExprs(head, m), i)] == EvalExpr(head[i], b)
  {
    var exprs := HeadExprs(head, m);
    HeadExprsMirror(head, m);
    assert head[i] in head && exprs[i] == ReplaceByMap(head[i], m);
    HeadSlots(exprs, i);
    GroupKeyValue(head, m, row, b);
    ReplaceByMapValue(head[i], m, row, b);
  }

  lemma {:induction false} MembersOfKey(head: seq<Expr>, key: Row, bs: seq<Binding>)
    ensures forall b :: b in Members(head, key, bs) <==> b in bs && GroupKey(head, b) == key
  {
    if bs != [] {
      MembersOfKey(head, key, bs[1..]);
      assert bs == [bs[0]] + bs[1..];
    }
  }

  lemma {:induction false} AllAggsOneGroup(head: seq<Expr>, bs: seq<Binding>)
    requires forall e :: e in head ==> e.EAgg?
    ensures forall b :: GroupKey(head, b) == []
    ensures Members(head, [], bs) == bs
  {
    forall b ensures GroupKey(head, b) == [] { AllAggsNoKey(head, b); }
    if bs != [] {
      AllAggsOneGroup(head, bs[1..]);
    }
  }

  lemma {:induction false} AllAggsNoKey(head: seq<Expr>, b: Binding)
    requires forall e :: e in head ==> e.EAgg?
    ensures GroupKey(head, b) == []
  {
    if head != [] {
      AllAggsNoKey(head[..|head| - 1], b);
    }
  }

  lemma {:induction false} NoGroupRefs(head: seq<Expr>, m: map<string, nat>)
    requires AggHeadOk(head)
    ensures GroupRefs(HeadExprs(head, m)) == [] <==> forall e :: e in head ==> e.EAgg?
  {
    if head != [] {
      var front, last := head[..|head| - 1], head[|head| - 1];
      assert head == front + [last];
      forall e | e in front ensures e.EVar? || e.EAgg? { assert e in head; }
      HeadPrefix(head, m);
      NoGroupRefs(front, m);
      assert last in head;
    }
  }

  /** The projection by names yields the row whose cells the names select. */
  lemma RowByNames(wanted: seq<string>, slots: seq<string>, out: Row, row: Row)
    requires |wanted| == |row|
    requires forall i :: 0 <= i < |row| ==> Cell(out, NamePos(slots, wanted[i])) == row[i]
    ensures EvalAll(RefsByName(wanted, slots), out) == row
  {
    hide NamePos;
  }

  lemma KeyOfGroup(head: seq<Expr>, m: map<string, nat>, rows: seq<Row>, bs: seq<Binding>, vars: set<string>, key: Row)
    requires AggHeadOk(head) && HeadSees(rows, bs, m, vars) && forall e :: e in head ==> ExprVars(e) <= vars
    requires key in GroupKeys(head, bs)
    ensures |key| == |GroupRefs(HeadExprs(head, m))|
    ensures var members := Members(head, key, bs); members != [] && GroupKey(head, members[0]) == key
  {
    var k :| 0 <= k < |bs| && GroupKeys(head, bs)[k] == key;
    MembersOfKey(head, key, bs);
    assert bs[k] in Members(head, key, bs) && Members(head, key, bs)[0] in Members(head, key, bs);
    GroupKeyValue(head, m, rows[k], bs[k]);
  }

  /** One output row of the aggregation, reordered, is the head of its group. */
  lemma GroupRowIsHead(head: seq<Expr>, m: map<string, nat>, rows: seq<Row>, bs: seq<Binding>, vars: set<string>, key: Row)
    requires AggHeadOk(head) && HeadSees(rows, bs, m, vars) && forall e :: e in head ==> ExprVars(e) <= vars
    requires key in GroupKeys(head, bs) || (key == [] && forall e :: e in head ==> e.EAgg?)
    ensures var exprs := HeadExprs(head, m);
      var aggs, groups := AggCalls(exprs), GroupRefs(exprs);
      var names := SlotNames(|aggs|, |groups|);
      EvalAll(RefsByName(AggHeadNames(exprs), names), GroupRow(aggs, groups, key, rows))
        == GroupHead(head, Members(head, key, bs))
  {
    hide ReplaceByMap, EvalScalar, EvalExpr, EvalAll, NamePos, GroupValue, ApplyAgg, Dec, Cell, HeadSees, ExprVars,
         GroupKey, RowsOfGroup, Members;
    var exprs := HeadExprs(head, m);
    var aggs, groups := AggCalls(exprs), GroupRefs(exprs);
    var names := SlotNames(|aggs|, |groups|);
    var members, groupRows := Members(head, key, bs), RowsOfGroup(groups, key, rows);
    MembersAgree(head, m, rows, bs, vars, key);
    NoGroupRefs(head, m);
    HeadExprsMirror(head, m);
    if key in GroupKeys(head, bs) { KeyOfGroup(head, m, rows, bs, vars, key); } else { AllAggsOneGroup(head, bs); }
    assert |key| == |groups|;
    var out := GroupRow(aggs, groups, key, rows);
    if head != [] { HeadSlots(exprs, 0); }
    forall i | 0 <= i < |head|
      ensures Cell(out, NamePos(names, AggHeadNames(exprs)[i])) == GroupValue(head[i], members)
    {
      HeadColumn(head, m, key, groupRows, members, vars, i);
    }
    RowByNames(AggHeadNames(exprs), names, out, GroupHead(head, members));
  }

  lemma AggHeadEval(exprs: seq<Scalar>, joined: Op, db: Database)
    ensures var rows, aggs, groups := Eval(joined, db), AggCalls(exprs), GroupRefs(exprs);
      var refs := RefsByName(AggHeadNames(exprs), SlotNames(|aggs|, |groups|));
      var keys := if groups == [] then [[]] else Distinct(ProjectRows(groups, rows));
      Eval(AggHead(exprs, joined), db) == ProjectRows(refs, GroupRows(aggs, groups, keys, rows))
  {
    hide AggCalls, GroupRefs, AggHeadNames, RefsByName, Distinct, NumberedNames;
  }

  lemma AggHeadRows(head: seq<Expr>, m: map<string, nat>, joined: Op, db: Database, bs: seq<Binding>, vars: set<string>)
    requires AggHeadOk(head) && HeadSees(Eval(joined, db), bs, m, vars) && forall e :: e in head ==> ExprVars(e) <= vars
    ensures Eval(AggHead(HeadExprs(head, m), joined), db)
         == if forall e :: e in head ==> e.EAgg? then [GroupHead(head, bs)]
            else GroupHeads(head, Distinct(GroupKeys(head, bs)), bs)
  {
    hide *;
    var rows, exprs := Eval(joined, db), HeadExprs(head, m);
    var groups := GroupRefs(exprs);
    var keys := if groups == [] then [[]] else Distinct(ProjectRows(groups, rows));
    AggHeadEval(exprs, joined, db);
    AggHeadGroups(head, m, rows, bs, vars, keys);
    NoGroupRefs(head, m);
    KeysAgree(head, m, rows, bs, vars);
    if groups == [] {
      AllAggsOneGroup(head, bs);
      assert GroupHeads(head, [[]], bs) == [GroupHead(head, Members(head, [], bs))];
    }
  }

  lemma AggHeadGroups(head: seq<Expr>, m: map<string, nat>, rows: seq<Row>, bs: seq<Binding>, vars: set<string>,
                      keys: seq<Row>)
    requires AggHeadOk(head) && HeadSees(rows, bs, m, vars) && forall e :: e in head ==> ExprVars(e) <= vars
    requires var groups := GroupRefs(HeadExprs(head, m));
      keys == if groups == [] then [[]] else Distinct(ProjectRows(groups, rows))
    ensures var exprs := HeadExprs(head, m);
      var aggs, groups := AggCalls(exprs), GroupRefs(exprs);
      ProjectRows(RefsByName(AggHeadNames(exprs), SlotNames(|aggs|, |groups|)), GroupRows(aggs, groups, keys, rows))
        == GroupHeads(head, keys, bs)
  {
    var exprs := HeadExprs(head, m);
    var aggs, groups := AggCalls(exprs), GroupRefs(exprs);
    var refs := RefsByName(AggHeadNames(exprs), SlotNames(|aggs|, |groups|));
    NoGroupRefs(head, m);
    KeysAgree(head, m, rows, bs, vars);
    DistinctProps(GroupKeys(head, bs));
    hide Distinct, GroupRow, SlotNames, RefsByName, HeadExprs, AggCalls, GroupRefs;
    forall i | 0 <= i < |keys|
      ensures EvalAll(refs, GroupRow(aggs, groups, keys[i], rows)) == GroupHead(head, Members(head, keys[i], bs)) {
      assert keys[i] in keys;
      GroupRowIsHead(head, m, rows, bs, vars, keys[i]);
    }
  }

  // ----- The theorem -----

  /** A safe rule is translated iff its head variables are found by name and its head does not mix aggregation with
      other expressions. */
  lemma TranslatedIff(r: Rule, idb: set<string>)
    requires Safe(r)
    ensures TranslateRule(r, idb).Some? <==> HeadNamed(r) && (Aggregates(r) ==> AggHeadOk(r.headArgs))
  {
    hide JoinedBody, JoinedPositive, PosGoals, HeadMap, Schema, AggHead, PlainHead, HeadExprs, AggHeadAllowed, Safe,
         RuleSchema, HasOwn, AggHeadOk, PosCount;
    SchemasOfBody(r, idb);
    var args, joined := BodyArgs(Atoms(r.body)), JoinedBody(r, idb);
    BodySize(r);
    BodyMapIs(r, joined);
    HeadMapKeys(args, Schema(joined), |args|);
    var m := BodyMap(r, joined);
    HeadExprsMirror(r.headArgs, m);
    HeadVarsIn(r.headArgs, m.Keys);
    assert HeadNamed(r) <==> HeadVars(r.headArgs) <= m.Keys;
  }

  lemma HeadVarsIn(head: seq<Expr>, vars: set<string>)
    ensures HeadVars(head) <= vars <==> forall e :: e in head ==> ExprVars(e) <= vars
  {
    hide ExprVars;
    if HeadVars(head) <= vars {
      forall e, x | e in head && x in ExprVars(e) ensures x in vars { assert x in HeadVars(head); }
    }
  }

  lemma BodySize(r: Rule)
    requires Safe(r)
    ensures 0 < PosCount(r) && |RuleSchema(r)| == |BodyArgs(JoinOrder(r))| == |BodyArgs(Atoms(r.body))|
  {
    hide GoalNames;
    var atoms, at, n := JoinOrder(r), Places(r), PosCount(r);
    PositiveSize(r);
    BodyArgsConcat(PosAtoms(Atoms(r.body)), NegAtoms(Atoms(r.body)));
    SameSize(Atoms(r.body));
    hide PositiveSchema, Atoms, PosAtoms, NegAtoms, Places, BodyArgs, SchemaAfter, NamesBefore;
    SchemaLength(PositiveSchema(atoms, at, n), atoms, at, n, |atoms|, Elements(NamesBefore([], atoms, at, n, |atoms|)));
    assert atoms[..|atoms|] == atoms;
  }

  lemma {:induction false} HeadMapKeys(args: seq<Term>, names: seq<string>, n: nat)
    requires n <= |args| == |names|
    ensures forall x :: x in HeadMap(args, names, n) <==> HasOwn(names[..n], args[..n], x)
    ensures names[..|names|] == names && args[..|args|] == args
  {
    if n > 0 {
      HeadMapKeys(args, names, n - 1);
      forall x ensures HasOwn(names[..n], args[..n], x)
        <==> HasOwn(names[..n - 1], args[..n - 1], x) || (names[n - 1] == x && args[n - 1] == Var(x)) {
        OwnStep(names, args, n, x);
      }
    }
  }

  lemma OwnStep(names: seq<string>, args: seq<Term>, n: nat, x: string)
    requires 0 < n <= |args| == |names|
    ensures HasOwn(names[..n], args[..n], x)
      <==> HasOwn(names[..n - 1], args[..n - 1], x) || (names[n - 1] == x && args[n - 1] == Var(x))
  {
    if HasOwn(names[..n - 1], args[..n - 1], x) {
      var i :| 0 <= i < n - 1 && names[..n - 1][i] == x && args[..n - 1][i] == Var(x);
      assert names[..n][i] == x && args[..n][i] == Var(x);
    }
    if HasOwn(names[..n], args[..n], x) {
      var i :| 0 <= i < n && names[..n][i] == x && args[..n][i] == Var(x);
      assert i < n - 1 ==> names[..n - 1][i] == x && args[..n - 1][i] == Var(x);
    }
    if names[n - 1] == x && args[n - 1] == Var(x) {
      assert names[..n][n - 1] == x && args[..n][n - 1] == Var(x);
    }
  }

  /** If moreover the names of its body are apart, the translation is a bag of exactly the rows the rule derives. */
  lemma RulePreserved(r: Rule, idb: set<string>, db: Database)
    requires Safe(r) && NamesApart(r) && AritiesFit(r, db)
    ensures TranslateRule(r, idb).Some? <==> (Aggregates(r) ==> AggHeadOk(r.headArgs))
    ensures TranslateRule(r, idb).Some? ==> Eval(TranslateRule(r, idb).value, db) == RuleRows(r, db)
  {
    TranslatedIff(r, idb);
    if TranslateRule(r, idb).Some? {
      TranslationRows(r, idb, db);
    }
  }

  lemma TranslationRows(r: Rule, idb: set<string>, db: Database)
    requires Safe(r) && BodyApart(r) && HeadOwn(r) && AritiesFit(r, db) && TranslateRule(r, idb).Some?
    ensures Eval(TranslateRule(r, idb).value, db) == RuleRows(r, db)
  {
    hide JoinedBody, JoinedPositive, BodyBindings, PosGoals, Represents, HeadMap, Eval, Schema, AggHead, PlainHead, HeadExprs,
         AggHeadAllowed, HeadSees, Safe, BodyApart, RuleSchema, AritiesFit, OnlyOwn, Restricted, HeadVars, PosCount, JoinOrder,
         BodyArgs, HeadMap;
    PositiveJoined(r, idb, db);
    BodyJoined(r, idb, db);
    SchemasOfBody(r, idb);
    BodySize(r);
    var found, args, joined := BodyArgs(Atoms(r.body)), BodyArgs(JoinOrder(r)), JoinedBody(r, idb);
    var bs := BodyBindings(r, db);
    BodyMapIs(r, joined);
    var all := BodyMap(r, joined);
    var m := Restricted(all, HeadVars(r.headArgs));
    HeadSeesBody(Schema(joined), found, args, HeadVars(r.headArgs), Eval(joined, db), bs);
    SameExprs(r.headArgs, all);
    RestrictedKeys(r.headArgs, all);
    HeadExprsMirror(r.headArgs, m);
    if !Aggregates(r) {
      PlainHeadRows(r.headArgs, Eval(joined, db), bs, m, m.Keys);
      PlainHeadEval(HeadExprs(r.headArgs, m), joined, db);
    } else {
      AggHeadRows(r.headArgs, m, joined, db, bs, m.Keys);
    }
  }

  lemma RestrictedKeys(head: seq<Expr>, m: map<string, nat>)
    ensures (forall e :: e in head ==> ExprVars(e) <= m.Keys) ==>
      forall e :: e in head ==> ExprVars(e) <= Restricted(m, HeadVars(head)).Keys
  {
    hide ExprVars;
  }

  lemma BodyMapIs(r: Rule, joined: Op)
    requires |Schema(joined)| == |BodyArgs(Atoms(r.body))|
    ensures BodyMap(r, joined) == HeadMap(BodyArgs(Atoms(r.body)), Schema(joined), |BodyArgs(Atoms(r.body))|)
  {
  }

  lemma PlainHeadEval(exprs: seq<Scalar>, joined: Op, db: Database)
    ensures Eval(PlainHead(exprs, joined), db) == Distinct(ProjectRows(exprs, Eval(joined, db)))
  {
    hide Distinct, ProjectRows, DefaultNames, JoinRows, SelectRows, GroupRows, Minus;
  }
}
