/** Generated attribute names can collide with the names of other variables or constants.  A plain join is translated
    correctly iff it passes the check on names; all rules over a set of variables, with positive atoms first, are iff
    that set is compatible.  Two rules show that head variables can get lost without any collision of values. */
module NameClash {
  import opened Names
  import opened UniqueNames
  import opened Algebra
  import opened Datalog
  import opened RuleTranslation
  import opened GoalNaming
  import opened AvoidedNames
  import opened NamingProofs
  import opened RowProofs
  import opened RuleProofs
  import opened RuleTheorem
  import opened Declarative

  // ----- Rows of a join over single-row relations -----

  ghost predicate OnlyRow(rows: seq<Row>, row: Row) {
    forall r :: r in rows ==> r == row
  }

  /** The original names of a join lead to this value under some column of this name. */
  ghost predicate HasCell(names: seq<string>, row: Row, name: string, v: Value) {
    |names| == |row| && exists p :: 0 <= p < |names| && names[p] == name && row[p] == v
  }

  lemma HasCellConcat(n1: seq<string>, r1: Row, n2: seq<string>, r2: Row, name: string, v: Value)
    requires |n1| == |r1| && |n2| == |r2| && (HasCell(n1, r1, name, v) || HasCell(n2, r2, name, v))
    ensures HasCell(n1 + n2, r1 + r2, name, v)
  {
    if HasCell(n1, r1, name, v) {
      var p :| 0 <= p < |n1| && n1[p] == name && r1[p] == v;
      assert (n1 + n2)[p] == name && (r1 + r2)[p] == v;
    } else {
      var p :| 0 <= p < |n2| && n2[p] == name && r2[p] == v;
      assert (n1 + n2)[|n1| + p] == name && (r1 + r2)[|n1| + p] == v;
    }
  }

  lemma {:induction false} JoinRowOnly(cond: seq<Comparison>, l: Row, right: seq<Row>, r: Row)
    requires OnlyRow(right, r)
    ensures OnlyRow(JoinRow(cond, l, right), l + r)
    ensures !Holds(cond, l, r) ==> JoinRow(cond, l, right) == []
  {
    if right != [] {
      assert right[0] in right;
      forall x | x in right[1..] ensures x == r { assert x in right; }
      JoinRowOnly(cond, l, right[1..], r);
    }
  }

  lemma {:induction false} JoinRowsOnly(cond: seq<Comparison>, left: seq<Row>, l: Row, right: seq<Row>, r: Row)
    requires OnlyRow(left, l) && OnlyRow(right, r)
    ensures OnlyRow(JoinRows(cond, left, right), l + r)
    ensures !Holds(cond, l, r) ==> JoinRows(cond, left, right) == []
  {
    if left != [] {
      assert left[0] in left;
      forall x | x in left[1..] ensures x == l { assert x in left; }
      JoinRowOnly(cond, l, right, r);
      JoinRowsOnly(cond, left[1..], l, right, r);
    }
  }

  /** A positive goal over a relation with a single row. */
  lemma GoalOnly(a: Atom, goalPos: nat, idb: set<string>, db: Database, row: Row)
    requires OnlyRow(Rows(db, a.rel), row) && |row| == |a.args|
    ensures OnlyRow(Eval(PosGoal(a, goalPos, idb), db), row)
    ensures Schema(PosGoal(a, goalPos, idb)) == GoalNames(a.args, goalPos)
  {
    RenamedGoalRows(Access(a, idb), a.args, goalPos, db);
    SelectRowsProps(GoalConds(a.args), Rows(db, a.rel));
  }

  function Flat(rows: seq<Row>): Row {
    if rows == [] then [] else Flat(rows[..|rows| - 1]) + rows[|rows| - 1]
  }

  /** Every goal has at most the given row. */
  ghost predicate SingleRows(goals: seq<Op>, rows: seq<Row>, db: Database) {
    && |goals| == |rows|
    && forall i :: 0 <= i < |goals| ==> OnlyRow(Eval(goals[i], db), rows[i]) && |Schema(goals[i])| == |rows[i]|
  }

  lemma {:induction false} JoinOnly(goals: seq<Op>, rows: seq<Row>, all: set<string>, k: nat, db: Database)
    requires SingleRows(goals, rows, db) && 1 <= k <= |goals|
    ensures var s := JoinUpTo(goals, all, k);
      OnlyRow(Eval(s.op, db), Flat(rows[..k])) && |s.orig| == |Flat(rows[..k])|
  {
    hide OnlyRow, JoinConds, MakeUnique;
    assert rows[..k][..k - 1] == rows[..k - 1];
    if k == 1 {
      assert Flat(rows[..0]) == [] && [] + rows[0] == rows[0];
    } else {
      JoinOnly(goals, rows, all, k - 1, db);
      var s, names := JoinUpTo(goals, all, k - 1), Schema(goals[k - 1]);
      JoinRowsOnly(JoinConds(s.orig, names, |names|), Eval(s.op, db), Flat(rows[..k - 1]), Eval(goals[k - 1], db),
                   rows[k - 1]);
    }
  }

  lemma {:induction false} CellSurvives(goals: seq<Op>, rows: seq<Row>, all: set<string>, i: nat, k: nat, db: Database,
                                        name: string, v: Value)
    requires SingleRows(goals, rows, db) && i < k <= |goals| && HasCell(Schema(goals[i]), rows[i], name, v)
    ensures HasCell(JoinUpTo(goals, all, k).orig, Flat(rows[..k]), name, v)
  {
    assert rows[..k][..k - 1] == rows[..k - 1];
    if k == 1 {
      assert Flat(rows[..0]) == [] && [] + rows[0] == rows[0];
    } else {
      JoinOnly(goals, rows, all, k - 1, db);
      var s, names := JoinUpTo(goals, all, k - 1), Schema(goals[k - 1]);
      if i < k - 1 {
        CellSurvives(goals, rows, all, i, k - 1, db, name, v);
      }
      HasCellConcat(s.orig, Flat(rows[..k - 1]), names, rows[k - 1], name, v);
    }
  }

  lemma CellsConflict(orig: seq<string>, l: Row, names: seq<string>, r: Row, name: string, v: Value, w: Value)
    requires HasCell(orig, l, name, v) && HasCell(names, r, name, w) && v != w
    ensures !Holds(JoinConds(orig, names, |names|), l, r)
  {
    JoinCondsMean(orig, l, names, r, |names|);
    var p :| 0 <= p < |orig| && orig[p] == name && l[p] == v;
    var q :| 0 <= q < |names| && names[q] == name && r[q] == w;
    assert orig[p] == names[q] && l[p] != r[q];
  }

  /** Two goals that carry different values under one name join to nothing, whatever comes before, between and after. */
  lemma {:induction false} ClashIsEmpty(goals: seq<Op>, rows: seq<Row>, all: set<string>, i: nat, h: nat, k: nat, db: Database,
                                        name: string, v: Value, w: Value)
    requires SingleRows(goals, rows, db) && i < h < k <= |goals| && v != w
    requires HasCell(Schema(goals[i]), rows[i], name, v)
    requires HasCell(Schema(goals[h]), rows[h], name, w)
    ensures Eval(JoinUpTo(goals, all, k).op, db) == []
  {
    hide *;
    JoinUpStep(goals, all, k);
    var s, names := JoinUpTo(goals, all, k - 1), Schema(goals[k - 1]);
    JoinNextEval(s, goals[k - 1], all, db);
    if h < k - 1 {
      ClashIsEmpty(goals, rows, all, i, h, k - 1, db, name, v, w);
      NoLeftRows(JoinConds(s.orig, names, |names|), Eval(goals[k - 1], db));
    } else {
      SingleAt(goals, rows, db, k - 1);
      JoinOnly(goals, rows, all, k - 1, db);
      CellSurvives(goals, rows, all, i, k - 1, db, name, v);
      CellsConflict(s.orig, Flat(rows[..k - 1]), names, rows[k - 1], name, v, w);
      JoinRowsOnly(JoinConds(s.orig, names, |names|), Eval(s.op, db), Flat(rows[..k - 1]), Eval(goals[k - 1], db),
                   rows[k - 1]);
    }
  }

  lemma JoinNextEval(s: JoinState, goal: Op, all: set<string>, db: Database)
    ensures var names := Schema(goal);
      Eval(JoinNext(s, goal, all).op, db) == JoinRows(JoinConds(s.orig, names, |names|), Eval(s.op, db), Eval(goal, db))
  {
    hide JoinConds, MakeUnique;
  }

  lemma NoLeftRows(cond: seq<Comparison>, right: seq<Row>)
    ensures JoinRows(cond, [], right) == []
  {
  }

  lemma SingleAt(goals: seq<Op>, rows: seq<Row>, db: Database, i: nat)
    requires SingleRows(goals, rows, db) && i < |goals|
    ensures |goals| == |rows| && OnlyRow(Eval(goals[i], db), rows[i])
  {
  }

  // ----- The names that clash -----

  function Repeat<T>(x: T, n: nat): (s: seq<T>)
    ensures |s| == n && forall i :: 0 <= i < n ==> s[i] == x
  {
    seq(n, _ => x)
  }

  lemma {:induction false} OccurrencesOfRepeat(v: string, n: nat)
    ensures Occurrences(v, Repeat(v, n)) == n
  {
    if n > 0 {
      OccurrencesOfRepeat(v, n - 1);
      assert Repeat(v, n)[..n - 1] == Repeat(v, n - 1);
    }
  }

  /** Repeating a variable `n` times names its columns `v`, `v1`, ..., `v(n-1)`. */
  lemma {:induction false} RepeatedNames(v: string, n: nat, m: nat)
    requires m <= n
    ensures var r := UniqueUpTo(Repeat(v, n), {v}, m);
      forall i :: 0 <= i < n ==> r[i] == if 0 < i < m then v + Dec(i) else v
  {
    hide *;
    var names := Repeat(v, n);
    NoneRenamed(names, {v});
    if m > 0 {
      RepeatedNames(v, n, m - 1);
      var prev := UniqueUpTo(names, {v}, m - 1);
      assert names[..m - 1] == Repeat(v, m - 1);
      OccurrencesOfRepeat(v, m - 1);
      UniqueUpToStep(names, {v}, m);
      if m > 1 { NextRepeated(v, m - 1, prev); }
    }
  }

  lemma NextRepeated(v: string, m: nat, prev: seq<string>)
    requires m > 0 && forall i :: 0 <= i < |prev| ==> prev[i] == if 0 < i < m then v + Dec(i) else v
    ensures FreshName(v, m, {v}, prev) == v + Dec(m)
  {
    hide InFamily, Dec;
    DecIsDigits(m);
    assert |v + Dec(m)| > |v|;
    var current := set s | s in prev;
    assert v + Dec(m) !in {v};
    forall i | 0 <= i < |prev| ensures prev[i] != v + Dec(m) {
      if 0 < i < m {
        SuffixesDiffer(v, i, m);
      }
    }
    assert NextFree(v, m, {v}) == m && NextFree(v, m, current) == m;
  }

  lemma VarGoalNames(v: string, n: nat, goalPos: nat, k: nat)
    requires k < n
    ensures GoalNames(Repeat(Var(v), n), goalPos)[k] == if k > 0 then v + Dec(k) else v
  {
    var args := Repeat(Var(v), n);
    var raw := RawNames(args, goalPos);
    assert raw == Repeat(v, n);
    assert Elements(raw) == {v} by { assert raw[0] == v; }
    RepeatedNames(v, n, n);
  }

  lemma {:induction false} ConstCountOfRepeat(c: Value, n: nat)
    ensures ConstCount(Repeat(Const(c), n)) == n
  {
    if n > 0 {
      ConstCountOfRepeat(c, n - 1);
      assert Repeat(Const(c), n)[..n - 1] == Repeat(Const(c), n - 1);
    }
  }

  lemma ConstGoalNames(c: Value, n: nat, goalPos: nat, k: nat)
    requires k < n
    ensures GoalNames(Repeat(Const(c), n), goalPos)[k] == ConstName(goalPos, k)
  {
    var args := Repeat(Const(c), n);
    var raw := RawNames(args, goalPos);
    forall i | 0 <= i < n ensures raw[i] == ConstName(goalPos, i) {
      assert args[..i] == Repeat(Const(c), i);
      ConstCountOfRepeat(c, i);
    }
    MakeUniqueProps(raw, Elements(raw));
    forall i | 0 <= i < k ensures raw[i] != raw[k] {
      if raw[i] == raw[k] {
        ConstNameInjective(goalPos, i, goalPos, k);
      }
    }
  }

  // ----- Rules that go wrong -----

  /** A translation is right: it exists when it should, and yields what the rule derives. */
  ghost predicate Preserved(r: Rule, idb: set<string>, db: Database) {
    && (TranslateRule(r, idb).Some? <==> (Aggregates(r) ==> AggHeadOk(r.headArgs)))
    && (TranslateRule(r, idb).Some? ==> Eval(TranslateRule(r, idb).value, db) == RuleRows(r, db))
  }

  function GoalBody(atoms: seq<Atom>): (body: seq<Literal>)
    ensures |body| == |atoms|
    ensures forall i :: 0 <= i < |atoms| ==> body[i] == Goal(atoms[i])
  {
    seq(|atoms|, i requires 0 <= i < |atoms| => Goal(atoms[i]))
  }

  lemma {:induction false} AtomsOfBody(atoms: seq<Atom>)
    ensures Atoms(GoalBody(atoms)) == atoms
    ensures forall names :: TestConds(GoalBody(atoms), names) == []
  {
    if atoms != [] {
      var front := atoms[..|atoms| - 1];
      AtomsOfBody(front);
      assert GoalBody(atoms)[..|atoms| - 1] == GoalBody(front);
    }
  }

  /** The head yields no row over no bindings: it has no aggregates, or it has a group-by variable. */
  ghost predicate EmptyOverNothing(r: Rule) {
    Aggregates(r) ==> AggHeadOk(r.headArgs) && exists e :: e in r.headArgs && e.EVar?
  }

  /** If the joined goals are empty although a binding satisfies the body, the translation is wrong. */
  lemma EmptyJoinIsWrong(r: Rule, atoms: seq<Atom>, db: Database, b: Binding)
    requires r.body == GoalBody(atoms) && atoms != [] && EmptyOverNothing(r)
    requires forall i :: 0 <= i < |atoms| ==> !atoms[i].negated
    requires Eval(JoinGoals(PosGoalsSeq(atoms)), db) == []
    requires Safe(r) && AritiesFit(r, db) && SatisfiesBody(r, b, db)
    ensures !Preserved(r, {}, db)
  {
    hide *;
    GoalsOfBody(r, atoms);
    NoNegGoals(atoms, JoinGoals(PosGoalsSeq(atoms)));
    EmptyBodyEmptyResult(r, JoinGoals(PosGoalsSeq(atoms)), db);
    RuleRowsNonempty(r, db, b);
    NotPreserved(r, {}, db);
  }

  lemma NotPreserved(r: Rule, idb: set<string>, db: Database)
    requires EmptyOverNothing(r) && RuleRows(r, db) != []
    requires TranslateRule(r, idb).Some? ==> Eval(TranslateRule(r, idb).value, db) == []
    ensures !Preserved(r, idb, db)
  {
    hide TranslateRule, Eval, RuleRows, AggHeadOk;
  }

  lemma RuleRowsNonempty(r: Rule, db: Database, b: Binding)
    requires Safe(r) && AritiesFit(r, db) && SatisfiesBody(r, b, db) && EmptyOverNothing(r)
    ensures RuleRows(r, db) != []
  {
    hide BodyBindings, Safe, AritiesFit, SatisfiesBody, Distinct, AggHeadOk;
    BodyBindingsSatisfy(r, db, b);
    var bs := BodyBindings(r, db);
    DistinctProps(HeadRows(r.headArgs, bs));
    DistinctProps(GroupKeys(r.headArgs, bs));
    var i :| 0 <= i < |bs| && bs[i] == b;
    assert HeadRows(r.headArgs, bs)[i] in HeadRows(r.headArgs, bs);
    assert GroupKeys(r.headArgs, bs)[i] in GroupKeys(r.headArgs, bs);
  }

  lemma GoalsOfBody(r: Rule, atoms: seq<Atom>)
    requires r.body == GoalBody(atoms) && atoms != []
    requires forall i :: 0 <= i < |atoms| ==> !atoms[i].negated
    ensures Atoms(r.body) == atoms
    ensures PosGoals(atoms, {}) == PosGoalsSeq(atoms) && PosGoalsSeq(atoms) != []
    ensures forall names :: TestConds(r.body, names) == []
  {
    hide *;
    AtomsOfBody(atoms);
    PositiveGoals(atoms);
  }

  lemma NoNegGoals(atoms: seq<Atom>, posPart: Op)
    requires forall i :: 0 <= i < |atoms| ==> !atoms[i].negated
    ensures NegGoals(atoms, posPart, {}) == []
  {
    hide *;
    PositiveOnly(atoms);
    NegGoalsAre(atoms, posPart, {});
  }

  lemma PositiveGoals(atoms: seq<Atom>)
    requires forall i :: 0 <= i < |atoms| ==> !atoms[i].negated
    ensures PosGoals(atoms, {}) == PosGoalsSeq(atoms)
  {
    hide *;
    PositiveOnly(atoms);
    PosGoalsAre(atoms, {});
  }

  lemma PositiveOnly(atoms: seq<Atom>)
    requires forall i :: 0 <= i < |atoms| ==> !atoms[i].negated
    ensures PosAtoms(atoms) == atoms && NegAtoms(atoms) == [] && NegPlaces(atoms) == []
    ensures |PosPlaces(atoms)| == |atoms| && forall i :: 0 <= i < |atoms| ==> PosPlaces(atoms)[i] == i
  {
    hide *;
    NoNegated(atoms);
  }

  lemma PositiveRuleOrder(r: Rule, atoms: seq<Atom>)
    requires Atoms(r.body) == atoms && forall i :: 0 <= i < |atoms| ==> !atoms[i].negated
    ensures JoinOrder(r) == atoms && PosCount(r) == |Places(r)| == |atoms| && PositiveFirst(atoms)
    ensures forall i :: 0 <= i < |atoms| ==> Places(r)[i] == i
  {
    hide PosAtoms, NegAtoms, Atoms, PosPlaces, NegPlaces;
    PositiveOnly(atoms);
    assert atoms + [] == atoms && PosPlaces(atoms) + [] == PosPlaces(atoms);
  }

  function PosGoalsSeq(atoms: seq<Atom>): (goals: seq<Op>)
    ensures |goals| == |atoms|
    ensures forall i :: 0 <= i < |atoms| ==> goals[i] == PosGoal(atoms[i], i, {})
  {
    seq(|atoms|, i requires 0 <= i < |atoms| => PosGoal(atoms[i], i, {}))
  }

  lemma EmptyBodyEmptyResult(r: Rule, posPart: Op, db: Database)
    requires PosGoals(Atoms(r.body), {}) != [] && posPart == JoinGoals(PosGoals(Atoms(r.body), {}))
    requires TestConds(r.body, Schema(posPart)) == [] && NegGoals(Atoms(r.body), posPart, {}) == []
    requires Eval(posPart, db) == [] && EmptyOverNothing(r)
    ensures TranslateRule(r, {}).Some? ==> Eval(TranslateRule(r, {}).value, db) == []
  {
    assert JoinedPositive(r, {}) == posPart;
    assert [posPart] + [] == [posPart];
    assert JoinedBody(r, {}) == posPart;
    var m := BodyMap(r, posPart);
    hide JoinGoals, PosGoals, NegGoals, TestConds, Schema, HeadMap, Atoms, BodyMap, EmptyOverNothing, PlainHead, AggHead, Eval,
         HeadExprs;
    if Aggregates(r) { EmptyAggHead(r, m, posPart, db); } else { PlainHeadEval(HeadExprs(r.headArgs, m), posPart, db); }
  }

  lemma EmptyAggHead(r: Rule, m: map<string, nat>, posPart: Op, db: Database)
    requires EmptyOverNothing(r) && Aggregates(r) && Eval(posPart, db) == []
    ensures Eval(AggHead(HeadExprs(r.headArgs, m), posPart), db) == []
  {
    hide Eval, AggHead, HeadExprs, AggCalls, GroupRefs, AggHeadNames, RefsByName, AggHeadOk;
    AggHeadEval(HeadExprs(r.headArgs, m), posPart, db);
    NoGroupRefs(r.headArgs, m);
  }

  /** A rule over positive goals, two of which clash, together with a database that shows it. */
  lemma ClashIsWrong(r: Rule, atoms: seq<Atom>, db: Database, rows: seq<Row>, b: Binding, i: nat, h: nat, name: string,
                     x: Value, y: Value)
    requires r.body == GoalBody(atoms) && Safe(r) && EmptyOverNothing(r)
    requires i < h < |atoms| == |rows| && x != y && b.Keys == PosVars(r)
    requires forall j :: 0 <= j < |atoms| ==>
      !atoms[j].negated && Rows(db, atoms[j].rel) == [rows[j]] && rows[j] == Instance(atoms[j].args, b)
    requires HasCell(GoalNames(atoms[i].args, i), rows[i], name, x)
    requires HasCell(GoalNames(atoms[h].args, h), rows[h], name, y)
    ensures AritiesFit(r, db) && !Preserved(r, {}, db)
  {
    hide *;
    AtomsOfBody(atoms);
    ClashSatisfied(r, atoms, db, rows, b);
    ClashJoinEmpty(atoms, db, rows, b, i, h, name, x, y);
    EmptyJoinIsWrong(r, atoms, db, b);
  }

  lemma ClashSatisfied(r: Rule, atoms: seq<Atom>, db: Database, rows: seq<Row>, b: Binding)
    requires r.body == GoalBody(atoms) && Atoms(r.body) == atoms && |atoms| == |rows| && b.Keys == PosVars(r)
    requires forall j :: 0 <= j < |atoms| ==>
      !atoms[j].negated && Rows(db, atoms[j].rel) == [rows[j]] && rows[j] == Instance(atoms[j].args, b)
    ensures AritiesFit(r, db) && SatisfiesBody(r, b, db)
  {
    PosVarsBound(r);
    AtomsIn(r.body);
    hide Atoms, PosAtoms, BodyArgs, TermVars, Instance, Rows, EvalExpr, PosVars, BoundIn;
    forall a | a in atoms ensures Rows(db, a.rel) == [Instance(a.args, b)] && !a.negated {
      var j :| 0 <= j < |atoms| && atoms[j] == a;
    }
  }

  lemma ClashJoinEmpty(atoms: seq<Atom>, db: Database, rows: seq<Row>, b: Binding, i: nat, h: nat, name: string, x: Value,
                       y: Value)
    requires i < h < |atoms| == |rows| && x != y
    requires forall j :: 0 <= j < |atoms| ==> Rows(db, atoms[j].rel) == [rows[j]] && rows[j] == Instance(atoms[j].args, b)
    requires HasCell(GoalNames(atoms[i].args, i), rows[i], name, x)
    requires HasCell(GoalNames(atoms[h].args, h), rows[h], name, y)
    ensures Eval(JoinGoals(PosGoalsSeq(atoms)), db) == []
  {
    hide JoinUpTo, PosGoal, GoalNames, HasCell, Eval, Schema, OrigNames, Instance;
    var goals := PosGoalsSeq(atoms);
    forall j | 0 <= j < |atoms|
      ensures OnlyRow(Eval(goals[j], db), rows[j]) && Schema(goals[j]) == GoalNames(atoms[j].args, j) {
      GoalOnly(atoms[j], j, {}, db, rows[j]);
    }
    ClashIsEmpty(goals, rows, Elements(OrigNames(goals[1..])), i, h, |goals|, db, name, x, y);
  }

  // ----- One rule -----

  /** A join of different relations, without comparisons and negation. */
  ghost predicate PlainJoin(r: Rule) {
    && (forall t :: t in r.body ==> t.Goal? && !t.atom.negated)
    && forall i, j :: 0 <= i < j < |Atoms(r.body)| ==> Atoms(r.body)[i].rel != Atoms(r.body)[j].rel
  }

  ghost predicate AlwaysPreserved(r: Rule) {
    forall idb: set<string>, db: Database :: AritiesFit(r, db) ==> Preserved(r, idb, db)
  }

  lemma {:induction false} PlainBody(body: seq<Literal>)
    requires forall t :: t in body ==> t.Goal? && !t.atom.negated
    ensures body == GoalBody(Atoms(body)) && forall i :: 0 <= i < |Atoms(body)| ==> !Atoms(body)[i].negated
  {
    if body != [] {
      var front, last := body[..|body| - 1], body[|body| - 1];
      assert body == front + [last] && last in body;
      forall t | t in front ensures t.Goal? && !t.atom.negated { assert t in body; }
      PlainBody(front);
      assert Atoms(body) == Atoms(front) + [last.atom];
    }
  }

  /** A database in which every atom has just its instance. */
  function InstancesOf(atoms: seq<Atom>, b: Binding): Database {
    if atoms == [] then map[]
    else
      var last := atoms[|atoms| - 1];
      InstancesOf(atoms[..|atoms| - 1], b)[last.rel := [Instance(last.args, b)]]
  }

  lemma {:induction false} OwnInstance(atoms: seq<Atom>, b: Binding, j: nat)
    requires j < |atoms| && forall i, k :: 0 <= i < k < |atoms| ==> atoms[i].rel != atoms[k].rel
    ensures Rows(InstancesOf(atoms, b), atoms[j].rel) == [Instance(atoms[j].args, b)]
  {
    hide Instance;
    if j < |atoms| - 1 {
      OwnInstance(atoms[..|atoms| - 1], b, j);
    }
  }

  /** A binding under which two different arguments have different values. */
  function Separating(vars: set<string>, s: Term, t: Term): (b: Binding)
    requires s != t
    ensures b.Keys == vars
    ensures (s.Var? ==> s.name in vars) && (t.Var? ==> t.name in vars) ==> TermValue(s, b) != TermValue(t, b)
  {
    var other := match (s, t)
                 case (Var(_), Const(v)) => if v == Num(0) then Num(1) else Num(0)
                 case (Const(v), Var(_)) => if v == Num(0) then Num(1) else Num(0)
                 case _ => Num(0);
    map x | x in vars :: if s.Var? && t.Var? && x == s.name then Num(1) else other
  }

  lemma CellOf(args: seq<Term>, goalPos: nat, p: nat, b: Binding)
    requires p < |args|
    ensures HasCell(GoalNames(args, goalPos), Instance(args, b), GoalNames(args, goalPos)[p], TermValue(args[p], b))
  {
    hide GoalNames;
  }

  /** Two goals of a plain join with a common name for different arguments. */
  lemma JoinClash(r: Rule, g: nat, p: nat, h: nat, q: nat)
    requires Safe(r) && PlainJoin(r) && EmptyOverNothing(r)
    requires var atoms := Atoms(r.body);
      && g < h < |atoms| && p < |atoms[g].args| && q < |atoms[h].args| && atoms[g].args[p] != atoms[h].args[q]
      && GoalNames(atoms[g].args, g)[p] == GoalNames(atoms[h].args, h)[q]
    ensures exists db: Database :: AritiesFit(r, db) && !Preserved(r, {}, db)
  {
    hide GoalNames, Instance, TermValue, Preserved, AritiesFit, HasCell, EmptyOverNothing, Atoms, Safe, TermVars, BodyArgs;
    var atoms := Atoms(r.body);
    PlainBody(r.body);
    AtomVars(r, g);
    AtomVars(r, h);
    var s, t := atoms[g].args[p], atoms[h].args[q];
    var b := Separating(PosVars(r), s, t);
    var rows := seq(|atoms|, j requires 0 <= j < |atoms| => Instance(atoms[j].args, b));
    var db := InstancesOf(atoms, b);
    forall j | 0 <= j < |atoms| ensures Rows(db, atoms[j].rel) == [rows[j]] { OwnInstance(atoms, b, j); }
    CellOf(atoms[g].args, g, p, b);
    CellOf(atoms[h].args, h, q, b);
    ArgVars(atoms[g].args, p);
    ArgVars(atoms[h].args, q);
    ClashIsWrong(r, atoms, db, rows, b, g, h, GoalNames(atoms[g].args, g)[p], TermValue(s, b), TermValue(t, b));
  }

  lemma ArgVars(args: seq<Term>, p: nat)
    requires p < |args|
    ensures args[p].Var? ==> args[p].name in TermVars(args)
  {
  }

  lemma AtomVars(r: Rule, g: nat)
    requires PlainJoin(r) && g < |Atoms(r.body)|
    ensures TermVars(Atoms(r.body)[g].args) <= PosVars(r)
  {
    hide TermVars, BodyArgs, PosAtoms;
    PlainBody(r.body);
    var atoms := Atoms(r.body);
    PositiveOnly(atoms);
    assert atoms[..|atoms|] == atoms;
    BodyArgsVars(atoms, |atoms|, |atoms|);
  }

  /** What is left of the check on a plain join. */
  lemma PlainCheck(r: Rule)
    requires Safe(r) && PlainJoin(r)
    ensures var atoms := Atoms(r.body);
      && JoinOrder(r) == atoms && |Places(r)| == |atoms| && (forall i :: 0 <= i < |atoms| ==> Places(r)[i] == i)
      && (BodyApart(r) <==> JoinsApart([], atoms, Places(r), 0, |atoms|)) && HeadOwn(r)
  {
    hide JoinsApart, FindsOwn, PositiveSchema, RuleSchema, Places, JoinOrder, PosCount, Atoms;
    var atoms := Atoms(r.body);
    PlainBody(r.body);
    PositiveRuleOrder(r, atoms);
    assert atoms[|atoms|..] == [] && TestVars(r.body) == {};
    assert forall names :: JoinsApart(names, atoms, Places(r), |atoms|, |atoms|) by { NoJoins(atoms, Places(r)); }
    SomeGoal(r);
  }

  lemma NoJoins(atoms: seq<Atom>, at: seq<nat>)
    requires |at| == |atoms|
    ensures forall names :: JoinsApart(names, atoms, at, |atoms|, |atoms|)
  {
  }

  lemma SomeGoal(r: Rule)
    requires Safe(r)
    ensures 0 < PosCount(r)
  {
    SafeIff(r);
  }

  /** A join of different relations is translated correctly, on all databases, iff it passes the check on names. */
  lemma ApartIffPreserved(r: Rule)
    requires Safe(r) && PlainJoin(r) && EmptyOverNothing(r)
    ensures NamesApart(r) <==> AlwaysPreserved(r)
  {
    hide Preserved, Safe, AritiesFit, Atoms, BodyApart, HeadNamed, HeadOwn, PlainJoin, EmptyOverNothing, GoalNames, Apart,
         Places, JoinOrder, NamesBefore;
    var atoms, at := Atoms(r.body), Places(r);
    PlainCheck(r);
    if NamesApart(r) {
      forall idb: set<string>, db: Database | AritiesFit(r, db) ensures Preserved(r, idb, db) {
        PreservedIfApart(r, idb, db);
      }
    } else if !HeadNamed(r) {
      PermittedHead(r);
      LostHead(r);
    } else {
      var h :| 0 <= h < |atoms|
        && !Apart(NamesBefore([], atoms, at, 0, h), BodyArgs(atoms[..h]), GoalNames(atoms[h].args, at[h]), atoms[h].args);
      var g, p, q := Together(atoms, at, h);
      JoinClash(r, g, p, h, q);
    }
  }

  lemma PermittedHead(r: Rule)
    requires EmptyOverNothing(r)
    ensures Aggregates(r) ==> AggHeadOk(r.headArgs)
  {
  }

  lemma Together(atoms: seq<Atom>, at: seq<nat>, h: nat) returns (g: nat, p: nat, q: nat)
    requires h < |atoms| == |at|
    requires !Apart(NamesBefore([], atoms, at, 0, h), BodyArgs(atoms[..h]), GoalNames(atoms[h].args, at[h]), atoms[h].args)
    ensures g < h && p < |atoms[g].args| && q < |atoms[h].args| && atoms[g].args[p] != atoms[h].args[q]
    ensures GoalNames(atoms[g].args, at[g])[p] == GoalNames(atoms[h].args, at[h])[q]
  {
    hide GoalNames, NamesBefore, BodyArgs;
    assert atoms[..0] == [] && |BodyArgs([])| == 0 by { NoArgs(); }
    BeforeLength([], atoms, at, 0, h);
    var left, a1, right, a2 := NamesBefore([], atoms, at, 0, h), BodyArgs(atoms[..h]), GoalNames(atoms[h].args, at[h]),
                               atoms[h].args;
    var i, j :| 0 <= i < |left| && 0 <= j < |right| && left[i] == right[j] && a1[i] != a2[j];
    q := j;
    g, p := BeforeColumn([], atoms, at, 0, h, i);
  }

  lemma PreservedIfApart(r: Rule, idb: set<string>, db: Database)
    requires Safe(r) && NamesApart(r) && AritiesFit(r, db)
    ensures Preserved(r, idb, db)
  {
    hide Safe, AritiesFit, NamesApart;
    RulePreserved(r, idb, db);
  }

  /** A head variable whose name no longer belongs to one of its columns makes the translator give up. */
  lemma LostHead(r: Rule)
    requires Safe(r) && !HeadNamed(r) && (Aggregates(r) ==> AggHeadOk(r.headArgs))
    ensures AritiesFit(r, map[]) && !Preserved(r, {}, map[])
  {
    hide Safe, HeadNamed, TranslateRule;
    TranslatedIff(r, {});
    assert AritiesFit(r, map[]);
  }

  // ----- Sets of variables -----

  /** The suffix of a name in the family of `v`: 0 stands for none. */
  function SuffixOf(name: string, v: string): (k: nat)
    requires InFamily(name, v)
    ensures name == if k == 0 then v else v + Dec(k)
  {
    if name == v then 0 else
      NumeralIsDec(name[|v|..]);
      ValueOf(name[|v|..])
  }

  lemma PositiveRule(r: Rule, atoms: seq<Atom>, v: string)
    requires r == Rule("Q", [EVar(v)], GoalBody(atoms)) && atoms != [] && v in TermVars(BodyArgs(atoms))
    requires forall i :: 0 <= i < |atoms| ==> !atoms[i].negated
    ensures Safe(r) && PositiveFirst(Atoms(r.body)) && PosVars(r) == TermVars(BodyArgs(atoms)) && EmptyOverNothing(r)
  {
    hide *;
    AtomsOfBody(atoms);
    PositiveRuleOrder(r, atoms);
    PositiveOnly(atoms);
    NoTests(atoms);
    PositiveVars(r, atoms);
    PlainHeadVar(r, v);
    SafePositive(r);
  }

  lemma PositiveVars(r: Rule, atoms: seq<Atom>)
    requires Atoms(r.body) == atoms && PosAtoms(atoms) == atoms
    ensures PosVars(r) == TermVars(BodyArgs(atoms))
  {
    hide Atoms, PosAtoms, BodyArgs, TermVars;
  }

  lemma SafePositive(r: Rule)
    requires PosAtoms(Atoms(r.body)) != [] && NegAtoms(Atoms(r.body)) == [] && forall t :: t in r.body ==> t.Goal?
    requires forall e :: e in r.headArgs ==> ExprVars(e) <= PosVars(r)
    ensures Safe(r)
  {
    hide Atoms, PosAtoms, NegAtoms, PosVars, ExprVars, Safe;
    SafeIff(r);
  }

  lemma NoTests(atoms: seq<Atom>)
    ensures forall t :: t in GoalBody(atoms) ==> t.Goal?
  {
  }

  lemma PlainHeadVar(r: Rule, v: string)
    requires r.headArgs == [EVar(v)]
    ensures EmptyOverNothing(r) && forall e :: e in r.headArgs ==> ExprVars(e) == {v}
  {
    hide AggHeadOk;
    assert forall e :: e in r.headArgs ==> e == EVar(v);
  }

  /** A variable repeated `k` times in one goal clashes with the variable named like its last copy. */
  lemma VariablesClash(v: string, w: string)
    requires v != w && InFamily(w, v)
    ensures exists r: Rule, db: Database ::
      Safe(r) && PositiveFirst(Atoms(r.body)) && PosVars(r) == {v, w} && AritiesFit(r, db) && !Preserved(r, {}, db)
  {
    hide Preserved, Safe, AritiesFit, PosVars, GoalNames, BodyArgs, TermVars, Dec;
    var k := SuffixOf(w, v);
    hide InFamily;
    var a1, a2 := Atom("R", Repeat(Var(v), k + 1), false), Atom("S", [Var(w)], false);
    var atoms, rows := [a1, a2], [Repeat(Num(5), k + 1), [Num(6)]];
    var db: Database := map["R" := [rows[0]], "S" := [rows[1]]];
    var b: Binding := map[v := Num(5), w := Num(6)];
    assert HasCell(GoalNames(a1.args, 0), rows[0], w, Num(5)) by {
      VarGoalNames(v, k + 1, 0, k);
      assert rows[0][k] == Num(5);
    }
    assert HasCell(GoalNames(a2.args, 1), rows[1], w, Num(6)) by {
      assert Repeat(Var(w), 1) == [Var(w)];
      VarGoalNames(w, 1, 1, 0);
      assert rows[1][0] == Num(6);
    }
    assert b.Keys == TermVars(BodyArgs(atoms)) by { TwoAtoms(a1, a2, v, w); }
    assert rows[0] == Instance(a1.args, b) && rows[1] == Instance(a2.args, b);
    hide Instance, Repeat, HasCell;
    var r := Rule("Q", [EVar(v)], GoalBody(atoms));
    PositiveRule(r, atoms, v);
    ClashIsWrong(r, atoms, db, rows, b, 0, 1, w, Num(5), Num(6));
  }

  lemma TwoAtoms(a1: Atom, a2: Atom, v: string, w: string)
    requires a1.args != [] && (forall t :: t in a1.args ==> t == Var(v)) && a2.args == [Var(w)]
    ensures TermVars(BodyArgs([a1, a2])) == {v, w}
  {
    var atoms := [a1, a2];
    assert atoms[..1] == [a1] && [a1][..0] == [];
    assert BodyArgs([a1]) == BodyArgs([]) + a1.args == a1.args;
    assert BodyArgs(atoms) == a1.args + a2.args;
    TermVarsConcat(a1.args, a2.args);
    assert a1.args[0] in a1.args;
    assert TermVars(a1.args) == {v} && TermVars(a2.args) == {w};
  }

  function ConstClashAtom(v: string, k: nat, g: nat, a: nat, i: nat): Atom {
    if i == g then Atom("S", Repeat(Const(Num(7)), a + 1), false) else Atom("R", Repeat(Var(v), k + 1), false)
  }

  lemma {:induction false} OneVariable(atoms: seq<Atom>, v: string)
    requires forall i :: 0 <= i < |atoms| ==> TermVars(atoms[i].args) <= {v}
    ensures TermVars(BodyArgs(atoms)) <= {v}
  {
    if atoms != [] {
      OneVariable(atoms[..|atoms| - 1], v);
      TermVarsConcat(BodyArgs(atoms[..|atoms| - 1]), atoms[|atoms| - 1].args);
    }
  }

  lemma OnlyVariable(atoms: seq<Atom>, v: string, i: nat)
    requires i < |atoms| && atoms[i].args != [] && atoms[i].args[0] == Var(v)
    requires forall j :: 0 <= j < |atoms| ==> TermVars(atoms[j].args) <= {v}
    ensures TermVars(BodyArgs(atoms)) == {v}
  {
    OneVariable(atoms, v);
    assert atoms[..|atoms|] == atoms && atoms[i].args[0] in atoms[i].args;
    BodyArgsVars(atoms, |atoms|, |atoms|);
  }

  /** A variable clashes with the constant whose generated name is in its family. */
  lemma ConstantClashes(v: string, g: nat, a: nat)
    requires InFamily(ConstName(g, a), v)
    ensures exists r: Rule, db: Database ::
      Safe(r) && PositiveFirst(Atoms(r.body)) && PosVars(r) == {v} && AritiesFit(r, db) && !Preserved(r, {}, db)
  {
    hide Preserved, Safe, AritiesFit, PosVars, GoalNames, BodyArgs, HasCell, GoalBody, Instance, Repeat, TermVars, ConstName,
         InFamily, EmptyOverNothing, Dec;
    var name := ConstName(g, a);
    var k := SuffixOf(name, v);
    var b: Binding := map[v := Num(5)];
    var atoms := seq(g + 2, i requires 0 <= i < g + 2 => ConstClashAtom(v, k, g, a, i));
    var rows := seq(g + 2, i requires 0 <= i < g + 2 => if i == g then Repeat(Num(7), a + 1) else Repeat(Num(5), k + 1));
    var db: Database := map["R" := [Repeat(Num(5), k + 1)], "S" := [Repeat(Num(7), a + 1)]];
    ConstClashRows(v, k, g, a, b);
    ConstCell(Num(7), a, g);
    VarCell(v, k, g + 1);
    OnlyVariable(atoms, v, g + 1);
    var r := Rule("Q", [EVar(v)], GoalBody(atoms));
    PositiveRule(r, atoms, v);
    ClashIsWrong(r, atoms, db, rows, b, g, g + 1, name, Num(7), Num(5));
  }

  lemma ConstCell(c: Value, a: nat, goalPos: nat)
    ensures HasCell(GoalNames(Repeat(Const(c), a + 1), goalPos), Repeat(c, a + 1), ConstName(goalPos, a), c)
  {
    hide GoalNames, ConstName;
    ConstGoalNames(c, a + 1, goalPos, a);
  }

  lemma VarCell(v: string, k: nat, goalPos: nat)
    ensures HasCell(GoalNames(Repeat(Var(v), k + 1), goalPos), Repeat(Num(5), k + 1), if k == 0 then v else v + Dec(k), Num(5))
  {
    hide GoalNames, Dec;
    VarGoalNames(v, k + 1, goalPos, k);
  }

  lemma ConstClashRows(v: string, k: nat, g: nat, a: nat, b: Binding)
    requires b == map[v := Num(5)]
    ensures forall i: nat :: Instance(ConstClashAtom(v, k, g, a, i).args, b)
                        == if i == g then Repeat(Num(7), a + 1) else Repeat(Num(5), k + 1)
    ensures forall i: nat :: TermVars(ConstClashAtom(v, k, g, a, i).args) <= {v}
  {
    assert Instance(Repeat(Var(v), k + 1), b) == Repeat(Num(5), k + 1);
    assert Instance(Repeat(Const(Num(7)), a + 1), b) == Repeat(Num(7), a + 1);
  }

  ghost predicate AllPreserved(vars: set<string>) {
    forall r: Rule, idb: set<string>, db: Database ::
      Safe(r) && PositiveFirst(Atoms(r.body)) && PosVars(r) <= vars && AritiesFit(r, db) ==> Preserved(r, idb, db)
  }

  lemma PreservedIfCompatible(r: Rule, idb: set<string>, db: Database)
    requires Safe(r) && Compatible(PosVars(r)) && AritiesFit(r, db) && (PositiveFirst(Atoms(r.body)) || HeadNamed(r))
    ensures Preserved(r, idb, db)
  {
    hide Safe, AritiesFit, PosVars, NamesApart, HeadNamed, Atoms;
    CompatibleApart(r);
    PreservedIfApart(r, idb, db);
  }

  /** Over compatible variables only the head can go wrong: a rule with a permitted head is translated correctly, on all
      databases, iff its head variables are found. */
  lemma HeadNamedIffPreserved(r: Rule)
    requires Safe(r) && Compatible(PosVars(r)) && (Aggregates(r) ==> AggHeadOk(r.headArgs))
    ensures HeadNamed(r) <==> AlwaysPreserved(r)
  {
    hide Preserved, Safe, AritiesFit, PosVars, Compatible, HeadNamed, AggHeadOk, Atoms;
    if HeadNamed(r) {
      forall idb: set<string>, db: Database | AritiesFit(r, db) ensures Preserved(r, idb, db) {
        PreservedIfCompatible(r, idb, db);
      }
    } else {
      LostHead(r);
    }
  }

  /** All rules over a set of variables that have their positive atoms first are translated correctly, for all databases,
      iff the set is compatible. */
  lemma CompatibleIffPreserved(vars: set<string>)
    ensures Compatible(vars) <==> AllPreserved(vars)
  {
    hide Preserved, Safe, AritiesFit, PosVars, Atoms;
    if Compatible(vars) {
      forall r: Rule, idb: set<string>, db: Database |
        Safe(r) && PositiveFirst(Atoms(r.body)) && PosVars(r) <= vars && AritiesFit(r, db)
        ensures Preserved(r, idb, db) {
        PreservedIfCompatible(r, idb, db);
      }
    } else if v, w :| v in vars && w in vars && v != w && InFamily(w, v) {
      VariablesClash(v, w);
    } else {
      var v, g: nat, a: nat :| v in vars && InFamily(ConstName(g, a), v);
      ConstantClashes(v, g, a);
    }
  }

  // ----- A rule without repetitions and constants -----

  function LostAtoms(): seq<Atom> {
    [Atom("R", [Var("X"), Var("X1")], false), Atom("S", [Var("X")], false), Atom("T", [Var("X2")], false)]
  }

  function LostRule(): Rule {
    Rule("Q", [EVar("X2")], GoalBody(LostAtoms()))
  }

  /** The second `X` is named like the variable of the third goal, whose column then gets another name: the head
      does not find it, and the rule is given up. */
  lemma LaterNameLost(idb: set<string>)
    ensures var r := LostRule();
      Safe(r) && BodyApart(r) && !HeadNamed(r) && TranslateRule(r, idb) == None
  {
    hide *;
    LostSafe();
    LostJoins();
    LostHeadVar();
    TranslatedIff(LostRule(), idb);
  }

  lemma LostJoins()
    requires Safe(LostRule())
    ensures BodyApart(LostRule())
  {
    hide *;
    var r, atoms := LostRule(), LostAtoms();
    LostPlain();
    PlainCheck(r);
    DistinctGoalsApart(atoms, Places(r), |atoms|);
  }

  lemma LostPlain()
    ensures var r, atoms := LostRule(), LostAtoms();
      PlainJoin(r) && Atoms(r.body) == atoms && forall k :: 0 <= k < |atoms| ==> DistinctVars(atoms[k].args)
  {
    var r, atoms := LostRule(), LostAtoms();
    AtomsOfBody(atoms);
    hide Atoms;
    forall t | t in r.body ensures t.Goal? && !t.atom.negated {
      var i :| 0 <= i < |r.body| && r.body[i] == t;
    }
  }

  lemma LostHeadVar()
    ensures !HeadNamed(LostRule())
  {
    var r, atoms := LostRule(), LostAtoms();
    AtomsOfBody(atoms);
    PositiveRuleOrder(r, atoms);
    LostSchema(atoms, Places(r));
    hide GoalBody, BodySchema, BodyArgs, HasOwn, Atoms, PosCount, JoinOrder, Places;
    assert EVar("X2") in r.headArgs && "X2" in ExprVars(EVar("X2"));
    assert "X2" in HeadVars(r.headArgs);
  }

  lemma LostArgs()
    ensures BodyArgs(LostAtoms()) == [Var("X"), Var("X1"), Var("X"), Var("X2")]
  {
    var atoms := LostAtoms();
    assert atoms[..2][..1] == atoms[..1] && atoms[..1][..0] == [];
    assert BodyArgs(atoms[..1]) == atoms[0].args && BodyArgs(atoms[..2]) == atoms[0].args + atoms[1].args;
    assert BodyArgs(atoms) == [Var("X"), Var("X1"), Var("X"), Var("X2")];
  }

  lemma LostSafe()
    ensures Safe(LostRule())
  {
    LostArgs();
    hide BodyArgs;
    assert BodyArgs(LostAtoms())[3] in BodyArgs(LostAtoms());
    assert "X2" in TermVars(BodyArgs(LostAtoms()));
    hide TermVars, Safe;
    PositiveRule(LostRule(), LostAtoms(), "X2");
  }

  lemma LostNames(atoms: seq<Atom>, at: seq<nat>)
    requires atoms == LostAtoms() && |at| == |atoms|
    ensures GoalNames(atoms[0].args, at[0]) == ["X", "X1"] && GoalNames(atoms[1].args, at[1]) == ["X"]
    ensures GoalNames(atoms[2].args, at[2]) == ["X2"] && Elements(NamesBefore([], atoms, at, 1, 3)) == {"X", "X2"}
  {
    hide GoalNames;
    DistinctNames(atoms[0].args, at[0]);
    DistinctNames(atoms[1].args, at[1]);
    DistinctNames(atoms[2].args, at[2]);
    assert NamesBefore([], atoms, at, 1, 2) == ["X"] && NamesBefore([], atoms, at, 1, 3) == ["X", "X2"];
    assert ["X", "X2"][0] == "X" && ["X", "X2"][1] == "X2";
  }

  lemma LostSchema(atoms: seq<Atom>, at: seq<nat>)
    requires atoms == LostAtoms() && |at| == |atoms|
    ensures !HasOwn(BodySchema(atoms, at, 3), BodyArgs(atoms), "X2")
  {
    LostArgs();
    LostNames(atoms, at);
    var all := Elements(NamesBefore([], atoms, at, 1, 3));
    LostUnique(all);
    hide MakeUnique, BodyArgs, GoalNames, NamesBefore, Elements, NamePos;
    assert ["X", "X1"] + ["X"] == ["X", "X1", "X"] && ["X", "X1", "X2"] + ["X2"] == ["X", "X1", "X2", "X2"];
    assert SchemaAfter(["X", "X1"], atoms, at, 1, 2, all) == ["X", "X1", "X2"];
    var schema := MakeUnique(["X", "X1", "X2", "X2"], all);
    assert PositiveSchema(atoms, at, 3) == schema && BodySchema(atoms, at, 3) == schema;
  }

  lemma LostUnique(all: set<string>)
    requires all == {"X", "X2"}
    ensures MakeUnique(["X", "X1", "X"], all) == ["X", "X1", "X2"]
    ensures var schema := MakeUnique(["X", "X1", "X2", "X2"], all);
      |schema| == 4 && forall i :: 0 <= i < 4 && schema[i] == "X2" ==> i == 2
  {
    AllNamesNotAvoided();
    var names := ["X", "X1", "X2", "X2"];
    MakeUniqueProps(names, all);
    hide *;
    assert names[2] !in names[..2];
    var schema := MakeUnique(names, all);
    NoDupAt(schema, 2);
  }

  lemma NoDupAt(s: seq<string>, k: nat)
    requires NoDup(s) && k < |s|
    ensures forall i :: 0 <= i < |s| && s[i] == s[k] ==> i == k
  {
  }

  // ----- A rule with a negated atom first -----

  function NegatedFirst(): Rule {
    Rule("Q", [EVar("Y")], [Goal(Atom("S", [Var("X")], true)), Goal(Atom("R", [Var("X"), Var("Y")], false))])
  }

  /** Columns come in join order, the arguments they are compared with in body order: the variable `Y` of a good name is
      not found, and the rule is given up. */
  lemma NegatedFirstLost(idb: set<string>)
    ensures var r := NegatedFirst();
      Safe(r) && Compatible(PosVars(r)) && BodyApart(r) && !HeadNamed(r) && TranslateRule(r, idb) == None
  {
    hide *;
    NegatedFirstOrder();
    NegatedFirstSafe();
    CompatibleBody(NegatedFirst());
    NegatedFirstHead();
    TranslatedIff(NegatedFirst(), idb);
  }

  lemma NegatedFirstOrder()
    ensures var r, a, b := NegatedFirst(), Atom("S", [Var("X")], true), Atom("R", [Var("X"), Var("Y")], false);
      Atoms(r.body) == [a, b] && PosAtoms([a, b]) == [b] && NegAtoms([a, b]) == [a]
  {
    var r, a, b := NegatedFirst(), Atom("S", [Var("X")], true), Atom("R", [Var("X"), Var("Y")], false);
    assert r.body[..1] == [Goal(a)] && [Goal(a)][..0] == [] && [a, b][..1] == [a] && [a][..0] == [];
    assert Atoms([Goal(a)]) == [a] && PosAtoms([a]) == [] && NegAtoms([a]) == [a];
  }

  lemma NegatedFirstSafe()
    ensures Safe(NegatedFirst()) && Compatible(PosVars(NegatedFirst()))
  {
    NegatedFirstOrder();
    NegatedFirstVars();
    NamesXY();
    OneVar("X");
    hide Compatible, PosVars, Atoms, PosAtoms, NegAtoms, TermVars, BodyArgs, InFamily, ConstName, Safe;
    var r := NegatedFirst();
    SafeIff(r);
    forall t | t in r.body ensures !t.Test? { assert t == r.body[0] || t == r.body[1]; }
  }

  lemma NegatedFirstVars()
    ensures PosVars(NegatedFirst()) == {"X", "Y"}
  {
    NegatedFirstOrder();
    var args := [Var("X"), Var("Y")];
    TwoVars("X", "Y");
    OneAtom(Atom("R", args, false));
    hide Atoms, PosAtoms, NegAtoms, TermVars, BodyArgs;
  }

  lemma OneAtom(a: Atom)
    ensures BodyArgs([a]) == a.args
  {
    assert [a][..0] == [] && [] + a.args == a.args;
  }

  lemma TwoVars(x: string, y: string)
    ensures TermVars([Var(x), Var(y)]) == {x, y}
  {
    var args := [Var(x), Var(y)];
    assert args[0] == Var(x) && args[1] == Var(y);
  }

  lemma NamesXY()
    ensures Compatible({"X", "Y"})
  {
    hide Dec;
    forall g: nat, a: nat, v | v in {"X", "Y"} ensures !InFamily(ConstName(g, a), v) {
      assert ConstName(g, a)[0] == 'C';
    }
  }

  lemma OneVar(x: string)
    ensures TermVars([Var(x)]) == {x}
  {
    assert [Var(x)][0] == Var(x);
  }

  lemma NegatedFirstHead()
    ensures !HeadNamed(NegatedFirst())
  {
    NegatedFirstOrder();
    var r, a, b := NegatedFirst(), Atom("S", [Var("X")], true), Atom("R", [Var("X"), Var("Y")], false);
    hide Atoms, PosAtoms, NegAtoms, PosPlaces, NegPlaces, InFamily;
    assert JoinOrder(r) == [b, a] && PosCount(r) == 1;
    NegatedFirstSchema([b, a], Places(r));
    assert [a, b][..1] == [a] && [a][..0] == [];
    OneAtom(a);
    assert BodyArgs([a, b]) == [Var("X"), Var("X"), Var("Y")];
    hide BodySchema, BodyArgs, Atoms, PosCount, JoinOrder, Places;
    assert EVar("Y") in r.headArgs && "Y" in ExprVars(EVar("Y"));
    assert "Y" in HeadVars(r.headArgs);
  }

  lemma NegatedFirstSchema(atoms: seq<Atom>, at: seq<nat>)
    requires atoms == [Atom("R", [Var("X"), Var("Y")], false), Atom("S", [Var("X")], true)] && |at| == 2
    ensures forall i :: 0 <= i < |BodySchema(atoms, at, 1)| && BodySchema(atoms, at, 1)[i] == "Y" ==> i == 1
  {
    hide MakeUnique, GoalNames;
    DistinctNames(atoms[0].args, at[0]);
    DistinctNames(atoms[1].args, at[1]);
    assert GoalNames(atoms[0].args, at[0]) == ["X", "Y"] && GoalNames(atoms[1].args, at[1]) == ["X"];
    var all := Elements(NamesBefore([], atoms, at, 1, 2));
    var names := ["X", "Y"] + ["X"];
    MakeUniqueProps(names, all);
    assert names[1] !in names[..1];
    assert PositiveSchema(atoms, at, 1) == ["X", "Y"] && BodySchema(atoms, at, 1) == MakeUnique(names, all);
  }
}
