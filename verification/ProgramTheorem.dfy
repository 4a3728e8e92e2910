/** Whole programs: the expanded tree of a predicate evaluates to the rows derived for it. */
module ProgramTheorem {
  import opened Names
  import opened UniqueNames
  import opened Algebra
  import opened Datalog
  import opened RuleTranslation
  import opened GoalNaming
  import opened RuleProofs
  import opened RuleTheorem
  import opened Declarative
  import opened Program

  /** A rule the translator handles: safe, passing the check on names, and with a permitted head. */
  ghost predicate GoodRule(r: Rule) {
    Safe(r) && NamesApart(r) && (Aggregates(r) ==> AggHeadOk(r.headArgs))
  }

  ghost predicate RuleArities(r: Rule, arity: string -> nat) {
    |r.headArgs| == arity(r.head) && forall a :: Goal(a) in r.body ==> |a.args| == arity(a.rel)
  }

  ghost predicate DatabaseArities(db: Database, arity: string -> nat) {
    forall q :: HasArity(Rows(db, q), arity(q))
  }

  ghost predicate GoodProgram(p: Program, rank: map<string, nat>, arity: string -> nat) {
    && NonRecursive(p, rank)
    && (forall r :: r in p.rules ==> GoodRule(r) && RuleArities(r, arity))
    && (forall f :: f in p.facts ==> |f.values| == arity(f.rel))
  }

  // ----- Arities -----

  lemma ConcatPush(parts: seq<seq<Row>>, part: seq<Row>)
    ensures Concat(parts + [part]) == Concat(parts) + part && Concat(parts + []) == Concat(parts)
  {
    assert (parts + [part])[..|parts|] == parts && parts + [] == parts;
  }

  lemma RuleRowsArity(r: Rule, db: Database)
    ensures HasArity(RuleRows(r, db), |r.headArgs|)
  {
    hide BodyBindings, Distinct;
    var bs := BodyBindings(r, db);
    DistinctProps(HeadRows(r.headArgs, bs));
  }

  lemma {:induction false} RulesRowsArity(rules: seq<Rule>, pred: string, db: Database, n: nat)
    requires forall r :: r in rules && r.head == pred ==> |r.headArgs| == n
    ensures HasArity(Concat(RulesRows(rules, pred, db)), n)
  {
    hide RuleRows;
    if rules != [] {
      var front, last := rules[..|rules| - 1], rules[|rules| - 1];
      assert rules == front + [last];
      forall r | r in front && r.head == pred ensures |r.headArgs| == n { assert r in rules; }
      RulesRowsArity(front, pred, db, n);
      ConcatPush(RulesRows(front, pred, db), RuleRows(last, db));
      if last.head == pred {
        assert last in rules;
        RuleRowsArity(last, db);
      }
    }
  }

  lemma {:induction false} FactRowsArity(facts: seq<Fact>, pred: string, n: nat)
    requires forall f :: f in facts && f.rel == pred ==> |f.values| == n
    ensures HasArity(Concat(FactRows(facts, pred)), n)
  {
    if facts != [] {
      var front, last := facts[..|facts| - 1], facts[|facts| - 1];
      assert facts == front + [last];
      forall f | f in front && f.rel == pred ensures |f.values| == n { assert f in facts; }
      FactRowsArity(front, pred, n);
      ConcatPush(FactRows(front, pred), [last.values]);
      assert last in facts;
    }
  }

  lemma {:induction false} ConcatSplit(a: seq<seq<Row>>, b: seq<seq<Row>>)
    ensures Concat(a + b) == Concat(a) + Concat(b)
  {
    if b == [] {
      assert a + b == a;
    } else {
      ConcatSplit(a, b[..|b| - 1]);
      assert (a + b)[..|a + b| - 1] == a + b[..|b| - 1];
    }
  }

  lemma PredRowsArity(p: Program, rank: map<string, nat>, arity: string -> nat, edb: Database, pred: string)
    requires GoodProgram(p, rank, arity) && pred in Derived(p)
    ensures HasArity(PredRows(p, rank, edb, pred), arity(pred))
  {
    hide RuleRows, Safe, NamesApart, Distinct;
    var db := Known(p, rank, edb, rank[pred]);
    var f, r := FactRows(p.facts, pred), RulesRows(p.rules, pred, db);
    FactRowsArity(p.facts, pred, arity(pred));
    RulesRowsArity(p.rules, pred, db, arity(pred));
    ConcatSplit(f, r);
    DistinctProps(Concat(f + r));
  }

  lemma KnownArities(p: Program, rank: map<string, nat>, arity: string -> nat, edb: Database, n: nat)
    requires GoodProgram(p, rank, arity) && DatabaseArities(edb, arity)
    ensures DatabaseArities(Known(p, rank, edb, n), arity)
  {
    hide GoodRule, RuleArities, PredRows;
    forall q ensures HasArity(Rows(Known(p, rank, edb, n), q), arity(q)) {
      if q in Derived(p) {
        PredRowsArity(p, rank, arity, edb, q);
      } else if q in edb {
        assert Rows(edb, q) == edb[q];
      }
    }
  }

  // ----- The trees access only relations of lower rank -----

  lemma PosGoalRanked(a: Atom, goalPos: nat, idb: set<string>, rank: map<string, nat>, n: nat)
    requires a.rel in idb ==> a.rel in rank && rank[a.rel] < n
    ensures TablesRanked(PosGoal(a, goalPos, idb), idb, rank, n)
  {
    hide GoalConds, GoalNames;
    RenamedGoalRanked(Access(a, idb), a.args, goalPos, idb, rank, n);
  }

  lemma RenamedGoalRanked(base: Op, args: seq<Term>, goalPos: nat, idb: set<string>, rank: map<string, nat>, n: nat)
    requires TablesRanked(base, idb, rank, n)
    ensures TablesRanked(RenamedGoal(base, args, goalPos), idb, rank, n)
  {
    hide GoalConds, GoalNames;
    assert TablesRanked(SelectIfAny(GoalConds(args), base), idb, rank, n);
  }

  lemma NegGoalRanked(a: Atom, goalPos: nat, posPart: Op, idb: set<string>, rank: map<string, nat>, n: nat)
    requires a.rel in idb ==> a.rel in rank && rank[a.rel] < n
    requires TablesRanked(posPart, idb, rank, n)
    ensures TablesRanked(NegGoal(a, goalPos, posPart, idb), idb, rank, n)
  {
    hide RenamedGoal, DomainNames, DomainExprs, Schema;
    var dom := Projection(DomainExprs(a.args, Schema(posPart)), posPart, DomainNames(a.args));
    assert TablesRanked(dom, idb, rank, n) && TablesRanked(Access(a, idb), idb, rank, n);
    RenamedGoalRanked(NegBase(a, posPart, idb), a.args, goalPos, idb, rank, n);
  }

  ghost predicate AtomsRanked(atoms: seq<Atom>, idb: set<string>, rank: map<string, nat>, n: nat) {
    forall a :: a in atoms && a.rel in idb ==> a.rel in rank && rank[a.rel] < n
  }

  ghost predicate OpsRanked(ops: seq<Op>, idb: set<string>, rank: map<string, nat>, n: nat) {
    forall op :: op in ops ==> TablesRanked(op, idb, rank, n)
  }

  lemma {:induction false} PosGoalsRanked(atoms: seq<Atom>, idb: set<string>, rank: map<string, nat>, n: nat)
    requires AtomsRanked(atoms, idb, rank, n)
    ensures OpsRanked(PosGoals(atoms, idb), idb, rank, n)
  {
    hide PosGoal, TablesRanked;
    if atoms != [] {
      var front, last := atoms[..|atoms| - 1], atoms[|atoms| - 1];
      assert atoms == front + [last];
      assert last in atoms;
      PosGoalsRanked(front, idb, rank, n);
      PosGoalRanked(last, |atoms| - 1, idb, rank, n);
    }
  }

  lemma {:induction false} NegGoalsRanked(atoms: seq<Atom>, posPart: Op, idb: set<string>, rank: map<string, nat>, n: nat)
    requires AtomsRanked(atoms, idb, rank, n) && TablesRanked(posPart, idb, rank, n)
    ensures OpsRanked(NegGoals(atoms, posPart, idb), idb, rank, n)
  {
    hide NegGoal, TablesRanked;
    if atoms != [] {
      var front, last := atoms[..|atoms| - 1], atoms[|atoms| - 1];
      assert atoms == front + [last];
      assert last in atoms;
      NegGoalsRanked(front, posPart, idb, rank, n);
      NegGoalRanked(last, |atoms| - 1, posPart, idb, rank, n);
    }
  }

  lemma {:induction false} JoinRanked(ops: seq<Op>, all: set<string>, k: nat, idb: set<string>, rank: map<string, nat>,
                                      n: nat)
    requires 1 <= k <= |ops| && OpsRanked(ops, idb, rank, n)
    ensures TablesRanked(JoinUpTo(ops, all, k).op, idb, rank, n)
  {
    hide Schema, JoinConds, MakeUnique;
    assert ops[k - 1] in ops;
    if k > 1 {
      JoinRanked(ops, all, k - 1, idb, rank, n);
    }
  }

  lemma RuleTreeRanked(r: Rule, idb: set<string>, rank: map<string, nat>, n: nat)
    requires TranslateRule(r, idb).Some? && AtomsRanked(Atoms(r.body), idb, rank, n)
    ensures TablesRanked(TranslateRule(r, idb).value, idb, rank, n)
    ensures PosGoals(Atoms(r.body), idb) != [] && TablesRanked(JoinedPositive(r, idb), idb, rank, n)
    ensures !TranslateRule(r, idb).value.TableAccess?
  {
    hide JoinUpTo, Schema, PosGoals, NegGoals, TestConds, HeadExprs, BodyMap, OrigNames, Elements, AtomsRanked;
    var atoms := Atoms(r.body);
    PosGoalsRanked(atoms, idb, rank, n);
    var goals := PosGoals(atoms, idb);
    JoinRanked(goals, Elements(OrigNames(goals[1..])), |goals|, idb, rank, n);
    var posPart := JoinedPositive(r, idb);
    assert TablesRanked(posPart, idb, rank, n);
    NegGoalsRanked(atoms, posPart, idb, rank, n);
    var all := [posPart] + NegGoals(atoms, posPart, idb);
    assert OpsRanked(all, idb, rank, n);
    JoinRanked(all, Elements(OrigNames(all[1..])), |all|, idb, rank, n);
    assert TablesRanked(JoinedBody(r, idb), idb, rank, n);
  }

  lemma {:induction false} RuleOpsRanked(rules: seq<Rule>, pred: string, idb: set<string>, rank: map<string, nat>, n: nat)
    requires AllTranslated(rules, idb)
    requires forall r :: r in rules && r.head == pred ==> AtomsRanked(Atoms(r.body), idb, rank, n)
    ensures OpsRanked(RuleOps(rules, pred, idb), idb, rank, n)
    ensures forall op :: op in RuleOps(rules, pred, idb) ==> !op.TableAccess?
  {
    hide TranslateRule, TablesRanked, AtomsRanked;
    if rules != [] {
      var front, last := rules[..|rules| - 1], rules[|rules| - 1];
      assert rules == front + [last] && last in rules;
      forall r | r in front && r.head == pred ensures AtomsRanked(Atoms(r.body), idb, rank, n) { assert r in rules; }
      RuleOpsRanked(front, pred, idb, rank, n);
      if last.head == pred {
        RuleTreeRanked(last, idb, rank, n);
      }
    }
  }

  lemma {:induction false} FactOpsRanked(facts: seq<Fact>, pred: string, idb: set<string>, rank: map<string, nat>, n: nat)
    ensures OpsRanked(FactOps(facts, pred), idb, rank, n)
    ensures forall op :: op in FactOps(facts, pred) ==> op.ConstRel?
  {
    if facts != [] {
      FactOpsRanked(facts[..|facts| - 1], pred, idb, rank, n);
    }
  }

  lemma {:induction false} UnionRanked(ops: seq<Op>, idb: set<string>, rank: map<string, nat>, n: nat)
    requires ops != [] && OpsRanked(ops, idb, rank, n)
    ensures TablesRanked(UnionAll(ops), idb, rank, n)
  {
    hide Schema;
    assert ops[|ops| - 1] in ops;
    if |ops| > 1 {
      assert OpsRanked(ops[..|ops| - 1], idb, rank, n);
      UnionRanked(ops[..|ops| - 1], idb, rank, n);
    }
  }

  lemma ProgramTranslated(p: Program, rank: map<string, nat>, arity: string -> nat)
    requires GoodProgram(p, rank, arity)
    ensures AllTranslated(p.rules, Derived(p))
  {
    hide TranslateRule, Safe, NamesApart, RuleArities, NonRecursive;
    forall r | r in p.rules ensures TranslateRule(r, Derived(p)).Some? {
      EmptyArities(r);
      RulePreserved(r, Derived(p), map[]);
    }
  }

  lemma EmptyArities(r: Rule)
    ensures AritiesFit(r, map[])
  {
  }

  lemma ProgramRanked(p: Program, rank: map<string, nat>)
    requires NonRecursive(p, rank) && AllTranslated(p.rules, Derived(p))
    ensures TreesRanked(PredTrees(p), rank)
  {
    hide TranslateRule, TablesRanked, GoodRule, RuleArities, FactOps, RuleOps;
    var idb := Derived(p);
    forall q | q in idb ensures TablesRanked(PredTree(p, q), idb, rank, rank[q]) && !PredTree(p, q).TableAccess? {
      forall r | r in p.rules && r.head == q ensures AtomsRanked(Atoms(r.body), idb, rank, rank[q]) {
        AtomsIn(r.body);
      }
      FactOpsRanked(p.facts, q, idb, rank, rank[q]);
      RuleOpsRanked(p.rules, q, idb, rank, rank[q]);
      PredOpsNonempty(p, q);
      var ops := PredOps(p, q);
      assert OpsRanked(ops, idb, rank, rank[q]) && ops[0] in ops;
      UnionRanked(ops, idb, rank, rank[q]);
      CombineRanked(ops, idb, rank, rank[q]);
    }
  }

  lemma CombineRanked(ops: seq<Op>, idb: set<string>, rank: map<string, nat>, n: nat)
    requires ops != [] && OpsRanked(ops, idb, rank, n) && TablesRanked(UnionAll(ops), idb, rank, n)
    requires !ops[0].TableAccess?
    ensures TablesRanked(Combine(ops), idb, rank, n) && !Combine(ops).TableAccess?
  {
    assert ops[0] in ops;
  }

  // ----- Evaluation -----

  ghost function EvalEach(ops: seq<Op>, db: Database): (parts: seq<seq<Row>>)
    ensures |parts| == |ops|
    ensures forall i :: 0 <= i < |ops| ==> parts[i] == Eval(ops[i], db)
  {
    seq(|ops|, i requires 0 <= i < |ops| => Eval(ops[i], db))
  }

  lemma {:induction false} UnionEval(ops: seq<Op>, db: Database)
    requires ops != []
    ensures Eval(UnionAll(ops), db) == Concat(EvalEach(ops, db))
  {
    hide Schema;
    var front := ops[..|ops| - 1];
    assert EvalEach(ops, db)[..|ops| - 1] == EvalEach(front, db);
    if |ops| > 1 {
      UnionEval(front, db);
    }
  }

  lemma CombineEval(ops: seq<Op>, db: Database)
    requires ops != []
    ensures Eval(Combine(ops), db) == Merge(EvalEach(ops, db))
  {
    UnionEval(ops, db);
    if |ops| == 1 {
      assert EvalEach(ops, db)[..0] == [];
      assert Concat(EvalEach(ops, db)) == Concat([]) + EvalEach(ops, db)[0];
    }
  }

  lemma {:induction false} FactsEval(facts: seq<Fact>, pred: string, db: Database)
    ensures EvalEach(FactOps(facts, pred), db) == FactRows(facts, pred)
  {
    if facts != [] {
      FactsEval(facts[..|facts| - 1], pred, db);
    }
  }

  lemma {:induction false} RulesEval(rules: seq<Rule>, pred: string, idb: set<string>, db: Database)
    requires AllTranslated(rules, idb) && forall r :: r in rules ==> GoodRule(r) && AritiesFit(r, db)
    ensures EvalEach(RuleOps(rules, pred, idb), db) == RulesRows(rules, pred, db)
  {
    hide TranslateRule, Eval, RuleRows, AritiesFit, Safe, NamesApart;
    if rules != [] {
      var front, last := rules[..|rules| - 1], rules[|rules| - 1];
      assert rules == front + [last] && last in rules;
      forall r | r in front ensures GoodRule(r) && AritiesFit(r, db) { assert r in rules; }
      RulesEval(front, pred, idb, db);
      RulePreserved(last, idb, db);
    }
  }

  /** The trees of a predicate, evaluated over the relations of lower rank, give its rows. */
  lemma PredTreeEval(p: Program, rank: map<string, nat>, arity: string -> nat, edb: Database, pred: string)
    requires GoodProgram(p, rank, arity) && DatabaseArities(edb, arity) && pred in Derived(p)
    requires AllTranslated(p.rules, Derived(p))
    ensures Eval(PredTree(p, pred), Known(p, rank, edb, rank[pred])) == PredRows(p, rank, edb, pred)
  {
    hide FactOps, RuleOps, FactRows, RulesRows, GoodRule, Derived, Eval, Known;
    var db := Known(p, rank, edb, rank[pred]);
    PredOpsNonempty(p, pred);
    var facts, rules := FactOps(p.facts, pred), RuleOps(p.rules, pred, Derived(p));
    CombineEval(facts + rules, db);
    KnownArities(p, rank, arity, edb, rank[pred]);
    forall r | r in p.rules ensures AritiesFit(r, db) {}
    FactsEval(p.facts, pred, db);
    RulesEval(p.rules, pred, Derived(p), db);
    assert EvalEach(facts + rules, db) == EvalEach(facts, db) + EvalEach(rules, db);
  }

  /** The expanded tree of every predicate evaluates, over the stored relations alone, to the rows the
      program derives for it. */
  lemma {:induction false} ProgramPreserved(p: Program, rank: map<string, nat>, arity: string -> nat, edb: Database,
                                            pred: string)
    requires GoodProgram(p, rank, arity) && DatabaseArities(edb, arity) && pred in Derived(p)
    ensures AllTranslated(p.rules, Derived(p)) && TreesRanked(PredTrees(p), rank)
    ensures var tree := Expand(PredTrees(p)[pred], PredTrees(p), rank, rank[pred]);
      NoDerivedAccess(tree) && Eval(tree, edb) == PredRows(p, rank, edb, pred)
    decreases rank[pred]
  {
    assert NonRecursive(p, rank);
    hide GoodProgram, DatabaseArities, Eval, PredRows, PredTree, TreesRanked, AllTranslated, Derived, Expand,
         NoDerivedAccess, TablesRanked, NonRecursive;
    assert Derived(p) <= rank.Keys by { RanksAll(p, rank, arity); }
    ProgramTranslated(p, rank, arity);
    ProgramRanked(p, rank);
    hide PredTrees, Known;
    var trees, n := PredTrees(p), rank[pred];
    var db := Known(p, rank, edb, n);
    forall q | q in trees && rank[q] < n
      ensures TablesRanked(trees[q], trees.Keys, rank, rank[q])
      ensures PredRows(p, rank, edb, q) == Eval(Expand(trees[q], trees, rank, rank[q]), edb)
    {
      TreeRanked(trees, rank, q);
      ProgramPreserved(p, rank, arity, edb, q);
    }
    KnownStores(p, rank, edb, trees, n);
    TreeRanked(trees, rank, pred);
    ExpandNoDerived(trees[pred], trees, rank, n);
    ExpandEval(trees[pred], trees, rank, n, db, edb);
    PredTreeEval(p, rank, arity, edb, pred);
  }

  lemma KnownStores(p: Program, rank: map<string, nat>, edb: Database, trees: map<string, Op>, n: nat)
    requires Derived(p) <= rank.Keys && TreesRanked(trees, rank) && trees.Keys == Derived(p)
    requires forall q :: q in trees && rank[q] < n ==>
      (TablesRanked(trees[q], trees.Keys, rank, rank[q])
       && PredRows(p, rank, edb, q) == Eval(Expand(trees[q], trees, rank, rank[q]), edb))
    ensures Stores(Known(p, rank, edb, n), trees, rank, edb, n)
  {
    hide PredRows, Derived, Eval, Expand, TablesRanked, TreesRanked;
  }

  lemma RanksAll(p: Program, rank: map<string, nat>, arity: string -> nat)
    requires GoodProgram(p, rank, arity)
    ensures Derived(p) <= rank.Keys
  {
  }

  lemma TreeRanked(trees: map<string, Op>, rank: map<string, nat>, q: string)
    requires TreesRanked(trees, rank) && q in trees
    ensures TablesRanked(trees[q], trees.Keys, rank, rank[q])
  {
  }

  ghost predicate Stated(p: Program, pred: string, t: Row) {
    exists f :: f in p.facts && f.rel == pred && f.values == t
  }

  ghost predicate DerivedBy(rules: seq<Rule>, pred: string, db: Database, t: Row) {
    exists r, b :: r in rules && r.head == pred && SatisfiesBody(r, b, db) && t == HeadRow(r.headArgs, b)
  }

  /** Declaratively: a row is derived for a predicate iff a fact states it or some non-aggregating rule
      derives it from the facts, the stored relations and the relations of lower rank. */
  lemma DerivedRows(p: Program, rank: map<string, nat>, arity: string -> nat, edb: Database, pred: string, t: Row)
    requires GoodProgram(p, rank, arity) && DatabaseArities(edb, arity) && pred in Derived(p)
    requires forall r :: r in p.rules && r.head == pred ==> !Aggregates(r)
    ensures var db := Known(p, rank, edb, rank[pred]);
      t in PredRows(p, rank, edb, pred) <==> Stated(p, pred, t) || DerivedBy(p.rules, pred, db, t)
  {
    hide GoodRule, SatisfiesBody, RuleRows, Known, Derived, HasArity;
    var db := Known(p, rank, edb, rank[pred]);
    var f, r := FactRows(p.facts, pred), RulesRows(p.rules, pred, db);
    ConcatSplit(f, r);
    DistinctProps(Concat(f + r));
    FactRowsHold(p.facts, pred, t);
    KnownArities(p, rank, arity, edb, rank[pred]);
    forall x | x in p.rules ensures AritiesFit(x, db) { FitsArities(x, db, arity); }
    RulesRowsHold(p.rules, pred, db, t);
  }

  lemma FitsArities(r: Rule, db: Database, arity: string -> nat)
    requires RuleArities(r, arity) && DatabaseArities(db, arity)
    ensures AritiesFit(r, db)
  {
  }

  lemma {:induction false} FactRowsHold(facts: seq<Fact>, pred: string, t: Row)
    ensures t in Concat(FactRows(facts, pred)) <==> exists f :: f in facts && f.rel == pred && f.values == t
  {
    if facts != [] {
      var front, last := facts[..|facts| - 1], facts[|facts| - 1];
      assert facts == front + [last];
      FactRowsHold(front, pred, t);
      ConcatPush(FactRows(front, pred), [last.values]);
    }
  }

  lemma {:induction false} RulesRowsHold(rules: seq<Rule>, pred: string, db: Database, t: Row)
    requires forall r :: r in rules ==> GoodRule(r) && AritiesFit(r, db)
    requires forall r :: r in rules && r.head == pred ==> !Aggregates(r)
    ensures t in Concat(RulesRows(rules, pred, db)) <==> DerivedBy(rules, pred, db, t)
  {
    hide SatisfiesBody, RuleRows, AritiesFit, Safe, NamesApart, TranslateRule, Eval;
    if rules != [] {
      var front, last := rules[..|rules| - 1], rules[|rules| - 1];
      assert rules == front + [last] && last in rules;
      forall r | r in front ensures r in rules {}
      RulesRowsHold(front, pred, db, t);
      ConcatPush(RulesRows(front, pred, db), RuleRows(last, db));
      if last.head == pred {
        RuleResult(last, {}, db);
        RulePreserved(last, {}, db);
      }
    }
  }
}
