/** Non-recursive Datalog programs: their meaning, the operator trees of their predicates, and the
    substitution of predicate trees for accesses to derived relations. */
module Program {
  import opened Names
  import opened Algebra
  import opened Datalog
  import opened RuleTranslation
  import opened RuleTheorem
  import opened Declarative
  import opened RuleProofs
  import opened RuleTranslator

  datatype Fact = Fact(rel: string, values: Row)

  datatype Program = Program(rules: seq<Rule>, facts: seq<Fact>)

  /** The relations the program defines. */
  function Derived(p: Program): set<string> {
    (set r | r in p.rules :: r.head) + (set f | f in p.facts :: f.rel)
  }

  // ----- Meaning -----

  function FactRows(facts: seq<Fact>, pred: string): seq<seq<Row>> {
    if facts == [] then []
    else
      FactRows(facts[..|facts| - 1], pred)
      + if facts[|facts| - 1].rel == pred then [[facts[|facts| - 1].values]] else []
  }

  function RulesRows(rules: seq<Rule>, pred: string, db: Database): seq<seq<Row>> {
    if rules == [] then []
    else
      RulesRows(rules[..|rules| - 1], pred, db)
      + if rules[|rules| - 1].head == pred then [RuleRows(rules[|rules| - 1], db)] else []
  }

  function Concat(parts: seq<seq<Row>>): seq<Row> {
    if parts == [] then [] else Concat(parts[..|parts| - 1]) + parts[|parts| - 1]
  }

  /** All rows of a predicate; with several facts or rules, duplicates are dropped. */
  function Merge(parts: seq<seq<Row>>): seq<Row> {
    if |parts| > 1 then Distinct(Concat(parts)) else Concat(parts)
  }

  /** A ranking of the derived relations that witnesses the absence of recursion. */
  ghost predicate NonRecursive(p: Program, rank: map<string, nat>) {
    && Derived(p) <= rank.Keys
    && forall r, a :: r in p.rules && Goal(a) in r.body && a.rel in Derived(p) ==> rank[a.rel] < rank[r.head]
  }

  /** The stored relations together with the derived ones of rank below `n`. */
  ghost function Known(p: Program, rank: map<string, nat>, edb: Database, n: nat): Database
    requires Derived(p) <= rank.Keys
    decreases n, 0
  {
    map q | q in edb.Keys + Derived(p) && (q in Derived(p) ==> rank[q] < n)
      :: if q in Derived(p) then PredRows(p, rank, edb, q) else edb[q]
  }

  /** The rows derived for a predicate. */
  ghost function PredRows(p: Program, rank: map<string, nat>, edb: Database, pred: string): seq<Row>
    requires Derived(p) <= rank.Keys && pred in Derived(p)
    decreases rank[pred], 1
  {
    Merge(FactRows(p.facts, pred) + RulesRows(p.rules, pred, Known(p, rank, edb, rank[pred])))
  }

  // ----- Translation -----

  function FactOp(f: Fact): Op {
    ConstRel(f.values, NumberedNames("c", |f.values|))
  }

  function FactOps(facts: seq<Fact>, pred: string): seq<Op> {
    if facts == [] then []
    else
      FactOps(facts[..|facts| - 1], pred) + if facts[|facts| - 1].rel == pred then [FactOp(facts[|facts| - 1])] else []
  }

  ghost predicate AllTranslated(rules: seq<Rule>, idb: set<string>) {
    forall r :: r in rules ==> TranslateRule(r, idb).Some?
  }

  ghost function RuleOps(rules: seq<Rule>, pred: string, idb: set<string>): seq<Op>
    requires AllTranslated(rules, idb)
  {
    if rules == [] then []
    else
      var front, last := rules[..|rules| - 1], rules[|rules| - 1];
      RuleOps(front, pred, idb) + if last.head == pred then [TranslateRule(last, idb).value] else []
  }

  function UnionAll(ops: seq<Op>): Op
    requires ops != []
  {
    if |ops| == 1 then ops[0]
    else Union(UnionAll(ops[..|ops| - 1]), ops[|ops| - 1], Schema(ops[0]))
  }

  /** One tree per predicate: the union of its translations, without duplicates if there are several. */
  function Combine(ops: seq<Op>): Op
    requires ops != []
  {
    if |ops| > 1 then DupRemoval(UnionAll(ops)) else ops[0]
  }

  ghost function PredOps(p: Program, pred: string): seq<Op>
    requires AllTranslated(p.rules, Derived(p))
  {
    FactOps(p.facts, pred) + RuleOps(p.rules, pred, Derived(p))
  }

  lemma {:induction false} FactOpsNonempty(facts: seq<Fact>, pred: string)
    ensures FactOps(facts, pred) != [] <==> exists f :: f in facts && f.rel == pred
  {
    if facts != [] {
      FactOpsNonempty(facts[..|facts| - 1], pred);
      assert facts == facts[..|facts| - 1] + [facts[|facts| - 1]];
    }
  }

  lemma {:induction false} RuleOpsNonempty(rules: seq<Rule>, pred: string, idb: set<string>)
    requires AllTranslated(rules, idb)
    ensures RuleOps(rules, pred, idb) != [] <==> exists r :: r in rules && r.head == pred
  {
    hide TranslateRule;
    if rules != [] {
      RuleOpsNonempty(rules[..|rules| - 1], pred, idb);
      assert rules == rules[..|rules| - 1] + [rules[|rules| - 1]];
    }
  }

  lemma PredOpsNonempty(p: Program, pred: string)
    requires AllTranslated(p.rules, Derived(p)) && pred in Derived(p)
    ensures PredOps(p, pred) != []
  {
    FactOpsNonempty(p.facts, pred);
    RuleOpsNonempty(p.rules, pred, Derived(p));
  }

  ghost function PredTree(p: Program, pred: string): Op
    requires AllTranslated(p.rules, Derived(p)) && pred in Derived(p)
  {
    PredOpsNonempty(p, pred);
    Combine(PredOps(p, pred))
  }

  /** `predToTrans` before the trees are connected. */
  ghost function PredTrees(p: Program): (trees: map<string, Op>)
    requires AllTranslated(p.rules, Derived(p))
    ensures trees.Keys == Derived(p)
  {
    map q | q in Derived(p) :: PredTree(p, q)
  }

  // ----- Substituting trees for accesses to derived relations -----

  ghost predicate TablesRanked(t: Op, derived: set<string>, rank: map<string, nat>, n: nat) {
    match t
    case TableAccess(rel, _, idb) => (idb <==> rel in derived) && (idb ==> rel in rank && rank[rel] < n)
    case ConstRel(_, _) => true
    case Projection(_, input, _) => TablesRanked(input, derived, rank, n)
    case Selection(_, input) => TablesRanked(input, derived, rank, n)
    case Join(_, l, r, _) => TablesRanked(l, derived, rank, n) && TablesRanked(r, derived, rank, n)
    case Union(l, r, _) => TablesRanked(l, derived, rank, n) && TablesRanked(r, derived, rank, n)
    case Difference(l, r, _) => TablesRanked(l, derived, rank, n) && TablesRanked(r, derived, rank, n)
    case DupRemoval(input) => TablesRanked(input, derived, rank, n)
    case Aggregation(_, _, input, _) => TablesRanked(input, derived, rank, n)
  }

  ghost predicate TreesRanked(trees: map<string, Op>, rank: map<string, nat>) {
    && trees.Keys <= rank.Keys
    && forall q :: q in trees ==> TablesRanked(trees[q], trees.Keys, rank, rank[q]) && !trees[q].TableAccess?
  }

  ghost function Expand(t: Op, trees: map<string, Op>, rank: map<string, nat>, n: nat): Op
    requires TreesRanked(trees, rank) && TablesRanked(t, trees.Keys, rank, n)
    decreases n, t
  {
    match t
    case TableAccess(rel, _, idb) => if idb then Expand(trees[rel], trees, rank, rank[rel]) else t
    case ConstRel(_, _) => t
    case Projection(e, input, names) => Projection(e, Expand(input, trees, rank, n), names)
    case Selection(c, input) => Selection(c, Expand(input, trees, rank, n))
    case Join(c, l, r, names) => Join(c, Expand(l, trees, rank, n), Expand(r, trees, rank, n), names)
    case Union(l, r, names) => Union(Expand(l, trees, rank, n), Expand(r, trees, rank, n), names)
    case Difference(l, r, names) => Difference(Expand(l, trees, rank, n), Expand(r, trees, rank, n), names)
    case DupRemoval(input) => DupRemoval(Expand(input, trees, rank, n))
    case Aggregation(a, g, input, names) => Aggregation(a, g, Expand(input, trees, rank, n), names)
  }

  ghost predicate NoDerivedAccess(t: Op) {
    match t
    case TableAccess(_, _, idb) => !idb
    case ConstRel(_, _) => true
    case Projection(_, input, _) => NoDerivedAccess(input)
    case Selection(_, input) => NoDerivedAccess(input)
    case Join(_, l, r, _) => NoDerivedAccess(l) && NoDerivedAccess(r)
    case Union(l, r, _) => NoDerivedAccess(l) && NoDerivedAccess(r)
    case Difference(l, r, _) => NoDerivedAccess(l) && NoDerivedAccess(r)
    case DupRemoval(input) => NoDerivedAccess(input)
    case Aggregation(_, _, input, _) => NoDerivedAccess(input)
  }

  lemma {:induction false} ExpandNoDerived(t: Op, trees: map<string, Op>, rank: map<string, nat>, n: nat)
    requires TreesRanked(trees, rank) && TablesRanked(t, trees.Keys, rank, n)
    ensures NoDerivedAccess(Expand(t, trees, rank, n))
    decreases n, t
  {
    match t
    case TableAccess(rel, _, idb) => if idb { ExpandNoDerived(trees[rel], trees, rank, rank[rel]); }
    case ConstRel(_, _) =>
    case Projection(_, input, _) => ExpandNoDerived(input, trees, rank, n);
    case Selection(_, input) => ExpandNoDerived(input, trees, rank, n);
    case Join(_, l, r, _) => ExpandNoDerived(l, trees, rank, n); ExpandNoDerived(r, trees, rank, n);
    case Union(l, r, _) => ExpandNoDerived(l, trees, rank, n); ExpandNoDerived(r, trees, rank, n);
    case Difference(l, r, _) => ExpandNoDerived(l, trees, rank, n); ExpandNoDerived(r, trees, rank, n);
    case DupRemoval(input) => ExpandNoDerived(input, trees, rank, n);
    case Aggregation(_, _, input, _) => ExpandNoDerived(input, trees, rank, n);
  }

  /** A database that stores, for every relation of `trees`, what its expanded tree evaluates to. */
  ghost predicate Stores(db: Database, trees: map<string, Op>, rank: map<string, nat>, edb: Database, n: nat)
    requires TreesRanked(trees, rank)
  {
    && (forall q :: q in trees && rank[q] < n ==> Rows(db, q) == Eval(Expand(trees[q], trees, rank, rank[q]), edb))
    && (forall q :: q !in trees ==> Rows(db, q) == Rows(edb, q))
  }

  /** Evaluating the expanded tree is evaluating the tree over such a database. */
  lemma {:induction false} ExpandEval(t: Op, trees: map<string, Op>, rank: map<string, nat>, n: nat, db: Database,
                                      edb: Database)
    requires TreesRanked(trees, rank) && TablesRanked(t, trees.Keys, rank, n) && Stores(db, trees, rank, edb, n)
    ensures Eval(Expand(t, trees, rank, n), edb) == Eval(t, db)
    decreases t
  {
    match t
    case TableAccess(rel, _, idb) =>
    case ConstRel(_, _) =>
    case Projection(_, input, _) => ExpandEval(input, trees, rank, n, db, edb);
    case Selection(_, input) => ExpandEval(input, trees, rank, n, db, edb);
    case Join(_, l, r, _) => ExpandEval(l, trees, rank, n, db, edb); ExpandEval(r, trees, rank, n, db, edb);
    case Union(l, r, _) => ExpandEval(l, trees, rank, n, db, edb); ExpandEval(r, trees, rank, n, db, edb);
    case Difference(l, r, _) => ExpandEval(l, trees, rank, n, db, edb); ExpandEval(r, trees, rank, n, db, edb);
    case DupRemoval(input) => ExpandEval(input, trees, rank, n, db, edb);
    case Aggregation(_, _, input, _) => ExpandEval(input, trees, rank, n, db, edb);
  }
}
