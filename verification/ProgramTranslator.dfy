/** Translation of a whole program: per-predicate unions in one operator graph, then splicing. */
module ProgramTranslator {
  import opened Algebra
  import opened Datalog
  import opened RuleTranslation
  import opened RuleTranslator
  import opened Program
  import opened ProgramTheorem
  import opened PlanGraph

  /** The translations of a predicate for some of the facts and rules. */
  ghost function OpsOf(facts: seq<Fact>, rules: seq<Rule>, idb: set<string>, pred: string): seq<Op>
    requires AllTranslated(rules, idb)
  {
    FactOps(facts, pred) + RuleOps(rules, pred, idb)
  }

  function Entry(trans: map<string, seq<nat>>, pred: string): seq<nat> {
    if pred in trans then trans[pred] else []
  }

  /** The nodes stand for the trees. */
  ghost predicate Denote(nodes: seq<nat>, spelled: seq<Op>, ops: seq<Op>) {
    |nodes| == |ops| && forall j :: 0 <= j < |nodes| ==> nodes[j] < |spelled| && spelled[nodes[j]] == ops[j]
  }

  /** `trans` lists, for every predicate, the nodes of its translations. */
  ghost predicate Collected(trans: map<string, seq<nat>>, spelled: seq<Op>, facts: seq<Fact>, rules: seq<Rule>,
                            idb: set<string>)
    requires AllTranslated(rules, idb)
  {
    && (forall q :: Denote(Entry(trans, q), spelled, OpsOf(facts, rules, idb, q)))
    && (forall q :: q in trans ==> trans[q] != [])
  }

  function Append(trans: map<string, seq<nat>>, pred: string, n: nat): map<string, seq<nat>> {
    trans[pred := Entry(trans, pred) + [n]]
  }

  lemma DenotePush(nodes: seq<nat>, spelled: seq<Op>, more: seq<Op>, ops: seq<Op>, n: nat, op: Op)
    requires Denote(nodes, spelled, ops) && spelled <= more && n < |more| && more[n] == op
    ensures Denote(nodes, more, ops) && Denote(nodes + [n], more, ops + [op])
  {
  }

  lemma OpsOfFact(facts: seq<Fact>, f: Fact, idb: set<string>, pred: string)
    requires AllTranslated([], idb)
    ensures OpsOf(facts + [f], [], idb, pred)
      == OpsOf(facts, [], idb, pred) + if f.rel == pred then [FactOp(f)] else []
  {
    assert (facts + [f])[..|facts|] == facts;
  }

  lemma OpsOfRule(facts: seq<Fact>, rules: seq<Rule>, r: Rule, idb: set<string>, pred: string)
    requires AllTranslated(rules, idb) && TranslateRule(r, idb).Some?
    ensures AllTranslated(rules + [r], idb)
    ensures OpsOf(facts, rules + [r], idb, pred)
      == OpsOf(facts, rules, idb, pred) + if r.head == pred then [TranslateRule(r, idb).value] else []
  {
    hide TranslateRule, FactOps;
    assert (rules + [r])[..|rules|] == rules;
  }

  lemma CollectedFact(trans: map<string, seq<nat>>, spelled: seq<Op>, more: seq<Op>, facts: seq<Fact>, f: Fact,
                      idb: set<string>, n: nat)
    requires AllTranslated([], idb) && Collected(trans, spelled, facts, [], idb)
    requires spelled <= more && n < |more| && more[n] == FactOp(f)
    ensures Collected(Append(trans, f.rel, n), more, facts + [f], [], idb)
  {
    hide OpsOf, Denote, FactOp;
    var after := Append(trans, f.rel, n);
    forall q ensures Denote(Entry(after, q), more, OpsOf(facts + [f], [], idb, q)) {
      OpsOfFact(facts, f, idb, q);
      var ops := OpsOf(facts, [], idb, q);
      DenotePush(Entry(trans, q), spelled, more, ops, n, FactOp(f));
      assert ops + [] == ops;
    }
  }

  lemma CollectedRule(trans: map<string, seq<nat>>, spelled: seq<Op>, more: seq<Op>, facts: seq<Fact>, rules: seq<Rule>,
                      r: Rule, idb: set<string>, n: nat)
    requires AllTranslated(rules, idb) && Collected(trans, spelled, facts, rules, idb)
    requires TranslateRule(r, idb).Some?
    requires spelled <= more && n < |more| && more[n] == TranslateRule(r, idb).value
    ensures AllTranslated(rules + [r], idb)
    ensures Collected(Append(trans, r.head, n), more, facts, rules + [r], idb)
  {
    hide TranslateRule, OpsOf, Denote;
    var after := Append(trans, r.head, n);
    OpsOfRule(facts, rules, r, idb, r.head);
    forall q ensures Denote(Entry(after, q), more, OpsOf(facts, rules + [r], idb, q)) {
      OpsOfRule(facts, rules, r, idb, q);
      var ops := OpsOf(facts, rules, idb, q);
      DenotePush(Entry(trans, q), spelled, more, ops, n, TranslateRule(r, idb).value);
      assert ops + [] == ops;
    }
  }

  lemma UnionStep(ops: seq<Op>, op: Op)
    requires ops != []
    ensures UnionAll(ops + [op]) == Union(UnionAll(ops), op, Schema(UnionAll(ops)))
  {
    assert (ops + [op])[..|ops|] == ops;
  }

  /** Above all ranks. */
  ghost function Bound(rank: map<string, nat>): (n: nat)
    ensures forall q :: q in rank ==> rank[q] < n
    decreases |rank|
  {
    if rank == map[] then 0
    else
      var q :| q in rank;
      assert |rank - {q}| < |rank| by { assert rank.Keys == (rank - {q}).Keys + {q}; }
      var n := Bound(rank - {q});
      assert forall k :: k in rank ==> k == q || k in rank - {q};
      if rank[q] < n then n else rank[q] + 1
  }

  lemma FirstUnion(ops: seq<Op>)
    requires ops != []
    ensures UnionAll([ops[0]]) == ops[0]
  {
  }

  lemma BuiltSize(g: Graph, spelled: seq<Op>)
    requires Built(g.labels, g.inputs, g.parents, spelled)
    ensures |g.labels| == |spelled|
  {
  }

  lemma UnionIsRanked(ts: seq<Op>, l: nat, r: nat, names: seq<string>, derived: set<string>, rank: map<string, nat>,
                      bound: nat)
    requires AllRanked(ts, derived, rank, bound) && l < |ts| && r < |ts|
    ensures TablesRanked(Union(ts[l], ts[r], names), derived, rank, bound)
    ensures TablesRanked(DupRemoval(ts[l]), derived, rank, bound)
  {
    assert ts[l] in ts && ts[r] in ts;
  }

  /** The union of the translations of one predicate, without duplicates if there are several. */
  method UnionTranslations(g: Graph, nodes: seq<nat>, ghost ops: seq<Op>, ghost spelled: seq<Op>, ghost derived: set<string>,
                           ghost rank: map<string, nat>, ghost bound: nat)
    returns (n: nat, ghost more: seq<Op>)
    requires g.Valid() && Built(g.labels, g.inputs, g.parents, spelled) && AllRanked(spelled, derived, rank, bound)
    requires nodes != [] && Denote(nodes, spelled, ops)
    modifies g
    ensures g.Valid() && Built(g.labels, g.inputs, g.parents, more) && AllRanked(more, derived, rank, bound)
    ensures spelled <= more && n < |more| && more[n] == Combine(ops)
  {
    hide Built, TablesRanked, Schema, UnionAll, AllRanked;
    more := spelled;
    n := nodes[0];
    ghost var done := [ops[0]];
    FirstUnion(ops);
    for i := 1 to |nodes|
      invariant g.Valid() && Built(g.labels, g.inputs, g.parents, more) && AllRanked(more, derived, rank, bound)
      invariant done == ops[..i] && spelled <= more && n < |more| && more[n] == UnionAll(done)
    {
      BuiltSize(g, more);
      var names := g.AttrNames(n, more);
      UnionStep(done, ops[i]);
      ghost var t := Union(more[n], ops[i], names);
      assert more[nodes[i]] == ops[i];
      UnionIsRanked(more, n, nodes[i], names, derived, rank, bound);
      n := g.AddNode(Union(hole, hole, names), [n, nodes[i]], t, more);
      RankedPush(more, t, derived, rank, bound);
      more := more + [t];
      done := done + [ops[i]];
    }
    assert done == ops;
    if |nodes| > 1 {
      ghost var t := DupRemoval(more[n]);
      UnionIsRanked(more, n, n, [], derived, rank, bound);
      n := g.AddNode(DupRemoval(hole), [n], t, more);
      RankedPush(more, t, derived, rank, bound);
      more := more + [t];
    } else {
      assert Combine(ops) == ops[0];
    }
  }

  lemma RuleBelow(p: Program, rank: map<string, nat>, r: Rule)
    requires NonRecursive(p, rank) && r in p.rules
    ensures AtomsRanked(Atoms(r.body), Derived(p), rank, Bound(rank))
  {
  }

  lemma NothingCollected(idb: set<string>)
    ensures AllTranslated([], idb) && Collected(map[], [], [], [], idb)
  {
  }

  /** Add the operators of a rule.  Its joined positive part, which every negated goal projects, becomes one node. */
  method AddRule(g: Graph, ghost r: Rule, t: Op, posPart: Op, ghost idb: set<string>, ghost spelled: seq<Op>,
                 ghost rank: map<string, nat>, ghost bound: nat)
    returns (n: nat, ghost more: seq<Op>)
    requires TranslateRule(r, idb) == Some(t) && PosGoals(Atoms(r.body), idb) != [] && posPart == JoinedPositive(r, idb)
    requires AtomsRanked(Atoms(r.body), idb, rank, bound)
    requires g.Valid() && Built(g.labels, g.inputs, g.parents, spelled) && AllRanked(spelled, idb, rank, bound)
    modifies g
    ensures g.Valid() && Built(g.labels, g.inputs, g.parents, more) && AllRanked(more, idb, rank, bound)
    ensures spelled <= more && n < |more| && more[n] == t
    ensures |more| == |spelled| + NewNodes(posPart, None) + NewNodes(t, Some(posPart))
  {
    RuleTreeRanked(r, idb, rank, bound);
    hide *;
    var shared;
    shared, more := g.AddTree(posPart, None, spelled, idb, rank, bound);
    n, more := g.AddTree(t, Some(Shared(posPart, shared)), more, idb, rank, bound);
  }

  /** One node per fact and one per rule, listed by predicate. */
  method TranslateFactsAndRules(p: Program, ghost rank: map<string, nat>)
    returns (g: Graph, trans: Option<map<string, seq<nat>>>, ghost spelled: seq<Op>)
    requires NonRecursive(p, rank)
    ensures fresh(g) && g.Valid() && (trans.Some? <==> AllTranslated(p.rules, Derived(p)))
    ensures trans.Some? ==>
      && Built(g.labels, g.inputs, g.parents, spelled) && AllRanked(spelled, Derived(p), rank, Bound(rank))
      && Collected(trans.value, spelled, p.facts, p.rules, Derived(p))
  {
    hide Built, TablesRanked, TranslateRule, Collected, Append, Derived, FactOp, Entry, Bound, NonRecursive, AtomsRanked,
         PosGoals, JoinedPositive, Atoms, NewNodes, AllRanked;
    NothingRanked(Derived(p), rank, Bound(rank));
    g := new Graph();
    spelled := [];
    var idb := Derived(p);
    var m: map<string, seq<nat>> := map[];
    NothingCollected(idb);
    EmptyBuilt(g);
    ghost var facts: seq<Fact> := [];
    for i := 0 to |p.facts|
      invariant fresh(g) && g.Valid() && Built(g.labels, g.inputs, g.parents, spelled)
      invariant facts == p.facts[..i] && AllRanked(spelled, idb, rank, Bound(rank))
      invariant AllTranslated([], idb) && Collected(m, spelled, facts, [], idb)
    {
      var f := p.facts[i];
      FactRanked(f, idb, rank);
      ghost var was := spelled;
      var n;
      n, spelled := g.AddTree(FactOp(f), None, spelled, idb, rank, Bound(rank));
      CollectedFact(m, was, spelled, facts, f, idb, n);
      m := Append(m, f.rel, n);
      facts := facts + [f];
    }
    assert facts == p.facts;
    ghost var rules: seq<Rule> := [];
    for i := 0 to |p.rules|
      invariant fresh(g) && g.Valid() && Built(g.labels, g.inputs, g.parents, spelled)
      invariant rules == p.rules[..i] && AllRanked(spelled, idb, rank, Bound(rank))
      invariant AllTranslated(rules, idb) && Collected(m, spelled, p.facts, rules, idb)
    {
      var r := p.rules[i];
      var t, posPart := TranslateSafeRule(r, idb);
      if t == None {
        assert r in p.rules;
        return g, None, spelled;
      }
      RuleBelow(p, rank, r);
      ghost var was := spelled;
      var n;
      n, spelled := AddRule(g, r, t.value, posPart.value, idb, spelled, rank, Bound(rank));
      CollectedRule(m, was, spelled, p.facts, rules, r, idb, n);
      m := Append(m, r.head, n);
      rules := rules + [r];
    }
    assert rules == p.rules;
    trans := Some(m);
  }

  lemma EmptyBuilt(g: Graph)
    requires g.Valid() && g.labels == []
    ensures Built(g.labels, g.inputs, g.parents, [])
  {
  }

  lemma NothingRanked(derived: set<string>, rank: map<string, nat>, bound: nat)
    ensures AllRanked([], derived, rank, bound)
  {
  }

  lemma FactRanked(f: Fact, derived: set<string>, rank: map<string, nat>)
    ensures TablesRanked(FactOp(f), derived, rank, Bound(rank))
  {
  }

  /** The roots of some of the predicates. */
  ghost predicate Rooted(roots: map<string, nat>, spelled: seq<Op>, p: Program)
    requires AllTranslated(p.rules, Derived(p))
  {
    forall q :: q in roots ==> q in Derived(p) && roots[q] < |spelled| && spelled[roots[q]] == PredTree(p, q)
  }

  lemma RootedMore(roots: map<string, nat>, spelled: seq<Op>, more: seq<Op>, p: Program, q: string, n: nat)
    requires AllTranslated(p.rules, Derived(p)) && Rooted(roots, spelled, p) && spelled <= more
    requires q in Derived(p) && n < |more| && more[n] == PredTree(p, q)
    ensures Rooted(roots[q := n], more, p)
  {
    hide Derived, PredTree;
  }

  /** The listed predicates are those the program defines. */
  lemma CollectedKeys(trans: map<string, seq<nat>>, spelled: seq<Op>, p: Program)
    requires AllTranslated(p.rules, Derived(p)) && Collected(trans, spelled, p.facts, p.rules, Derived(p))
    ensures trans.Keys == Derived(p)
  {
    hide TranslateRule, FactOps, RuleOps;
    forall q ensures q in trans <==> q in Derived(p) {
      assert Denote(Entry(trans, q), spelled, OpsOf(p.facts, p.rules, Derived(p), q));
      FactOpsNonempty(p.facts, q);
      RuleOpsNonempty(p.rules, q, Derived(p));
    }
  }

  lemma CollectedAt(trans: map<string, seq<nat>>, spelled: seq<Op>, more: seq<Op>, p: Program, q: string)
    requires AllTranslated(p.rules, Derived(p)) && Collected(trans, spelled, p.facts, p.rules, Derived(p))
    requires q in trans && q in Derived(p) && spelled <= more
    ensures trans[q] != [] && PredOps(p, q) != [] && Denote(trans[q], more, PredOps(p, q))
    ensures PredTree(p, q) == Combine(PredOps(p, q))
  {
    hide TranslateRule, FactOps, RuleOps, Derived;
    assert Denote(Entry(trans, q), spelled, OpsOf(p.facts, p.rules, Derived(p), q));
  }

  /** One root per predicate.  The predicates are visited in any order. */
  method UnionPredicates(g: Graph, trans: map<string, seq<nat>>, p: Program, ghost spelled: seq<Op>,
                         ghost rank: map<string, nat>)
    returns (roots: map<string, nat>, ghost more: seq<Op>)
    requires g.Valid() && Built(g.labels, g.inputs, g.parents, spelled) && AllRanked(spelled, Derived(p), rank, Bound(rank))
    requires AllTranslated(p.rules, Derived(p)) && Collected(trans, spelled, p.facts, p.rules, Derived(p))
    modifies g
    ensures g.Valid() && Built(g.labels, g.inputs, g.parents, more) && AllRanked(more, Derived(p), rank, Bound(rank))
    ensures roots.Keys == Derived(p) && Rooted(roots, more, p)
  {
    CollectedKeys(trans, spelled, p);
    hide *;
    roots, more := map[], spelled;
    assert Rooted(roots, more, p) by { NothingRooted(more, p); }
    var todo := trans.Keys;
    while todo != {}
      invariant g.Valid() && Built(g.labels, g.inputs, g.parents, more) && AllRanked(more, Derived(p), rank, Bound(rank))
      invariant spelled <= more && todo <= trans.Keys && roots.Keys == trans.Keys - todo && Rooted(roots, more, p)
      decreases |todo|
    {
      var q :| q in todo;
      todo := todo - {q};
      ghost var was := more;
      CollectedAt(trans, spelled, more, p, q);
      var n;
      n, more := UnionTranslations(g, trans[q], PredOps(p, q), more, Derived(p), rank, Bound(rank));
      RootedMore(roots, was, more, p, q, n);
      roots := roots[q := n];
    }
  }

  lemma NothingRooted(spelled: seq<Op>, p: Program)
    requires AllTranslated(p.rules, Derived(p))
    ensures Rooted(map[], spelled, p)
  {
  }

  lemma RootTrees(roots: map<string, nat>, spelled: seq<Op>, p: Program)
    requires AllTranslated(p.rules, Derived(p)) && roots.Keys == Derived(p) && Rooted(roots, spelled, p)
    ensures forall q :: q in roots ==> roots[q] < |spelled| && spelled[roots[q]] == PredTrees(p)[q]
  {
    hide PredTree, Derived;
  }

  /** The node returned for the answer relation spells the tree of that relation, in which every access
      to a derived relation has been replaced by the tree of that relation. */
  method TranslateProgram(p: Program, ans: string, ghost rank: map<string, nat>) returns (g: Graph, root: Option<nat>)
    requires NonRecursive(p, rank)
    ensures fresh(g) && g.Valid()
    ensures root.Some? <==> AllTranslated(p.rules, Derived(p)) && ans in Derived(p)
    ensures root.Some? ==>
      TreesRanked(PredTrees(p), rank) && Spells(g.labels, g.inputs, root.value, Expanded(PredTrees(p), rank, ans))
  {
    hide Built, Collected, Derived, Bound, AllRanked, PredTrees, AllTranslated, Layered, Spells, Expanded, NonRecursive,
         ParentsKnown, RootsOk, AccessesOk, TreesRanked, InRange;
    var trans; ghost var spelled;
    g, trans, spelled := TranslateFactsAndRules(p, rank);
    if trans == None {
      return g, None;
    }
    var roots;
    roots, spelled := UnionPredicates(g, trans.value, p, spelled, rank);
    ghost var trees, bound := PredTrees(p), Bound(rank);
    ProgramRanked(p, rank);
    RootTrees(roots, spelled, p);
    BuiltRoots(g.labels, g.inputs, g.parents, spelled, roots, trees, rank);
    BuiltAccesses(g.labels, g.inputs, g.parents, spelled, roots, rank, bound);
    BoundAll(trees, rank);
    BuiltLayered(g.labels, g.inputs, g.parents, spelled, roots, trees, rank, bound);
    forall q | q in roots ensures Spells(g.labels, g.inputs, roots[q], trees[q]) {
      BuiltSize(g, spelled);
      BuiltSpells(g.labels, g.inputs, g.parents, spelled, roots[q]);
    }
    g.Connect(roots, trees, rank, Heights(spelled, trees, rank, bound));
    root := if ans in roots then Some(roots[ans]) else None;
  }

  /** The graph returned for a program whose rules are safe and pass the check on names: the answer node stands for
      a tree that evaluates to the rows the program derives, and nothing below it accesses a derived relation. */
  lemma AnswerPreserved(p: Program, rank: map<string, nat>, arity: string -> nat, edb: Database, ans: string,
                        labels: seq<Op>, inputs: Links, root: nat, t: Op)
    requires GoodProgram(p, rank, arity) && DatabaseArities(edb, arity) && ans in Derived(p) && |labels| == |inputs|
    requires AllTranslated(p.rules, Derived(p)) && TreesRanked(PredTrees(p), rank)
    requires Spells(labels, inputs, root, Expanded(PredTrees(p), rank, ans)) && Spells(labels, inputs, root, t)
    ensures Eval(t, edb) == PredRows(p, rank, edb, ans)
    ensures forall depth :: depth > Height(t) ==> Result(labels, inputs, root, depth, edb) == PredRows(p, rank, edb, ans)
    ensures forall path :: IsPath(inputs, path) && path[0] == root ==>
      path[|path| - 1] < |labels| && !IsDerived(labels, path[|path| - 1])
  {
    hide Spells, Eval, PredRows, NoDerivedAccess, PredTrees, AllTranslated, TreesRanked, Derived, DatabaseArities,
         Expand, IsDerived;
    ProgramPreserved(p, rank, arity, edb, ans);
    SpellsUnique(labels, inputs, root, t, Expanded(PredTrees(p), rank, ans));
    hide Result, Height;
    forall depth | depth > Height(t) ensures Result(labels, inputs, root, depth, edb) == Eval(t, edb) {
      ResultIs(labels, inputs, root, t, depth, edb);
    }
    forall path | IsPath(inputs, path) && path[0] == root
      ensures path[|path| - 1] < |labels| && !IsDerived(labels, path[|path| - 1])
    {
      NoDerivedBelow(labels, inputs, path, t);
    }
  }

  lemma BoundAll(trees: map<string, Op>, rank: map<string, nat>)
    requires TreesRanked(trees, rank)
    ensures forall q :: q in trees ==> rank[q] <= Bound(rank)
  {
  }
}
