/** The graph of a program's relations, from the heads of rules to the relations of their bodies.  A program has a
    ranking without recursion iff its graph has no cycle. */
module DependencyGraph {
  import opened UniqueNames
  import opened Datalog
  import opened Program

  datatype RelGraph = RelGraph(nodes: set<string>, edges: set<(string, string)>)

  /** Every rule leads from its head to the relations of its body, and there are no other edges. */
  ghost predicate IsRelGraph(g: RelGraph, rules: seq<Rule>) {
    && (forall q, s :: (q, s) in g.edges <==> exists r, a :: r in rules && Goal(a) in r.body && r.head == q && a.rel == s)
    && (forall q :: q in g.nodes <==>
          exists r :: r in rules && (r.head == q || exists a :: Goal(a) in r.body && a.rel == q))
  }

  method CreateRelToRelGraph(p: Program) returns (g: RelGraph)
    ensures IsRelGraph(g, p.rules)
  {
    g := RelGraph({}, {});
    for i := 0 to |p.rules|
      invariant IsRelGraph(g, p.rules[..i])
    {
      var r := p.rules[i];
      ghost var before := g;
      g := RelGraph(g.nodes + {r.head}, g.edges);
      for j := 0 to |r.body|
        invariant forall e :: e in g.edges <==>
          e in before.edges || exists a :: Goal(a) in r.body[..j] && e == (r.head, a.rel)
        invariant forall q :: q in g.nodes <==>
          q in before.nodes || q == r.head || exists a :: Goal(a) in r.body[..j] && a.rel == q
      {
        LiteralsPush(r.body, j);
        if r.body[j].Goal? {
          var a := r.body[j].atom;
          g := RelGraph(g.nodes + {a.rel}, g.edges + {(r.head, a.rel)});
        }
      }
      assert r.body[..|r.body|] == r.body;
      RulesPush(p.rules, i, before, g);
    }
    assert p.rules[..|p.rules|] == p.rules;
  }

  lemma LiteralsPush(body: seq<Literal>, j: nat)
    requires j < |body|
    ensures forall t :: t in body[..j + 1] <==> t in body[..j] || t == body[j]
  {
    assert body[..j + 1] == body[..j] + [body[j]];
  }

  lemma RulesPush(rules: seq<Rule>, i: nat, before: RelGraph, after: RelGraph)
    requires i < |rules| && IsRelGraph(before, rules[..i])
    requires forall e :: e in after.edges <==>
      e in before.edges || exists a :: Goal(a) in rules[i].body && e == (rules[i].head, a.rel)
    requires forall q :: q in after.nodes <==>
      q in before.nodes || q == rules[i].head || exists a :: Goal(a) in rules[i].body && a.rel == q
    ensures IsRelGraph(after, rules[..i + 1])
  {
    assert rules[..i + 1] == rules[..i] + [rules[i]];
    forall r ensures r in rules[..i + 1] <==> r in rules[..i] || r == rules[i] {}
  }

  // ----- Cycles -----

  ghost predicate IsPath(g: RelGraph, path: seq<string>) {
    path != [] && forall k :: 0 <= k < |path| - 1 ==> (path[k], path[k + 1]) in g.edges
  }

  ghost predicate Acyclic(g: RelGraph) {
    forall path :: IsPath(g, path) && |path| > 1 ==> path[0] != path[|path| - 1]
  }

  /** Edges between nodes of `nodes` lead to lower ranks. */
  ghost predicate Ranks(g: RelGraph, nodes: set<string>, rank: map<string, nat>) {
    && rank.Keys == nodes
    && forall q, s :: (q, s) in g.edges && q in nodes && s in nodes ==> rank[s] < rank[q]
  }

  ghost predicate Within(path: seq<string>, nodes: set<string>) {
    forall k :: 0 <= k < |path| ==> path[k] in nodes
  }

  ghost predicate HasNext(g: RelGraph, nodes: set<string>, q: string) {
    exists s :: s in nodes && (q, s) in g.edges
  }

  /** If every node has a successor among the nodes, there are paths of any length. */
  lemma {:induction false} LongPath(g: RelGraph, nodes: set<string>, start: string, n: nat) returns (path: seq<string>)
    requires start in nodes && forall q :: q in nodes ==> HasNext(g, nodes, q)
    ensures |path| == n + 1 && IsPath(g, path) && Within(path, nodes)
  {
    hide HasNext, IsPath, Within;
    if n == 0 {
      path := [start];
      OneNode(g, nodes, start);
    } else {
      var front := LongPath(g, nodes, start, n - 1);
      path := NextNode(g, nodes, front);
    }
  }

  lemma OneNode(g: RelGraph, nodes: set<string>, q: string)
    requires q in nodes
    ensures IsPath(g, [q]) && Within([q], nodes)
  {
  }

  lemma NextNode(g: RelGraph, nodes: set<string>, front: seq<string>) returns (path: seq<string>)
    requires IsPath(g, front) && Within(front, nodes) && forall q :: q in nodes ==> HasNext(g, nodes, q)
    ensures |path| == |front| + 1 && IsPath(g, path) && Within(path, nodes)
  {
    var n := |front|;
    assert HasNext(g, nodes, front[n - 1]);
    hide HasNext;
    var s :| s in nodes && (front[n - 1], s) in g.edges;
    path := front + [s];
    forall k | 0 <= k < n ensures (path[k], path[k + 1]) in g.edges {
      assert k < n - 1 ==> (front[k], front[k + 1]) in g.edges;
    }
  }

  lemma {:induction false} DistinctBound(path: seq<string>, nodes: set<string>)
    requires NoDup(path) && Within(path, nodes)
    ensures |path| <= |nodes|
  {
    if path != [] {
      var front, last := path[..|path| - 1], path[|path| - 1];
      assert forall k :: 0 <= k < |front| ==> front[k] == path[k] && path[k] != last;
      DistinctBound(front, nodes - {last});
    }
  }

  /** In an acyclic graph every nonempty set of nodes has one without successor in the set. */
  lemma HasSink(g: RelGraph, nodes: set<string>) returns (sink: string)
    requires Acyclic(g) && nodes != {}
    ensures sink in nodes && forall s :: s in nodes ==> (sink, s) !in g.edges
  {
    hide IsPath, Within;
    if q :| q in nodes && !HasNext(g, nodes, q) {
      sink := q;
    } else {
      sink :| sink in nodes;
      hide HasNext;
      var path := LongPath(g, nodes, sink, |nodes|);
      if NoDup(path) {
        DistinctBound(path, nodes);
      } else {
        CycleIn(g, path);
      }
    }
  }

  lemma CycleIn(g: RelGraph, path: seq<string>)
    requires IsPath(g, path) && !NoDup(path)
    ensures !Acyclic(g)
  {
    var i, j :| 0 <= i < j < |path| && path[i] == path[j];
    var cycle := path[i..j + 1];
    forall k | 0 <= k < |cycle| - 1 ensures (cycle[k], cycle[k + 1]) in g.edges {
      assert (path[i + k], path[(i + k) + 1]) in g.edges;
    }
    assert IsPath(g, cycle) && cycle[0] == cycle[|cycle| - 1];
  }

  lemma {:induction false} AcyclicRanks(g: RelGraph, nodes: set<string>) returns (rank: map<string, nat>)
    requires Acyclic(g)
    ensures Ranks(g, nodes, rank)
    decreases |nodes|
  {
    if nodes == {} {
      rank := map[];
    } else {
      var sink := HasSink(g, nodes);
      var rest := AcyclicRanks(g, nodes - {sink});
      rank := map q | q in nodes :: if q == sink then 0 else rest[q] + 1;
    }
  }

  lemma {:induction false} RankFalls(g: RelGraph, nodes: set<string>, rank: map<string, nat>, path: seq<string>)
    requires Ranks(g, nodes, rank) && IsPath(g, path) && Within(path, nodes)
    ensures |path| > 1 ==> rank[path[|path| - 1]] < rank[path[0]]
  {
    if |path| > 1 {
      var front := path[..|path| - 1];
      assert IsPath(g, front) && Within(front, nodes);
      RankFalls(g, nodes, rank, front);
      assert (path[|path| - 2], path[(|path| - 2) + 1]) in g.edges;
    }
  }

  /** The ranks of a non-recursive program are ranks of its graph, and the other way round. */
  lemma RanksOfProgram(p: Program, g: RelGraph, rank: map<string, nat>)
    requires IsRelGraph(g, p.rules) && rank.Keys == Derived(p)
    ensures Ranks(g, Derived(p), rank) <==> NonRecursive(p, rank)
  {
    hide Atoms;
    if Ranks(g, Derived(p), rank) {
      forall r, a | r in p.rules && Goal(a) in r.body && a.rel in Derived(p) ensures rank[a.rel] < rank[r.head] {
        assert (r.head, a.rel) in g.edges && r.head in Derived(p);
      }
    }
  }

  /** A program is without recursion iff its graph has no cycle. */
  lemma AcyclicIff(p: Program, g: RelGraph)
    requires IsRelGraph(g, p.rules)
    ensures Acyclic(g) <==> exists rank :: NonRecursive(p, rank)
  {
    if Acyclic(g) {
      var rank := AcyclicRanks(g, Derived(p));
      RanksOfProgram(p, g, rank);
    } else if rank :| NonRecursive(p, rank) {
      var path :| IsPath(g, path) && |path| > 1 && path[0] == path[|path| - 1];
      var own := map q | q in Derived(p) :: rank[q];
      RanksOfProgram(p, g, own);
      HeadsOnCycle(p, g, path);
      RankFalls(g, Derived(p), own, path);
    }
  }

  lemma HeadsOnCycle(p: Program, g: RelGraph, path: seq<string>)
    requires IsRelGraph(g, p.rules) && IsPath(g, path) && |path| > 1 && path[0] == path[|path| - 1]
    ensures Within(path, Derived(p))
  {
    hide Atoms;
    forall k | 0 <= k < |path| ensures path[k] in Derived(p) {
      var i := if k < |path| - 1 then k else 0;
      assert (path[i], path[i + 1]) in g.edges;
      var r, a :| r in p.rules && Goal(a) in r.body && r.head == path[i] && a.rel == path[i + 1];
    }
  }
}
