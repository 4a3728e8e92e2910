/** The operator graph of a program and the splicing of predicate trees into each other.  Operators are
    nodes with input and parent links; a node may be the input of several others. */
module PlanGraph {
  import opened Algebra
  import opened Datalog
  import opened Program

  const hole := TableAccess("", 0, false)

  /** An operator without its inputs. */
  function Shell(t: Op): Op {
    match t
    case TableAccess(_, _, _) => t
    case ConstRel(_, _) => t
    case Projection(e, _, names) => Projection(e, hole, names)
    case Selection(c, _) => Selection(c, hole)
    case Join(c, _, _, names) => Join(c, hole, hole, names)
    case Union(_, _, names) => Union(hole, hole, names)
    case Difference(_, _, names) => Difference(hole, hole, names)
    case DupRemoval(_) => DupRemoval(hole)
    case Aggregation(a, g, _, names) => Aggregation(a, g, hole, names)
  }

  function Kids(t: Op): seq<Op> {
    match t
    case TableAccess(_, _, _) => []
    case ConstRel(_, _) => []
    case Projection(_, input, _) => [input]
    case Selection(_, input) => [input]
    case Join(_, l, r, _) => [l, r]
    case Union(l, r, _) => [l, r]
    case Difference(l, r, _) => [l, r]
    case DupRemoval(input) => [input]
    case Aggregation(_, _, input, _) => [input]
  }

  lemma KidsSmaller(t: Op, i: nat)
    requires i < |Kids(t)|
    ensures Kids(t)[i] < t
  {
  }

  type Links = seq<seq<nat>>

  ghost predicate InRange(inputs: Links) {
    forall n, i :: 0 <= n < |inputs| && 0 <= i < |inputs[n]| ==> inputs[n][i] < |inputs|
  }

  /** Following the inputs of node `n` spells out the tree `t`. */
  ghost predicate Spells(labels: seq<Op>, inputs: Links, n: nat, t: Op)
    requires |labels| == |inputs|
    decreases t
  {
    && n < |labels| && labels[n] == Shell(t) && |inputs[n]| == |Kids(t)|
    && forall i :: 0 <= i < |Kids(t)| ==> (KidsSmaller(t, i); Spells(labels, inputs, inputs[n][i], Kids(t)[i]))
  }

  /** Heights witness that the graph, with every access to a derived relation standing for the root
      of that relation, has no cycle. */
  ghost predicate Layered(labels: seq<Op>, inputs: Links, roots: map<string, nat>, height: seq<nat>) {
    && |labels| == |inputs| == |height|
    && InRange(inputs)
    && (forall q :: q in roots ==> roots[q] < |labels|)
    && (forall n, i :: 0 <= n < |inputs| && 0 <= i < |inputs[n]| ==> height[inputs[n][i]] < height[n])
    && (forall n :: 0 <= n < |labels| && IsDerived(labels, n) && labels[n].rel in roots
          ==> height[roots[labels[n].rel]] <= height[n])
  }

  predicate IsDerived(labels: seq<Op>, n: nat)
    requires n < |labels|
  {
    labels[n].TableAccess? && labels[n].idb
  }

  /** Node `m` is `n` or lies below it. */
  ghost predicate Reaches(labels: seq<Op>, inputs: Links, roots: map<string, nat>, height: seq<nat>, n: nat, m: nat)
    requires Layered(labels, inputs, roots, height) && n < |labels|
    decreases height[n]
  {
    m == n || exists i :: 0 <= i < |inputs[n]| && Reaches(labels, inputs, roots, height, inputs[n][i], m)
  }

  /** Every parent link that is needed to find the users of a table access. */
  ghost predicate ParentsKnown(labels: seq<Op>, inputs: Links, parents: Links) {
    && |parents| == |inputs| == |labels|
    && InRange(parents)
    && forall n, i :: 0 <= n < |inputs| && 0 <= i < |inputs[n]| && inputs[n][i] < |labels| && IsDerived(labels, inputs[n][i])
         ==> n in parents[inputs[n][i]]
  }

  function ReplaceIn(links: seq<nat>, orig: nat, new_: nat): (r: seq<nat>)
    ensures |r| == |links|
  {
    seq(|links|, i requires 0 <= i < |links| => if links[i] == orig then new_ else links[i])
  }

  function Without(links: seq<nat>, n: nat): (r: seq<nat>)
    ensures forall m :: m in r <==> m in links && m != n
  {
    if links == [] then []
    else
      assert links == [links[0]] + links[1..];
      (if links[0] == n then [] else [links[0]]) + Without(links[1..], n)
  }

  lemma {:induction false} WithoutAbsent(links: seq<nat>, n: nat)
    ensures n !in links ==> Without(links, n) == links
  {
    if links != [] {
      WithoutAbsent(links[1..], n);
      assert links == [links[0]] + links[1..];
    }
  }

  /** In the inputs of `users`, other than those two nodes themselves, `new_` takes the place of `orig`. */
  function Redirected(inputs: Links, users: seq<nat>, orig: nat, new_: nat): (r: Links)
    ensures |r| == |inputs|
  {
    seq(|inputs|, n requires 0 <= n < |inputs| =>
      if n in users && n != new_ && n != orig then ReplaceIn(inputs[n], orig, new_) else inputs[n])
  }

  lemma RedirectedStep(inputs: Links, users: seq<nat>, orig: nat, new_: nat, p: nat)
    requires p < |inputs| && orig != new_
    ensures var r := Redirected(inputs, users, orig, new_);
      Redirected(inputs, users + [p], orig, new_)
        == if p == new_ || p == orig then r else r[p := ReplaceIn(r[p], orig, new_)]
  {
    var r := Redirected(inputs, users, orig, new_);
    assert ReplaceIn(ReplaceIn(inputs[p], orig, new_), orig, new_) == ReplaceIn(inputs[p], orig, new_);
  }

  lemma NothingRedirected(inputs: Links, orig: nat, new_: nat)
    ensures Redirected(inputs, [], orig, new_) == inputs
  {
  }

  lemma UsersInRange(parents: Links, orig: nat, new_: nat)
    requires InRange(parents) && orig < |parents| && new_ < |parents|
    ensures forall u :: u in parents[new_] + parents[orig] ==> u < |parents|
    ensures forall p :: p in parents[new_] ==> p < |parents|
  {
    EntryInRange(parents, new_);
    EntryInRange(parents, orig);
  }

  lemma UpdateInRange(links: Links, n: nat, entry: seq<nat>)
    requires InRange(links) && n < |links| && forall m :: m in entry ==> m < |links|
    ensures InRange(links[n := entry])
  {
    forall i | 0 <= i < |entry| ensures entry[i] < |links| { assert entry[i] in entry; }
  }

  lemma RedirectedInRange(inputs: Links, users: seq<nat>, orig: nat, new_: nat)
    requires InRange(inputs) && new_ < |inputs|
    ensures InRange(Redirected(inputs, users, orig, new_))
  {
  }

  // ----- What splicing does to the links -----

  /** Where a link to `m` leads once the accesses in `done` have been replaced. */
  ghost function Target(labels: seq<Op>, roots: map<string, nat>, done: set<nat>, m: nat): nat {
    if m in done && m < |labels| && labels[m].TableAccess? && labels[m].rel in roots then roots[labels[m].rel] else m
  }

  ghost predicate SplicedBy(labels: seq<Op>, before: Links, after: Links, roots: map<string, nat>, done: set<nat>) {
    && |before| == |after|
    && (forall n :: 0 <= n < |before| ==> |after[n]| == |before[n]|)
    && (forall n, i :: 0 <= n < |before| && 0 <= i < |before[n]| ==> after[n][i] == Target(labels, roots, done, before[n][i]))
  }

  ghost predicate OnlyDerived(labels: seq<Op>, roots: map<string, nat>, done: set<nat>) {
    forall m :: m in done ==> m < |labels| && IsDerived(labels, m) && labels[m].rel in roots
  }

  /** Roots are never table accesses themselves. */
  ghost predicate RootsOk(labels: seq<Op>, roots: map<string, nat>) {
    forall q :: q in roots ==> roots[q] < |labels| && !IsDerived(labels, roots[q])
  }

  /** What holds of the graph while predicate trees are spliced into each other. */
  ghost predicate Splicing(labels: seq<Op>, before: Links, inputs: Links, parents: Links, roots: map<string, nat>,
                           height: seq<nat>, done: set<nat>) {
    && Layered(labels, inputs, roots, height) && ParentsKnown(labels, inputs, parents)
    && RootsOk(labels, roots) && OnlyDerived(labels, roots, done)
    && SplicedBy(labels, before, inputs, roots, done)
  }

  /** One replacement: afterwards no link leads to the access any more. */
  lemma SpliceStep(labels: seq<Op>, before: Links, inputs: Links, parents: Links, after: Links, newParents: Links,
                   roots: map<string, nat>, height: seq<nat>, done: set<nat>, m: nat)
    requires Splicing(labels, before, inputs, parents, roots, height, done)
    requires m < |labels| && IsDerived(labels, m) && labels[m].rel in roots
    requires var root := roots[labels[m].rel];
      && after == Redirected(inputs, parents[root] + parents[m], m, root)
      && |newParents| == |parents| && InRange(newParents)
      && forall n :: 0 <= n < |labels| && n != m && n != root ==> newParents[n] == parents[n]
    ensures Splicing(labels, before, after, newParents, roots, height, done + {m})
  {
    hide Redirected, SplicedBy, Layered, ParentsKnown, Replaced, RootsOk, InRange;
    RedirectReplaces(labels, inputs, parents, after, roots, height, m);
    StepSpliced(labels, before, inputs, after, roots, done, m);
    StepLayered(labels, inputs, after, roots, height, m);
    StepParents(labels, inputs, parents, after, newParents, roots, m);
  }

  /** The links after one replacement. */
  ghost predicate Replaced(inputs: Links, after: Links, m: nat, root: nat) {
    && |after| == |inputs|
    && (forall n :: 0 <= n < |inputs| ==> |after[n]| == |inputs[n]|)
    && (forall n, i :: 0 <= n < |inputs| && 0 <= i < |inputs[n]| ==>
          after[n][i] == if inputs[n][i] == m then root else inputs[n][i])
  }

  /** Redirecting the known users of an access replaces every link to it. */
  lemma RedirectReplaces(labels: seq<Op>, inputs: Links, parents: Links, after: Links, roots: map<string, nat>,
                         height: seq<nat>, m: nat)
    requires m < |labels| && IsDerived(labels, m) && labels[m].rel in roots && RootsOk(labels, roots)
    requires Layered(labels, inputs, roots, height) && ParentsKnown(labels, inputs, parents)
    requires var root := roots[labels[m].rel]; after == Redirected(inputs, parents[root] + parents[m], m, root)
    ensures Replaced(inputs, after, m, roots[labels[m].rel])
  {
    var root := roots[labels[m].rel];
    var users := parents[root] + parents[m];
    assert root != m && height[root] <= height[m];
    forall n, i | 0 <= n < |inputs| && 0 <= i < |inputs[n]|
      ensures after[n][i] == if inputs[n][i] == m then root else inputs[n][i]
    {
      if inputs[n][i] == m {
        assert n in parents[m] && n in users;
        assert height[m] < height[n];
      }
    }
  }

  lemma StepSpliced(labels: seq<Op>, before: Links, inputs: Links, after: Links, roots: map<string, nat>, done: set<nat>,
                    m: nat)
    requires m < |labels| && IsDerived(labels, m) && labels[m].rel in roots && RootsOk(labels, roots)
    requires SplicedBy(labels, before, inputs, roots, done) && Replaced(inputs, after, m, roots[labels[m].rel])
    ensures SplicedBy(labels, before, after, roots, done + {m})
  {
    forall n, i | 0 <= n < |before| && 0 <= i < |before[n]|
      ensures after[n][i] == Target(labels, roots, done + {m}, before[n][i])
    {
      assert inputs[n][i] == Target(labels, roots, done, before[n][i]);
    }
  }

  lemma StepLayered(labels: seq<Op>, inputs: Links, after: Links, roots: map<string, nat>, height: seq<nat>, m: nat)
    requires m < |labels| && IsDerived(labels, m) && labels[m].rel in roots
    requires Layered(labels, inputs, roots, height) && Replaced(inputs, after, m, roots[labels[m].rel])
    ensures Layered(labels, after, roots, height)
  {
    forall n, i | 0 <= n < |after| && 0 <= i < |after[n]|
      ensures after[n][i] < |after| && height[after[n][i]] < height[n]
    {
      assert height[inputs[n][i]] < height[n];
    }
  }

  lemma StepParents(labels: seq<Op>, inputs: Links, parents: Links, after: Links, newParents: Links,
                    roots: map<string, nat>, m: nat)
    requires m < |labels| && IsDerived(labels, m) && labels[m].rel in roots && RootsOk(labels, roots)
    requires ParentsKnown(labels, inputs, parents) && Replaced(inputs, after, m, roots[labels[m].rel])
    requires |newParents| == |parents| && InRange(newParents)
    requires forall n :: 0 <= n < |labels| && n != m && n != roots[labels[m].rel] ==> newParents[n] == parents[n]
    ensures ParentsKnown(labels, after, newParents)
  {
    forall n, i | 0 <= n < |after| && 0 <= i < |after[n]| && after[n][i] < |labels| && IsDerived(labels, after[n][i])
      ensures n in newParents[after[n][i]]
    {
      assert after[n][i] == inputs[n][i];
    }
  }

  /** An access that was reachable before is replaced or still reachable. */
  lemma StillReaches(labels: seq<Op>, before: Links, inputs: Links, roots: map<string, nat>, height: seq<nat>,
                     done: set<nat>, n: nat, m: nat)
    requires Layered(labels, before, roots, height) && Layered(labels, inputs, roots, height)
    requires SplicedBy(labels, before, inputs, roots, done) && OnlyDerived(labels, roots, done)
    requires forall k :: k in done ==> before[k] == []
    requires n < |labels| && Reaches(labels, before, roots, height, n, m)
    ensures m in done || Reaches(labels, inputs, roots, height, n, m)
    decreases height[n]
  {
    if m != n {
      var i :| 0 <= i < |before[n]| && Reaches(labels, before, roots, height, before[n][i], m);
      var kid := before[n][i];
      StillReaches(labels, before, inputs, roots, height, done, kid, m);
      if kid !in done {
        assert inputs[n][i] == kid;
      }
    }
  }

  // ----- Trees spelled by the graph -----

  /** Table accesses have no inputs, and every access to a derived relation has a root to stand for it. */
  ghost predicate AccessesOk(labels: seq<Op>, inputs: Links, roots: map<string, nat>) {
    && |labels| == |inputs|
    && forall n :: 0 <= n < |labels| && labels[n].TableAccess? ==>
         inputs[n] == [] && (labels[n].idb ==> labels[n].rel in roots)
  }

  lemma KidsRanked(t: Op, i: nat, derived: set<string>, rank: map<string, nat>, bound: nat)
    requires i < |Kids(t)| && TablesRanked(t, derived, rank, bound)
    ensures TablesRanked(Kids(t)[i], derived, rank, bound)
  {
  }

  lemma ExpandKids(t: Op, trees: map<string, Op>, rank: map<string, nat>, bound: nat)
    requires TreesRanked(trees, rank) && TablesRanked(t, trees.Keys, rank, bound) && !(t.TableAccess? && t.idb)
    ensures var e := Expand(t, trees, rank, bound);
      && Shell(e) == Shell(t) && |Kids(e)| == |Kids(t)|
      && forall i :: 0 <= i < |Kids(t)| ==>
           TablesRanked(Kids(t)[i], trees.Keys, rank, bound) && Kids(e)[i] == Expand(Kids(t)[i], trees, rank, bound)
  {
  }

  /** All accesses to derived relations below `n` have been replaced. */
  ghost predicate Covered(labels: seq<Op>, before: Links, roots: map<string, nat>, height: seq<nat>, done: set<nat>, n: nat)
    requires Layered(labels, before, roots, height) && n < |labels|
  {
    forall m: nat :: m < |labels| && IsDerived(labels, m) && Reaches(labels, before, roots, height, n, m) ==> m in done
  }

  /** Once everything below all roots is replaced, the graph spells the expanded trees. */
  lemma {:induction false} SpellsExpanded(labels: seq<Op>, before: Links, after: Links, roots: map<string, nat>,
      height: seq<nat>, done: set<nat>, trees: map<string, Op>, rank: map<string, nat>, n: nat, t: Op, bound: nat)
    requires Layered(labels, before, roots, height) && SplicedBy(labels, before, after, roots, done)
    requires OnlyDerived(labels, roots, done) && RootsOk(labels, roots) && roots.Keys == trees.Keys
    requires TreesRanked(trees, rank) && TablesRanked(t, trees.Keys, rank, bound)
    requires forall q :: q in roots ==> Spells(labels, before, roots[q], trees[q])
                                        && Covered(labels, before, roots, height, done, roots[q])
    requires Spells(labels, before, n, t) && Covered(labels, before, roots, height, done, n)
    ensures Spells(labels, after, Target(labels, roots, done, n), Expand(t, trees, rank, bound))
    decreases bound, t
  {
    if t.TableAccess? && t.idb {
      assert n in done by { assert Reaches(labels, before, roots, height, n, n); }
      var q := t.rel;
      SpellsExpanded(labels, before, after, roots, height, done, trees, rank, roots[q], trees[q], rank[q]);
    } else {
      assert n !in done;
      ExpandKids(t, trees, rank, bound);
      var e := Expand(t, trees, rank, bound);
      forall i | 0 <= i < |Kids(t)| ensures Spells(labels, after, after[n][i], Kids(e)[i]) {
        KidsSmaller(t, i);
        forall m: nat | m < |labels| && IsDerived(labels, m) && Reaches(labels, before, roots, height, before[n][i], m)
          ensures m in done {
          assert Reaches(labels, before, roots, height, n, m);
        }
        SpellsExpanded(labels, before, after, roots, height, done, trees, rank, before[n][i], Kids(t)[i], bound);
      }
    }
  }

  lemma NowCovered(labels: seq<Op>, before: Links, start: Links, roots: map<string, nat>, height: seq<nat>,
                   done: set<nat>, all: set<nat>, root: nat, tables: seq<nat>)
    requires Layered(labels, before, roots, height) && Layered(labels, start, roots, height) && root < |labels|
    requires SplicedBy(labels, before, start, roots, done) && OnlyDerived(labels, roots, done) && done <= all
    requires AccessesOk(labels, before, roots)
    requires forall m: nat :: m < |labels| && labels[m].TableAccess? ==>
      (m in tables <==> Reaches(labels, start, roots, height, root, m))
    requires forall j :: 0 <= j < |tables| ==> tables[j] < |labels|
    requires forall j :: 0 <= j < |tables| && IsDerived(labels, tables[j]) && labels[tables[j]].rel in roots ==> tables[j] in all
    ensures Covered(labels, before, roots, height, all, root)
  {
    hide Layered, SplicedBy, Reaches;
    forall m: nat | m < |labels| && IsDerived(labels, m) && Reaches(labels, before, roots, height, root, m)
      ensures m in all
    {
      StillReaches(labels, before, start, roots, height, done, root, m);
    }
  }

  lemma CoveredMore(labels: seq<Op>, before: Links, roots: map<string, nat>, height: seq<nat>, done: set<nat>, all: set<nat>,
                    n: nat)
    requires Layered(labels, before, roots, height) && n < |labels| && done <= all
    requires Covered(labels, before, roots, height, done, n)
    ensures Covered(labels, before, roots, height, all, n)
  {
  }

  lemma SplicedStart(labels: seq<Op>, inputs: Links, parents: Links, roots: map<string, nat>, height: seq<nat>)
    requires Layered(labels, inputs, roots, height) && ParentsKnown(labels, inputs, parents) && RootsOk(labels, roots)
    ensures Splicing(labels, inputs, inputs, parents, roots, height, {})
  {
  }

  lemma RootBounds(labels: seq<Op>, roots: map<string, nat>, q: string)
    requires RootsOk(labels, roots) && q in roots
    ensures roots[q] < |labels| && !IsDerived(labels, roots[q])
  {
  }

  ghost function Expanded(trees: map<string, Op>, rank: map<string, nat>, q: string): Op
    requires TreesRanked(trees, rank) && q in trees
  {
    Expand(trees[q], trees, rank, rank[q])
  }

  lemma AllExpanded(labels: seq<Op>, before: Links, after: Links, roots: map<string, nat>, height: seq<nat>, done: set<nat>,
                    trees: map<string, Op>, rank: map<string, nat>)
    requires Layered(labels, before, roots, height) && SplicedBy(labels, before, after, roots, done)
    requires OnlyDerived(labels, roots, done) && RootsOk(labels, roots) && roots.Keys == trees.Keys
    requires TreesRanked(trees, rank)
    requires forall q :: q in roots ==> Spells(labels, before, roots[q], trees[q])
                                        && Covered(labels, before, roots, height, done, roots[q])
    ensures forall q :: q in roots ==> Spells(labels, after, roots[q], Expanded(trees, rank, q))
  {
    assert |labels| == |after|;
    hide Layered, SplicedBy, Spells, Covered, Expand, TablesRanked;
    forall q | q in roots ensures Spells(labels, after, roots[q], Expanded(trees, rank, q)) {
      assert q in trees.Keys;
      SpellsExpanded(labels, before, after, roots, height, done, trees, rank, roots[q], trees[q], rank[q]);
    }
  }

  // ----- Running the graph -----

  /** An operator applied to the results of its inputs, the left one first. */
  function Apply(op: Op, ins: seq<seq<Row>>, db: Database): seq<Row> {
    if op.TableAccess? then Rows(db, op.rel)
    else if op.ConstRel? then [op.values]
    else if |ins| == 2 then
      match op
      case Join(cond, _, _, _) => JoinRows(cond, ins[0], ins[1])
      case Union(_, _, _) => ins[0] + ins[1]
      case Difference(_, _, _) => Minus(ins[0], ins[1])
      case _ => []
    else if |ins| == 1 then
      match op
      case Projection(exprs, _, _) => ProjectRows(exprs, ins[0])
      case Selection(cond, _) => SelectRows(cond, ins[0])
      case DupRemoval(_) => Distinct(ins[0])
      case Aggregation(aggs, groupBy, _, _) => AggregateRows(aggs, groupBy, ins[0])
      case _ => []
    else []
  }

  /** What a node returns when inputs are followed for `depth` steps. */
  ghost function Result(labels: seq<Op>, inputs: Links, n: nat, depth: nat, db: Database): seq<Row>
    requires |labels| == |inputs|
    decreases depth
  {
    if depth == 0 || n >= |labels| then []
    else
      var ins := seq(|inputs[n]|, i requires 0 <= i < |inputs[n]| => Result(labels, inputs, inputs[n][i], depth - 1, db));
      Apply(labels[n], ins, db)
  }

  /** Running a graph from a node evaluates the tree the node stands for. */
  lemma {:induction false} ResultIs(labels: seq<Op>, inputs: Links, n: nat, t: Op, depth: nat, db: Database)
    requires |labels| == |inputs| && Spells(labels, inputs, n, t) && depth > Height(t)
    ensures Result(labels, inputs, n, depth, db) == Eval(t, db)
    decreases t
  {
    var ins := seq(|inputs[n]|, i requires 0 <= i < |inputs[n]| => Result(labels, inputs, inputs[n][i], depth - 1, db));
    forall i | 0 <= i < |Kids(t)| ensures ins[i] == Eval(Kids(t)[i], db) {
      KidsSmaller(t, i);
      KidHeight(t, i);
      ResultIs(labels, inputs, inputs[n][i], Kids(t)[i], depth - 1, db);
    }
    ApplyEval(t, ins, db);
  }

  lemma ApplyEval(t: Op, ins: seq<seq<Row>>, db: Database)
    requires |ins| == |Kids(t)| && forall i :: 0 <= i < |Kids(t)| ==> ins[i] == Eval(Kids(t)[i], db)
    ensures Apply(Shell(t), ins, db) == Eval(t, db)
  {
    hide JoinRows, Minus, ProjectRows, SelectRows, Distinct, AggregateRows, Rows;
    if |ins| == 2 { assert ins[0] == Eval(Kids(t)[0], db) && ins[1] == Eval(Kids(t)[1], db); }
  }

  /** A node has one meaning. */
  lemma {:induction false} SpellsUnique(labels: seq<Op>, inputs: Links, n: nat, s: Op, t: Op)
    requires |labels| == |inputs| && Spells(labels, inputs, n, s) && Spells(labels, inputs, n, t)
    ensures s == t
    decreases s
  {
    forall i | 0 <= i < |Kids(s)| ensures Kids(s)[i] == Kids(t)[i] {
      KidsSmaller(s, i);
      SpellsUnique(labels, inputs, inputs[n][i], Kids(s)[i], Kids(t)[i]);
    }
    SameParts(s, t);
  }

  lemma SameParts(s: Op, t: Op)
    requires Shell(s) == Shell(t) && |Kids(s)| == |Kids(t)| && forall i :: 0 <= i < |Kids(s)| ==> Kids(s)[i] == Kids(t)[i]
    ensures s == t
  {
    assert Kids(s) == Kids(t);
  }

  /** Each node of the path is an input of the node before it. */
  ghost predicate IsPath(inputs: Links, path: seq<nat>) {
    && path != [] && (forall k :: 0 <= k < |path| ==> path[k] < |inputs|)
    && forall k :: 0 <= k < |path| - 1 ==> path[k + 1] in inputs[path[k]]
  }

  /** Whatever is below a node that spells a tree without derived accesses is no derived access. */
  lemma {:induction false} NoDerivedBelow(labels: seq<Op>, inputs: Links, path: seq<nat>, t: Op)
    requires |labels| == |inputs| && IsPath(inputs, path)
    requires Spells(labels, inputs, path[0], t) && NoDerivedAccess(t)
    ensures !IsDerived(labels, path[|path| - 1])
    decreases t
  {
    if |path| > 1 {
      assert path[0 + 1] in inputs[path[0]];
      var i :| 0 <= i < |inputs[path[0]]| && inputs[path[0]][i] == path[1];
      KidsSmaller(t, i);
      assert IsPath(inputs, path[1..]) by {
        forall k | 0 <= k < |path[1..]| - 1 ensures path[1..][k + 1] in inputs[path[1..][k]] {
          assert path[k + 2] == path[(k + 1) + 1];
        }
      }
      NoDerivedBelow(labels, inputs, path[1..], Kids(t)[i]);
    }
  }

  // ----- Building the graph -----

  ghost predicate KidsSpelled(kids: seq<nat>, spelled: seq<Op>, t: Op) {
    |kids| == |Kids(t)| && forall i :: 0 <= i < |kids| ==> kids[i] < |spelled| && spelled[kids[i]] == Kids(t)[i]
  }

  /** A graph built bottom up, in which node `n` stands for the tree `spelled[n]`. */
  ghost predicate Built(labels: seq<Op>, inputs: Links, parents: Links, spelled: seq<Op>) {
    && |labels| == |inputs| == |parents| == |spelled|
    && (forall n :: 0 <= n < |labels| ==> labels[n] == Shell(spelled[n]) && KidsSpelled(inputs[n], spelled, spelled[n]))
    && ParentsRecorded(inputs, parents)
  }

  ghost predicate ParentsRecorded(inputs: Links, parents: Links) {
    && |inputs| == |parents| && InRange(inputs) && InRange(parents)
    && forall n, i :: 0 <= n < |inputs| && 0 <= i < |inputs[n]| ==> n in parents[inputs[n][i]]
  }

  ghost predicate AllRanked(ts: seq<Op>, derived: set<string>, rank: map<string, nat>, bound: nat) {
    forall t :: t in ts ==> TablesRanked(t, derived, rank, bound)
  }

  ghost function Height(t: Op): nat {
    match t
    case TableAccess(_, _, _) => 0
    case ConstRel(_, _) => 0
    case Projection(_, input, _) => Height(input) + 1
    case Selection(_, input) => Height(input) + 1
    case Join(_, l, r, _) => Height(l) + Height(r) + 1
    case Union(l, r, _) => Height(l) + Height(r) + 1
    case Difference(l, r, _) => Height(l) + Height(r) + 1
    case DupRemoval(input) => Height(input) + 1
    case Aggregation(_, _, input, _) => Height(input) + 1
  }

  lemma KidHeight(t: Op, i: nat)
    requires i < |Kids(t)|
    ensures Height(Kids(t)[i]) < Height(t)
  {
  }

  /** A larger bound on the ranks changes nothing. */
  lemma {:induction false} BoundIrrelevant(t: Op, trees: map<string, Op>, rank: map<string, nat>, n: nat, bound: nat)
    requires TreesRanked(trees, rank) && TablesRanked(t, trees.Keys, rank, n) && n <= bound
    ensures TablesRanked(t, trees.Keys, rank, bound) && Expand(t, trees, rank, bound) == Expand(t, trees, rank, n)
    decreases t
  {
    match t
    case TableAccess(_, _, _) =>
    case ConstRel(_, _) =>
    case Projection(_, input, _) => BoundIrrelevant(input, trees, rank, n, bound);
    case Selection(_, input) => BoundIrrelevant(input, trees, rank, n, bound);
    case Join(_, l, r, _) => BoundIrrelevant(l, trees, rank, n, bound); BoundIrrelevant(r, trees, rank, n, bound);
    case Union(l, r, _) => BoundIrrelevant(l, trees, rank, n, bound); BoundIrrelevant(r, trees, rank, n, bound);
    case Difference(l, r, _) => BoundIrrelevant(l, trees, rank, n, bound); BoundIrrelevant(r, trees, rank, n, bound);
    case DupRemoval(input) => BoundIrrelevant(input, trees, rank, n, bound);
    case Aggregation(_, _, input, _) => BoundIrrelevant(input, trees, rank, n, bound);
  }

  lemma {:induction false} BuiltSpells(labels: seq<Op>, inputs: Links, parents: Links, spelled: seq<Op>, n: nat)
    requires Built(labels, inputs, parents, spelled) && n < |labels|
    ensures Spells(labels, inputs, n, spelled[n])
    decreases spelled[n]
  {
    hide Shell, Kids;
    var t := spelled[n];
    assert KidsSpelled(inputs[n], spelled, t);
    forall i | 0 <= i < |Kids(t)| ensures Spells(labels, inputs, inputs[n][i], Kids(t)[i]) {
      KidsSmaller(t, i);
      BuiltSpells(labels, inputs, parents, spelled, inputs[n][i]);
    }
  }

  /** The heights of the expanded trees. */
  ghost function Heights(spelled: seq<Op>, trees: map<string, Op>, rank: map<string, nat>, bound: nat): (height: seq<nat>)
    requires TreesRanked(trees, rank) && AllRanked(spelled, trees.Keys, rank, bound)
    ensures |height| == |spelled|
  {
    seq(|spelled|, n requires 0 <= n < |spelled| => Height(Expand(spelled[n], trees, rank, bound)))
  }

  lemma BuiltLayered(labels: seq<Op>, inputs: Links, parents: Links, spelled: seq<Op>, roots: map<string, nat>,
                     trees: map<string, Op>, rank: map<string, nat>, bound: nat)
    requires Built(labels, inputs, parents, spelled) && TreesRanked(trees, rank) && roots.Keys == trees.Keys
    requires AllRanked(spelled, trees.Keys, rank, bound) && forall q :: q in trees ==> rank[q] <= bound
    requires forall q :: q in roots ==> roots[q] < |spelled| && spelled[roots[q]] == trees[q]
    ensures Layered(labels, inputs, roots, Heights(spelled, trees, rank, bound))
  {
    hide TablesRanked, Expand, Height, Kids, Shell;
    var height := Heights(spelled, trees, rank, bound);
    forall n, i | 0 <= n < |inputs| && 0 <= i < |inputs[n]| ensures height[inputs[n][i]] < height[n] {
      LinkLower(labels, inputs, parents, spelled, trees, rank, bound, n, i);
    }
    forall n | 0 <= n < |labels| && IsDerived(labels, n) && labels[n].rel in roots
      ensures height[roots[labels[n].rel]] <= height[n]
    {
      AccessLevel(spelled[n], labels[n], trees, rank, bound);
      BoundIrrelevant(trees[labels[n].rel], trees, rank, rank[labels[n].rel], bound);
    }
  }

  lemma AccessLevel(t: Op, op: Op, trees: map<string, Op>, rank: map<string, nat>, bound: nat)
    requires TreesRanked(trees, rank) && TablesRanked(t, trees.Keys, rank, bound) && op == Shell(t)
    requires op.TableAccess? && op.idb
    ensures op.rel in trees && TablesRanked(trees[op.rel], trees.Keys, rank, rank[op.rel])
    ensures Expand(t, trees, rank, bound) == Expand(trees[op.rel], trees, rank, rank[op.rel])
  {
  }

  lemma LinkLower(labels: seq<Op>, inputs: Links, parents: Links, spelled: seq<Op>, trees: map<string, Op>,
                  rank: map<string, nat>, bound: nat, n: nat, i: nat)
    requires Built(labels, inputs, parents, spelled) && TreesRanked(trees, rank)
    requires AllRanked(spelled, trees.Keys, rank, bound) && n < |inputs| && i < |inputs[n]|
    ensures inputs[n][i] < |spelled|
    ensures Height(Expand(spelled[inputs[n][i]], trees, rank, bound)) < Height(Expand(spelled[n], trees, rank, bound))
  {
    hide Height, Shell, TablesRanked, Expand, InRange;
    var t := spelled[n];
    assert KidsSpelled(inputs[n], spelled, t);
    assert !t.TableAccess?;
    ExpandKids(t, trees, rank, bound);
    KidHeight(Expand(t, trees, rank, bound), i);
  }

  lemma BuiltAccesses(labels: seq<Op>, inputs: Links, parents: Links, spelled: seq<Op>, roots: map<string, nat>,
                      rank: map<string, nat>, bound: nat)
    requires Built(labels, inputs, parents, spelled) && AllRanked(spelled, roots.Keys, rank, bound)
    ensures AccessesOk(labels, inputs, roots)
  {
    hide ParentsRecorded;
    forall n | 0 <= n < |labels| && labels[n].TableAccess?
      ensures inputs[n] == [] && (labels[n].idb ==> labels[n].rel in roots)
    {
      assert spelled[n] in spelled && spelled[n].TableAccess?;
    }
  }

  lemma BuiltRoots(labels: seq<Op>, inputs: Links, parents: Links, spelled: seq<Op>, roots: map<string, nat>,
                   trees: map<string, Op>, rank: map<string, nat>)
    requires Built(labels, inputs, parents, spelled) && TreesRanked(trees, rank) && roots.Keys == trees.Keys
    requires forall q :: q in roots ==> roots[q] < |spelled| && spelled[roots[q]] == trees[q]
    ensures RootsOk(labels, roots) && ParentsKnown(labels, inputs, parents)
  {
    hide TablesRanked;
    forall q | q in roots ensures !IsDerived(labels, roots[q]) {
      assert !trees[q].TableAccess?;
      assert labels[roots[q]] == Shell(trees[q]);
    }
  }

  lemma BuiltPush(labels: seq<Op>, inputs: Links, parents: Links, newParents: Links, spelled: seq<Op>, op: Op,
                  kids: seq<nat>, t: Op)
    requires Built(labels, inputs, parents, spelled) && op == Shell(t) && KidsSpelled(kids, spelled, t)
    requires |newParents| == |labels| + 1 && InRange(newParents)
    requires forall k, m :: 0 <= k < |labels| && m in parents[k] ==> m in newParents[k]
    requires forall j :: 0 <= j < |kids| ==> |labels| in newParents[kids[j]]
    ensures Built(labels + [op], inputs + [kids], newParents, spelled + [t])
  {
    hide Shell, Kids;
    var moreLabels, moreInputs, more := labels + [op], inputs + [kids], spelled + [t];
    forall n | 0 <= n < |moreLabels|
      ensures moreLabels[n] == Shell(more[n]) && KidsSpelled(moreInputs[n], more, more[n])
    {
      if n < |labels| {
        assert KidsSpelled(inputs[n], spelled, spelled[n]);
      }
    }
    RecordedPush(inputs, parents, newParents, kids);
  }

  lemma KidsInRange(kids: seq<nat>, spelled: seq<Op>, t: Op)
    requires KidsSpelled(kids, spelled, t)
    ensures forall i :: 0 <= i < |kids| ==> kids[i] < |spelled|
  {
  }

  lemma Grown(links: Links)
    requires InRange(links)
    ensures InRange(links + [[]])
  {
  }

  lemma EntryInRange(links: Links, n: nat)
    requires InRange(links) && n < |links|
    ensures forall m :: m in links[n] ==> m < |links|
  {
    forall m | m in links[n] ensures m < |links| {
      var i :| 0 <= i < |links[n]| && links[n][i] == m;
    }
  }

  lemma RecordedPush(inputs: Links, parents: Links, newParents: Links, kids: seq<nat>)
    requires ParentsRecorded(inputs, parents) && forall i :: 0 <= i < |kids| ==> kids[i] < |inputs|
    requires |newParents| == |inputs| + 1 && InRange(newParents)
    requires forall k, m :: 0 <= k < |inputs| && m in parents[k] ==> m in newParents[k]
    requires forall j :: 0 <= j < |kids| ==> |inputs| in newParents[kids[j]]
    ensures ParentsRecorded(inputs + [kids], newParents)
  {
    var more := inputs + [kids];
    forall n, i | 0 <= n < |more| && 0 <= i < |more[n]| ensures more[n][i] < |inputs| && n in newParents[more[n][i]] {
      if n < |inputs| {
        assert more[n][i] == inputs[n][i];
      }
    }
  }

  /** A tree that is in the graph already, and its node. */
  datatype Shared = Shared(t: Op, n: nat)

  function SharedTree(shared: Option<Shared>): Option<Op> {
    if shared.Some? then Some(shared.value.t) else None
  }

  /** The number of nodes a tree adds to a graph that holds its shared part. */
  ghost function NewNodes(t: Op, shared: Option<Op>): nat
    decreases t, |Kids(t)| + 1
  {
    if shared == Some(t) then 0 else NewBelow(t, |Kids(t)|, shared) + 1
  }

  ghost function NewBelow(t: Op, k: nat, shared: Option<Op>): nat
    requires k <= |Kids(t)|
    decreases t, k
  {
    if k == 0 then 0
    else
      KidsSmaller(t, k - 1);
      NewBelow(t, k - 1, shared) + NewNodes(Kids(t)[k - 1], shared)
  }

  lemma RankedPush(ts: seq<Op>, t: Op, derived: set<string>, rank: map<string, nat>, bound: nat)
    requires AllRanked(ts, derived, rank, bound) && TablesRanked(t, derived, rank, bound)
    ensures AllRanked(ts + [t], derived, rank, bound)
  {
  }

  lemma NewNodesOf(t: Op, shared: Option<Op>)
    ensures NewNodes(t, shared) == if shared == Some(t) then 0 else NewBelow(t, |Kids(t)|, shared) + 1
    ensures NewBelow(t, 0, shared) == 0
  {
  }

  lemma NewBelowStep(t: Op, k: nat, shared: Option<Op>)
    requires k < |Kids(t)|
    ensures NewBelow(t, k + 1, shared) == NewBelow(t, k, shared) + NewNodes(Kids(t)[k], shared)
  {
  }

  lemma SpelledKids(kids: seq<nat>, spelled: seq<Op>, t: Op)
    requires |kids| == |Kids(t)| && forall j :: 0 <= j < |kids| ==> kids[j] < |spelled| && spelled[kids[j]] == Kids(t)[j]
    ensures KidsSpelled(kids, spelled, t)
  {
  }

  class Graph {
    var labels: seq<Op>
    var inputs: seq<seq<nat>>
    var parents: seq<seq<nat>>

    ghost predicate Valid()
      reads this
    {
      |labels| == |inputs| == |parents| && InRange(inputs) && InRange(parents)
    }

    constructor ()
      ensures Valid() && labels == []
    {
      labels, inputs, parents := [], [], [];
    }

    /** Add an operator on top of existing ones and register it as their parent. */
    method AddNode(op: Op, kids: seq<nat>, ghost t: Op, ghost spelled: seq<Op>) returns (n: nat)
      requires Valid() && Built(labels, inputs, parents, spelled) && op == Shell(t) && KidsSpelled(kids, spelled, t)
      modifies this
      ensures Valid() && Built(labels, inputs, parents, spelled + [t]) && n == |spelled|
    {
      hide InRange, Shell, Kids, KidsSpelled;
      n := |labels|;
      KidsInRange(kids, spelled, t);
      Grown(parents);
      ghost var labels0, inputs0, parents0 := labels, inputs, parents;
      labels, inputs, parents := labels + [op], inputs + [kids], parents + [[]];
      for i := 0 to |kids|
        invariant labels == labels0 + [op] && inputs == inputs0 + [kids]
        invariant |parents| == n + 1 && InRange(parents)
        invariant forall k, m :: 0 <= k < n && m in old(parents)[k] ==> m in parents[k]
        invariant forall j :: 0 <= j < i ==> n in parents[kids[j]]
      {
        EntryInRange(parents, kids[i]);
        UpdateInRange(parents, kids[i], parents[kids[i]] + [n]);
        parents := parents[kids[i] := parents[kids[i]] + [n]];
      }
      BuiltPush(labels0, inputs0, parents0, parents, spelled, op, kids, t);
    }

    /** The attribute names of the operator at a node. */
    method AttrNames(n: nat, ghost spelled: seq<Op>) returns (names: seq<string>)
      requires Valid() && Built(labels, inputs, parents, spelled) && n < |labels|
      ensures names == Schema(spelled[n])
      decreases spelled[n]
    {
      hide InRange;
      ghost var t := spelled[n];
      assert labels[n] == Shell(t) && KidsSpelled(inputs[n], spelled, t);
      match labels[n]
      case TableAccess(_, arity, _) => names := DefaultNames(arity);
      case Selection(_, _) => KidsSmaller(t, 0); names := AttrNames(inputs[n][0], spelled);
      case DupRemoval(_) => KidsSmaller(t, 0); names := AttrNames(inputs[n][0], spelled);
      case _ => names := labels[n].names;
    }

    /** Add the operators of a tree, inputs first.  Every occurrence of a shared tree is its one node. */
    method AddTree(t: Op, shared: Option<Shared>, ghost spelled: seq<Op>, ghost derived: set<string>,
                   ghost rank: map<string, nat>, ghost bound: nat)
      returns (n: nat, ghost more: seq<Op>)
      requires Valid() && Built(labels, inputs, parents, spelled)
      requires TablesRanked(t, derived, rank, bound) && AllRanked(spelled, derived, rank, bound)
      requires shared.Some? ==> shared.value.n < |spelled| && spelled[shared.value.n] == shared.value.t
      modifies this
      ensures Valid() && Built(labels, inputs, parents, more) && spelled <= more && n < |more| && more[n] == t
      ensures AllRanked(more, derived, rank, bound)
      ensures |more| == |spelled| + NewNodes(t, SharedTree(shared))
      ensures shared.Some? && t == shared.value.t ==> n == shared.value.n
      decreases t
    {
      hide InRange, Built, TablesRanked, Shell, Kids, NewNodes, NewBelow, AllRanked, KidsSpelled;
      ghost var known := SharedTree(shared);
      NewNodesOf(t, known);
      if shared.Some? && t == shared.value.t {
        return shared.value.n, spelled;
      }
      var below := Kids(t);
      var kids: seq<nat> := [];
      more := spelled;
      for i := 0 to |below|
        invariant Valid() && Built(labels, inputs, parents, more) && spelled <= more && AllRanked(more, derived, rank, bound)
        invariant |kids| == i && forall j :: 0 <= j < i ==> kids[j] < |more| && more[kids[j]] == below[j]
        invariant |more| == |spelled| + NewBelow(t, i, known)
      {
        KidsSmaller(t, i);
        KidsRanked(t, i, derived, rank, bound);
        var kid;
        NewBelowStep(t, i, known);
        kid, more := AddTree(below[i], shared, more, derived, rank, bound);
        kids := kids + [kid];
      }
      SpelledKids(kids, more, t);
      n := AddNode(Shell(t), kids, t, more);
      RankedPush(more, t, derived, rank, bound);
      more := more + [t];
    }

    /** Adapt the inputs of one node. */
    method AdaptUser(parent: nat, orig: nat, new_: nat, ghost base: Links, ghost done: seq<nat>)
      requires |inputs| == |parents| == |base| && parent < |inputs| && orig < |inputs| && orig != new_
      requires inputs == Redirected(base, done, orig, new_)
      modifies this`inputs, this`parents
      ensures inputs == Redirected(base, done + [parent], orig, new_)
      ensures parents == if parent == new_ then old(parents)[orig := [new_]] else old(parents)
    {
      RedirectedStep(base, done, orig, new_, parent);
      hide Redirected, ReplaceIn;
      if parent == new_ {
        parents := parents[orig := [new_]];
      } else if parent != orig {
        inputs := inputs[parent := ReplaceIn(inputs[parent], orig, new_)];
      }
    }

    /** Adapt the inputs of the nodes in `users`. */
    method RedirectUsers(users: seq<nat>, orig: nat, new_: nat) returns (newParentOfOrig: bool, origParentOfNew: bool)
      requires Valid() && orig < |labels| && new_ < |labels| && orig != new_
      requires forall u :: u in users ==> u < |labels|
      modifies this`inputs, this`parents
      ensures Valid()
      ensures inputs == Redirected(old(inputs), users, orig, new_)
      ensures parents == if new_ in users then old(parents)[orig := [new_]] else old(parents)
      ensures newParentOfOrig == (new_ in users) && origParentOfNew == (orig in users)
    {
      newParentOfOrig, origParentOfNew := false, false;
      RedirectedInRange(inputs, users, orig, new_);
      NothingRedirected(inputs, orig, new_);
      UpdateInRange(parents, orig, [new_]);
      ghost var base, start, once := inputs, parents, parents[orig := [new_]];
      assert once[orig := [new_]] == once;
      ghost var done: seq<nat> := [];
      hide InRange, Redirected;
      for i := 0 to |users|
        invariant |done| == i && (forall k :: 0 <= k < i ==> done[k] == users[k])
        invariant inputs == Redirected(base, done, orig, new_)
        invariant parents == if newParentOfOrig then once else start
        invariant newParentOfOrig == (new_ in done) && origParentOfNew == (orig in done)
      {
        var parent := users[i];
        assert parent in users;
        AdaptUser(parent, orig, new_, base, done);
        newParentOfOrig := newParentOfOrig || parent == new_;
        origParentOfNew := origParentOfNew || parent == orig;
        done := done + [parent];
      }
      assert done == users;
    }

    method RemoveParent(n: nat, parent: nat)
      requires Valid() && n < |labels|
      modifies this`parents
      ensures Valid() && parents == old(parents)[n := Without(old(parents[n]), parent)]
    {
      EntryInRange(parents, n);
      UpdateInRange(parents, n, Without(parents[n], parent));
      hide InRange;
      parents := parents[n := Without(parents[n], parent)];
    }

    /** Redirect every parent of `orig` to `new_`. */
    method SwitchSubtreeWithExisting(orig: nat, new_: nat)
      requires Valid() && orig < |labels| && new_ < |labels| && orig != new_
      modifies this`inputs, this`parents
      ensures Valid()
      ensures inputs == Redirected(old(inputs), old(parents[new_] + parents[orig]), orig, new_)
      ensures forall n :: 0 <= n < |labels| && n != orig && n != new_ ==> parents[n] == old(parents[n])
      ensures parents[new_] == Without(Without(old(parents[new_] + parents[orig]), new_), orig)
      ensures parents[orig] == if new_ in old(parents[new_] + parents[orig]) then [new_] else []
    {
      var users := parents[new_] + parents[orig];
      UsersInRange(parents, orig, new_);
      hide InRange, Redirected;
      UpdateInRange(parents, new_, users);
      parents := parents[new_ := users];
      UpdateInRange(parents, orig, []);
      parents := parents[orig := []];
      var newParentOfOrig, origParentOfNew := RedirectUsers(users, orig, new_);
      assert parents[new_] == users;
      WithoutAbsent(users, new_);
      WithoutAbsent(Without(users, new_), orig);
      hide Without;
      if newParentOfOrig {
        RemoveParent(new_, new_);
      }
      if origParentOfNew {
        RemoveParent(new_, orig);
      }
    }

    /** All table accesses reachable from `n`, each as often as it is reached. */
    method FindTableAccesses(n: nat, roots: map<string, nat>, ghost height: seq<nat>) returns (tables: seq<nat>)
      requires Valid() && Layered(labels, inputs, roots, height) && n < |labels|
      ensures forall m :: m in tables ==> m < |labels| && labels[m].TableAccess?
      ensures forall m: nat :: m < |labels| && labels[m].TableAccess? ==>
        (m in tables <==> Reaches(labels, inputs, roots, height, n, m))
      decreases height[n]
    {
      tables := if labels[n].TableAccess? then [n] else [];
      for i := 0 to |inputs[n]|
        invariant forall m :: m in tables ==> m < |labels| && labels[m].TableAccess?
        invariant forall m: nat :: m < |labels| && labels[m].TableAccess? ==>
          (m in tables <==> m == n || exists j :: 0 <= j < i && Reaches(labels, inputs, roots, height, inputs[n][j], m))
      {
        var more := FindTableAccesses(inputs[n][i], roots, height);
        tables := tables + more;
      }
    }

    /** Replace the accesses to derived relations found below one root. */
    method ConnectRoot(root: nat, roots: map<string, nat>, ghost before: Links, ghost height: seq<nat>, ghost done: set<nat>)
      returns (ghost all: set<nat>)
      requires Valid() && root < |labels| && Splicing(labels, before, inputs, parents, roots, height, done)
      requires Layered(labels, before, roots, height) && AccessesOk(labels, before, roots)
      modifies this`inputs, this`parents
      ensures Valid() && done <= all && Splicing(labels, before, inputs, parents, roots, height, all)
      ensures Covered(labels, before, roots, height, all, root)
    {
      hide Layered, ParentsKnown, RootsOk, SplicedBy, InRange, Reaches, Covered, OnlyDerived, AccessesOk, Redirected;
      ghost var start := inputs;
      var tables := FindTableAccesses(root, roots, height);
      all := done;
      forall j | 0 <= j < |tables| ensures tables[j] < |labels| { assert tables[j] in tables; }
      for i := 0 to |tables|
        invariant Valid() && done <= all && Splicing(labels, before, inputs, parents, roots, height, all)
        invariant forall j :: 0 <= j < i && IsDerived(labels, tables[j]) && labels[tables[j]].rel in roots ==> tables[j] in all
      {
        var r := tables[i];
        assert r in tables;
        if labels[r].idb && labels[r].rel in roots {
          RootBounds(labels, roots, labels[r].rel);
          ghost var inputs0, parents0 := inputs, parents;
          SwitchSubtreeWithExisting(r, roots[labels[r].rel]);
          SpliceStep(labels, before, inputs0, parents0, inputs, parents, roots, height, all, r);
          all := all + {r};
        }
      }
      NowCovered(labels, before, start, roots, height, done, all, root, tables);
    }

    /** Replace every access to a derived relation by the root of that relation.  The roots are visited
        in any order, and an access may be met more than once. */
    method Connect(roots: map<string, nat>, ghost trees: map<string, Op>, ghost rank: map<string, nat>,
                   ghost height: seq<nat>)
      requires Valid() && Layered(labels, inputs, roots, height) && ParentsKnown(labels, inputs, parents)
      requires RootsOk(labels, roots) && AccessesOk(labels, inputs, roots)
      requires TreesRanked(trees, rank) && roots.Keys == trees.Keys
      requires forall q :: q in roots ==> Spells(labels, inputs, roots[q], trees[q])
      modifies this`inputs, this`parents
      ensures Valid()
      ensures forall q :: q in roots ==> Spells(labels, inputs, roots[q], Expanded(trees, rank, q))
    {
      hide Layered, ParentsKnown, RootsOk, SplicedBy, TreesRanked, Spells, Expand, InRange, Reaches, TablesRanked, Expanded,
           Covered, AccessesOk, OnlyDerived;
      ghost var before := inputs;
      ghost var done: set<nat> := {};
      SplicedStart(labels, inputs, parents, roots, height);
      var todo := roots.Keys;
      while todo != {}
        invariant todo <= roots.Keys && Valid() && Splicing(labels, before, inputs, parents, roots, height, done)
        invariant forall q :: q in roots && q !in todo ==> roots[q] < |labels| && Covered(labels, before, roots, height, done, roots[q])
        decreases |todo|
      {
        var q :| q in todo;
        todo := todo - {q};
        RootBounds(labels, roots, q);
        ghost var all := ConnectRoot(roots[q], roots, before, height, done);
        forall k | k in roots && k !in todo && k != q ensures Covered(labels, before, roots, height, all, roots[k]) {
          CoveredMore(labels, before, roots, height, done, all, roots[k]);
        }
        done := all;
      }
      AllExpanded(labels, before, inputs, roots, height, done, trees, rank);
    }
  }
}
