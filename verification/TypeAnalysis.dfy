/** Data types of predicates: the analysis follows the dependencies between predicates and terminates
    because a program without recursion ranks them. */
module TypeAnalysis {
  import opened Algebra
  import opened Datalog
  import opened Program
  import opened DependencyGraph

  datatype DataType = IntType | StringType

  type VarTypes = map<string, DataType>

  type Typing = map<string, seq<DataType>>

  function TypeOfValue(v: Value): DataType {
    if v.Num? then IntType else StringType
  }

  function TypesOfRow(row: Row): (dts: seq<DataType>)
    ensures |dts| == |row|
  {
    seq(|row|, i requires 0 <= i < |row| => TypeOfValue(row[i]))
  }

  function TypeOf(e: Expr, vars: VarTypes): DataType {
    match e
    case EVar(x) => if x in vars then vars[x] else StringType
    case EConst(v) => TypeOfValue(v)
    case EApp(_, l, _) => TypeOf(l, vars)
    case EAgg(fn, a) => if fn == "count" then IntType else TypeOf(a, vars)
  }

  /** The variables among the arguments get the types of the columns; later occurrences win. */
  function ArgTypes(vars: VarTypes, args: seq<Term>, dts: seq<DataType>): VarTypes
    requires |dts| == |args|
  {
    if args == [] then vars
    else
      var n := |args| - 1;
      var before := ArgTypes(vars, args[..n], dts[..n]);
      match args[n]
      case Var(x) => before[x := dts[n]]
      case Const(_) => before
  }

  /** The goals of the body have types of their width. */
  ghost predicate GoalsFit(body: seq<Literal>, types: Typing) {
    forall a :: Goal(a) in body ==> a.rel in types && |types[a.rel]| == |a.args|
  }

  ghost function BodyTypes(body: seq<Literal>, types: Typing): VarTypes
    requires GoalsFit(body, types)
  {
    if body == [] then map[]
    else
      var front, last := body[..|body| - 1], body[|body| - 1];
      assert last in body;
      match last
      case Goal(a) => ArgTypes(BodyTypes(front, types), a.args, types[a.rel])
      case Test(_, _, _) => BodyTypes(front, types)
  }

  function HeadTypes(r: Rule, vars: VarTypes): (dts: seq<DataType>)
    ensures |dts| == |r.headArgs|
  {
    seq(|r.headArgs|, i requires 0 <= i < |r.headArgs| => TypeOf(r.headArgs[i], vars))
  }

  // ----- What the types are, from the rules alone -----

  /** The literal at place `g` is a goal with variable `x` as argument `i`. */
  ghost predicate OccursAt(body: seq<Literal>, x: string, g: nat, i: nat) {
    g < |body| && body[g].Goal? && i < |body[g].atom.args| && body[g].atom.args[i] == Var(x)
  }

  /** It is the last occurrence of the variable. */
  ghost predicate LastAt(body: seq<Literal>, x: string, g: nat, i: nat) {
    OccursAt(body, x, g, i) && forall h: nat, k: nat :: OccursAt(body, x, h, k) ==> h < g || (h == g && k <= i)
  }

  ghost predicate ColumnHas(types: Typing, rel: string, i: nat, dt: DataType) {
    rel in types && i < |types[rel]| && types[rel][i] == dt
  }

  /** A variable has the type of the column where it occurs last, a number and a count are integers, and other applications
      and aggregates have the type of their first operand. */
  ghost predicate HasType(e: Expr, body: seq<Literal>, types: Typing, dt: DataType) {
    match e
    case EVar(x) =>
      && (forall g: nat, i: nat :: LastAt(body, x, g, i) ==> ColumnHas(types, body[g].atom.rel, i, dt))
      && ((forall g: nat, i: nat :: !OccursAt(body, x, g, i)) ==> dt == StringType)
    case EConst(v) => dt == if v.Num? then IntType else StringType
    case EApp(_, l, _) => HasType(l, body, types, dt)
    case EAgg(fn, a) => if fn == "count" then dt == IntType else HasType(a, body, types, dt)
  }

  ghost predicate HeadHasTypes(r: Rule, types: Typing) {
    && r.head in types && |types[r.head]| == |r.headArgs|
    && forall k :: 0 <= k < |r.headArgs| ==> HasType(r.headArgs[k], r.body, types, types[r.head][k])
  }

  ghost predicate FactHasTypes(f: Fact, types: Typing) {
    && f.rel in types && |types[f.rel]| == |f.values|
    && forall k :: 0 <= k < |f.values| ==> types[f.rel][k] == if f.values[k].Num? then IntType else StringType
  }

  /** A typing under which all rules and facts of a predicate agree, and that is the catalog's on stored
      relations. */
  ghost predicate Agreed(p: Program, catalog: Typing, types: Typing) {
    && (forall r :: r in p.rules ==> GoalsFit(r.body, types) && HeadHasTypes(r, types))
    && (forall f :: f in p.facts ==> FactHasTypes(f, types))
    && (forall q :: q in types && q !in Derived(p) ==> q in catalog && catalog[q] == types[q])
  }

  ghost predicate LastArg(args: seq<Term>, x: string, i: nat) {
    i < |args| && args[i] == Var(x) && forall k :: i < k < |args| ==> args[k] != Var(x)
  }

  lemma {:induction false} ArgTypesAre(vars: VarTypes, args: seq<Term>, dts: seq<DataType>, x: string)
    requires |dts| == |args|
    ensures x in ArgTypes(vars, args, dts) <==> x in vars || Var(x) in args
    ensures Var(x) !in args && x in vars ==> ArgTypes(vars, args, dts)[x] == vars[x]
    ensures forall i: nat :: LastArg(args, x, i) ==> ArgTypes(vars, args, dts)[x] == dts[i]
  {
    if args != [] {
      var n := |args| - 1;
      ArgTypesAre(vars, args[..n], dts[..n], x);
      assert args == args[..n] + [args[n]];
      forall i: nat | LastArg(args, x, i) ensures ArgTypes(vars, args, dts)[x] == dts[i] {
        assert i == n || (args[n] != Var(x) && LastArg(args[..n], x, i));
      }
    }
  }

  lemma OccursBefore(body: seq<Literal>, x: string)
    requires body != []
    ensures forall g: nat, i: nat :: OccursAt(body, x, g, i) <==>
      OccursAt(body[..|body| - 1], x, g, i)
      || (g == |body| - 1 && body[g].Goal? && i < |body[g].atom.args| && body[g].atom.args[i] == Var(x))
  {
  }

  /** A variable is typed iff it occurs in a goal, and by its last occurrence. */
  lemma {:induction false} BodyTypesAre(body: seq<Literal>, types: Typing, x: string)
    requires GoalsFit(body, types)
    ensures x in BodyTypes(body, types) <==> exists g: nat, i: nat :: OccursAt(body, x, g, i)
    ensures forall g: nat, i: nat :: LastAt(body, x, g, i) ==>
      ColumnHas(types, body[g].atom.rel, i, BodyTypes(body, types)[x])
  {
    if body != [] {
      var front, last := body[..|body| - 1], body[|body| - 1];
      BodyTypesAre(front, types, x);
      OccursBefore(body, x);
      assert last in body;
      if last.Goal? {
        ArgTypesAre(BodyTypes(front, types), last.atom.args, types[last.atom.rel], x);
        if Var(x) in last.atom.args {
          var i :| 0 <= i < |last.atom.args| && last.atom.args[i] == Var(x);
          assert OccursAt(body, x, |body| - 1, i);
        }
      }
      hide ArgTypes;
      forall g: nat, i: nat | LastAt(body, x, g, i) ensures ColumnHas(types, body[g].atom.rel, i, BodyTypes(body, types)[x]) {
        LastOccurrence(body, x, g, i);
      }
    }
  }

  lemma LastOccurrence(body: seq<Literal>, x: string, g: nat, i: nat)
    requires body != [] && LastAt(body, x, g, i)
    ensures var last := body[|body| - 1];
      if g == |body| - 1 then LastArg(last.atom.args, x, i)
      else LastAt(body[..|body| - 1], x, g, i) && (last.Goal? ==> Var(x) !in last.atom.args)
  {
    var n := |body| - 1;
    OccursBefore(body, x);
    if g == n {
      forall k: nat | i < k < |body[n].atom.args| ensures body[n].atom.args[k] != Var(x) {
        assert !OccursAt(body, x, n, k);
      }
    } else if body[n].Goal? {
      forall k: nat | k < |body[n].atom.args| ensures body[n].atom.args[k] != Var(x) {
        assert !OccursAt(body, x, n, k);
      }
    }
  }

  /** A variable that occurs has a last occurrence. */
  lemma {:induction false} SomeLast(body: seq<Literal>, x: string, g: nat, i: nat) returns (h: nat, k: nat)
    requires OccursAt(body, x, g, i)
    ensures LastAt(body, x, h, k)
    decreases |body| - g, if g < |body| && body[g].Goal? then |body[g].atom.args| - i else 0
  {
    if LastAt(body, x, g, i) {
      h, k := g, i;
    } else {
      var g2: nat, i2: nat :| OccursAt(body, x, g2, i2) && !(g2 < g || (g2 == g && i2 <= i));
      h, k := SomeLast(body, x, g2, i2);
    }
  }

  /** The types the analysis computes are those the rule says. */
  lemma {:induction false} TypeOfHas(e: Expr, body: seq<Literal>, types: Typing, dt: DataType)
    requires GoalsFit(body, types)
    ensures HasType(e, body, types, dt) <==> dt == TypeOf(e, BodyTypes(body, types))
  {
    hide BodyTypes, LastAt, OccursAt, GoalsFit;
    match e
    case EVar(x) =>
      BodyTypesAre(body, types, x);
      if x in BodyTypes(body, types) {
        var g: nat, i: nat :| OccursAt(body, x, g, i);
        var h, k := SomeLast(body, x, g, i);
        assert ColumnHas(types, body[h].atom.rel, k, BodyTypes(body, types)[x]) by { LastIs(body, x, h, k); }
        LastIs(body, x, h, k);
      } else {
        forall g: nat, i: nat | LastAt(body, x, g, i) ensures false { LastIs(body, x, g, i); }
      }
    case EConst(_) =>
    case EApp(_, l, _) => TypeOfHas(l, body, types, dt);
    case EAgg(_, a) => TypeOfHas(a, body, types, dt);
  }

  lemma LastIs(body: seq<Literal>, x: string, g: nat, i: nat)
    requires LastAt(body, x, g, i)
    ensures OccursAt(body, x, g, i) && g < |body| && body[g].Goal?
  {
  }

  lemma AgreedRule(p: Program, catalog: Typing, types: Typing, r: Rule)
    requires Agreed(p, catalog, types) && r in p.rules
    ensures GoalsFit(r.body, types) && r.head in types && types[r.head] == HeadTypes(r, BodyTypes(r.body, types))
  {
    hide BodyTypes, HasType, TypeOf, GoalsFit;
    var dts := HeadTypes(r, BodyTypes(r.body, types));
    forall k | 0 <= k < |r.headArgs| ensures types[r.head][k] == dts[k] {
      TypeOfHas(r.headArgs[k], r.body, types, types[r.head][k]);
    }
  }

  lemma AgreedFact(p: Program, catalog: Typing, types: Typing, f: Fact)
    requires Agreed(p, catalog, types) && f in p.facts
    ensures f.rel in types && types[f.rel] == TypesOfRow(f.values)
  {
  }

  /** Every entry so far is the agreed one. */
  ghost predicate Sound(found: Typing, types: Typing) {
    forall q :: q in found ==> q in types && found[q] == types[q]
  }

  lemma BodyTypesPush(body: seq<Literal>, t: Literal, types: Typing)
    requires GoalsFit(body, types) && (t.Goal? ==> t.atom.rel in types && |types[t.atom.rel]| == |t.atom.args|)
    ensures GoalsFit(body + [t], types)
    ensures BodyTypes(body + [t], types)
         == if t.Goal? then ArgTypes(BodyTypes(body, types), t.atom.args, types[t.atom.rel]) else BodyTypes(body, types)
  {
    assert (body + [t])[..|body|] == body;
  }

  /** No entry is lost. */
  ghost predicate Grown(before: Typing, after: Typing) {
    forall q :: q in before ==> q in after
  }

  lemma NothingLost(found: Typing)
    ensures Grown(found, found)
  {
  }

  lemma GrownMore(before: Typing, now: Typing, after: Typing)
    requires Grown(before, now) && Grown(now, after)
    ensures Grown(before, after)
    ensures forall q :: q in now ==> q in after
  {
  }

  /** The head and all goals have types. */
  ghost predicate RuleListed(r: Rule, found: Typing) {
    r.head in found && GoalsListed(r.body, found)
  }

  ghost predicate GoalsListed(body: seq<Literal>, found: Typing) {
    forall a :: Goal(a) in body ==> a.rel in found
  }

  lemma NothingTyped(found: Typing, types: Typing)
    ensures Grown(found, found) && GoalsFit([], types) && BodyTypes([], types) == map[] && GoalsListed([], found)
  {
  }

  lemma GoalsListedPush(body: seq<Literal>, t: Literal, found: Typing, more: Typing)
    requires GoalsListed(body, found) && Grown(found, more) && (t.Goal? ==> t.atom.rel in more)
    ensures GoalsListed(body + [t], more)
  {
  }

  lemma AtomRanked(p: Program, catalog: Typing, types: Typing, rank: map<string, nat>, r: Rule, a: Atom)
    requires Agreed(p, catalog, types) && NonRecursive(p, rank) && r in p.rules && Goal(a) in r.body
    ensures a.rel in types && |types[a.rel]| == |a.args| && r.head in rank
    ensures a.rel in Derived(p) ==> a.rel in rank && rank[a.rel] < rank[r.head]
    ensures a.rel !in Derived(p) ==> a.rel in catalog && catalog[a.rel] == types[a.rel]
  {
    hide HeadHasTypes, FactHasTypes;
  }

  /** Recording the types of the head. */
  lemma HeadTyped(p: Program, catalog: Typing, types: Typing, r: Rule, start: Typing, found: Typing)
    requires Agreed(p, catalog, types) && r in p.rules && Sound(found, types) && Grown(start, found)
    requires GoalsListed(r.body, found) && GoalsFit(r.body, types)
    ensures var more := found[r.head := HeadTypes(r, BodyTypes(r.body, types))];
      Sound(more, types) && Grown(start, more) && Grown(found, more) && RuleListed(r, more)
  {
    AgreedRule(p, catalog, types, r);
    hide Agreed, HeadTypes, BodyTypes;
  }

  lemma TypedHead(r: Rule, found: Typing)
    requires RuleListed(r, found)
    ensures r.head in found
  {
  }

  lemma RankedHead(p: Program, rank: map<string, nat>, pred: string)
    requires NonRecursive(p, rank) && pred in Derived(p)
    ensures pred in rank
    ensures (exists j :: 0 <= j < |p.rules| && p.rules[j].head == pred) || exists f :: f in p.facts && f.rel == pred
  {
    if r :| r in p.rules && r.head == pred {
      var j :| 0 <= j < |p.rules| && p.rules[j] == r;
    }
  }

  lemma RankedRule(p: Program, rank: map<string, nat>, r: Rule)
    requires NonRecursive(p, rank) && r in p.rules
    ensures r.head in rank
  {
  }

  /** All agreed typings coincide on what a program mentions. */
  lemma {:induction false} TypingUnique(p: Program, catalog: Typing, s: Typing, t: Typing, rank: map<string, nat>, pred: string)
    requires Agreed(p, catalog, s) && Agreed(p, catalog, t) && NonRecursive(p, rank) && pred in Derived(p)
    ensures pred in rank && pred in s && pred in t && s[pred] == t[pred]
    decreases if pred in rank then rank[pred] else 0
  {
    RankedHead(p, rank, pred);
    if r :| r in p.rules && r.head == pred {
      forall a | Goal(a) in r.body ensures a.rel in s && a.rel in t && s[a.rel] == t[a.rel] {
        AtomRanked(p, catalog, s, rank, r, a);
        AtomRanked(p, catalog, t, rank, r, a);
        if a.rel in Derived(p) {
          TypingUnique(p, catalog, s, t, rank, a.rel);
        }
      }
      AgreedRule(p, catalog, s, r);
      AgreedRule(p, catalog, t, r);
      SameBodyTypes(r.body, s, t);
    } else if f :| f in p.facts && f.rel == pred {
      AgreedFact(p, catalog, s, f);
      AgreedFact(p, catalog, t, f);
    }
  }

  lemma {:induction false} SameBodyTypes(body: seq<Literal>, s: Typing, t: Typing)
    requires GoalsFit(body, s) && GoalsFit(body, t) && forall a :: Goal(a) in body ==> s[a.rel] == t[a.rel]
    ensures BodyTypes(body, s) == BodyTypes(body, t)
  {
    if body != [] {
      assert body[|body| - 1] in body;
      SameBodyTypes(body[..|body| - 1], s, t);
    }
  }

  // ----- What is recorded in the end -----

  /** The rule is typed as it says, in the recorded types alone. */
  ghost predicate RuleTyped(r: Rule, found: Typing) {
    GoalsFit(r.body, found) && HeadHasTypes(r, found)
  }

  lemma {:induction false} SameType(e: Expr, body: seq<Literal>, s: Typing, t: Typing, dt: DataType)
    requires HasType(e, body, t, dt) && GoalsListed(body, s) && Sound(s, t)
    ensures HasType(e, body, s, dt)
  {
    match e
    case EVar(x) =>
      forall g: nat, i: nat | LastAt(body, x, g, i) ensures ColumnHas(s, body[g].atom.rel, i, dt) {
        assert ColumnHas(t, body[g].atom.rel, i, dt);
        assert Goal(body[g].atom) == body[g] && body[g] in body;
      }
    case EConst(_) =>
    case EApp(_, l, _) => SameType(l, body, s, t, dt);
    case EAgg(fn, a) => if fn != "count" { SameType(a, body, s, t, dt); }
  }

  lemma ListedTyped(p: Program, catalog: Typing, types: Typing, r: Rule, found: Typing)
    requires Agreed(p, catalog, types) && r in p.rules && Sound(found, types) && RuleListed(r, found)
    ensures RuleTyped(r, found)
  {
    hide HasType;
    forall k | 0 <= k < |r.headArgs| ensures HasType(r.headArgs[k], r.body, found, found[r.head][k]) {
      SameType(r.headArgs[k], r.body, found, types, types[r.head][k]);
    }
  }

  lemma FactsTyped(p: Program, catalog: Typing, types: Typing, found: Typing)
    requires Agreed(p, catalog, types) && Sound(found, types) && forall f :: f in p.facts ==> f.rel in found
    ensures forall f :: f in p.facts ==> FactHasTypes(f, found)
  {
    hide HeadHasTypes, GoalsFit;
  }

  class TypeAnalyzer {
    const program: Program
    const catalog: Typing
    var predToDTs: Typing

    constructor (program: Program, catalog: Typing)
      ensures this.program == program && this.catalog == catalog && predToDTs == map[]
    {
      this.program, this.catalog := program, catalog;
      predToDTs := map[];
    }

    ghost predicate FactsDone()
      reads this
    {
      forall f :: f in program.facts ==> f.rel in predToDTs
    }

    /** Types the atoms of the body, and then the head. */
    method AnalyzeRuleDTs(r: Rule, ghost types: Typing, ghost rank: map<string, nat>)
      requires r in program.rules && r.head in rank && Agreed(program, catalog, types) && NonRecursive(program, rank)
      requires Sound(predToDTs, types) && FactsDone()
      modifies this
      ensures Sound(predToDTs, types) && FactsDone() && Grown(old(predToDTs), predToDTs) && RuleListed(r, predToDTs)
      ensures RuleTyped(r, predToDTs)
      decreases rank[r.head], 0
    {
      var vars: VarTypes := map[];
      ghost var start, seen: seq<Literal> := predToDTs, [];
      NothingTyped(predToDTs, types);
      hide *;
      for i := 0 to |r.body|
        invariant Sound(predToDTs, types) && FactsDone() && Grown(start, predToDTs)
        invariant seen == r.body[..i] && GoalsFit(seen, types) && vars == BodyTypes(seen, types)
        invariant GoalsListed(seen, predToDTs)
      {
        ghost var now := predToDTs;
        assert r.body[i] in r.body;
        if r.body[i].Goal? {
          var a := r.body[i].atom;
          AtomRanked(program, catalog, types, rank, r, a);
          var dts := AnalyzeAtom(a, types, rank, r.head);
          vars := ArgTypes(vars, a.args, dts);
        } else {
          NothingLost(predToDTs);
        }
        GrownMore(start, now, predToDTs);
        GoalsListedPush(seen, r.body[i], now, predToDTs);
        BodyTypesPush(seen, r.body[i], types);
        seen := seen + [r.body[i]];
      }
      assert seen == r.body;
      HeadTyped(program, catalog, types, r, start, predToDTs);
      ghost var now_ := predToDTs;
      FactsAre();
      predToDTs := predToDTs[r.head := HeadTypes(r, vars)];
      FactsKept(now_);
      ListedTyped(program, catalog, types, r, predToDTs);
    }

    lemma FactsAre()
      requires FactsDone()
      ensures forall f :: f in program.facts ==> f.rel in predToDTs
    {
    }

    /** A table with at least these entries still has the facts. */
    lemma FactsKept(before: Typing)
      requires (forall f :: f in program.facts ==> f.rel in before) && Grown(before, predToDTs)
      ensures FactsDone()
    {
    }

    /** The types of a body atom; predicates that have none yet are analysed first, stored relations are
        looked up in the catalog. */
    method AnalyzeAtom(a: Atom, ghost types: Typing, ghost rank: map<string, nat>, ghost head: string)
      returns (dts: seq<DataType>)
      requires Agreed(program, catalog, types) && NonRecursive(program, rank) && head in rank && a.rel in types
      requires a.rel in Derived(program) ==> a.rel in rank && rank[a.rel] < rank[head]
      requires a.rel !in Derived(program) ==> a.rel in catalog && catalog[a.rel] == types[a.rel]
      requires Sound(predToDTs, types) && FactsDone()
      modifies this
      ensures Sound(predToDTs, types) && FactsDone() && Grown(old(predToDTs), predToDTs)
      ensures a.rel in predToDTs && dts == types[a.rel]
      decreases rank[head], 0, 0
    {
      hide Agreed, NonRecursive, Derived;
      if a.rel !in predToDTs {
        if a.rel in Derived(program) {
          AnalyzePredicate(a.rel, types, rank);
        } else {
          predToDTs := predToDTs[a.rel := catalog[a.rel]];
        }
      }
      dts := predToDTs[a.rel];
    }

    /** All rules of a derived predicate. */
    method AnalyzePredicate(pred: string, ghost types: Typing, ghost rank: map<string, nat>)
      requires pred in Derived(program) && pred in rank && Agreed(program, catalog, types) && NonRecursive(program, rank)
      requires Sound(predToDTs, types) && FactsDone()
      modifies this
      ensures Sound(predToDTs, types) && FactsDone() && Grown(old(predToDTs), predToDTs)
      ensures pred in predToDTs
      decreases rank[pred], 2
    {
      RankedHead(program, rank, pred);
      hide *;
      AnalyzeRulesOf(pred, types, rank);
      FactTyped(pred);
    }

    method AnalyzeRulesOf(pred: string, ghost types: Typing, ghost rank: map<string, nat>)
      requires pred in rank && Agreed(program, catalog, types) && NonRecursive(program, rank)
      requires Sound(predToDTs, types) && FactsDone()
      modifies this
      ensures Sound(predToDTs, types) && FactsDone() && Grown(old(predToDTs), predToDTs)
      ensures (exists j :: 0 <= j < |program.rules| && program.rules[j].head == pred) ==> pred in predToDTs
      decreases rank[pred], 1
    {
      NothingLost(predToDTs);
      hide *;
      ghost var start, any := predToDTs, false;
      for i := 0 to |program.rules|
        invariant Sound(predToDTs, types) && FactsDone() && Grown(start, predToDTs)
        invariant any ==> pred in predToDTs
        invariant !any ==> forall j :: 0 <= j < i ==> program.rules[j].head != pred
      {
        var r := program.rules[i];
        if r.head == pred {
          ghost var now := predToDTs;
          AnalyzeRuleDTs(r, types, rank);
          GrownMore(start, now, predToDTs);
          TypedHead(r, predToDTs);
          any := true;
        }
      }
    }

    lemma FactTyped(pred: string)
      requires FactsDone()
      ensures (exists f :: f in program.facts && f.rel == pred) ==> pred in predToDTs
    {
    }

    /** Facts first, then all rules. */
    method AnalyzeProgramDTs(ghost types: Typing, ghost rank: map<string, nat>)
      requires Agreed(program, catalog, types) && NonRecursive(program, rank) && predToDTs == map[]
      modifies this
      ensures Sound(predToDTs, types)
      ensures forall r :: r in program.rules ==> RuleTyped(r, predToDTs)
      ensures forall f :: f in program.facts ==> FactHasTypes(f, predToDTs)
    {
      hide *;
      NoneRecorded(types);
      for i := 0 to |program.facts|
        invariant Sound(predToDTs, types) && forall j :: 0 <= j < i ==> program.facts[j].rel in predToDTs
      {
        var f := program.facts[i];
        assert f in program.facts;
        AgreedFact(program, catalog, types, f);
        SoundMore(predToDTs, types, f.rel);
        predToDTs := predToDTs[f.rel := TypesOfRow(f.values)];
      }
      FactsRecorded();
      for i := 0 to |program.rules|
        invariant Sound(predToDTs, types) && FactsDone()
        invariant forall j :: 0 <= j < i ==> RuleListed(program.rules[j], predToDTs)
      {
        assert program.rules[i] in program.rules;
        RankedRule(program, rank, program.rules[i]);
        ghost var now := predToDTs;
        AnalyzeRuleDTs(program.rules[i], types, rank);
        forall j | 0 <= j < i ensures RuleListed(program.rules[j], predToDTs) {
          StillListed(program.rules[j], now, predToDTs);
        }
      }
      forall r | r in program.rules ensures RuleTyped(r, predToDTs) {
        ListedTyped(program, catalog, types, r, predToDTs);
      }
      FactsAre();
      FactsTyped(program, catalog, types, predToDTs);
    }

    lemma FactsRecorded()
      requires forall j :: 0 <= j < |program.facts| ==> program.facts[j].rel in predToDTs
      ensures FactsDone()
    {
    }

    /** The same, starting from the dependency graph: without a cycle in it there is a rank to descend. */
    method AnalyzeAcyclicProgram(ghost types: Typing, ghost g: RelGraph)
      requires Agreed(program, catalog, types) && IsRelGraph(g, program.rules) && Acyclic(g) && predToDTs == map[]
      modifies this
      ensures Sound(predToDTs, types)
      ensures forall r :: r in program.rules ==> RuleTyped(r, predToDTs)
      ensures forall f :: f in program.facts ==> FactHasTypes(f, predToDTs)
    {
      AcyclicIff(program, g);
      hide *;
      ghost var rank :| NonRecursive(program, rank);
      AnalyzeProgramDTs(types, rank);
    }
  }

  lemma NoneRecorded(types: Typing)
    ensures Sound(map[], types)
  {
  }

  lemma SoundMore(found: Typing, types: Typing, q: string)
    requires Sound(found, types) && q in types
    ensures Sound(found[q := types[q]], types)
  {
  }

  lemma StillListed(r: Rule, now: Typing, later: Typing)
    requires RuleListed(r, now) && Grown(now, later)
    ensures RuleListed(r, later)
  {
  }
}
