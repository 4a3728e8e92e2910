/** The loops that translate a rule, each proved to build the tree `RuleTranslation` describes. */
module RuleTranslator {
  import opened Names
  import opened UniqueNames
  import opened Algebra
  import opened Datalog
  import opened RuleTranslation

  lemma {:induction false} NotCommon(leftOrig: seq<string>, name: string, rPos: nat, n: nat)
    requires n <= |leftOrig| && name !in leftOrig
    ensures CondsOfRight(leftOrig, name, rPos, n) == []
  {
    if n > 0 {
      NotCommon(leftOrig, name, rPos, n - 1);
    }
  }

  method CreateJoinCondOnCommonAttrs(right: seq<string>, leftOrig: seq<string>) returns (cond: seq<Comparison>)
    ensures cond == JoinConds(leftOrig, right, |right|)
  {
    var common := Elements(leftOrig) * Elements(right);
    cond := [];
    for rPos := 0 to |right|
      invariant cond == JoinConds(leftOrig, right, rPos)
    {
      if right[rPos] in common {
        for lPos := 0 to |leftOrig|
          invariant cond == JoinConds(leftOrig, right, rPos) + CondsOfRight(leftOrig, right[rPos], rPos, lPos)
        {
          if leftOrig[lPos] == right[rPos] {
            cond := cond + [Comparison("=", Ref(0, lPos), Ref(1, rPos))];
          }
        }
      } else {
        NotCommon(leftOrig, right[rPos], rPos, |leftOrig|);
      }
    }
  }

  lemma OrigNamesMore(ops: seq<Op>, k: nat)
    requires 0 < k <= |ops|
    ensures OrigNames(ops[..k]) == OrigNames(ops[..k - 1]) + Schema(ops[k - 1])
  {
    assert ops[..k][..k - 1] == ops[..k - 1];
  }

  method JoinGoalTranslations(goalTrans: seq<Op>) returns (result: Op)
    requires goalTrans != []
    ensures result == JoinGoals(goalTrans)
  {
    hide Schema, JoinConds, MakeUnique;
    result := goalTrans[0];
    var allNames: set<string> := {};
    var origAttrs := Schema(result);
    ghost var rest := goalTrans[1..];
    for i := 1 to |goalTrans|
      invariant allNames == Elements(OrigNames(rest[..i - 1]))
    {
      OrigNamesMore(rest, i);
      allNames := allNames + Elements(Schema(goalTrans[i]));
    }
    assert rest[..|rest|] == rest;
    for i := 1 to |goalTrans|
      invariant JoinState(result, origAttrs) == JoinUpTo(goalTrans, allNames, i)
    {
      var goal := goalTrans[i];
      var attrNames := MakeNamesUnique(Schema(result) + Schema(goal), allNames);
      var cond := CreateJoinCondOnCommonAttrs(Schema(goal), origAttrs);
      result := Join(cond, result, goal, attrNames);
      origAttrs := origAttrs + Schema(goal);
    }
  }

  method SelectConstants(args: seq<Term>) returns (sel: seq<Comparison>)
    ensures sel == ConstConds(args, |args|)
  {
    sel := [];
    for i := 0 to |args|
      invariant sel == ConstConds(args, i)
    {
      if args[i].Const? {
        sel := sel + [Comparison("=", Ref(0, i), Lit(args[i].v))];
      }
    }
  }

  lemma {:induction false} NoRepeatsOfConst(args: seq<Term>, i: nat, m: nat)
    requires i < |args| && m <= |args| && args[i].Const?
    ensures RepeatCondsOf(args, i, m) == []
  {
    if m > 0 {
      NoRepeatsOfConst(args, i, m - 1);
    }
  }

  method EquateRepeats(args: seq<Term>) returns (sel: seq<Comparison>)
    ensures sel == RepeatConds(args, |args|)
  {
    sel := [];
    for i := 0 to |args|
      invariant sel == RepeatConds(args, i)
    {
      if args[i].Var? {
        for j := 0 to |args|
          invariant sel == RepeatConds(args, i) + RepeatCondsOf(args, i, j)
        {
          if args[j].Var? && j > i && args[j].name == args[i].name {
            sel := sel + [Comparison("=", Ref(0, i), Ref(0, j))];
          }
        }
      } else {
        NoRepeatsOfConst(args, i, |args|);
      }
    }
  }

  method NameColumns(args: seq<Term>, goalPos: nat) returns (names: seq<string>)
    ensures names == GoalNames(args, goalPos)
  {
    names := [];
    var argPos := 0;
    for i := 0 to |args|
      invariant |names| == i && argPos == ConstCount(args[..i])
      invariant names == RawNames(args, goalPos)[..i]
    {
      assert args[..i + 1][..i] == args[..i];
      if args[i].Var? {
        names := names + [args[i].name];
      } else {
        names := names + [ConstName(goalPos, argPos)];
        argPos := argPos + 1;
      }
    }
    assert RawNames(args, goalPos)[..|args|] == RawNames(args, goalPos);
    names := MakeNamesUnique(names, Elements(names));
  }

  /** Selection, projection and renaming, for positive and negated goals alike. */
  method FinishGoal(base: Op, args: seq<Term>, goalPos: nat) returns (goal: Op)
    ensures goal == RenamedGoal(base, args, goalPos)
  {
    var constants := SelectConstants(args);
    var repeats := EquateRepeats(args);
    var sel := constants + repeats;
    var input := if sel != [] then Selection(sel, base) else base;
    var names := NameColumns(args, goalPos);
    goal := Projection(AllRefs(|args|), input, names);
  }

  method ProjectPositivePart(args: seq<Term>, posPart: Op) returns (dom: Op, names: seq<string>)
    ensures names == DomainNames(args)
    ensures dom == Projection(DomainExprs(args, Schema(posPart)), posPart, names)
  {
    hide Schema, NamePos, Dec;
    var exprs := [];
    names := [];
    for i := 0 to |args|
      invariant names == DomainNames(args[..i])
      invariant exprs == DomainExprs(args, Schema(posPart))[..i]
    {
      assert args[..i + 1][..i] == args[..i];
      assert DomainExprs(args, Schema(posPart))[..i + 1]
          == DomainExprs(args, Schema(posPart))[..i] + [DomainExpr(args[i], Schema(posPart))];
      match args[i] {
        case Var(x) =>
          exprs := exprs + [Ref(0, NamePos(Schema(posPart), x))];
          names := names + [if x in names then x + Dec(i) else x];
        case Const(v) =>
          exprs := exprs + [Lit(v)];
          names := names + ["C_" + Dec(i)];
      }
    }
    assert args[..|args|] == args;
    dom := Projection(exprs, posPart, names);
  }

  method TranslateSafeGoal(a: Atom, goalPos: nat, posPart: Option<Op>, idb: set<string>) returns (goal: Op)
    requires a.negated ==> posPart.Some?
    ensures goal == if a.negated then NegGoal(a, goalPos, posPart.value, idb) else PosGoal(a, goalPos, idb)
  {
    var rel := TableAccess(a.rel, |a.args|, a.rel in idb);
    var base := rel;
    if a.negated {
      var dom, names := ProjectPositivePart(a.args, posPart.value);
      base := Difference(dom, rel, names);
    }
    goal := FinishGoal(base, a.args, goalPos);
  }

  method CreateCondFromComparisons(body: seq<Literal>, names: seq<string>) returns (cond: seq<Comparison>)
    ensures cond == TestConds(body, names)
  {
    cond := [];
    for i := 0 to |body|
      invariant cond == TestConds(body[..i], names)
    {
      assert body[..i + 1][..i] == body[..i];
      if body[i].Test? {
        cond := cond + [Comparison(body[i].op, ReplaceByName(body[i].left, names), ReplaceByName(body[i].right, names))];
      }
    }
    assert body[..|body|] == body;
  }

  method GetHeadProjectionExprs(headArgs: seq<Expr>, names: seq<string>, bodyArgs: seq<Term>)
    returns (exprs: seq<Scalar>, vToA: map<string, nat>)
    ensures vToA == HeadMap(bodyArgs, names, if |bodyArgs| <= |names| then |bodyArgs| else |names|)
    ensures exprs == HeadExprs(headArgs, vToA)
  {
    vToA := map[];
    var pos := 0;
    while pos < |bodyArgs| && pos < |names|
      invariant pos <= |bodyArgs| && pos <= |names| && vToA == HeadMap(bodyArgs, names, pos)
    {
      if bodyArgs[pos].Var? && bodyArgs[pos].name == names[pos] {
        vToA := vToA[names[pos] := pos];
      }
      pos := pos + 1;
    }
    exprs := [];
    for i := 0 to |headArgs|
      invariant exprs == HeadExprs(headArgs, vToA)[..i]
    {
      exprs := exprs + [ReplaceByMap(headArgs[i], vToA)];
    }
  }

  lemma AggPrefix(exprs: seq<Scalar>, i: nat)
    requires i < |exprs|
    ensures AggCalls(exprs[..i + 1]) == AggCalls(exprs[..i]) + if exprs[i].AggCall? then [exprs[i]] else []
    ensures GroupRefs(exprs[..i + 1]) == GroupRefs(exprs[..i]) + if exprs[i].Ref? then [exprs[i]] else []
    ensures AggHeadNames(exprs[..i + 1]) == AggHeadNames(exprs[..i])
      + if exprs[i].Ref? then ["GROUP_" + Dec(|GroupRefs(exprs[..i])|)]
        else if exprs[i].AggCall? then ["AGGR_" + Dec(|AggCalls(exprs[..i])|)] else []
  {
    assert exprs[..i + 1][..i] == exprs[..i];
  }

  lemma NumberedNamesMore(prefix: string, n: nat)
    ensures NumberedNames(prefix, n + 1) == NumberedNames(prefix, n) + [prefix + Dec(n)]
  {
  }

  lemma NothingYet()
    ensures AggCalls([]) == [] && GroupRefs([]) == [] && AggHeadNames([]) == []
    ensures NumberedNames("GROUP_", 0) == [] && NumberedNames("AGGR_", 0) == []
  {
  }

  method TranslateHeadAggregation(exprs: seq<Scalar>, joined: Op) returns (r: Option<Op>)
    ensures r == if AggHeadAllowed(exprs) then Some(AggHead(exprs, joined)) else None
  {
    hide NumberedNames, Dec, AggCalls, GroupRefs, AggHeadNames;
    var groupBy, aggs: seq<Scalar> := [], [];
    var groupNames, funcNames, attrNames: seq<string> := [], [], [];
    NothingYet();
    assert exprs[..0] == [];
    for i := 0 to |exprs|
      invariant AggHeadAllowed(exprs[..i])
      invariant groupBy == GroupRefs(exprs[..i]) && aggs == AggCalls(exprs[..i]) && attrNames == AggHeadNames(exprs[..i])
      invariant groupNames == NumberedNames("GROUP_", |groupBy|) && funcNames == NumberedNames("AGGR_", |aggs|)
    {
      AggPrefix(exprs, i);
      NumberedNamesMore("GROUP_", |groupBy|);
      NumberedNamesMore("AGGR_", |aggs|);
      assert exprs[..i + 1] == exprs[..i] + [exprs[i]];
      if exprs[i].Ref? {
        var name := "GROUP_" + Dec(|groupBy|);
        groupBy, groupNames, attrNames := groupBy + [exprs[i]], groupNames + [name], attrNames + [name];
      } else if exprs[i].AggCall? {
        var name := "AGGR_" + Dec(|aggs|);
        aggs, funcNames, attrNames := aggs + [exprs[i]], funcNames + [name], attrNames + [name];
      } else {
        assert exprs[i] in exprs;
        return None;
      }
    }
    assert exprs[..|exprs|] == exprs;
    var names := funcNames + groupNames;
    var ao := Aggregation(aggs, groupBy, joined, names);
    r := Some(Projection(RefsByName(attrNames, names), ao, DefaultNames(|attrNames|)));
  }

  /** Goals are counted, whether positive or not; comparisons are skipped. */
  method TranslatePositiveGoals(body: seq<Literal>, idb: set<string>) returns (goals: seq<Op>)
    ensures goals == PosGoals(Atoms(body), idb)
  {
    hide PosGoal, NegGoal, Atoms;
    NoGoals(body);
    goals := [];
    var goalPos := 0;
    for i := 0 to |body|
      invariant goalPos == |Atoms(body[..i])| && goals == PosGoals(Atoms(body[..i]), idb)
    {
      AtomsStep(body, i);
      assert Atoms(body[..i]) + [] == Atoms(body[..i]);
      if body[i].Goal? {
        var a := body[i].atom;
        GoalsStep(Atoms(body[..i]), a, idb);
        if !a.negated {
          var tG := TranslateSafeGoal(a, goalPos, None, idb);
          goals := goals + [tG];
        }
        goalPos := goalPos + 1;
      }
    }
    assert body[..|body|] == body;
  }

  method TranslateNegatedGoals(body: seq<Literal>, posPart: Op, idb: set<string>) returns (goals: seq<Op>)
    ensures goals == NegGoals(Atoms(body), posPart, idb)
  {
    hide PosGoal, NegGoal, Atoms;
    NoGoals(body);
    goals := [];
    var goalPos := 0;
    for i := 0 to |body|
      invariant goalPos == |Atoms(body[..i])| && goals == NegGoals(Atoms(body[..i]), posPart, idb)
    {
      AtomsStep(body, i);
      assert Atoms(body[..i]) + [] == Atoms(body[..i]);
      if body[i].Goal? {
        var a := body[i].atom;
        NegGoalsStep(Atoms(body[..i]), a, posPart, idb);
        if a.negated {
          var tG := TranslateSafeGoal(a, goalPos, Some(posPart), idb);
          goals := goals + [tG];
        }
        goalPos := goalPos + 1;
      }
    }
    assert body[..|body|] == body;
  }

  lemma NoGoals(body: seq<Literal>)
    ensures Atoms(body[..0]) == []
  {
  }

  lemma GoalsStep(atoms: seq<Atom>, a: Atom, idb: set<string>)
    ensures PosGoals(atoms + [a], idb)
         == PosGoals(atoms, idb) + if a.negated then [] else [PosGoal(a, |atoms|, idb)]
    ensures atoms + [] == atoms
  {
    assert (atoms + [a])[..|atoms|] == atoms;
  }

  lemma NegGoalsStep(atoms: seq<Atom>, a: Atom, posPart: Op, idb: set<string>)
    ensures NegGoals(atoms + [a], posPart, idb)
         == NegGoals(atoms, posPart, idb) + if a.negated then [NegGoal(a, |atoms|, posPart, idb)] else []
    ensures atoms + [] == atoms
  {
    assert (atoms + [a])[..|atoms|] == atoms;
  }

  /** The tree of a rule, and its joined positive part, which the tree holds once for every negated goal and once more. */
  method TranslateSafeRule(r: Rule, idb: set<string>) returns (t: Option<Op>, posPart: Option<Op>)
    ensures t == TranslateRule(r, idb)
    ensures t.Some? ==> PosGoals(Atoms(r.body), idb) != [] && posPart == Some(JoinedPositive(r, idb))
  {
    hide JoinGoals, Schema, PosGoals, NegGoals, TestConds, HeadMap, HeadExprs, AggHead, PlainHead, Atoms, BodyArgs;
    var posGoals := TranslatePositiveGoals(r.body, idb);
    if posGoals == [] {
      return None, None;
    }
    var joinedGoals := JoinGoalTranslations(posGoals);
    var cond := CreateCondFromComparisons(r.body, Schema(joinedGoals));
    if cond != [] {
      joinedGoals := Selection(cond, joinedGoals);
    }
    posPart := Some(joinedGoals);
    var negGoals := TranslateNegatedGoals(r.body, joinedGoals, idb);
    joinedGoals := JoinGoalTranslations([joinedGoals] + negGoals);
    var exprs, vToA := GetHeadProjectionExprs(r.headArgs, Schema(joinedGoals), BodyArgs(Atoms(r.body)));
    if exists e :: e in r.headArgs && !(ExprVars(e) <= vToA.Keys) {
      t := None;
    } else if exists e :: e in r.headArgs && HasAgg(e) {
      t := TranslateHeadAggregation(exprs, joinedGoals);
    } else {
      t := Some(DupRemoval(Projection(exprs, joinedGoals, DefaultNames(|exprs|))));
      assert t.value == PlainHead(exprs, joinedGoals) by { PlainHeadIs(exprs, joinedGoals); }
    }
  }

  lemma PlainHeadIs(exprs: seq<Scalar>, joined: Op)
    ensures PlainHead(exprs, joined) == DupRemoval(Projection(exprs, joined, DefaultNames(|exprs|)))
  {
  }
}
