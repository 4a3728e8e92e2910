/** Over compatible variables, attribute names tell which variable a column holds; all their rules pass the check
    on names. */
module NamingProofs {
  import opened Names
  import opened UniqueNames
  import opened Algebra
  import opened Datalog
  import opened RuleTranslation
  import opened GoalNaming
  import opened RuleProofs
  import opened RuleTheorem

  ghost predicate ConstNameIn(name: string, at: set<nat>) {
    exists g: nat, a: nat :: g in at && name == ConstName(g, a)
  }

  /** A column of a variable is named in its family, one of a constant like a constant of one of the goals at these
      places. */
  ghost predicate Denotes(names: seq<string>, args: seq<Term>, at: set<nat>) {
    && |names| == |args|
    && (forall i :: 0 <= i < |args| && args[i].Var? ==> InFamily(names[i], args[i].name))
    && (forall i :: 0 <= i < |args| && args[i].Const? ==> ConstNameIn(names[i], at))
  }

  /** The first column of a variable carries its plain name. */
  ghost predicate Firsts(names: seq<string>, args: seq<Term>) {
    && |names| == |args|
    && forall i :: 0 <= i < |args| && args[i].Var? && args[i] !in args[..i] ==> names[i] == args[i].name
  }

  ghost predicate Named(names: seq<string>, args: seq<Term>, at: set<nat>) {
    Denotes(names, args, at) && Firsts(names, args)
  }

  lemma ConstNameFree(name: string, at: set<nat>, vars: set<string>, v: string)
    requires Compatible(vars) && v in vars && ConstNameIn(name, at)
    ensures !InFamily(name, v)
  {
    var g: nat, a: nat :| g in at && name == ConstName(g, a);
  }

  lemma ConstNamesApart(n1: string, n2: string, at1: set<nat>, at2: set<nat>)
    requires ConstNameIn(n1, at1) && ConstNameIn(n2, at2) && at1 !! at2
    ensures n1 != n2
  {
    var g: nat, a: nat :| g in at1 && n1 == ConstName(g, a);
    var h: nat, b: nat :| h in at2 && n2 == ConstName(h, b);
    if n1 == n2 {
      ConstNameInjective(g, a, h, b);
    }
  }

  /** Equal names of two columns mean the same variable, unless both are constants. */
  lemma SameName(names1: seq<string>, args1: seq<Term>, at1: set<nat>, i: nat,
                 names2: seq<string>, args2: seq<Term>, at2: set<nat>, j: nat, vars: set<string>)
    requires Compatible(vars) && TermVars(args1) <= vars && TermVars(args2) <= vars
    requires Denotes(names1, args1, at1) && Denotes(names2, args2, at2)
    requires i < |args1| && j < |args2| && names1[i] == names2[j]
    ensures args1[i].Var? || args2[j].Var? ==> args1[i] == args2[j]
  {
    if args1[i].Var? { assert args1[i].name in TermVars(args1); }
    if args2[j].Var? { assert args2[j].name in TermVars(args2); }
    if args1[i].Var? && args2[j].Var? {
      FamiliesNested(names1[i], args1[i].name, args2[j].name);
    } else if args1[i].Var? {
      ConstNameFree(names2[j], at2, vars, args1[i].name);
    } else if args2[j].Var? {
      ConstNameFree(names1[i], at1, vars, args2[j].name);
    }
  }

  /** A column that carries the plain name of a variable holds that variable. */
  lemma PlainName(names: seq<string>, args: seq<Term>, at: set<nat>, i: nat, x: string, vars: set<string>)
    requires Compatible(vars) && TermVars(args) <= vars && x in vars
    requires Denotes(names, args, at) && i < |args| && names[i] == x
    ensures args[i] == Var(x)
  {
    assert Denotes([x], [Var(x)], {});
    assert TermVars([Var(x)]) <= vars;
    SameName(names, args, at, i, [x], [Var(x)], {}, 0, vars);
  }

  lemma {:induction false} FirstOccurrence(args: seq<Term>, t: Term) returns (i: nat)
    requires t in args
    ensures i < |args| && args[i] == t && t !in args[..i]
  {
    var front := args[..|args| - 1];
    assert args == front + [args[|args| - 1]];
    if t in front {
      i := FirstOccurrence(front, t);
      assert args[..i] == front[..i];
    } else {
      i := |args| - 1;
    }
  }

  lemma PlainColumn(names: seq<string>, args: seq<Term>, x: string) returns (i: nat)
    requires Firsts(names, args) && x in TermVars(args)
    ensures i < |args| && args[i] == Var(x) && names[i] == x
  {
    i := FirstOccurrence(args, Var(x));
  }

  lemma {:induction false} ConstCountGrows(args: seq<Term>, i: nat, k: nat)
    requires k < i <= |args| && args[k].Const?
    ensures ConstCount(args[..k]) < ConstCount(args[..i])
  {
    assert args[..i][..i - 1] == args[..i - 1];
    if k < i - 1 {
      ConstCountGrows(args, i - 1, k);
    }
  }

  /** `MakeUnique` keeps every name that must survive: plain names and names of constants. */
  lemma UniqueKeepsNamed(names: seq<string>, args: seq<Term>, at: set<nat>, all: set<string>, vars: set<string>)
    requires Compatible(vars) && TermVars(args) <= vars && Named(names, args, at)
    requires forall i, k :: 0 <= k < i < |args| && args[i].Const? && args[k].Const? ==> names[k] != names[i]
    ensures Named(MakeUnique(names, all), args, at) && NoDup(MakeUnique(names, all))
  {
    var r := MakeUnique(names, all);
    MakeUniqueProps(names, all);
    forall i | 0 <= i < |args|
      ensures args[i].Var? ==> InFamily(r[i], args[i].name)
      ensures args[i].Const? || (args[i].Var? && args[i] !in args[..i]) ==> r[i] == names[i]
    {
      if args[i].Const? || args[i] !in args[..i] {
        forall k | 0 <= k < i ensures names[k] != names[i] {
          if names[k] == names[i] {
            SameName(names, args, at, k, names, args, at, i, vars);
          }
        }
        assert names[i] !in names[..i];
      }
      if args[i].Var? {
        FamilyTransitive(r[i], names[i], args[i].name);
      }
    }
  }

  lemma FamilyTransitive(a: string, b: string, c: string)
    requires InFamily(a, b) && InFamily(b, c)
    ensures InFamily(a, c)
  {
    if a != b && b != c {
      assert a[..|c|] == b[..|c|];
      assert a[|c|..] == b[|c|..] + a[|b|..];
    }
  }

  lemma GoalNamesNamed(args: seq<Term>, goalPos: nat, vars: set<string>)
    requires Compatible(vars) && TermVars(args) <= vars
    ensures Named(GoalNames(args, goalPos), args, {goalPos}) && NoDup(GoalNames(args, goalPos))
  {
    var raw := RawNames(args, goalPos);
    forall i, k | 0 <= k < i < |args| && args[i].Const? && args[k].Const? ensures raw[k] != raw[i] {
      ConstCountGrows(args, i, k);
      if raw[k] == raw[i] {
        ConstNameInjective(goalPos, ConstCount(args[..k]), goalPos, ConstCount(args[..i]));
      }
    }
    UniqueKeepsNamed(raw, args, {goalPos}, Elements(raw), vars);
  }

  lemma ConcatNamed(n1: seq<string>, a1: seq<Term>, at1: set<nat>, n2: seq<string>, a2: seq<Term>, at2: set<nat>)
    requires Named(n1, a1, at1) && Named(n2, a2, at2)
    ensures Named(n1 + n2, a1 + a2, at1 + at2)
  {
    var n, a := n1 + n2, a1 + a2;
    forall i | 0 <= i < |a|
      ensures a[i].Var? ==> InFamily(n[i], a[i].name)
      ensures a[i].Const? ==> ConstNameIn(n[i], at1 + at2)
      ensures a[i].Var? && a[i] !in a[..i] ==> n[i] == a[i].name
    {
      if i < |a1| {
        assert n[i] == n1[i] && a[i] == a1[i] && a[..i] == a1[..i];
      } else {
        assert n[i] == n2[i - |a1|] && a[i] == a2[i - |a1|] && a[..i] == a1 + a2[..i - |a1|];
      }
    }
  }

  /** The names of a join result again tell the variables, and they are all different. */
  lemma JoinNamesNamed(n1: seq<string>, a1: seq<Term>, at1: set<nat>, n2: seq<string>, a2: seq<Term>, at2: set<nat>,
                       all: set<string>, vars: set<string>)
    requires Compatible(vars) && TermVars(a1 + a2) <= vars && at1 !! at2
    requires Named(n1, a1, at1) && NoDup(n1)
    requires Named(n2, a2, at2) && NoDup(n2)
    ensures Named(MakeUnique(n1 + n2, all), a1 + a2, at1 + at2) && NoDup(MakeUnique(n1 + n2, all))
  {
    ConcatNamed(n1, a1, at1, n2, a2, at2);
    var n, a := n1 + n2, a1 + a2;
    forall i, k | 0 <= k < i < |a| && a[i].Const? && a[k].Const? ensures n[k] != n[i] {
      if i < |a1| {
        assert n1[k] != n1[i];
      } else if k >= |a1| {
        assert n2[k - |a1|] != n2[i - |a1|];
      } else {
        assert n[k] == n1[k] && n[i] == n2[i - |a1|];
        ConstNamesApart(n1[k], n2[i - |a1|], at1, at2);
      }
    }
    UniqueKeepsNamed(n, a, at1 + at2, all, vars);
  }

  // ----- The check -----

  /** The places of the first `k` goals. */
  ghost function Before(at: seq<nat>, k: nat): set<nat>
    requires k <= |at|
  {
    set i | 0 <= i < k :: at[i]
  }

  lemma BeforeNext(at: seq<nat>, k: nat)
    requires k < |at| && NoDup(at)
    ensures Before(at, k + 1) == Before(at, k) + {at[k]} && Before(at, k) !! {at[k]}
  {
  }

  lemma {:induction false} BeforeNamed(start: seq<string>, atoms: seq<Atom>, at: seq<nat>, lo: nat, k: nat, vars: set<string>)
    requires lo <= k <= |atoms| == |at| && Compatible(vars) && TermVars(BodyArgs(atoms[..k])) <= vars && NoDup(at)
    requires Named(start, BodyArgs(atoms[..lo]), Before(at, lo))
    ensures Named(NamesBefore(start, atoms, at, lo, k), BodyArgs(atoms[..k]), Before(at, k))
    decreases k
  {
    hide Named, Compatible, GoalNames, TermVars, BodyArgs, Before, NoDup;
    if lo < k {
      BodyArgsStep(atoms, k);
      TermVarsConcat(BodyArgs(atoms[..k - 1]), atoms[k - 1].args);
      BeforeNamed(start, atoms, at, lo, k - 1, vars);
      GoalNamesNamed(atoms[k - 1].args, at[k - 1], vars);
      BeforeNext(at, k - 1);
      ConcatNamed(NamesBefore(start, atoms, at, lo, k - 1), BodyArgs(atoms[..k - 1]), Before(at, k - 1),
                  GoalNames(atoms[k - 1].args, at[k - 1]), atoms[k - 1].args, {at[k - 1]});
    }
  }

  lemma {:induction false} AfterNamed(start: seq<string>, atoms: seq<Atom>, at: seq<nat>, lo: nat, k: nat, all: set<string>,
                                      vars: set<string>)
    requires lo <= k <= |atoms| == |at| && Compatible(vars) && TermVars(BodyArgs(atoms[..k])) <= vars && NoDup(at)
    requires Named(start, BodyArgs(atoms[..lo]), Before(at, lo)) && NoDup(start)
    ensures var names := SchemaAfter(start, atoms, at, lo, k, all);
      Named(names, BodyArgs(atoms[..k]), Before(at, k)) && NoDup(names)
    decreases k
  {
    hide Named, Compatible, GoalNames, TermVars, BodyArgs, MakeUnique, NoDup, Before;
    if lo < k {
      BodyArgsStep(atoms, k);
      TermVarsConcat(BodyArgs(atoms[..k - 1]), atoms[k - 1].args);
      AfterNamed(start, atoms, at, lo, k - 1, all, vars);
      GoalNamesNamed(atoms[k - 1].args, at[k - 1], vars);
      BeforeNext(at, k - 1);
      JoinNamesNamed(SchemaAfter(start, atoms, at, lo, k - 1, all), BodyArgs(atoms[..k - 1]), Before(at, k - 1),
                     GoalNames(atoms[k - 1].args, at[k - 1]), atoms[k - 1].args, {at[k - 1]}, all, vars);
    }
  }

  lemma NamedApart(left: seq<string>, a1: seq<Term>, at1: set<nat>, right: seq<string>, a2: seq<Term>, at2: set<nat>,
                   vars: set<string>)
    requires Compatible(vars) && TermVars(a1) <= vars && TermVars(a2) <= vars && at1 !! at2
    requires Named(left, a1, at1) && Named(right, a2, at2)
    ensures Apart(left, a1, right, a2)
  {
    forall i, j | 0 <= i < |left| && 0 <= j < |right| && left[i] == right[j] ensures a1[i] == a2[j] {
      SameName(left, a1, at1, i, right, a2, at2, j, vars);
      if a1[i].Const? && a2[j].Const? {
        ConstNamesApart(left[i], right[j], at1, at2);
      }
    }
  }

  lemma CompatibleJoins(start: seq<string>, atoms: seq<Atom>, at: seq<nat>, lo: nat, hi: nat, vars: set<string>)
    requires lo <= hi <= |atoms| == |at| && Compatible(vars) && TermVars(BodyArgs(atoms)) <= vars && NoDup(at)
    requires Named(start, BodyArgs(atoms[..lo]), Before(at, lo))
    ensures JoinsApart(start, atoms, at, lo, hi)
  {
    hide Named, Compatible, GoalNames, TermVars, BodyArgs, Apart, NamesBefore, Before, NoDup;
    assert atoms[..|atoms|] == atoms;
    forall k | lo <= k < hi
      ensures Apart(NamesBefore(start, atoms, at, lo, k), BodyArgs(atoms[..k]), GoalNames(atoms[k].args, at[k]),
                    atoms[k].args) {
      BodyArgsVars(atoms, k, |atoms|);
      BodyArgsVars(atoms, |atoms|, |atoms|);
      BeforeNamed(start, atoms, at, lo, k, vars);
      GoalNamesNamed(atoms[k].args, at[k], vars);
      BeforeNext(at, k);
      NamedApart(NamesBefore(start, atoms, at, lo, k), BodyArgs(atoms[..k]), Before(at, k), GoalNames(atoms[k].args, at[k]),
                 atoms[k].args, {at[k]}, vars);
    }
  }

  lemma NamedFindOwn(names: seq<string>, args: seq<Term>, at: set<nat>, vars: set<string>, x: string)
    requires Compatible(vars) && TermVars(args) <= vars && Named(names, args, at) && x in TermVars(args)
    ensures FindsOwn(names, args, x) && HasOwn(names, args, x)
    ensures forall found :: OnlyOwn(names, found, args, x)
  {
    var i := PlainColumn(names, args, x);
    PlainName(names, args, at, NamePos(names, x), x, vars);
    forall i | 0 <= i < |names| && names[i] == x ensures args[i] == Var(x) {
      PlainName(names, args, at, i, x, vars);
    }
  }

  /** The variables of a safe rule all occur in its positive goals. */
  lemma SafeVars(r: Rule)
    requires Safe(r)
    ensures var atoms, n := JoinOrder(r), PosCount(r);
      && 0 < n && TermVars(BodyArgs(atoms)) <= PosVars(r) && TermVars(BodyArgs(atoms[..n])) == PosVars(r)
      && TestVars(r.body) + TermVars(BodyArgs(atoms[n..])) <= PosVars(r) && HeadVars(r.headArgs) <= PosVars(r)
  {
    hide Atoms, PosAtoms, NegAtoms, TermVars, BodyArgs, ExprVars, Safe;
    SafeIff(r);
    var pos, neg := PosAtoms(Atoms(r.body)), NegAtoms(Atoms(r.body));
    forall i | 0 <= i < |neg| ensures TermVars(neg[i].args) <= PosVars(r) {
      assert neg[i] in neg;
    }
    ArgsWithin(neg, PosVars(r));
    BodyArgsConcat(pos, neg);
    TermVarsConcat(BodyArgs(pos), BodyArgs(neg));
  }

  lemma {:induction false} ArgsWithin(atoms: seq<Atom>, vars: set<string>)
    requires forall i :: 0 <= i < |atoms| ==> TermVars(atoms[i].args) <= vars
    ensures TermVars(BodyArgs(atoms)) <= vars
  {
    if atoms != [] {
      ArgsWithin(atoms[..|atoms| - 1], vars);
      TermVarsConcat(BodyArgs(atoms[..|atoms| - 1]), atoms[|atoms| - 1].args);
    }
  }

  /** Rules over compatible variables pass the check, whatever their goals are, unless the head misses a variable. */
  lemma CompatibleBody(r: Rule)
    requires Safe(r) && Compatible(PosVars(r))
    ensures BodyApart(r) && HeadOwn(r)
    ensures forall x :: x in HeadVars(r.headArgs) ==> HasOwn(RuleSchema(r), BodyArgs(JoinOrder(r)), x)
  {
    hide Named, Compatible, GoalNames, TermVars, BodyArgs, JoinsApart, NamesBefore, SchemaAfter, Safe, NoDup, Atoms, PosCount,
         PosVars, FindsOwn, HasOwn, OnlyOwn, TestVars, HeadVars, Elements, JoinOrder, Places, Before;
    var atoms, at, n, vars := JoinOrder(r), Places(r), PosCount(r), PosVars(r);
    SafeVars(r);
    PlacesDistinct(r);
    FirstGoalNamed(atoms, at, vars);
    CompatibleJoins([], atoms, at, 0, n, vars);
    AfterNamed(GoalNames(atoms[0].args, at[0]), atoms, at, 1, n, Elements(NamesBefore([], atoms, at, 1, n)), vars);
    var names := PositiveSchema(atoms, at, n);
    CompatibleJoins(names, atoms, at, n, |atoms|, vars);
    forall x | x in vars ensures FindsOwn(names, BodyArgs(atoms[..n]), x) {
      NamedFindOwn(names, BodyArgs(atoms[..n]), Before(at, n), vars, x);
    }
    assert atoms[..|atoms|] == atoms;
    AfterNamed(names, atoms, at, n, |atoms|, Elements(NamesBefore([], atoms, at, n, |atoms|)), vars);
    BodyArgsVars(atoms, n, |atoms|);
    forall x | x in vars
      ensures HasOwn(RuleSchema(r), BodyArgs(atoms), x) && forall found :: OnlyOwn(RuleSchema(r), found, BodyArgs(atoms), x) {
      NamedFindOwn(RuleSchema(r), BodyArgs(atoms), Before(at, |atoms|), vars, x);
    }
  }

  /** With the positive atoms first the head misses none. */
  lemma CompatibleApart(r: Rule)
    requires Safe(r) && Compatible(PosVars(r))
    ensures NamesApart(r) <==> HeadNamed(r)
    ensures PositiveFirst(Atoms(r.body)) ==> NamesApart(r)
  {
    hide Safe, Compatible, PosVars, BodyApart, HeadOwn, HasOwn, RuleSchema, BodyArgs, HeadVars, Atoms;
    CompatibleBody(r);
    SafeVars(r);
    if PositiveFirst(Atoms(r.body)) {
      InOrder(Atoms(r.body));
      assert JoinOrder(r) == Atoms(r.body);
    }
  }

  lemma FirstGoalNamed(atoms: seq<Atom>, at: seq<nat>, vars: set<string>)
    requires atoms != [] && |at| == |atoms| && Compatible(vars) && TermVars(BodyArgs(atoms)) <= vars
    ensures Named([], BodyArgs(atoms[..0]), Before(at, 0))
    ensures Named(GoalNames(atoms[0].args, at[0]), BodyArgs(atoms[..1]), Before(at, 1))
    ensures NoDup(GoalNames(atoms[0].args, at[0]))
  {
    hide Compatible, GoalNames;
    assert BodyArgs(atoms[..0]) == [];
    BodyArgsStep(atoms, 1);
    assert [] + atoms[0].args == atoms[0].args && atoms[..|atoms|] == atoms;
    BodyArgsVars(atoms, |atoms|, |atoms|);
    GoalNamesNamed(atoms[0].args, at[0], vars);
    assert Before(at, 1) == {at[0]};
  }
}
