/** When the names `makeNamesUnique` generates are outside the set of names to avoid. */
module AvoidedNames {
  import opened Names
  import opened UniqueNames
  import opened Datalog
  import opened RuleTranslation
  import opened GoalNaming
  import opened RuleProofs
  import opened RuleTheorem
  import opened NamingProofs

  /** No generated name is one to avoid. */
  predicate Avoids(names: seq<string>, all: set<string>) {
    forall i :: 0 <= i < |names| && names[i] in names[..i] ==> MakeUnique(names, all)[i] !in all
  }

  lemma {:induction false} CellKept(names: seq<string>, all: set<string>, i: nat, n: nat)
    requires i < n <= |names|
    ensures UniqueUpTo(names, all, n)[i] == UniqueUpTo(names, all, i + 1)[i]
  {
    hide FreshName;
    if i + 1 < n {
      CellKept(names, all, i, n - 1);
    }
  }

  /** All names of the list stay in it: the first occurrence is never renamed. */
  lemma ListedStay(names: seq<string>, all: set<string>, n: nat, x: string)
    requires n <= |names| && x in names
    ensures x in UniqueUpTo(names, all, n)
  {
    var r := UniqueUpTo(names, all, n);
    UniqueUpToProps(names, all, n);
    hide UniqueUpTo, InFamily;
    var k := FirstOf(names, x);
    assert r[k] == x;
  }

  /** How a generated name comes about. */
  lemma GeneratedAs(names: seq<string>, all: set<string>, i: nat)
    requires i < |names| && names[i] in names[..i]
    ensures var count := Occurrences(names[i], names[..i]);
      count > 0 && MakeUnique(names, all)[i] == FreshName(names[i], count, all, UniqueUpTo(names, all, i))
  {
    hide FreshName;
    OccurrencesZero(names[i], names[..i]);
    CellKept(names, all, i, |names|);
  }

  /** A generated name is never one of the names in the original list. */
  lemma GeneratedUnlisted(names: seq<string>, all: set<string>, i: nat)
    requires i < |names| && names[i] in names[..i]
    ensures MakeUnique(names, all)[i] !in names
  {
    GeneratedAs(names, all, i);
    hide *;
    var name := MakeUnique(names, all)[i];
    if name in names {
      ListedStay(names, all, i, name);
    }
  }

  /** So generated names avoid `all` whenever `all` holds no other names than the list. */
  lemma ListedAvoided(names: seq<string>, all: set<string>)
    requires forall x :: x in all ==> x in names
    ensures Avoids(names, all)
  {
    hide MakeUnique;
    forall i | 0 <= i < |names| && names[i] in names[..i] ensures MakeUnique(names, all)[i] !in all {
      GeneratedUnlisted(names, all, i);
    }
  }

  /** The call for the columns of a goal is of this kind. */
  lemma GoalAvoids(args: seq<Term>, goalPos: nat)
    ensures Avoids(RawNames(args, goalPos), Elements(RawNames(args, goalPos)))
  {
    hide RawNames, Avoids;
    ListedAvoided(RawNames(args, goalPos), Elements(RawNames(args, goalPos)));
  }

  // ----- Exactly when a search ends at a name to avoid -----

  /** From suffix `from` on, the suffixes taken in the list run up to one that is to be avoided. */
  ghost predicate RunsInto(base: string, from: nat, all: set<string>, current: set<string>) {
    exists k: nat :: EndsRun(base, from, current, k) && base + Dec(k) in all
  }

  ghost predicate EndsRun(base: string, from: nat, current: set<string>, k: nat) {
    from <= k && base + Dec(k) !in current && forall j: nat :: from <= j < k ==> base + Dec(j) in current
  }

  lemma {:induction false} NextFreeLeast(base: string, count: nat, taken: set<string>)
    ensures EndsRun(base, count, taken, NextFree(base, count, taken))
    decreases Remaining(base, count, taken)
  {
    if base + Dec(count) in taken {
      RemainingShrinks(base, count, taken);
      NextFreeLeast(base, count + 1, taken);
    }
  }

  lemma OneEnd(base: string, from: nat, current: set<string>, k: nat, m: nat)
    requires EndsRun(base, from, current, k) && EndsRun(base, from, current, m)
    ensures k == m
  {
  }

  /** The two searches end at a name to avoid iff the taken suffixes, from the first one outside `all` on, run into one. */
  lemma FreshAvoidsIff(base: string, count: nat, all: set<string>, current: seq<string>)
    requires count > 0
    ensures FreshName(base, count, all, current) !in all
       <==> !RunsInto(base, NextFree(base, count, all), all, set s | s in current)
  {
    hide NextFree, EndsRun, Dec, InFamily;
    var from, taken := NextFree(base, count, all), set s | s in current;
    var free := NextFree(base, from, taken);
    NextFreeLeast(base, from, taken);
    if k: nat :| EndsRun(base, from, taken, k) && base + Dec(k) in all {
      OneEnd(base, from, taken, k, free);
    }
  }

  /** The suffix at which the search for cell `i` leaves `all`. */
  function Start(names: seq<string>, all: set<string>, i: nat): nat
    requires i < |names|
  {
    NextFree(names[i], Occurrences(names[i], names[..i]), all)
  }

  function Taken(names: seq<string>): set<string> {
    set s | s in names
  }

  /** Any call: its generated names avoid `all` iff no search, from its first suffix outside `all` on, runs through names
      already in the list into a name to avoid. */
  lemma AvoidsIff(names: seq<string>, all: set<string>)
    ensures Avoids(names, all)
       <==> forall i :: 0 <= i < |names| && names[i] in names[..i] ==>
              !RunsInto(names[i], Start(names, all, i), all, Taken(UniqueUpTo(names, all, i)))
  {
    hide RunsInto, MakeUnique, UniqueUpTo, FreshName, NextFree, Occurrences;
    forall i | 0 <= i < |names| && names[i] in names[..i]
      ensures MakeUnique(names, all)[i] !in all
         <==> !RunsInto(names[i], Start(names, all, i), all, Taken(UniqueUpTo(names, all, i))) {
      GeneratedAs(names, all, i);
      FreshAvoidsIff(names[i], Occurrences(names[i], names[..i]), all, UniqueUpTo(names, all, i));
    }
  }

  // ----- The call for a join -----

  /** A join concatenates two lists without repetitions; what is repeated are the shared names, once each. */
  lemma JoinCounts(left: seq<string>, right: seq<string>, i: nat)
    requires NoDup(left) && NoDup(right) && i < |left + right|
    ensures (left + right)[i] in (left + right)[..i] <==> i >= |left| && right[i - |left|] in left
    ensures i >= |left| && right[i - |left|] in left ==> Occurrences((left + right)[i], (left + right)[..i]) == 1
  {
    var names := left + right;
    if i < |left| {
      assert names[..i] == left[..i];
      assert forall j :: 0 <= j < i ==> left[..i][j] == left[j];
    } else {
      var j := i - |left|;
      assert names[..i] == left + right[..j];
      assert forall k :: 0 <= k < j ==> right[..j][k] == right[k];
      OccurrencesConcat(right[j], left, right[..j]);
      OccurrencesZero(right[j], right[..j]);
      if right[j] in left { OccursOnce(left, right[j]); }
    }
  }

  lemma {:induction false} OccurrencesConcat(x: string, s: seq<string>, t: seq<string>)
    ensures Occurrences(x, s + t) == Occurrences(x, s) + Occurrences(x, t)
  {
    if t == [] {
      assert s + t == s;
    } else {
      OccurrencesConcat(x, s, t[..|t| - 1]);
      assert (s + t)[..|s + t| - 1] == s + t[..|t| - 1];
    }
  }

  lemma {:induction false} OccursOnce(names: seq<string>, x: string)
    requires NoDup(names) && x in names
    ensures Occurrences(x, names) == 1
  {
    var front, last := names[..|names| - 1], names[|names| - 1];
    assert names == front + [last];
    if x == last {
      assert x !in front;
      OccurrencesZero(x, front);
    } else {
      assert x in front;
      OccursOnce(front, x);
    }
  }

  /** The shared names, of which the right occurrence is renamed. */
  predicate Shared(left: seq<string>, right: seq<string>, j: nat) {
    j < |right| && right[j] in left
  }

  /** In the call for a join the generated names avoid `all` iff no shared name runs into one, starting with suffix 1. */
  lemma JoinAvoidsIff(left: seq<string>, right: seq<string>, all: set<string>)
    requires NoDup(left) && NoDup(right)
    ensures Avoids(left + right, all)
       <==> forall j: nat :: Shared(left, right, j) ==>
              !RunsInto(right[j], NextFree(right[j], 1, all), all, Taken(UniqueUpTo(left + right, all, |left| + j)))
  {
    hide RunsInto, Avoids, UniqueUpTo, NextFree, Occurrences, NoDup;
    var names := left + right;
    AvoidsIff(names, all);
    forall i | 0 <= i < |names|
      ensures names[i] in names[..i] <==> i >= |left| && Shared(left, right, i - |left|)
      ensures i >= |left| && Shared(left, right, i - |left|) ==> Start(names, all, i) == NextFree(right[i - |left|], 1, all)
    {
      JoinCounts(left, right, i);
    }
    forall j: nat | Shared(left, right, j) ensures names[|left| + j] == right[j] && |left| + j < |names| {}
  }

  /** No two different shared names can get the same generated name. */
  ghost predicate Incomparable(left: seq<string>, right: seq<string>) {
    forall j: nat, k: nat :: Shared(left, right, j) && Shared(left, right, k) && right[j] != right[k] ==> !InFamily(right[j], right[k])
  }

  /** Then the condition is one on the two lists and the names to avoid alone. */
  lemma JoinAvoidsStaticIff(left: seq<string>, right: seq<string>, all: set<string>)
    requires NoDup(left) && NoDup(right) && Incomparable(left, right)
    ensures Avoids(left + right, all)
       <==> forall j: nat :: Shared(left, right, j) ==>
              !RunsInto(right[j], NextFree(right[j], 1, all), all, Taken(left + right))
  {
    hide Avoids, NextFree, NoDup, RunsInto, UniqueUpTo, Incomparable;
    JoinAvoidsIff(left, right, all);
    forall j: nat | Shared(left, right, j)
      ensures RunsInto(right[j], NextFree(right[j], 1, all), all, Taken(UniqueUpTo(left + right, all, |left| + j)))
         <==> RunsInto(right[j], NextFree(right[j], 1, all), all, Taken(left + right)) {
      SameRuns(left, right, all, j, NextFree(right[j], 1, all));
    }
  }

  lemma SameRuns(left: seq<string>, right: seq<string>, all: set<string>, j: nat, from: nat)
    requires NoDup(left) && NoDup(right) && Incomparable(left, right) && Shared(left, right, j) && from > 0
    ensures RunsInto(right[j], from, all, Taken(UniqueUpTo(left + right, all, |left| + j)))
       <==> RunsInto(right[j], from, all, Taken(left + right))
  {
    var names := left + right;
    var current := UniqueUpTo(names, all, |left| + j);
    forall k: nat | k >= from ensures right[j] + Dec(k) in current <==> right[j] + Dec(k) in names {
      SameTaken(left, right, all, j, k);
    }
    hide UniqueUpTo;
    forall k: nat ensures EndsRun(right[j], from, Taken(current), k) <==> EndsRun(right[j], from, Taken(names), k) {}
  }

  lemma RenamedCell(names: seq<string>, all: set<string>, n: nat, i: nat)
    requires n <= |names| && i < |names| && UniqueUpTo(names, all, n)[i] !in names
    ensures i < n && names[i] in names[..i] && InFamily(UniqueUpTo(names, all, n)[i], names[i])
  {
    UniqueUpToProps(names, all, n);
    hide UniqueUpTo, InFamily, NoDup;
  }

  lemma Extended(base: string, k: nat)
    requires k > 0
    ensures InFamily(base + Dec(k), base)
  {
    FamilyExtends(base, base, k);
  }

  /** A name with a suffix of shared name `j` is in the renamed list iff it was in the original one. */
  lemma SameTaken(left: seq<string>, right: seq<string>, all: set<string>, j: nat, k: nat)
    requires NoDup(left) && NoDup(right) && Incomparable(left, right) && Shared(left, right, j) && k > 0
    ensures right[j] + Dec(k) in UniqueUpTo(left + right, all, |left| + j) <==> right[j] + Dec(k) in left + right
  {
    assert j < |right|;
    hide *;
    var names, n, name := left + right, |left| + j, right[j] + Dec(k);
    assert |UniqueUpTo(names, all, n)| == |names|;
    var current := UniqueUpTo(names, all, n);
    if name in names {
      ListedStay(names, all, n, name);
    } else if name in current {
      var i :| 0 <= i < |current| && current[i] == name;
      RenamedCell(names, all, n, i);
      JoinCounts(left, right, i);
      NotNested(left, right, i, j);
      Extended(right[j], k);
      FamiliesNested(name, names[i], right[j]);
    }
  }

  lemma NotNested(left: seq<string>, right: seq<string>, i: nat, j: nat)
    requires NoDup(right) && Incomparable(left, right) && Shared(left, right, j)
    requires |left| <= i < |left| + j && right[i - |left|] in left
    ensures var name := (left + right)[i];
      name != right[j] && !InFamily(name, right[j]) && !InFamily(right[j], name)
  {
    hide InFamily;
    var m := i - |left|;
    assert (left + right)[i] == right[m] && Shared(left, right, m) && right[m] != right[j];
  }

  /** A generated name may be one that `allNames` holds: the second search does not consult it. */
  lemma AllNamesNotAvoided()
    ensures MakeUnique(["X", "X1", "X"], {"X", "X2"}) == ["X", "X1", "X2"]
  {
    hide *;
    var names, all := ["X", "X1", "X"], {"X", "X2"};
    OccurrencesZero(names[0], names[..0]);
    OccurrencesZero(names[1], names[..1]);
    TwoNames(names[..2]);
    SecondX(names, all);
    NoneRenamed(names, all);
    UniqueUpToStep(names, all, 1);
    UniqueUpToStep(names, all, 2);
    UniqueUpToStep(names, all, 3);
  }

  lemma TwoNames(names: seq<string>)
    requires names == ["X", "X1"]
    ensures Occurrences("X", names) == 1
  {
    hide Occurrences;
    assert names[0] == "X" && |names[1]| == 2;
    OccursOnce(names, "X");
  }

  lemma NoneRenamed(names: seq<string>, all: set<string>)
    ensures UniqueUpTo(names, all, 0) == names && MakeUnique(names, all) == UniqueUpTo(names, all, |names|)
  {
  }

  lemma SecondX(names: seq<string>, all: set<string>)
    requires names == ["X", "X1", "X"] && all == {"X", "X2"}
    ensures FreshName("X", 1, all, names) == "X2"
  {
    assert Dec(1) == "1" && Dec(2) == "2";
    assert "X" + Dec(1) == "X1" && "X" + Dec(2) == "X2";
    hide Dec, InFamily;
    assert NextFree("X", 1, all) == 1;
    var current := set s | s in names;
    assert names[1] == "X1" && "X2" !in current;
    assert NextFree("X", 1, current) == NextFree("X", 2, current) == 2;
  }

  // ----- What avoiding is good for -----

  /** Columns of variables with different names: the own name or one outside `all`, and each variable has its own once. */
  ghost predicate OwnNames(names: seq<string>, args: seq<Term>, all: set<string>) {
    && |names| == |args| && NoDup(names)
    && (forall i :: 0 <= i < |args| ==> args[i].Var? && (names[i] == args[i].name || names[i] !in all))
    && (forall x :: x in TermVars(args) ==> HasOwn(names, args, x))
  }

  /** A join whose generated names avoid those of the later goals keeps all variables under their own names. */
  lemma JoinKeepsOwn(names: seq<string>, args: seq<Term>, right: seq<Term>, goalPos: nat, all: set<string>)
    requires OwnNames(names, args, all) && DistinctVars(right)
    requires TermVars(right) <= all && Avoids(names + GoalNames(right, goalPos), all)
    ensures OwnNames(MakeUnique(names + GoalNames(right, goalPos), all), args + right, all)
  {
    hide GoalNames, MakeUnique, DistinctVars, TermVars, HasOwn, InFamily, UniqueUpTo;
    var goal := GoalNames(right, goalPos);
    var before, both := names + goal, args + right;
    var after := MakeUnique(before, all);
    DistinctNames(right, goalPos);
    AreVars(right);
    MakeUniqueProps(before, all);
    forall i | 0 <= i < |both| ensures both[i].Var? && (after[i] == both[i].name || after[i] !in all) {
      if before[i] !in before[..i] {
        assert i < |args| ==> before[i] == names[i];
      }
    }
    TermVarsConcat(args, right);
    forall x | x in TermVars(both) ensures HasOwn(after, both, x) {
      if x in TermVars(args) {
        OwnStays(names, args, goal, right, after, x);
      } else {
        OwnComes(names, args, goal, right, after, all, x);
      }
    }
  }

  lemma OwnStays(names: seq<string>, args: seq<Term>, goal: seq<string>, right: seq<Term>, after: seq<string>, x: string)
    requires |names| == |args| && NoDup(names) && HasOwn(names, args, x) && |after| == |names + goal|
    requires forall i :: 0 <= i < |after| && (names + goal)[i] !in (names + goal)[..i] ==> after[i] == (names + goal)[i]
    ensures HasOwn(after, args + right, x)
  {
    var i :| 0 <= i < |names| && i < |args| && names[i] == x && args[i] == Var(x);
    assert (names + goal)[..i] == names[..i] && (names + goal)[i] == names[i];
    assert names[i] !in names[..i];
    assert after[i] == x && (args + right)[i] == Var(x);
  }

  lemma OwnComes(names: seq<string>, args: seq<Term>, goal: seq<string>, right: seq<Term>, after: seq<string>,
                 all: set<string>, x: string)
    requires |names| == |args| && x !in TermVars(args) && x in TermVars(right) && x in all
    requires forall i :: 0 <= i < |args| ==> args[i].Var? && (names[i] == args[i].name || names[i] !in all)
    requires DistinctVars(right) && |goal| == |right| && forall j :: 0 <= j < |right| ==> right[j].Var? && goal[j] == right[j].name
    requires |after| == |names + goal|
    requires forall i :: 0 <= i < |after| && (names + goal)[i] !in (names + goal)[..i] ==> after[i] == (names + goal)[i]
    ensures HasOwn(after, args + right, x)
  {
    var j :| 0 <= j < |right| && right[j] == Var(x);
    var i := |names| + j;
    var before := names + goal;
    forall k | 0 <= k < i ensures before[k] != x {
      if k < |names| {
        assert args[k] in args;
      } else {
        assert right[k - |names|] != right[j];
      }
    }
    assert before[i] == x && after[i] == x && (args + right)[i] == Var(x);
  }

  /** All names of the goals that are joined to the first one, as collected before the joins. */
  function CollectedNames(atoms: seq<Atom>, at: seq<nat>, n: nat): set<string>
    requires 0 < n <= |atoms| == |at|
  {
    Elements(NamesBefore([], atoms, at, 1, n))
  }

  /** In every join of the positive goals the generated names avoid the collected ones. */
  predicate JoinsAvoid(atoms: seq<Atom>, at: seq<nat>, n: nat)
    requires 0 < n <= |atoms| == |at|
  {
    forall k :: 1 <= k < n ==>
      Avoids(SchemaAfter(GoalNames(atoms[0].args, at[0]), atoms, at, 1, k, CollectedNames(atoms, at, n)) + GoalNames(atoms[k].args, at[k]),
             CollectedNames(atoms, at, n))
  }

  lemma {:induction false} JoinsKeepOwn(atoms: seq<Atom>, at: seq<nat>, k: nat, n: nat)
    requires 0 < k <= n <= |atoms| == |at| && JoinsAvoid(atoms, at, n) && forall i :: 0 <= i < n ==> DistinctVars(atoms[i].args)
    ensures OwnNames(SchemaAfter(GoalNames(atoms[0].args, at[0]), atoms, at, 1, k, CollectedNames(atoms, at, n)), BodyArgs(atoms[..k]),
                     CollectedNames(atoms, at, n))
  {
    hide GoalNames, OwnNames, NamesBefore, Elements, CollectedNames, DistinctVars, TermVars, Avoids, MakeUnique;
    var all := CollectedNames(atoms, at, n);
    BodyArgsStep(atoms, k);
    if k == 1 {
      FirstOwn(atoms, at, all);
    } else {
      JoinsKeepOwn(atoms, at, k - 1, n);
      LaterVars(atoms, at, k - 1, n);
      JoinKeepsOwn(SchemaAfter(GoalNames(atoms[0].args, at[0]), atoms, at, 1, k - 1, all), BodyArgs(atoms[..k - 1]),
                   atoms[k - 1].args, at[k - 1], all);
    }
  }

  lemma FirstOwn(atoms: seq<Atom>, at: seq<nat>, all: set<string>)
    requires atoms != [] && |at| == |atoms| && DistinctVars(atoms[0].args)
    ensures OwnNames(GoalNames(atoms[0].args, at[0]), BodyArgs(atoms[..1]), all)
  {
    hide GoalNames;
    var args := atoms[0].args;
    BodyArgsStep(atoms, 1);
    assert BodyArgs(atoms[..0]) == [] && [] + args == args;
    DistinctNames(args, at[0]);
    forall i, j | 0 <= i < j < |args| ensures GoalNames(args, at[0])[i] != GoalNames(args, at[0])[j] {
      assert args[i] != args[j];
    }
    forall x | x in TermVars(args) ensures HasOwn(GoalNames(args, at[0]), args, x) {
      var i :| 0 <= i < |args| && args[i] == Var(x);
    }
  }

  lemma LaterVars(atoms: seq<Atom>, at: seq<nat>, k: nat, n: nat)
    requires 1 <= k < n <= |atoms| == |at| && DistinctVars(atoms[k].args)
    ensures TermVars(atoms[k].args) <= CollectedNames(atoms, at, n)
  {
    hide GoalNames, BodyArgs, NamesBefore;
    DistinctNames(atoms[k].args, at[k]);
    var names := NamesBefore([], atoms, at, 1, n);
    forall x | x in TermVars(atoms[k].args) ensures x in names {
      var p :| 0 <= p < |atoms[k].args| && atoms[k].args[p] == Var(x);
      NamesHave(atoms, at, 1, n, k, p);
    }
  }

  lemma {:induction false} NamesHave(atoms: seq<Atom>, at: seq<nat>, lo: nat, n: nat, k: nat, p: nat)
    requires lo <= k < n <= |atoms| == |at| && p < |atoms[k].args|
    ensures GoalNames(atoms[k].args, at[k])[p] in NamesBefore([], atoms, at, lo, n)
    decreases n
  {
    hide GoalNames;
    if k < n - 1 {
      NamesHave(atoms, at, lo, n - 1, k, p);
    } else {
      assert GoalNames(atoms[k].args, at[k])[p] in GoalNames(atoms[k].args, at[k]);
    }
  }

  /** So a positive rule whose goals repeat no variable and have no constants passes the check if its joins avoid. */
  lemma AvoidingPasses(r: Rule)
    requires Safe(r) && forall a :: a in Atoms(r.body) ==> !a.negated && DistinctVars(a.args)
    requires 0 < PosCount(r) && JoinsAvoid(JoinOrder(r), Places(r), PosCount(r))
    ensures NamesApart(r)
  {
    hide GoalNames, NamesBefore, DistinctVars, TermVars, HasOwn, FindsOwn, TestVars, HeadVars, SchemaAfter, BodyArgs, Safe,
         PosVars, Atoms, JoinsApart, JoinsAvoid, OwnNames, Elements, PosAtoms, NegAtoms, Places;
    var atoms, at, n := JoinOrder(r), Places(r), PosCount(r);
    NoNegated(Atoms(r.body));
    assert atoms == Atoms(r.body) && n == |atoms|;
    forall k | 0 <= k < |atoms| ensures DistinctVars(atoms[k].args) { assert atoms[k] in atoms; }
    DistinctGoalsApart(atoms, at, n);
    JoinsKeepOwn(atoms, at, n, n);
    SafeVars(r);
    assert atoms[..|atoms|] == atoms && atoms[|atoms|..] == [];
    var names := PositiveSchema(atoms, at, n);
    OwnFound(names, BodyArgs(atoms), CollectedNames(atoms, at, n));
    NothingNegated(r, atoms, at, names);
  }

  lemma OwnFound(names: seq<string>, args: seq<Term>, all: set<string>)
    requires OwnNames(names, args, all)
    ensures forall x :: x in TermVars(args) ==> HasOwn(names, args, x) && FindsOwn(names, args, x)
  {
    forall x | x in TermVars(args) ensures HasOwn(names, args, x) && FindsOwn(names, args, x) {
      assert HasOwn(names, args, x);
      var i :| 0 <= i < |names| && i < |args| && names[i] == x && args[i] == Var(x);
      assert NamePos(names, x) == i;
    }
  }

  lemma NothingNegated(r: Rule, atoms: seq<Atom>, at: seq<nat>, names: seq<string>)
    requires atoms == Atoms(r.body) == JoinOrder(r) && at == Places(r) && 0 < PosCount(r) == |atoms|
    requires names == PositiveSchema(atoms, at, |atoms|) && JoinsApart([], atoms, at, 0, |atoms|)
    requires TestVars(r.body) <= TermVars(BodyArgs(atoms)) && HeadVars(r.headArgs) <= TermVars(BodyArgs(atoms))
    requires forall x :: x in TermVars(BodyArgs(atoms)) ==>
      HasOwn(names, BodyArgs(atoms), x) && FindsOwn(names, BodyArgs(atoms), x)
    ensures NamesApart(r)
  {
    hide PositiveSchema, TestVars, HeadVars, HasOwn, FindsOwn, NamesBefore, GoalNames, Atoms, PosAtoms, NegAtoms, Places, Apart;
    var n := |atoms|;
    assert atoms[..n] == atoms && atoms[n..] == [];
    assert BodyArgs([]) == [] && TermVars([]) == {};
    assert RuleSchema(r) == names;
  }
}
