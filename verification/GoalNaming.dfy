/** The static check on the attribute names of a rule: joins by name meet only columns of the same argument, and
    every lookup by name finds a column of the variable it looks for. */
module GoalNaming {
  import opened Names
  import opened UniqueNames
  import opened Algebra
  import opened Datalog
  import opened RuleTranslation

  // ----- Names of all goals, without operators -----

  /** The columns a join has met before goal `k`: `start`, then the columns of goals `lo` to `k - 1` as they are
      called in their goals. */
  function NamesBefore(start: seq<string>, atoms: seq<Atom>, at: seq<nat>, lo: nat, k: nat): seq<string>
    requires lo <= k <= |atoms| == |at|
    decreases k
  {
    if k == lo then start else NamesBefore(start, atoms, at, lo, k - 1) + GoalNames(atoms[k - 1].args, at[k - 1])
  }

  /** The schema after the joins with goals `lo` to `k - 1`. */
  function SchemaAfter(start: seq<string>, atoms: seq<Atom>, at: seq<nat>, lo: nat, k: nat, all: set<string>): seq<string>
    requires lo <= k <= |atoms| == |at|
    decreases k
  {
    if k == lo then start
    else MakeUnique(SchemaAfter(start, atoms, at, lo, k - 1, all) + GoalNames(atoms[k - 1].args, at[k - 1]), all)
  }

  /** The places of the positive atoms in the body. */
  function PosPlaces(atoms: seq<Atom>): (at: seq<nat>)
    ensures |at| == |PosAtoms(atoms)|
  {
    if atoms == [] then []
    else
      var n := |atoms| - 1;
      PosPlaces(atoms[..n]) + if atoms[n].negated then [] else [n]
  }

  function NegPlaces(atoms: seq<Atom>): (at: seq<nat>)
    ensures |at| == |NegAtoms(atoms)|
  {
    if atoms == [] then []
    else
      var n := |atoms| - 1;
      NegPlaces(atoms[..n]) + if atoms[n].negated then [n] else []
  }

  /** The places of the atoms in join order; the names of constants are made from them. */
  function Places(r: Rule): (at: seq<nat>)
    ensures |at| == |JoinOrder(r)|
  {
    PosPlaces(Atoms(r.body)) + NegPlaces(Atoms(r.body))
  }

  /** The schema of the joined positive goals, of which there are `n`. */
  function PositiveSchema(atoms: seq<Atom>, at: seq<nat>, n: nat): seq<string>
    requires 0 < n <= |atoms| == |at|
  {
    SchemaAfter(GoalNames(atoms[0].args, at[0]), atoms, at, 1, n, Elements(NamesBefore([], atoms, at, 1, n)))
  }

  /** The schema of the whole body. */
  function BodySchema(atoms: seq<Atom>, at: seq<nat>, n: nat): seq<string>
    requires 0 < n <= |atoms| == |at|
  {
    SchemaAfter(PositiveSchema(atoms, at, n), atoms, at, n, |atoms|, Elements(NamesBefore([], atoms, at, n, |atoms|)))
  }

  function RuleSchema(r: Rule): seq<string>
    requires 0 < PosCount(r)
  {
    BodySchema(JoinOrder(r), Places(r), PosCount(r))
  }

  // ----- The check -----

  /** Columns with the same name have the same argument. */
  predicate Apart(left: seq<string>, a1: seq<Term>, right: seq<string>, a2: seq<Term>) {
    && |left| == |a1| && |right| == |a2|
    && forall i, j :: 0 <= i < |left| && 0 <= j < |right| && left[i] == right[j] ==> a1[i] == a2[j]
  }

  predicate JoinsApart(start: seq<string>, atoms: seq<Atom>, at: seq<nat>, lo: nat, hi: nat)
    requires lo <= hi <= |atoms| == |at|
  {
    forall k :: lo <= k < hi ==>
      Apart(NamesBefore(start, atoms, at, lo, k), BodyArgs(atoms[..k]), GoalNames(atoms[k].args, at[k]), atoms[k].args)
  }

  /** The first column called `x` is one of variable `x`. */
  predicate FindsOwn(names: seq<string>, args: seq<Term>, x: string) {
    0 <= NamePos(names, x) < |args| && args[NamePos(names, x)] == Var(x)
  }

  /** Some column of variable `x` is called `x`. */
  predicate HasOwn(names: seq<string>, args: seq<Term>, x: string) {
    exists i :: 0 <= i < |names| && i < |args| && names[i] == x && args[i] == Var(x)
  }

  predicate AllFindOwn(names: seq<string>, args: seq<Term>, vars: set<string>) {
    forall x :: x in vars ==> FindsOwn(names, args, x)
  }

  function TestVars(body: seq<Literal>): set<string> {
    set t, x | t in body && t.Test? && x in ExprVars(t.left) + ExprVars(t.right) :: x
  }

  function HeadVars(head: seq<Expr>): set<string> {
    set e, x | e in head && x in ExprVars(e) :: x
  }

  /** The body: every join is apart, and the variables of comparisons and of negated goals are found in the
      schema of the positive part. */
  predicate BodyApart(r: Rule) {
    var atoms, at, n := JoinOrder(r), Places(r), PosCount(r);
    0 < n && JoinsApart([], atoms, at, 0, n) &&
    var names, args := PositiveSchema(atoms, at, n), BodyArgs(atoms[..n]);
    JoinsApart(names, atoms, at, n, |atoms|)
    && AllFindOwn(names, args, TestVars(r.body) + TermVars(BodyArgs(atoms[n..])))
  }

  /** The head: every variable is found.  The columns are in join order, but the arguments they are compared with are
      in the order of the body. */
  predicate HeadNamed(r: Rule) {
    0 < PosCount(r) && forall x :: x in HeadVars(r.headArgs) ==> HasOwn(RuleSchema(r), BodyArgs(Atoms(r.body)), x)
  }

  /** And what is found is a column of the variable. */
  predicate HeadOwn(r: Rule) {
    0 < PosCount(r) && forall x :: x in HeadVars(r.headArgs) ==>
      OnlyOwn(RuleSchema(r), BodyArgs(Atoms(r.body)), BodyArgs(JoinOrder(r)), x)
  }

  predicate OnlyOwn(names: seq<string>, found: seq<Term>, args: seq<Term>, x: string) {
    forall i :: 0 <= i < |names| && i < |found| && names[i] == x && found[i] == Var(x) ==>
      i < |args| && args[i] == Var(x)
  }

  predicate NamesApart(r: Rule) {
    BodyApart(r) && HeadNamed(r) && HeadOwn(r)
  }

  // ----- The order of the body -----

  /** No positive atom comes after a negated one. */
  predicate PositiveFirst(atoms: seq<Atom>) {
    forall i, j :: 0 <= i < j < |atoms| && atoms[i].negated ==> atoms[j].negated
  }

  lemma {:induction false} NoNegated(atoms: seq<Atom>)
    requires forall a :: a in atoms ==> !a.negated
    ensures PosAtoms(atoms) == atoms && NegAtoms(atoms) == [] && NegPlaces(atoms) == []
    ensures |PosPlaces(atoms)| == |atoms| && forall i :: 0 <= i < |atoms| ==> PosPlaces(atoms)[i] == i
  {
    if atoms != [] {
      var front := atoms[..|atoms| - 1];
      assert atoms == front + [atoms[|atoms| - 1]];
      forall a | a in front ensures !a.negated { assert a in atoms; }
      NoNegated(front);
    }
  }

  lemma {:induction false} InOrder(atoms: seq<Atom>)
    requires PositiveFirst(atoms)
    ensures PosAtoms(atoms) + NegAtoms(atoms) == atoms
  {
    if atoms != [] {
      var front, last := atoms[..|atoms| - 1], atoms[|atoms| - 1];
      assert atoms == front + [last];
      if last.negated {
        InOrder(front);
      } else {
        forall a | a in atoms ensures !a.negated { var i :| 0 <= i < |atoms| && atoms[i] == a; }
        NoNegated(atoms);
      }
    }
  }

  lemma {:induction false} SameSize(atoms: seq<Atom>)
    ensures |BodyArgs(atoms)| == |BodyArgs(PosAtoms(atoms))| + |BodyArgs(NegAtoms(atoms))|
  {
    if atoms != [] {
      SameSize(atoms[..|atoms| - 1]);
      var last := atoms[|atoms| - 1];
      var pos, neg := PosAtoms(atoms[..|atoms| - 1]), NegAtoms(atoms[..|atoms| - 1]);
      assert pos + [] == pos && neg + [] == neg;
      assert (pos + [last])[..|pos|] == pos && (neg + [last])[..|neg|] == neg;
    }
  }

  lemma {:induction false} PlacesOf(atoms: seq<Atom>)
    ensures NoDup(PosPlaces(atoms)) && NoDup(NegPlaces(atoms))
    ensures forall k :: k in PosPlaces(atoms) ==> k < |atoms| && !atoms[k].negated
    ensures forall k :: k in NegPlaces(atoms) ==> k < |atoms| && atoms[k].negated
  {
    if atoms != [] {
      var n := |atoms| - 1;
      PlacesOf(atoms[..n]);
      assert n !in PosPlaces(atoms[..n]) && n !in NegPlaces(atoms[..n]);
      NoDupPush(PosPlaces(atoms[..n]), n);
      NoDupPush(NegPlaces(atoms[..n]), n);
      assert PosPlaces(atoms[..n]) + [] == PosPlaces(atoms[..n]) && NegPlaces(atoms[..n]) + [] == NegPlaces(atoms[..n]);
    }
  }

  lemma NoDupPush<T>(s: seq<T>, x: T)
    requires NoDup(s) && x !in s
    ensures NoDup(s + [x])
  {
  }

  /** No two atoms have the same place. */
  lemma PlacesDistinct(r: Rule)
    ensures NoDup(Places(r))
  {
    var atoms := Atoms(r.body);
    PlacesOf(atoms);
    var pos, neg, at := PosPlaces(atoms), NegPlaces(atoms), Places(r);
    forall i, j | 0 <= i < j < |at| ensures at[i] != at[j] {
      if i < |pos| <= j {
        assert pos[i] in pos && neg[j - |pos|] in neg;
      }
    }
  }

  // ----- What the check gives a join -----

  /** Besides being apart, the columns of a shared variable meet at least once. */
  ghost predicate JoinSide(left: seq<string>, a1: seq<Term>, right: seq<string>, a2: seq<Term>) {
    Apart(left, a1, right, a2) && forall x :: x in TermVars(a1) && x in TermVars(a2) ==> Meet(left, a1, right, a2, x)
  }

  ghost predicate Meet(left: seq<string>, a1: seq<Term>, right: seq<string>, a2: seq<Term>, x: string) {
    exists i, j :: 0 <= i < |left| && 0 <= j < |right| && i < |a1| && j < |a2|
                   && a1[i] == Var(x) && a2[j] == Var(x) && left[i] == right[j]
  }

  /** Within a goal a variable is the name of a column: its own one, or that of a constant of this goal. */
  lemma ColumnCalled(args: seq<Term>, goalPos: nat, x: string) returns (p: nat)
    requires x in TermVars(args)
    ensures p < |args| && GoalNames(args, goalPos)[p] == x
    ensures args[p] == Var(x) || (args[p].Const? && exists c: nat :: x == ConstName(goalPos, c))
  {
    var raw := RawNames(args, goalPos);
    var k :| 0 <= k < |args| && args[k] == Var(x);
    assert raw[k] == x;
    p := FirstOf(raw, x);
    MakeUniqueProps(raw, Elements(raw));
    assert raw[p] == RawName(args, goalPos, p);
  }

  lemma BeforeStep(start: seq<string>, atoms: seq<Atom>, at: seq<nat>, lo: nat, k: nat)
    requires lo < k <= |atoms| == |at| && |start| == |BodyArgs(atoms[..lo])|
    ensures |NamesBefore(start, atoms, at, lo, k - 1)| == |BodyArgs(atoms[..k - 1])|
    ensures NamesBefore(start, atoms, at, lo, k)
         == NamesBefore(start, atoms, at, lo, k - 1) + GoalNames(atoms[k - 1].args, at[k - 1])
    ensures BodyArgs(atoms[..k]) == BodyArgs(atoms[..k - 1]) + atoms[k - 1].args
  {
    hide GoalNames;
    BeforeLength(start, atoms, at, lo, k - 1);
    assert atoms[..k][..k - 1] == atoms[..k - 1];
  }

  /** Column `p` of goal `g` is one of the columns met before goal `k`. */
  lemma {:induction false} ColumnBefore(start: seq<string>, atoms: seq<Atom>, at: seq<nat>, lo: nat, k: nat, g: nat, p: nat)
    returns (i: nat)
    requires lo <= g < k <= |atoms| == |at| && p < |atoms[g].args| && |start| == |BodyArgs(atoms[..lo])|
    ensures i < |NamesBefore(start, atoms, at, lo, k)| == |BodyArgs(atoms[..k])|
    ensures NamesBefore(start, atoms, at, lo, k)[i] == GoalNames(atoms[g].args, at[g])[p]
    ensures BodyArgs(atoms[..k])[i] == atoms[g].args[p]
    decreases k
  {
    hide *;
    BeforeStep(start, atoms, at, lo, k);
    if g == k - 1 {
      i := |BodyArgs(atoms[..k - 1])| + p;
    } else {
      i := ColumnBefore(start, atoms, at, lo, k - 1, g, p);
    }
  }

  lemma {:induction false} BeforeLength(start: seq<string>, atoms: seq<Atom>, at: seq<nat>, lo: nat, k: nat)
    requires lo <= k <= |atoms| == |at| && |start| == |BodyArgs(atoms[..lo])|
    ensures |NamesBefore(start, atoms, at, lo, k)| == |BodyArgs(atoms[..k])|
    decreases k
  {
    hide GoalNames;
    if lo < k {
      BeforeLength(start, atoms, at, lo, k - 1);
      assert atoms[..k][..k - 1] == atoms[..k - 1];
    }
  }

  /** And every column met before goal `k` is one of `start` or of a goal. */
  lemma {:induction false} BeforeColumn(start: seq<string>, atoms: seq<Atom>, at: seq<nat>, lo: nat, k: nat, i: nat)
    returns (g: nat, p: nat)
    requires lo <= k <= |atoms| == |at| && |start| == |BodyArgs(atoms[..lo])| <= i < |BodyArgs(atoms[..k])|
    ensures lo <= g < k && p < |atoms[g].args| && i < |NamesBefore(start, atoms, at, lo, k)|
    ensures NamesBefore(start, atoms, at, lo, k)[i] == GoalNames(atoms[g].args, at[g])[p]
    ensures BodyArgs(atoms[..k])[i] == atoms[g].args[p]
    decreases k
  {
    hide *;
    BeforeStep(start, atoms, at, lo, k);
    if i < |BodyArgs(atoms[..k - 1])| {
      g, p := BeforeColumn(start, atoms, at, lo, k - 1, i);
    } else {
      g, p := k - 1, i - |BodyArgs(atoms[..k - 1])|;
    }
  }

  lemma VariableBefore(atoms: seq<Atom>, at: seq<nat>, k: nat, x: string) returns (g: nat)
    requires k <= |atoms| == |at| && x in TermVars(BodyArgs(atoms[..k]))
    ensures g < k && x in TermVars(atoms[g].args)
  {
    assert BodyArgs(atoms[..0]) == [];
    var args := BodyArgs(atoms[..k]);
    var i :| 0 <= i < |args| && args[i] == Var(x);
    var p;
    g, p := BeforeColumn([], atoms, at, 0, k, i);
  }

  lemma {:induction false} StartKept(start: seq<string>, atoms: seq<Atom>, at: seq<nat>, lo: nat, k: nat, i: nat)
    requires lo <= k <= |atoms| == |at| && i < |start| == |BodyArgs(atoms[..lo])|
    ensures i < |NamesBefore(start, atoms, at, lo, k)| == |BodyArgs(atoms[..k])|
    ensures NamesBefore(start, atoms, at, lo, k)[i] == start[i] && BodyArgs(atoms[..k])[i] == BodyArgs(atoms[..lo])[i]
    decreases k
  {
    hide GoalNames;
    if lo < k {
      StartKept(start, atoms, at, lo, k - 1, i);
      BeforeStep(start, atoms, at, lo, k);
      hide *;
      Prefixes(NamesBefore(start, atoms, at, lo, k - 1), GoalNames(atoms[k - 1].args, at[k - 1]), i);
      Prefixes(BodyArgs(atoms[..k - 1]), atoms[k - 1].args, i);
    }
  }

  lemma Prefixes<T>(s: seq<T>, t: seq<T>, i: nat)
    requires i < |s|
    ensures i < |s + t| && (s + t)[i] == s[i]
  {
  }

  /** The join with positive goal `k`: being apart is enough for shared variables to meet. */
  lemma PositiveSide(atoms: seq<Atom>, at: seq<nat>, k: nat, n: nat)
    requires k < n <= |atoms| == |at| && JoinsApart([], atoms, at, 0, n) && NoDup(at)
    ensures JoinSide(NamesBefore([], atoms, at, 0, k), BodyArgs(atoms[..k]), GoalNames(atoms[k].args, at[k]), atoms[k].args)
  {
    var left, a1, right, a2 := NamesBefore([], atoms, at, 0, k), BodyArgs(atoms[..k]), GoalNames(atoms[k].args, at[k]),
                               atoms[k].args;
    assert Apart(left, a1, right, a2);
    forall x | x in TermVars(a1) && x in TermVars(a2) ensures Meet(left, a1, right, a2, x) {
      hide NamesBefore, GoalNames, BodyArgs, TermVars, ConstName;
      assert atoms[..0] == [] && |BodyArgs([])| == 0 by { NoArgs(); }
      var g := VariableBefore(atoms, at, k, x);
      var p := ColumnCalled(atoms[g].args, at[g], x);
      var q := ColumnCalled(a2, at[k], x);
      var i := ColumnBefore([], atoms, at, 0, k, g, p);
      assert left[i] == right[q] && a1[i] == a2[q];
      if a2[q].Const? {
        var c: nat :| x == ConstName(at[g], c);
        var d: nat :| x == ConstName(at[k], d);
        ConstNameInjective(at[g], c, at[k], d);
      }
    }
  }

  lemma NoArgs()
    ensures BodyArgs([]) == []
  {
  }

  /** The join with negated goal `h`, whose variables are found in the schema of the positive part. */
  lemma NegatedSide(names: seq<string>, atoms: seq<Atom>, at: seq<nat>, n: nat, h: nat)
    requires n <= h < |atoms| == |at| && JoinsApart(names, atoms, at, n, |atoms|) && |names| == |BodyArgs(atoms[..n])|
    requires AllFindOwn(names, BodyArgs(atoms[..n]), TermVars(atoms[h].args))
    ensures JoinSide(NamesBefore(names, atoms, at, n, h), BodyArgs(atoms[..h]), GoalNames(atoms[h].args, at[h]), atoms[h].args)
  {
    var left, a1, right, a2 := NamesBefore(names, atoms, at, n, h), BodyArgs(atoms[..h]), GoalNames(atoms[h].args, at[h]),
                               atoms[h].args;
    assert Apart(left, a1, right, a2);
    forall x | x in TermVars(a1) && x in TermVars(a2) ensures Meet(left, a1, right, a2, x) {
      hide NamesBefore, GoalNames, BodyArgs, TermVars, ConstName;
      assert FindsOwn(names, BodyArgs(atoms[..n]), x);
      var i := NamePos(names, x);
      StartKept(names, atoms, at, n, h, i);
      var q := ColumnCalled(a2, at[h], x);
      assert left[i] == right[q] && a1[i] == a2[q];
    }
  }

  // ----- Goals without repetitions -----

  /** A goal of different variables. */
  predicate DistinctVars(args: seq<Term>) {
    NoDup(args) && forall i :: 0 <= i < |args| ==> args[i].Var?
  }

  lemma DistinctNames(args: seq<Term>, goalPos: nat)
    requires DistinctVars(args)
    ensures forall i :: 0 <= i < |args| ==> GoalNames(args, goalPos)[i] == args[i].name
  {
    var raw := RawNames(args, goalPos);
    MakeUniqueProps(raw, Elements(raw));
    forall i | 0 <= i < |args| ensures raw[i] !in raw[..i] {
      forall k | 0 <= k < i ensures raw[k] != raw[i] {
        assert args[k] != args[i];
      }
    }
  }

  /** If no positive goal repeats a variable or has a constant, their joins are apart, whatever the variables are called. */
  lemma DistinctGoalsApart(atoms: seq<Atom>, at: seq<nat>, n: nat)
    requires n <= |atoms| == |at| && forall k :: 0 <= k < n ==> DistinctVars(atoms[k].args)
    ensures JoinsApart([], atoms, at, 0, n)
  {
    hide GoalNames, NamesBefore, BodyArgs, DistinctVars;
    NoArgs();
    assert atoms[..0] == [];
    forall k | 0 <= k < n
      ensures Apart(NamesBefore([], atoms, at, 0, k), BodyArgs(atoms[..k]), GoalNames(atoms[k].args, at[k]), atoms[k].args)
    {
      var left, a1, right, a2 := NamesBefore([], atoms, at, 0, k), BodyArgs(atoms[..k]), GoalNames(atoms[k].args, at[k]),
                                 atoms[k].args;
      BeforeLength([], atoms, at, 0, k);
      forall i, j | 0 <= i < |left| && 0 <= j < |right| && left[i] == right[j] ensures a1[i] == a2[j] {
        var g, p := BeforeColumn([], atoms, at, 0, k, i);
        DistinctNames(atoms[g].args, at[g]);
        DistinctNames(a2, at[k]);
        AreVars(atoms[g].args);
        AreVars(a2);
      }
    }
  }

  lemma AreVars(args: seq<Term>)
    requires DistinctVars(args)
    ensures forall i :: 0 <= i < |args| ==> args[i].Var?
  {
  }
}
