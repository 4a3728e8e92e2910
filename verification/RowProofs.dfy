/** Rows of the algebra and bindings of the interpreter represent each other. */
module RowProofs {
  import opened Names
  import opened UniqueNames
  import opened Algebra
  import opened Datalog
  import opened RuleTranslation
  import opened GoalNaming

  // ----- Unification -----

  ghost predicate Includes(b: Binding, c: Binding) {
    forall x :: x in b ==> x in c && c[x] == b[x]
  }

  ghost predicate Agrees(args: seq<Term>, row: Row, b: Binding) {
    && |row| == |args|
    && (forall i :: 0 <= i < |args| && args[i].Var? ==> args[i].name in b && b[args[i].name] == row[i])
    && (forall i :: 0 <= i < |args| && args[i].Const? ==> args[i].v == row[i])
  }

  lemma {:induction false} ExtendUpToProps(b: Binding, args: seq<Term>, row: Row, n: nat)
    requires |row| == |args| && n <= |args| && ExtendUpTo(b, args, row, n).Some?
    ensures var c := ExtendUpTo(b, args, row, n).value;
      Includes(b, c) && c.Keys == b.Keys + TermVars(args[..n]) && Agrees(args[..n], row[..n], c)
  {
    if n == 0 {
      assert TermVars(args[..0]) == {};
    } else {
      ExtendUpToProps(b, args, row, n - 1);
      assert args[..n] == args[..n - 1] + [args[n - 1]];
      assert args[n - 1] in args[..n];
      var p, c := ExtendUpTo(b, args, row, n - 1).value, ExtendUpTo(b, args, row, n).value;
      forall i | 0 <= i < n
        ensures args[i].Var? ==> args[i].name in c && c[args[i].name] == row[i]
        ensures args[i].Const? ==> args[i].v == row[i]
      {
        if i < n - 1 {
          assert args[..n - 1][i] == args[i] && row[..n - 1][i] == row[i];
        }
      }
    }
  }

  lemma ExtendProps(b: Binding, args: seq<Term>, row: Row)
    requires Extend(b, args, row).Some?
    ensures var c := Extend(b, args, row).value;
      Includes(b, c) && c.Keys == b.Keys + TermVars(args) && Agrees(args, row, c)
  {
    ExtendUpToProps(b, args, row, |args|);
    assert args[..|args|] == args && row[..|args|] == row;
  }

  lemma {:induction false} ExtendUpToComplete(b: Binding, args: seq<Term>, row: Row, n: nat, c: Binding)
    requires |row| == |args| && n <= |args| && Includes(b, c) && Agrees(args, row, c)
    ensures ExtendUpTo(b, args, row, n).Some? && Includes(ExtendUpTo(b, args, row, n).value, c)
  {
    if n > 0 {
      ExtendUpToComplete(b, args, row, n - 1, c);
    }
  }

  /** Unification finds the least binding, if there is one. */
  lemma ExtendComplete(b: Binding, args: seq<Term>, row: Row, c: Binding)
    requires Includes(b, c) && Agrees(args, row, c)
    ensures Extend(b, args, row).Some? && Includes(Extend(b, args, row).value, c)
  {
    ExtendUpToComplete(b, args, row, |args|, c);
  }

  /** Unifying with a longer atom is unifying with its two halves in turn. */
  lemma ExtendConcat(b: Binding, a1: seq<Term>, r1: Row, a2: seq<Term>, r2: Row)
    requires |r1| == |a1| && |r2| == |a2|
    ensures Extend(b, a1 + a2, r1 + r2)
         == match Extend(b, a1, r1) case None => None case Some(c) => Extend(c, a2, r2)
  {
    ExtendPrefix(b, a1, r1, a2, r2, |a1|);
    if Extend(b, a1, r1).Some? {
      ExtendSuffix(b, a1, r1, a2, r2, |a2|);
    } else {
      ExtendFailed(b, a1 + a2, r1 + r2, |a1|, |a1 + a2|);
    }
  }

  lemma {:induction false} ExtendPrefix(b: Binding, a1: seq<Term>, r1: Row, a2: seq<Term>, r2: Row, n: nat)
    requires |r1| == |a1| && |r2| == |a2| && n <= |a1|
    ensures ExtendUpTo(b, a1 + a2, r1 + r2, n) == ExtendUpTo(b, a1, r1, n)
  {
    if n > 0 {
      ExtendPrefix(b, a1, r1, a2, r2, n - 1);
    }
  }

  lemma {:induction false} ExtendFailed(b: Binding, args: seq<Term>, row: Row, m: nat, n: nat)
    requires |row| == |args| && m <= n <= |args| && ExtendUpTo(b, args, row, m).None?
    ensures ExtendUpTo(b, args, row, n).None?
  {
    if m < n {
      ExtendFailed(b, args, row, m, n - 1);
    }
  }

  lemma {:induction false} ExtendSuffix(b: Binding, a1: seq<Term>, r1: Row, a2: seq<Term>, r2: Row, n: nat)
    requires |r1| == |a1| && |r2| == |a2| && n <= |a2| && Extend(b, a1, r1).Some?
    ensures ExtendUpTo(b, a1 + a2, r1 + r2, |a1| + n) == ExtendUpTo(Extend(b, a1, r1).value, a2, r2, n)
  {
    if n == 0 {
      ExtendPrefix(b, a1, r1, a2, r2, |a1|);
    } else {
      ExtendSuffix(b, a1, r1, a2, r2, n - 1);
      assert (a1 + a2)[|a1| + n - 1] == a2[n - 1] && (r1 + r2)[|a1| + n - 1] == r2[n - 1];
    }
  }

  // ----- Conditions -----

  lemma HoldsConcat(c: seq<Comparison>, d: seq<Comparison>, l: Row, r: Row)
    ensures Holds(c + d, l, r) <==> Holds(c, l, r) && Holds(d, l, r)
  {
    if Holds(c + d, l, r) {
      forall x | x in c ensures Satisfies(x, l, r) { assert x in c + d; }
      forall x | x in d ensures Satisfies(x, l, r) { assert x in c + d; }
    }
  }

  ghost predicate ConstsMatch(args: seq<Term>, row: Row, n: nat)
    requires n <= |args| == |row|
  {
    forall i :: 0 <= i < n && args[i].Const? ==> row[i] == args[i].v
  }

  ghost predicate RepeatsMatch(args: seq<Term>, row: Row, n: nat)
    requires n <= |args| == |row|
  {
    forall i, j :: 0 <= i < n && i < j < |args| && args[i].Var? && args[i] == args[j] ==> row[i] == row[j]
  }

  lemma {:induction false} ConstCondsMean(args: seq<Term>, row: Row, n: nat)
    requires n <= |args| == |row|
    ensures Holds(ConstConds(args, n), row, []) <==> ConstsMatch(args, row, n)
  {
    if n > 0 {
      ConstCondsMean(args, row, n - 1);
      var last := if args[n - 1].Const? then [Comparison("=", Ref(0, n - 1), Lit(args[n - 1].v))] else [];
      HoldsConcat(ConstConds(args, n - 1), last, row, []);
      if args[n - 1].Const? {
        assert Satisfies(last[0], row, []) <==> row[n - 1] == args[n - 1].v;
      }
    }
  }

  lemma {:induction false} RepeatCondsOfMean(args: seq<Term>, row: Row, i: nat, m: nat)
    requires i < |args| == |row| && m <= |args|
    ensures Holds(RepeatCondsOf(args, i, m), row, [])
      <==> forall j :: i < j < m && args[i].Var? && args[i] == args[j] ==> row[i] == row[j]
  {
    if m > 0 {
      RepeatCondsOfMean(args, row, i, m - 1);
      var last := if args[i].Var? && args[m - 1] == args[i] && m - 1 > i
                  then [Comparison("=", Ref(0, i), Ref(0, m - 1))] else [];
      HoldsConcat(RepeatCondsOf(args, i, m - 1), last, row, []);
      if last != [] {
        assert Satisfies(last[0], row, []) <==> row[i] == row[m - 1];
      }
    }
  }

  lemma {:induction false} RepeatCondsMean(args: seq<Term>, row: Row, n: nat)
    requires n <= |args| == |row|
    ensures Holds(RepeatConds(args, n), row, []) <==> RepeatsMatch(args, row, n)
  {
    if n > 0 {
      RepeatCondsMean(args, row, n - 1);
      RepeatCondsOfMean(args, row, n - 1, |args|);
      HoldsConcat(RepeatConds(args, n - 1), RepeatCondsOf(args, n - 1, |args|), row, []);
    }
  }

  lemma GoalCondsMean(args: seq<Term>, row: Row)
    requires |args| == |row|
    ensures Holds(GoalConds(args), row, [])
      <==> ConstsMatch(args, row, |args|) && RepeatsMatch(args, row, |args|)
  {
    ConstCondsMean(args, row, |args|);
    RepeatCondsMean(args, row, |args|);
    HoldsConcat(ConstConds(args, |args|), RepeatConds(args, |args|), row, []);
  }

  ghost predicate ColumnsMeet(left: seq<string>, l: Row, right: seq<string>, r: Row, m: nat)
    requires |left| == |l| && m <= |right| == |r|
  {
    forall i, j :: 0 <= i < |left| && 0 <= j < m && left[i] == right[j] ==> l[i] == r[j]
  }

  lemma {:induction false} CondsOfRightMean(left: seq<string>, l: Row, name: string, r: Row, j: nat, n: nat)
    requires |left| == |l| && n <= |left| && j < |r|
    ensures Holds(CondsOfRight(left, name, j, n), l, r)
      <==> forall i :: 0 <= i < n && left[i] == name ==> l[i] == r[j]
  {
    if n > 0 {
      CondsOfRightMean(left, l, name, r, j, n - 1);
      var last := if left[n - 1] == name then [Comparison("=", Ref(0, n - 1), Ref(1, j))] else [];
      HoldsConcat(CondsOfRight(left, name, j, n - 1), last, l, r);
      if last != [] {
        assert Satisfies(last[0], l, r) <==> l[n - 1] == r[j];
      }
    }
  }

  lemma {:induction false} JoinCondsMean(left: seq<string>, l: Row, right: seq<string>, r: Row, m: nat)
    requires |left| == |l| && m <= |right| == |r|
    ensures Holds(JoinConds(left, right, m), l, r) <==> ColumnsMeet(left, l, right, r, m)
  {
    if m > 0 {
      JoinCondsMean(left, l, right, r, m - 1);
      CondsOfRightMean(left, l, right[m - 1], r, m - 1, |left|);
      HoldsConcat(JoinConds(left, right, m - 1), CondsOfRight(left, right[m - 1], m - 1, |left|), l, r);
    }
  }

  // ----- One row joined with one row -----

  /** The conditions of goal and join together are exactly unifiability with the binding so far. */
  lemma StepMatches(left: seq<string>, a1: seq<Term>, l: Row, right: seq<string>, a2: seq<Term>, r: Row, c: Binding)
    requires JoinSide(left, a1, right, a2)
    requires |l| == |a1| && |r| == |a2| && Extend(map[], a1, l) == Some(c)
    ensures Extend(c, a2, r).Some?
      <==> Holds(GoalConds(a2), r, []) && Holds(JoinConds(left, right, |right|), l, r)
  {
    GoalCondsMean(a2, r);
    JoinCondsMean(left, l, right, r, |right|);
    ExtendProps(map[], a1, l);
    if Extend(c, a2, r).Some? {
      StepSound(left, a1, l, right, a2, r, c);
    } else if ConstsMatch(a2, r, |a2|) && RepeatsMatch(a2, r, |a2|) && ColumnsMeet(left, l, right, r, |right|) {
      StepComplete(left, a1, l, right, a2, r, c, |a2|);
    }
  }

  lemma StepSound(left: seq<string>, a1: seq<Term>, l: Row, right: seq<string>, a2: seq<Term>, r: Row, c: Binding)
    requires JoinSide(left, a1, right, a2)
    requires |r| == |a2| && Agrees(a1, l, c) && Extend(c, a2, r).Some?
    ensures ConstsMatch(a2, r, |a2|) && RepeatsMatch(a2, r, |a2|) && ColumnsMeet(left, l, right, r, |right|)
  {
    ExtendProps(c, a2, r);
    forall i, j | 0 <= i < |left| && 0 <= j < |right| && left[i] == right[j] ensures l[i] == r[j] {
      assert a1[i] == a2[j];
    }
  }

  /** A variable bound on the left has that value on the right: some columns of it are joined. */
  lemma BoundVarMeets(left: seq<string>, a1: seq<Term>, l: Row, right: seq<string>, a2: seq<Term>, r: Row, c: Binding,
                      n: nat, x: string)
    requires JoinSide(left, a1, right, a2)
    requires |r| == |a2| && n < |a2| && a2[n] == Var(x) && x in c && Agrees(a1, l, c) && c.Keys == TermVars(a1)
    requires RepeatsMatch(a2, r, |a2|) && ColumnsMeet(left, l, right, r, |right|)
    ensures c[x] == r[n]
  {
    assert a2[n] in a2 && Meet(left, a1, right, a2, x);
    var i, j :| 0 <= i < |left| && 0 <= j < |right| && i < |a1| && j < |a2|
                && a1[i] == Var(x) && a2[j] == Var(x) && left[i] == right[j];
    assert c[x] == l[i] == r[j] == r[n];
  }

  lemma NewVarRepeats(a2: seq<Term>, r: Row, c: Binding, p: Binding, n: nat, x: string)
    requires |r| == |a2| && n < |a2| && a2[n] == Var(x) && x in p && x !in c && RepeatsMatch(a2, r, |a2|)
    requires p.Keys == c.Keys + TermVars(a2[..n]) && Agrees(a2[..n], r[..n], p)
    ensures p[x] == r[n]
  {
    assert x in TermVars(a2[..n]);
    var k :| 0 <= k < n && a2[..n][k] == Var(x);
    assert a2[k] == Var(x) && p[x] == r[..n][k];
  }

  lemma ConstMatches(a2: seq<Term>, r: Row, n: nat)
    requires |r| == |a2| && n < |a2| && ConstsMatch(a2, r, |a2|)
    ensures a2[n].Const? ==> r[n] == a2[n].v
  {
  }

  lemma {:induction false} StepComplete(left: seq<string>, a1: seq<Term>, l: Row, right: seq<string>, a2: seq<Term>,
                                        r: Row, c: Binding, n: nat)
    requires JoinSide(left, a1, right, a2)
    requires |r| == |a2| && n <= |a2| && Agrees(a1, l, c) && c.Keys == TermVars(a1)
    requires ConstsMatch(a2, r, |a2|) && RepeatsMatch(a2, r, |a2|) && ColumnsMeet(left, l, right, r, |right|)
    ensures ExtendUpTo(c, a2, r, n).Some?
  {
    hide JoinSide, ConstsMatch, RepeatsMatch, ColumnsMeet, Agrees;
    if n > 0 {
      ConstMatches(a2, r, n - 1);
      StepComplete(left, a1, l, right, a2, r, c, n - 1);
      ExtendUpToProps(c, a2, r, n - 1);
      var p := ExtendUpTo(c, a2, r, n - 1).value;
      if a2[n - 1].Var? && a2[n - 1].name in p {
        var x := a2[n - 1].name;
        if x in c {
          BoundVarMeets(left, a1, l, right, a2, r, c, n - 1, x);
        } else {
          NewVarRepeats(a2, r, c, p, n - 1, x);
        }
      }
    }
  }
}
