/** What a rule derives, said without an interpreter: a row is derived iff some binding satisfies the
    body and gives that row. */
module Declarative {
  import opened Algebra
  import opened Datalog
  import opened RuleTranslation
  import opened GoalNaming
  import opened RowProofs
  import opened RuleProofs
  import opened RuleTheorem
  import opened Names

  ghost predicate AllPresent(atoms: seq<Atom>, b: Binding, db: Database) {
    forall a :: a in atoms ==> Instance(a.args, b) in Rows(db, a.rel)
  }

  /** A binding of exactly the variables of the rule that makes its body true. */
  ghost predicate SatisfiesBody(r: Rule, b: Binding, db: Database) {
    && (forall x :: x in b <==> BoundIn(r.body, x))
    && (forall a :: Goal(a) in r.body ==> (Instance(a.args, b) in Rows(db, a.rel) <==> !a.negated))
    && TestsHold(r.body, b)
  }

  lemma {:induction false} ExtendWithRowsProps(b: Binding, args: seq<Term>, rows: seq<Row>, c: Binding)
    requires HasArity(rows, |args|)
    ensures c in ExtendWithRows(b, args, rows)
      <==> Includes(b, c) && c.Keys == b.Keys + TermVars(args) && Instance(args, c) in rows
  {
    if rows != [] {
      HasArityTail(rows, |args|);
      ExtendWithRowsProps(b, args, rows[1..], c);
      assert rows == [rows[0]] + rows[1..];
      if Extend(b, args, rows[0]).Some? {
        ExtendProps(b, args, rows[0]);
        var d := Extend(b, args, rows[0]).value;
        AgreesIsInstance(args, rows[0], d);
      }
      if Includes(b, c) && c.Keys == b.Keys + TermVars(args) && Instance(args, c) == rows[0] {
        InstanceAgrees(args, c);
        ExtendComplete(b, args, rows[0], c);
        ExtendProps(b, args, rows[0]);
        assert Extend(b, args, rows[0]).value == c;
      }
    }
  }

  lemma AgreesIsInstance(args: seq<Term>, row: Row, b: Binding)
    requires Agrees(args, row, b)
    ensures row == Instance(args, b)
  {
  }

  lemma {:induction false} ExtendEachProps(bs: seq<Binding>, args: seq<Term>, rows: seq<Row>, c: Binding)
    requires HasArity(rows, |args|)
    ensures c in ExtendEach(bs, args, rows)
      <==> exists b :: b in bs && Includes(b, c) && c.Keys == b.Keys + TermVars(args) && Instance(args, c) in rows
  {
    hide ExtendWithRows, TermVars, Instance, Includes, HasArity;
    if bs != [] {
      ExtendWithRowsProps(bs[0], args, rows, c);
      ExtendEachProps(bs[1..], args, rows, c);
      assert bs == [bs[0]] + bs[1..];
    }
  }

  ghost function RestrictTo(b: Binding, vars: set<string>): Binding {
    map x | x in b && x in vars :: b[x]
  }

  lemma InstanceDepends(args: seq<Term>, b: Binding, c: Binding)
    requires Includes(b, c) && TermVars(args) <= b.Keys
    ensures Instance(args, b) == Instance(args, c)
  {
    forall i | 0 <= i < |args| ensures TermValue(args[i], b) == TermValue(args[i], c) {
      if args[i].Var? { assert args[i].name in TermVars(args); }
    }
  }

  /** The interpreter finds exactly the bindings under which all atoms are in the database. */
  lemma {:induction false} SolveFinds(atoms: seq<Atom>, db: Database, c: Binding)
    requires forall a :: a in atoms ==> HasArity(Rows(db, a.rel), |a.args|)
    ensures c in Solve(atoms, db) <==> c.Keys == TermVars(BodyArgs(atoms)) && AllPresent(atoms, c, db)
  {
    hide HasArity, AllPresent, Rows, Instance, ExtendEach;
    if atoms == [] {
      assert TermVars(BodyArgs(atoms)) == {};
      assert c.Keys == {} ==> c == map[];
      NonePresent(c, db);
    } else {
      var front, last := atoms[..|atoms| - 1], atoms[|atoms| - 1];
      assert atoms == front + [last];
      var vars := TermVars(BodyArgs(front));
      TermVarsConcat(BodyArgs(front), last.args);
      PresentSplit(front, last, c, db);
      hide TermVars, BodyArgs;
      ExtendEachProps(Solve(front, db), last.args, Rows(db, last.rel), c);
      if c in Solve(atoms, db) {
        var b :| b in Solve(front, db) && Includes(b, c) && c.Keys == b.Keys + TermVars(last.args);
        SolveFinds(front, db, b);
        PresentMonotone(front, db, b, c);
      }
      if c.Keys == TermVars(BodyArgs(atoms)) && AllPresent(atoms, c, db) {
        var b := RestrictTo(c, vars);
        PresentMonotone(front, db, b, c);
        SolveFinds(front, db, b);
        assert b in Solve(front, db) && Includes(b, c) && c.Keys == b.Keys + TermVars(last.args);
      }
    }
  }

  lemma NonePresent(b: Binding, db: Database)
    ensures AllPresent([], b, db)
  {
  }

  lemma PresentSplit(front: seq<Atom>, last: Atom, b: Binding, db: Database)
    ensures AllPresent(front + [last], b, db)
      <==> AllPresent(front, b, db) && Instance(last.args, b) in Rows(db, last.rel)
  {
    if AllPresent(front + [last], b, db) {
      forall a | a in front ensures Instance(a.args, b) in Rows(db, a.rel) { assert a in front + [last]; }
      assert last in front + [last];
    }
  }

  lemma PresentMonotone(atoms: seq<Atom>, db: Database, b: Binding, c: Binding)
    requires Includes(b, c) && TermVars(BodyArgs(atoms)) <= b.Keys
    ensures AllPresent(atoms, b, db) <==> AllPresent(atoms, c, db)
  {
    forall a | a in atoms ensures Instance(a.args, b) == Instance(a.args, c) {
      var i :| 0 <= i < |atoms| && atoms[i] == a;
      assert atoms[..|atoms|] == atoms;
      BodyArgsVars(atoms, |atoms|, |atoms|);
      InstanceDepends(a.args, b, c);
    }
  }

  lemma {:induction false} KeepTestedProps(body: seq<Literal>, bs: seq<Binding>, c: Binding)
    ensures c in KeepTested(body, bs) <==> c in bs && TestsHold(body, c)
  {
    if bs != [] {
      KeepTestedProps(body, bs[1..], c);
      assert bs == [bs[0]] + bs[1..];
    }
  }

  lemma BodyBindingsSatisfy(r: Rule, db: Database, c: Binding)
    requires Safe(r) && AritiesFit(r, db)
    ensures c in BodyBindings(r, db) <==> SatisfiesBody(r, c, db)
  {
    hide Solve, KeepTested, KeepAllAbsent, TestsHold, Instance, Atoms, HasArity, TermVars, BodyArgs, PosAtoms, NegAtoms;
    var pos, negs := PosAtoms(Atoms(r.body)), NegAtoms(Atoms(r.body));
    OrderedAtoms(Atoms(r.body));
    AtomsIn(r.body);
    PosVarsBound(r);
    assert c.Keys == PosVars(r) <==> forall x :: x in c <==> BoundIn(r.body, x);
    hide BoundIn;
    assert forall a :: a in pos ==> HasArity(Rows(db, a.rel), |a.args|) by { AritiesSplit(r, db); }
    SolveFinds(pos, db, c);
    KeepTestedProps(r.body, Solve(pos, db), c);
    KeepAllAbsentSubset(negs, KeepTested(r.body, Solve(pos, db)), db);
  }

  lemma AritiesSplit(r: Rule, db: Database)
    requires AritiesFit(r, db)
    ensures forall a :: a in PosAtoms(Atoms(r.body)) ==> HasArity(Rows(db, a.rel), |a.args|)
  {
    OrderedAtoms(Atoms(r.body));
    AtomsIn(r.body);
  }

  // ----- How often -----

  /** The number of ways to satisfy the positive atoms: one factor per atom. */
  ghost function AtomsWeight(atoms: seq<Atom>, b: Binding, db: Database): nat {
    if atoms == [] then 1
    else
      var last := atoms[|atoms| - 1];
      AtomsWeight(atoms[..|atoms| - 1], b, db) * multiset(Rows(db, last.rel))[Instance(last.args, b)]
  }

  /** The same over the goals of a body. */
  ghost function Weight(body: seq<Literal>, b: Binding, db: Database): nat {
    if body == [] then 1
    else
      var before := Weight(body[..|body| - 1], b, db);
      match body[|body| - 1]
      case Goal(a) => if a.negated then before else before * multiset(Rows(db, a.rel))[Instance(a.args, b)]
      case Test(_, _, _) => before
  }

  lemma {:induction false} ExtendWithRowsCount(b: Binding, args: seq<Term>, rows: seq<Row>, c: Binding)
    requires HasArity(rows, |args|)
    ensures multiset(ExtendWithRows(b, args, rows))[c]
         == if Includes(b, c) && c.Keys == b.Keys + TermVars(args) then multiset(rows)[Instance(args, c)] else 0
  {
    hide HasArity, Includes, TermVars, Extend, Instance;
    if rows != [] {
      HasArityTail(rows, |args|);
      ExtendWithRowsCount(b, args, rows[1..], c);
      assert rows == [rows[0]] + rows[1..];
      OnlyExtension(b, args, rows[0], c);
      assert ExtendWithRows(b, args, rows)
          == (if Extend(b, args, rows[0]).Some? then [Extend(b, args, rows[0]).value] else []) + ExtendWithRows(b, args, rows[1..]);
    }
  }

  /** A row extends a binding to the one binding whose instance it is. */
  lemma OnlyExtension(b: Binding, args: seq<Term>, row: Row, c: Binding)
    requires |row| == |args|
    ensures Extend(b, args, row) == Some(c)
       <==> Includes(b, c) && c.Keys == b.Keys + TermVars(args) && row == Instance(args, c)
  {
    if Extend(b, args, row).Some? {
      ExtendProps(b, args, row);
      AgreesIsInstance(args, row, Extend(b, args, row).value);
    }
    if Includes(b, c) && c.Keys == b.Keys + TermVars(args) && row == Instance(args, c) {
      InstanceAgrees(args, c);
      ExtendComplete(b, args, row, c);
      ExtendProps(b, args, row);
      assert Extend(b, args, row).value == c;
    }
  }

  lemma RestrictedIs(b: Binding, c: Binding, vars: set<string>)
    requires b.Keys == vars <= c.Keys
    ensures Includes(b, c) <==> b == RestrictTo(c, vars)
  {
  }

  lemma EachStep(bs: seq<Binding>, args: seq<Term>, rows: seq<Row>, b: Binding, c: Binding)
    requires bs != []
    ensures multiset(ExtendEach(bs, args, rows))[c]
         == multiset(ExtendWithRows(bs[0], args, rows))[c] + multiset(ExtendEach(bs[1..], args, rows))[c]
    ensures multiset(bs)[b] == multiset(bs[1..])[b] + if bs[0] == b then 1 else 0
    ensures bs[0] in bs && forall x :: x in bs[1..] ==> x in bs
  {
    hide ExtendWithRows;
    assert bs == [bs[0]] + bs[1..];
  }

  lemma {:induction false} ExtendEachCount(bs: seq<Binding>, args: seq<Term>, rows: seq<Row>, vars: set<string>, c: Binding)
    requires HasArity(rows, |args|) && (forall b :: b in bs ==> b.Keys == vars) && c.Keys == vars + TermVars(args)
    ensures multiset(ExtendEach(bs, args, rows))[c]
         == multiset(bs)[RestrictTo(c, vars)] * multiset(rows)[Instance(args, c)]
  {
    if bs == [] {
      hide *;
      NoneExtended(args, rows);
    } else {
      hide *;
      var b := RestrictTo(c, vars);
      EachStep(bs, args, rows, b, c);
      ExtendEachCount(bs[1..], args, rows, vars, c);
      ExtendWithRowsCount(bs[0], args, rows, c);
      RestrictedIs(bs[0], c, vars);
      OneMore(multiset(bs[1..])[b], multiset(rows)[Instance(args, c)]);
    }
  }

  lemma NoneExtended(args: seq<Term>, rows: seq<Row>)
    ensures ExtendEach([], args, rows) == []
  {
  }

  lemma OneMore(n: nat, w: nat)
    ensures (n + 1) * w == n * w + w
  {
  }

  lemma {:induction false} SolveCount(atoms: seq<Atom>, db: Database, c: Binding)
    requires forall a :: a in atoms ==> HasArity(Rows(db, a.rel), |a.args|)
    ensures multiset(Solve(atoms, db))[c] == if c.Keys == TermVars(BodyArgs(atoms)) then AtomsWeight(atoms, c, db) else 0
  {
    hide HasArity, Rows, Instance, ExtendEach, AllPresent;
    if atoms == [] {
      assert TermVars(BodyArgs(atoms)) == {};
      assert c.Keys == {} ==> c == map[];
    } else {
      var front, last := atoms[..|atoms| - 1], atoms[|atoms| - 1];
      assert atoms == front + [last];
      var vars := TermVars(BodyArgs(front));
      TermVarsConcat(BodyArgs(front), last.args);
      hide TermVars, BodyArgs;
      forall b | b in Solve(front, db) ensures b.Keys == vars { SolveFinds(front, db, b); }
      SolveFinds(atoms, db, c);
      if c.Keys == vars + TermVars(last.args) {
        ExtendEachCount(Solve(front, db), last.args, Rows(db, last.rel), vars, c);
        SolveCount(front, db, RestrictTo(c, vars));
        WeightDepends(front, db, RestrictTo(c, vars), c);
      } else {
        assert c !in Solve(atoms, db);
      }
    }
  }

  lemma {:induction false} WeightDepends(atoms: seq<Atom>, db: Database, b: Binding, c: Binding)
    requires Includes(b, c) && TermVars(BodyArgs(atoms)) <= b.Keys
    ensures AtomsWeight(atoms, b, db) == AtomsWeight(atoms, c, db)
  {
    if atoms != [] {
      var front, last := atoms[..|atoms| - 1], atoms[|atoms| - 1];
      TermVarsConcat(BodyArgs(front), last.args);
      WeightDepends(front, db, b, c);
      InstanceDepends(last.args, b, c);
    }
  }

  lemma {:induction false} KeepTestedCount(body: seq<Literal>, bs: seq<Binding>, c: Binding)
    ensures multiset(KeepTested(body, bs))[c] == if TestsHold(body, c) then multiset(bs)[c] else 0
  {
    hide TestsHold;
    if bs != [] {
      KeepTestedCount(body, bs[1..], c);
      assert bs == [bs[0]] + bs[1..];
    }
  }

  lemma {:induction false} KeepAbsentCount(a: Atom, bs: seq<Binding>, db: Database, c: Binding)
    ensures multiset(KeepAbsent(a, bs, db))[c] == if Instance(a.args, c) in Rows(db, a.rel) then 0 else multiset(bs)[c]
  {
    hide Instance, Rows;
    if bs != [] {
      KeepAbsentCount(a, bs[1..], db, c);
      assert bs == [bs[0]] + bs[1..];
    }
  }

  lemma {:induction false} KeepAllAbsentCount(atoms: seq<Atom>, bs: seq<Binding>, db: Database, c: Binding)
    ensures multiset(KeepAllAbsent(atoms, bs, db))[c] == if AllAbsent(atoms, c, db) then multiset(bs)[c] else 0
  {
    hide Instance, Rows, KeepAbsent;
    if atoms != [] {
      var front, last := atoms[..|atoms| - 1], atoms[|atoms| - 1];
      KeepAllAbsentCount(front, bs, db, c);
      KeepAbsentCount(last, KeepAllAbsent(front, bs, db), db, c);
      assert atoms == front + [last];
      assert AllAbsent(atoms, c, db) <==> AllAbsent(front, c, db) && Instance(last.args, c) !in Rows(db, last.rel);
    }
  }

  lemma {:induction false} SameWeight(body: seq<Literal>, b: Binding, db: Database)
    ensures Weight(body, b, db) == AtomsWeight(PosAtoms(Atoms(body)), b, db)
  {
    hide Instance, Rows, PosAtoms, AtomsWeight;
    NoAtoms(b, db);
    if body != [] {
      var front, last := body[..|body| - 1], body[|body| - 1];
      SameWeight(front, b, db);
      var before := Atoms(front);
      assert before + [] == before;
      if last.Goal? {
        WeightPush(before, last.atom, b, db);
      }
    }
  }

  lemma NoAtoms(b: Binding, db: Database)
    ensures PosAtoms([]) == [] && AtomsWeight([], b, db) == 1
  {
  }

  lemma WeightPush(atoms: seq<Atom>, a: Atom, b: Binding, db: Database)
    ensures AtomsWeight(PosAtoms(atoms + [a]), b, db)
         == if a.negated then AtomsWeight(PosAtoms(atoms), b, db)
            else AtomsWeight(PosAtoms(atoms), b, db) * multiset(Rows(db, a.rel))[Instance(a.args, b)]
  {
    hide Instance, Rows;
    assert (atoms + [a])[..|atoms|] == atoms;
    var pos := PosAtoms(atoms);
    assert pos + [] == pos && (pos + [a])[..|pos|] == pos;
  }

  /** A satisfying binding is found once for every way to choose the rows of the positive goals, and no other binding is
      found.  This is what aggregates count. */
  lemma BodyBindingsCount(r: Rule, db: Database, c: Binding)
    requires Safe(r) && AritiesFit(r, db)
    ensures multiset(BodyBindings(r, db))[c] == if SatisfiesBody(r, c, db) then Weight(r.body, c, db) else 0
  {
    hide Solve, KeepTested, KeepAllAbsent, TestsHold, Instance, Atoms, HasArity, TermVars, BodyArgs, PosAtoms, NegAtoms,
         Weight, AtomsWeight, SatisfiesBody, Safe;
    BodyBindingsSatisfy(r, db, c);
    if SatisfiesBody(r, c, db) {
      var pos, negs := PosAtoms(Atoms(r.body)), NegAtoms(Atoms(r.body));
      AritiesSplit(r, db);
      SolveCount(pos, db, c);
      KeepTestedCount(r.body, Solve(pos, db), c);
      KeepAllAbsentCount(negs, KeepTested(r.body, Solve(pos, db)), db, c);
      SameWeight(r.body, c, db);
      SatisfiedParts(r, c, db);
    }
  }

  lemma SatisfiedParts(r: Rule, c: Binding, db: Database)
    requires SatisfiesBody(r, c, db)
    ensures c.Keys == TermVars(BodyArgs(PosAtoms(Atoms(r.body)))) && TestsHold(r.body, c)
    ensures AllAbsent(NegAtoms(Atoms(r.body)), c, db)
  {
    PosVarsBound(r);
    AtomsIn(r.body);
    OrderedAtoms(Atoms(r.body));
    hide Atoms, PosAtoms, NegAtoms, TermVars, BodyArgs, BoundIn, TestsHold, Instance;
  }

  /** The rows in the result of a translated rule without aggregation are the head images of the
      satisfying bindings, each exactly once. */
  lemma RuleResult(r: Rule, idb: set<string>, db: Database)
    requires Safe(r) && NamesApart(r) && AritiesFit(r, db) && !Aggregates(r)
    ensures TranslateRule(r, idb).Some?
    ensures var rows := Eval(TranslateRule(r, idb).value, db);
      && (forall t :: t in rows <==> exists b :: SatisfiesBody(r, b, db) && t == HeadRow(r.headArgs, b))
      && (forall i, j :: 0 <= i < j < |rows| ==> rows[i] != rows[j])
  {
    hide SatisfiesBody, TranslateRule, Eval, BodyBindings, Distinct, NamesApart, AritiesFit, Safe;
    RulePreserved(r, idb, db);
    var bs := BodyBindings(r, db);
    var images := HeadRows(r.headArgs, bs);
    DistinctProps(images);
    var rows := Eval(TranslateRule(r, idb).value, db);
    assert rows == Distinct(images);
    forall t ensures t in rows <==> exists b :: SatisfiesBody(r, b, db) && t == HeadRow(r.headArgs, b) {
      if t in rows {
        var i :| 0 <= i < |images| && images[i] == t;
        BodyBindingsSatisfy(r, db, bs[i]);
      }
      if b: Binding :| SatisfiesBody(r, b, db) && t == HeadRow(r.headArgs, b) {
        BodyBindingsSatisfy(r, db, b);
        var i :| 0 <= i < |bs| && bs[i] == b;
        assert images[i] == t;
      }
    }
  }
}
