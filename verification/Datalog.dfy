/** Datalog rules and their meaning, given by a tuple-at-a-time interpreter that knows nothing of
    algebra, positions or attribute names. */
module Datalog {
  import opened Algebra

  datatype Option<+T> = None | Some(value: T)

  datatype Term = Var(name: string) | Const(v: Value)

  datatype Expr =
    | EVar(name: string)
    | EConst(v: Value)
    | EApp(op: string, left: Expr, right: Expr)
    | EAgg(fn: string, arg: Expr)

  datatype Atom = Atom(rel: string, args: seq<Term>, negated: bool)

  datatype Literal = Goal(atom: Atom) | Test(op: string, left: Expr, right: Expr)

  datatype Rule = Rule(head: string, headArgs: seq<Expr>, body: seq<Literal>)

  // ----- Parts of a rule -----

  function Atoms(body: seq<Literal>): seq<Atom> {
    if body == [] then []
    else Atoms(body[..|body| - 1]) + match body[|body| - 1] case Goal(a) => [a] case Test(_, _, _) => []
  }

  /** The atoms are those of the goals, in their order and number, wherever comparisons stand. */
  lemma {:induction false} AtomsConcat(b1: seq<Literal>, b2: seq<Literal>)
    ensures Atoms(b1 + b2) == Atoms(b1) + Atoms(b2)
  {
    if b2 == [] {
      assert b1 + b2 == b1;
    } else {
      assert (b1 + b2)[..|b1 + b2| - 1] == b1 + b2[..|b2| - 1];
      AtomsConcat(b1, b2[..|b2| - 1]);
    }
  }

  lemma AtomsStep(body: seq<Literal>, i: nat)
    requires i < |body|
    ensures Atoms(body[..i + 1]) == Atoms(body[..i]) + if body[i].Goal? then [body[i].atom] else []
    ensures Atoms(body[..0]) == [] && body[..|body|] == body
  {
    assert body[..i + 1][..i] == body[..i];
  }

  lemma AtomsOfOne(a: Atom, t: Literal)
    requires t.Test?
    ensures Atoms([Goal(a)]) == [a] && Atoms([t]) == [] && Atoms([]) == []
  {
    assert [Goal(a)][..0] == [] && [t][..0] == [];
  }

  lemma {:induction false} AtomsIn(body: seq<Literal>)
    ensures forall a :: a in Atoms(body) <==> Goal(a) in body
  {
    if body != [] {
      AtomsIn(body[..|body| - 1]);
      assert body == body[..|body| - 1] + [body[|body| - 1]];
    }
  }

  function TermVars(args: seq<Term>): set<string> {
    set t | t in args && t.Var? :: t.name
  }

  function ExprVars(e: Expr): set<string> {
    match e
    case EVar(x) => {x}
    case EConst(_) => {}
    case EApp(_, l, r) => ExprVars(l) + ExprVars(r)
    case EAgg(_, a) => ExprVars(a)
  }

  predicate HasAgg(e: Expr) {
    match e
    case EVar(_) => false
    case EConst(_) => false
    case EApp(_, l, r) => HasAgg(l) || HasAgg(r)
    case EAgg(_, _) => true
  }

  /** An expression, its operands, and so on. */
  function Parts(e: Expr): (parts: set<Expr>)
    ensures e in parts
  {
    {e} + match e
          case EVar(_) => {}
          case EConst(_) => {}
          case EApp(_, l, r) => Parts(l) + Parts(r)
          case EAgg(_, a) => Parts(a)
  }

  lemma {:induction false} ExprVarsAre(e: Expr)
    ensures forall x :: x in ExprVars(e) <==> EVar(x) in Parts(e)
  {
    match e
    case EVar(_) =>
    case EConst(_) =>
    case EApp(_, l, r) =>
      ExprVarsAre(l);
      ExprVarsAre(r);
    case EAgg(_, a) => ExprVarsAre(a);
  }

  lemma {:induction false} HasAggIff(e: Expr)
    ensures HasAgg(e) <==> exists s :: s in Parts(e) && s.EAgg?
  {
    match e
    case EVar(_) =>
    case EConst(_) =>
    case EApp(_, l, r) =>
      HasAggIff(l);
      HasAggIff(r);
    case EAgg(_, _) => assert e in Parts(e);
  }

  /** `getBodyArgs`: the arguments of all atoms, one after the other. */
  function BodyArgs(atoms: seq<Atom>): seq<Term> {
    if atoms == [] then [] else BodyArgs(atoms[..|atoms| - 1]) + atoms[|atoms| - 1].args
  }

  function PosAtoms(atoms: seq<Atom>): seq<Atom> {
    if atoms == [] then []
    else
      var last := atoms[|atoms| - 1];
      PosAtoms(atoms[..|atoms| - 1]) + if last.negated then [] else [last]
  }

  function NegAtoms(atoms: seq<Atom>): seq<Atom> {
    if atoms == [] then []
    else
      var last := atoms[|atoms| - 1];
      NegAtoms(atoms[..|atoms| - 1]) + if last.negated then [last] else []
  }

  /** The atoms of a body in the order in which they are joined: the positive ones, then the negated ones. */
  function JoinOrder(r: Rule): seq<Atom> {
    PosAtoms(Atoms(r.body)) + NegAtoms(Atoms(r.body))
  }

  function PosCount(r: Rule): (n: nat)
    ensures n <= |JoinOrder(r)|
    ensures JoinOrder(r)[..n] == PosAtoms(Atoms(r.body)) && JoinOrder(r)[n..] == NegAtoms(Atoms(r.body))
  {
    |PosAtoms(Atoms(r.body))|
  }

  // ----- Meaning -----

  type Binding = map<string, Value>

  function ExtendUpTo(b: Binding, args: seq<Term>, row: Row, n: nat): Option<Binding>
    requires |row| == |args| && n <= |args|
  {
    if n == 0 then Some(b)
    else
      match ExtendUpTo(b, args, row, n - 1)
      case None => None
      case Some(c) =>
        match args[n - 1]
        case Const(v) => if v == row[n - 1] then Some(c) else None
        case Var(x) =>
          if x !in c then Some(c[x := row[n - 1]])
          else if c[x] == row[n - 1] then Some(c) else None
  }

  /** Unify the arguments of an atom with a row, keeping the variables bound so far. */
  function Extend(b: Binding, args: seq<Term>, row: Row): Option<Binding> {
    if |row| != |args| then None else ExtendUpTo(b, args, row, |args|)
  }

  function ExtendWithRows(b: Binding, args: seq<Term>, rows: seq<Row>): seq<Binding> {
    if rows == [] then []
    else
      (match Extend(b, args, rows[0]) case None => [] case Some(c) => [c]) + ExtendWithRows(b, args, rows[1..])
  }

  function ExtendEach(bs: seq<Binding>, args: seq<Term>, rows: seq<Row>): seq<Binding> {
    if bs == [] then [] else ExtendWithRows(bs[0], args, rows) + ExtendEach(bs[1..], args, rows)
  }

  /** The bindings that satisfy positive atoms, each as often as there are ways to satisfy them. */
  function Solve(atoms: seq<Atom>, db: Database): seq<Binding> {
    if atoms == [] then [map[]]
    else
      var last := atoms[|atoms| - 1];
      ExtendEach(Solve(atoms[..|atoms| - 1], db), last.args, Rows(db, last.rel))
  }

  function EvalExpr(e: Expr, b: Binding): Value {
    match e
    case EVar(x) => if x in b then b[x] else Num(0)
    case EConst(v) => v
    case EApp(op, l, r) => ApplyOp(op, EvalExpr(l, b), EvalExpr(r, b))
    case EAgg(_, _) => Num(0)
  }

  function TermValue(t: Term, b: Binding): Value {
    match t
    case Const(v) => v
    case Var(x) => if x in b then b[x] else Num(0)
  }

  function Instance(args: seq<Term>, b: Binding): (row: Row)
    ensures |row| == |args|
    ensures forall i :: 0 <= i < |args| ==> row[i] == TermValue(args[i], b)
  {
    seq(|args|, i requires 0 <= i < |args| => TermValue(args[i], b))
  }

  predicate TestHolds(t: Literal, b: Binding)
    requires t.Test?
  {
    Compare(t.op, EvalExpr(t.left, b), EvalExpr(t.right, b))
  }

  predicate TestsHold(body: seq<Literal>, b: Binding) {
    forall t :: t in body && t.Test? ==> TestHolds(t, b)
  }

  function KeepTested(body: seq<Literal>, bs: seq<Binding>): seq<Binding> {
    if bs == [] then []
    else (if TestsHold(body, bs[0]) then [bs[0]] else []) + KeepTested(body, bs[1..])
  }

  /** Drop the bindings under which the atom is in the database. */
  function KeepAbsent(a: Atom, bs: seq<Binding>, db: Database): seq<Binding> {
    if bs == [] then []
    else
      (if Instance(a.args, bs[0]) in Rows(db, a.rel) then [] else [bs[0]]) + KeepAbsent(a, bs[1..], db)
  }

  function KeepAllAbsent(atoms: seq<Atom>, bs: seq<Binding>, db: Database): seq<Binding> {
    if atoms == [] then bs
    else KeepAbsent(atoms[|atoms| - 1], KeepAllAbsent(atoms[..|atoms| - 1], bs, db), db)
  }

  /** The bindings that satisfy the body of a rule. */
  function BodyBindings(r: Rule, db: Database): seq<Binding> {
    var atoms := Atoms(r.body);
    KeepAllAbsent(NegAtoms(atoms), KeepTested(r.body, Solve(PosAtoms(atoms), db)), db)
  }

  function HeadRow(args: seq<Expr>, b: Binding): (row: Row)
    ensures |row| == |args|
    ensures forall i :: 0 <= i < |args| ==> row[i] == EvalExpr(args[i], b)
  {
    seq(|args|, i requires 0 <= i < |args| => EvalExpr(args[i], b))
  }

  function HeadRows(args: seq<Expr>, bs: seq<Binding>): (rows: seq<Row>)
    ensures |rows| == |bs|
    ensures forall i :: 0 <= i < |bs| ==> rows[i] == HeadRow(args, bs[i])
  {
    seq(|bs|, i requires 0 <= i < |bs| => HeadRow(args, bs[i]))
  }

  predicate Aggregates(r: Rule) {
    exists e :: e in r.headArgs && HasAgg(e)
  }

  /** The values of the head arguments that are not aggregation calls. */
  function GroupKey(args: seq<Expr>, b: Binding): Row {
    if args == [] then []
    else
      GroupKey(args[..|args| - 1], b)
      + if args[|args| - 1].EAgg? then [] else [EvalExpr(args[|args| - 1], b)]
  }

  function GroupKeys(args: seq<Expr>, bs: seq<Binding>): (keys: seq<Row>)
    ensures |keys| == |bs|
    ensures forall i :: 0 <= i < |bs| ==> keys[i] == GroupKey(args, bs[i])
  {
    seq(|bs|, i requires 0 <= i < |bs| => GroupKey(args, bs[i]))
  }

  function Members(args: seq<Expr>, key: Row, bs: seq<Binding>): seq<Binding> {
    if bs == [] then []
    else (if GroupKey(args, bs[0]) == key then [bs[0]] else []) + Members(args, key, bs[1..])
  }

  function Values(e: Expr, bs: seq<Binding>): (vals: seq<Value>)
    ensures |vals| == |bs|
    ensures forall i :: 0 <= i < |bs| ==> vals[i] == EvalExpr(e, bs[i])
  {
    seq(|bs|, i requires 0 <= i < |bs| => EvalExpr(e, bs[i]))
  }

  /** A head argument over one group: an aggregate of all members, or the value they share. */
  function GroupValue(arg: Expr, members: seq<Binding>): Value {
    if arg.EAgg? then ApplyAgg(arg.fn, Values(arg.arg, members))
    else if members == [] then Num(0)
    else EvalExpr(arg, members[0])
  }

  function GroupHead(args: seq<Expr>, members: seq<Binding>): (row: Row)
    ensures |row| == |args|
    ensures forall i :: 0 <= i < |args| ==> row[i] == GroupValue(args[i], members)
  {
    seq(|args|, i requires 0 <= i < |args| => GroupValue(args[i], members))
  }

  function GroupHeads(args: seq<Expr>, keys: seq<Row>, bs: seq<Binding>): (rows: seq<Row>)
    ensures |rows| == |keys|
    ensures forall i :: 0 <= i < |keys| ==> rows[i] == GroupHead(args, Members(args, keys[i], bs))
  {
    seq(|keys|, i requires 0 <= i < |keys| => GroupHead(args, Members(args, keys[i], bs)))
  }

  /** The rows a rule derives: a set of head images, or one row per group of bindings. */
  function RuleRows(r: Rule, db: Database): seq<Row> {
    var bs := BodyBindings(r, db);
    if !Aggregates(r) then Distinct(HeadRows(r.headArgs, bs))
    else if forall e :: e in r.headArgs ==> e.EAgg? then [GroupHead(r.headArgs, bs)]
    else GroupHeads(r.headArgs, Distinct(GroupKeys(r.headArgs, bs)), bs)
  }

  // ----- Safety -----

  ghost function PosVars(r: Rule): set<string> {
    TermVars(BodyArgs(PosAtoms(Atoms(r.body))))
  }

  /** The variable occurs in a positive goal. */
  ghost predicate BoundIn(body: seq<Literal>, x: string) {
    exists a :: Goal(a) in body && !a.negated && Var(x) in a.args
  }

  /** Range restriction: there is a positive goal, and every variable occurs in one. */
  ghost predicate Safe(r: Rule) {
    && (exists a :: Goal(a) in r.body && !a.negated)
    && VariablesBound(r)
  }

  /** Every variable of a goal, of a comparison and of the head occurs in a positive goal. */
  ghost predicate VariablesBound(r: Rule) {
    && (forall a, x :: Goal(a) in r.body && Var(x) in a.args ==> BoundIn(r.body, x))
    && (forall t, x :: t in r.body && t.Test? && (EVar(x) in Parts(t.left) || EVar(x) in Parts(t.right)) ==>
          BoundIn(r.body, x))
    && (forall e, x :: e in r.headArgs && EVar(x) in Parts(e) ==> BoundIn(r.body, x))
  }

  /** The variables of a literal or of a head argument are among those of positive goals. */
  predicate LiteralBound(l: Literal, posVars: set<string>) {
    match l
    case Goal(a) => a.negated ==> TermVars(a.args) <= posVars
    case Test(_, left, right) => ExprVars(left) + ExprVars(right) <= posVars
  }

  /** `checkDLRuleSafety`: collect the variables of positive goals, then look up those of negated goals, comparisons and
      head arguments. */
  method CheckRuleSafety(r: Rule) returns (safe: bool)
    ensures safe <==> VariablesBound(r)
  {
    hide *;
    var posVars: set<string> := {};
    NothingBound();
    for i := 0 to |r.body|
      invariant forall x :: x in posVars <==> BoundIn(r.body[..i], x)
    {
      assert r.body[..i + 1] == r.body[..i] + [r.body[i]];
      BoundPush(r.body[..i], r.body[i], posVars);
      if r.body[i].Goal? && !r.body[i].atom.negated {
        posVars := posVars + TermVars(r.body[i].atom.args);
      }
    }
    assert r.body[..|r.body|] == r.body;
    CheckedIff(r, posVars);
    for i := 0 to |r.body|
      invariant forall k :: 0 <= k < i ==> LiteralBound(r.body[k], posVars)
    {
      if !LiteralBound(r.body[i], posVars) {
        return false;
      }
    }
    for i := 0 to |r.headArgs|
      invariant forall k :: 0 <= k < i ==> ExprVars(r.headArgs[k]) <= posVars
    {
      if !(ExprVars(r.headArgs[i]) <= posVars) {
        return false;
      }
    }
    safe := true;
  }

  lemma NothingBound()
    ensures forall x :: !BoundIn([], x)
  {
  }

  lemma BoundPush(body: seq<Literal>, l: Literal, posVars: set<string>)
    requires forall x :: x in posVars <==> BoundIn(body, x)
    ensures var more := if l.Goal? && !l.atom.negated then posVars + TermVars(l.atom.args) else posVars;
      forall x :: x in more <==> BoundIn(body + [l], x)
  {
    forall x ensures BoundIn(body + [l], x) <==>
      BoundIn(body, x) || (l.Goal? && !l.atom.negated && x in TermVars(l.atom.args))
    {
      if a :| Goal(a) in body && !a.negated && Var(x) in a.args { assert Goal(a) in body + [l]; }
      if l.Goal? && !l.atom.negated && Var(x) in l.atom.args { assert Goal(l.atom) in body + [l]; }
    }
  }

  lemma CheckedIff(r: Rule, posVars: set<string>)
    requires forall x :: x in posVars <==> BoundIn(r.body, x)
    ensures VariablesBound(r) <==>
      && (forall k :: 0 <= k < |r.body| ==> LiteralBound(r.body[k], posVars))
      && (forall k :: 0 <= k < |r.headArgs| ==> ExprVars(r.headArgs[k]) <= posVars)
  {
    hide Parts, ExprVars;
    forall e ensures forall x :: x in ExprVars(e) <==> EVar(x) in Parts(e) { ExprVarsAre(e); }
    if forall k :: 0 <= k < |r.body| ==> LiteralBound(r.body[k], posVars) {
      forall a, x | Goal(a) in r.body && Var(x) in a.args ensures BoundIn(r.body, x) {
        assert x in TermVars(a.args);
      }
    }
  }

  /** Every relation holds rows of the arity its goals have. */
  ghost predicate AritiesFit(r: Rule, db: Database) {
    forall a, row :: Goal(a) in r.body && row in Rows(db, a.rel) ==> |row| == |a.args|
  }

  /** The reordered atoms are those of the body. */
  lemma {:induction false} OrderedAtoms(atoms: seq<Atom>)
    ensures forall a :: a in PosAtoms(atoms) <==> a in atoms && !a.negated
    ensures forall a :: a in NegAtoms(atoms) <==> a in atoms && a.negated
  {
    if atoms != [] {
      OrderedAtoms(atoms[..|atoms| - 1]);
      assert atoms == atoms[..|atoms| - 1] + [atoms[|atoms| - 1]];
    }
  }

  lemma {:induction false} BodyArgsIn(atoms: seq<Atom>)
    ensures forall t :: t in BodyArgs(atoms) <==> exists a :: a in atoms && t in a.args
  {
    if atoms != [] {
      var front, last := atoms[..|atoms| - 1], atoms[|atoms| - 1];
      BodyArgsIn(front);
      assert atoms == front + [last];
      forall t ensures t in BodyArgs(atoms) <==> exists a :: a in atoms && t in a.args {
        if t in last.args { assert last in atoms; }
        if a :| a in front && t in a.args { assert a in atoms; }
      }
    }
  }

  lemma PosVarsBound(r: Rule)
    ensures forall x :: x in PosVars(r) <==> BoundIn(r.body, x)
  {
    var pos := PosAtoms(Atoms(r.body));
    AtomsIn(r.body);
    OrderedAtoms(Atoms(r.body));
    BodyArgsIn(pos);
    hide Atoms, PosAtoms, BodyArgs;
    forall x ensures x in PosVars(r) <==> BoundIn(r.body, x) {
      assert x in PosVars(r) <==> Var(x) in BodyArgs(pos);
      if a :| a in pos && Var(x) in a.args { assert Goal(a) in r.body; }
      if a :| Goal(a) in r.body && !a.negated && Var(x) in a.args { assert a in pos; }
    }
  }

  /** The same in terms of the parts of the rule that the translation treats one after the other. */
  ghost predicate RangeRestricted(r: Rule) {
    && PosAtoms(Atoms(r.body)) != []
    && (forall a :: a in NegAtoms(Atoms(r.body)) ==> TermVars(a.args) <= PosVars(r))
    && (forall t :: t in r.body && t.Test? ==> ExprVars(t.left) + ExprVars(t.right) <= PosVars(r))
    && (forall e :: e in r.headArgs ==> ExprVars(e) <= PosVars(r))
  }

  lemma SafeIff(r: Rule)
    ensures Safe(r) <==> RangeRestricted(r)
  {
    PosVarsBound(r);
    AtomsIn(r.body);
    OrderedAtoms(Atoms(r.body));
    hide PosVars, Atoms, PosAtoms, NegAtoms, Parts, ExprVars, BoundIn;
    forall e ensures forall x :: x in ExprVars(e) <==> EVar(x) in Parts(e) { ExprVarsAre(e); }
    var pos := PosAtoms(Atoms(r.body));
    assert pos != [] <==> exists a :: Goal(a) in r.body && !a.negated by {
      if pos != [] { assert pos[0] in pos; }
    }
    NegatedBound(r);
  }

  lemma NegatedBound(r: Rule)
    ensures (forall a :: a in NegAtoms(Atoms(r.body)) ==> TermVars(a.args) <= PosVars(r)) <==>
      forall a, x :: Goal(a) in r.body && Var(x) in a.args ==> BoundIn(r.body, x)
  {
    PosVarsBound(r);
    AtomsIn(r.body);
    OrderedAtoms(Atoms(r.body));
    hide PosVars, Atoms, PosAtoms, NegAtoms;
    if forall a :: a in NegAtoms(Atoms(r.body)) ==> TermVars(a.args) <= PosVars(r) {
      forall a, x | Goal(a) in r.body && Var(x) in a.args ensures BoundIn(r.body, x) {
        assert x in TermVars(a.args);
        assert a in Atoms(r.body);
      }
    }
  }
}
