/** Trees of UNION, INTERSECT and EXCEPT: the translated operators give every row the multiplicity that
    section 7.10 of SQL-92 requires. */
module SetOperations {
  import opened Sql

  type Bag = multiset<Row>

  datatype SetOp = Union | Intersection | Difference

  /** Leaves are query blocks, given by the bag they return. */
  datatype SetQuery = Leaf(bag: Bag) | SetOf(op: SetOp, all: bool, left: SetQuery, right: SetQuery)

  datatype Operator = Input(bag: Bag) | SetOperator(op: SetOp, left: Operator, right: Operator) | DuplicateRemoval(input: Operator)

  // ----- The standard -----

  function Min(a: nat, b: nat): nat {
    if a <= b then a else b
  }

  /** The multiplicity of a row, from its multiplicities in the operands. */
  function StandardCount(op: SetOp, all: bool, m: nat, n: nat): nat {
    match op
    case Union => if all then m + n else if m > 0 || n > 0 then 1 else 0
    case Intersection => if all then Min(m, n) else if m > 0 && n > 0 then 1 else 0
    case Difference => if all then (if m > n then m - n else 0) else if m > 0 && n == 0 then 1 else 0
  }

  function Multiplicity(q: SetQuery, row: Row): nat {
    match q
    case Leaf(bag) => bag[row]
    case SetOf(op, all, l, r) => StandardCount(op, all, Multiplicity(l, row), Multiplicity(r, row))
  }

  // ----- The operators -----

  function Once(bag: Bag): (r: Bag)
    ensures forall row :: r[row] == if row in bag then 1 else 0
  {
    multiset(set row | row in bag)
  }

  function Combine(op: SetOp, l: Bag, r: Bag): Bag {
    match op
    case Union => l + r
    case Intersection => l * r
    case Difference => l - r
  }

  function Run(o: Operator): Bag {
    match o
    case Input(bag) => bag
    case SetOperator(op, l, r) => Combine(op, Run(l), Run(r))
    case DuplicateRemoval(input) => Once(Run(input))
  }

  /** `translateSetQuery`: without ALL, duplicates are removed above unions and intersections, but below
      both sides of a difference. */
  function Translate(q: SetQuery): Operator {
    match q
    case Leaf(bag) => Input(bag)
    case SetOf(op, all, l, r) =>
      var left, right := Translate(l), Translate(r);
      if all then SetOperator(op, left, right)
      else if op.Difference? then SetOperator(op, DuplicateRemoval(left), DuplicateRemoval(right))
      else DuplicateRemoval(SetOperator(op, left, right))
  }

  lemma {:induction false} SetQueryPreserved(q: SetQuery, row: Row)
    ensures Run(Translate(q))[row] == Multiplicity(q, row)
  {
    match q
    case Leaf(_) =>
    case SetOf(op, all, l, r) =>
      SetQueryPreserved(l, row);
      SetQueryPreserved(r, row);
      CombineCount(op, Run(Translate(l)), Run(Translate(r)), row);
      CombineCount(op, Once(Run(Translate(l))), Once(Run(Translate(r))), row);
  }

  lemma CombineCount(op: SetOp, l: Bag, r: Bag, row: Row)
    ensures Combine(op, l, r)[row] == StandardCount(op, true, l[row], r[row])
  {
  }

  /** Removing duplicates only above a difference is not enough: with ALL absent, a row that the right side
      has fewer times than the left would survive. */
  lemma DifferenceBelow(l: Bag, r: Bag, row: Row)
    ensures Once(Combine(Difference, l, r))[row] == StandardCount(Difference, false, l[row], r[row])
       <==> !(l[row] > r[row] > 0)
  {
  }
}
