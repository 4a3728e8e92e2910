/** Attribute references: resolving names against the FROM clauses in scope, and turning a FROM item and a
    position into one position in the concatenated row. */
module NameResolution {
  import opened Sql

  /** Tables and subqueries are leaves; joins have no alias. */
  datatype FromItem = Leaf(name: string, attrs: seq<string>) | JoinExpr(left: FromItem, right: FromItem)

  type FromClause = seq<FromItem>

  function Attrs(f: FromItem): seq<string> {
    match f
    case Leaf(_, attrs) => attrs
    case JoinExpr(l, r) => Attrs(l) + Attrs(r)
  }

  // ----- Unqualified names -----

  /** How often a name occurs in a list. */
  function Occurrences(names: seq<string>, name: string): nat {
    if names == [] then 0 else Occurrences(names[..|names| - 1], name) + if names[|names| - 1] == name then 1 else 0
  }

  lemma {:induction false} OccursIffIn(names: seq<string>, name: string)
    ensures name in names <==> Occurrences(names, name) > 0
  {
    if names != [] {
      OccursIffIn(names[..|names| - 1], name);
      assert names == names[..|names| - 1] + [names[|names| - 1]];
    }
  }

  datatype Lookup = Position(pos: nat) | Absent | Twice

  method FindAttrInFromItem(f: FromItem, name: string) returns (r: Lookup)
    ensures r.Position? ==> r.pos < |Attrs(f)| && Attrs(f)[r.pos] == name && Occurrences(Attrs(f), name) == 1
    ensures r.Absent? <==> name !in Attrs(f)
    ensures r.Twice? <==> Occurrences(Attrs(f), name) > 1
  {
    var attrs := Attrs(f);
    r := Absent;
    for i := 0 to |attrs|
      invariant r.Absent? || (r.Position? && r.pos < i && attrs[r.pos] == name)
      invariant Occurrences(attrs[..i], name) == if r.Absent? then 0 else 1
    {
      OccurrencesStep(attrs, name, i);
      if attrs[i] == name {
        if r.Position? {
          OccurrencesMonotone(attrs, name, i + 1);
          OccursIffIn(attrs, name);
          return Twice;
        }
        r := Position(i);
      }
    }
    assert attrs[..|attrs|] == attrs;
    OccursIffIn(attrs, name);
  }

  lemma OccurrencesStep(names: seq<string>, name: string, i: nat)
    requires i < |names|
    ensures Occurrences(names[..i + 1], name) == Occurrences(names[..i], name) + if names[i] == name then 1 else 0
  {
    assert names[..i + 1][..i] == names[..i];
  }

  lemma {:induction false} OccurrencesMonotone(names: seq<string>, name: string, i: nat)
    requires i <= |names|
    ensures Occurrences(names[..i], name) <= Occurrences(names, name)
  {
    if i == |names| {
      assert names[..i] == names;
    } else {
      var front := names[..|names| - 1];
      OccurrencesMonotone(front, name, i);
      assert front[..i] == names[..i];
    }
  }

  datatype Resolution = Found(levelsUp: nat, item: nat, pos: nat) | NotFound | Ambiguous

  /** FROM item `item` of the scope has the name. */
  predicate Has(clause: FromClause, item: nat, name: string) {
    item < |clause| && name in Attrs(clause[item])
  }

  ghost predicate ScopeHas(clause: FromClause, name: string) {
    exists item: nat :: Has(clause, item, name)
  }

  /** The reference denotes the only column of that name in the innermost scope that has one. */
  ghost predicate Denotes(scopes: seq<FromClause>, name: string, level: nat, item: nat, pos: nat) {
    && level < |scopes| && Has(scopes[level], item, name)
    && pos < |Attrs(scopes[level][item])| && Attrs(scopes[level][item])[pos] == name
    && Occurrences(Attrs(scopes[level][item]), name) == 1
    && (forall other: nat :: Has(scopes[level], other, name) ==> other == item)
    && (forall l :: 0 <= l < level ==> !ScopeHas(scopes[l], name))
  }

  /** Some FROM item has the name twice. */
  ghost predicate Doubled(scopes: seq<FromClause>, name: string) {
    exists l: nat, item: nat :: DoubledAt(scopes, l, item, name)
  }

  ghost predicate DoubledAt(scopes: seq<FromClause>, l: nat, item: nat, name: string) {
    l < |scopes| && item < |scopes[l]| && Occurrences(Attrs(scopes[l][item]), name) > 1
  }

  /** Two items of the innermost scope that has the name have it. */
  ghost predicate Competing(scopes: seq<FromClause>, name: string) {
    exists l: nat, i: nat, j: nat :: CompetingAt(scopes, l, i, j, name)
  }

  ghost predicate CompetingAt(scopes: seq<FromClause>, l: nat, i: nat, j: nat, name: string) {
    && l < |scopes| && i < j && Has(scopes[l], i, name) && Has(scopes[l], j, name)
    && forall k :: 0 <= k < l ==> !ScopeHas(scopes[k], name)
  }

  /** What is known after looking at the scopes before `l` and the items before `i` of scope `l`. */
  ghost predicate Searched(scopes: seq<FromClause>, name: string, l: nat, i: nat, r: Resolution) {
    && (forall k: nat, item: nat :: k < |scopes| && item < |scopes[k]| && (k < l || (k == l && item < i)) ==>
          !DoubledAt(scopes, k, item, name))
    && (r.NotFound? ==>
          forall k: nat, item: nat :: k < |scopes| && (k < l || (k == l && item < i)) ==> !Has(scopes[k], item, name))
    && (r.Found? ==> SoFar(scopes, name, l, i, r.levelsUp, r.item, r.pos))
    && !r.Ambiguous?
  }

  ghost predicate SoFar(scopes: seq<FromClause>, name: string, l: nat, i: nat, level: nat, item: nat, pos: nat) {
    && level < |scopes| && (level < l || (level == l && item < i)) && Has(scopes[level], item, name)
    && pos < |Attrs(scopes[level][item])| && Attrs(scopes[level][item])[pos] == name
    && Occurrences(Attrs(scopes[level][item]), name) == 1
    && (forall other: nat :: Has(scopes[level], other, name) && (level < l || other < i) ==> other == item)
    && (forall k :: 0 <= k < level ==> !ScopeHas(scopes[k], name))
  }

  /** `findAttrRefInFrom`: scopes from the inside out, items from left to right. */
  method FindAttrRefInFrom(scopes: seq<FromClause>, name: string) returns (r: Resolution)
    ensures r.Found? ==> Denotes(scopes, name, r.levelsUp, r.item, r.pos)
    ensures r.NotFound? ==> forall l :: 0 <= l < |scopes| ==> !ScopeHas(scopes[l], name)
    ensures r.Ambiguous? <==> Doubled(scopes, name) || Competing(scopes, name)
  {
    r := NotFound;
    for l := 0 to |scopes|
      invariant Searched(scopes, name, l, 0, r)
    {
      for i := 0 to |scopes[l]|
        invariant Searched(scopes, name, l, i, r)
      {
        var at := FindAttrInFromItem(scopes[l][i], name);
        OccursIffIn(Attrs(scopes[l][i]), name);
        match at
        case Twice =>
          assert DoubledAt(scopes, l, i, name);
          return Ambiguous;
        case Absent =>
        case Position(pos) =>
          if r.Found? {
            if r.levelsUp == l {
              assert CompetingAt(scopes, l, r.item, i, name);
              return Ambiguous;
            }
          } else {
            NothingBefore(scopes, name, l, i);
            r := Found(l, i, pos);
          }
      }
      NextScope(scopes, name, l, r);
    }
    Conclude(scopes, name, r);
  }

  lemma NothingBefore(scopes: seq<FromClause>, name: string, l: nat, i: nat)
    requires l < |scopes| && Searched(scopes, name, l, i, NotFound)
    ensures forall k :: 0 <= k < l ==> !ScopeHas(scopes[k], name)
  {
  }

  lemma NextScope(scopes: seq<FromClause>, name: string, l: nat, r: Resolution)
    requires l < |scopes| && Searched(scopes, name, l, |scopes[l]|, r)
    ensures Searched(scopes, name, l + 1, 0, r)
  {
  }

  lemma Conclude(scopes: seq<FromClause>, name: string, r: Resolution)
    requires Searched(scopes, name, |scopes|, 0, r)
    ensures !Doubled(scopes, name) && !Competing(scopes, name)
    ensures r.Found? ==> Denotes(scopes, name, r.levelsUp, r.item, r.pos)
    ensures r.NotFound? ==> forall l :: 0 <= l < |scopes| ==> !ScopeHas(scopes[l], name)
  {
    if l: nat, i: nat, j: nat :| CompetingAt(scopes, l, i, j, name) {
      assert Has(scopes[l], i, name) && Has(scopes[l], j, name);
      if r.Found? && r.levelsUp < l {
        assert ScopeHas(scopes[r.levelsUp], name);
      }
    }
  }

  // ----- Rows of FROM items -----

  /** One row per leaf, in the shape of the FROM item. */
  datatype ItemRow = LeafRow(row: Row) | JoinRow(left: ItemRow, right: ItemRow)

  predicate Shaped(f: FromItem, r: ItemRow) {
    match f
    case Leaf(_, attrs) => r.LeafRow? && |r.row| == |attrs|
    case JoinExpr(left, right) => r.JoinRow? && Shaped(left, r.left) && Shaped(right, r.right)
  }

  /** The row of a join is the row of its left input followed by that of its right input. */
  function Flat(r: ItemRow): Row {
    match r
    case LeafRow(row) => row
    case JoinRow(left, right) => Flat(left) + Flat(right)
  }

  lemma {:induction false} FlatLength(f: FromItem, r: ItemRow)
    requires Shaped(f, r)
    ensures |Flat(r)| == |Attrs(f)|
  {
    if f.JoinExpr? {
      FlatLength(f.left, r.left);
      FlatLength(f.right, r.right);
    }
  }

  function Leaves(f: FromItem): (leaves: seq<FromItem>)
    ensures forall l :: l in leaves ==> l.Leaf?
  {
    match f
    case Leaf(_, _) => [f]
    case JoinExpr(left, right) => Leaves(left) + Leaves(right)
  }

  function LeafRows(r: ItemRow): seq<Row> {
    match r
    case LeafRow(row) => [row]
    case JoinRow(left, right) => LeafRows(left) + LeafRows(right)
  }

  ghost predicate DistinctLeaves(f: FromItem) {
    forall i, j :: 0 <= i < j < |Leaves(f)| ==> Leaves(f)[i].name != Leaves(f)[j].name
  }

  // ----- Positions within a FROM item -----

  /** `findNamedFromItem`: the leftmost leaf with the name. */
  function FindNamed(f: FromItem, name: string): seq<FromItem> {
    match f
    case Leaf(n, _) => if n == name then [f] else []
    case JoinExpr(left, right) =>
      var l := FindNamed(left, name);
      if l != [] then l else FindNamed(right, name)
  }

  function TotalWidth(leaves: seq<FromItem>): nat {
    if leaves == [] then 0 else TotalWidth(leaves[..|leaves| - 1]) + |Attrs(leaves[|leaves| - 1])|
  }

  /** `adaptAttrPosOffset`: add the widths of the leaves before the first one with this name. */
  method AdaptAttrPosOffset(f: FromItem, leaf: FromItem, pos: nat) returns (adapted: nat)
    requires leaf.Leaf? && leaf in Leaves(f)
    ensures exists k: nat :: IsLeafAt(f, leaf.name, k) && adapted == TotalWidth(Leaves(f)[..k]) + pos
  {
    var leaves := Leaves(f);
    adapted := pos;
    var offset := 0;
    for i := 0 to |leaves|
      invariant offset == TotalWidth(leaves[..i]) && adapted == pos
      invariant forall j :: 0 <= j < i ==> leaves[j].name != leaf.name
    {
      if leaves[i].name == leaf.name {
        assert IsLeafAt(f, leaf.name, i);
        adapted := adapted + offset;
        return;
      }
      assert leaves[..i + 1][..i] == leaves[..i];
      offset := offset + |Attrs(leaves[i])|;
    }
  }

  /** Leaf `k` is the first with the name. */
  ghost predicate IsLeafAt(f: FromItem, name: string, k: nat) {
    k < |Leaves(f)| && Leaves(f)[k].name == name && forall j :: 0 <= j < k ==> Leaves(f)[j].name != name
  }

  /** The leaf found by name is the first of that name. */
  lemma {:induction false} FindNamedFirst(f: FromItem, name: string)
    ensures FindNamed(f, name) == [] <==> forall k :: 0 <= k < |Leaves(f)| ==> Leaves(f)[k].name != name
    ensures FindNamed(f, name) != [] ==> exists k: nat :: IsLeafAt(f, name, k) && FindNamed(f, name) == [Leaves(f)[k]]
  {
    match f
    case Leaf(n, _) =>
      if n == name { assert IsLeafAt(f, name, 0); } else { assert Leaves(f)[0].name == n; }
    case JoinExpr(left, right) =>
      FindNamedFirst(left, name);
      FindNamedFirst(right, name);
      if FindNamed(left, name) != [] {
        var k: nat :| IsLeafAt(left, name, k) && FindNamed(left, name) == [Leaves(left)[k]];
        hide Leaves;
        JoinLeaf(left, right, k);
        assert IsLeafAt(f, name, k) by {
          forall j | 0 <= j < k ensures Leaves(f)[j].name != name { JoinLeaf(left, right, j); }
        }
      } else if FindNamed(right, name) != [] {
        var k: nat :| IsLeafAt(right, name, k) && FindNamed(right, name) == [Leaves(right)[k]];
        hide Leaves;
        var at := |Leaves(left)| + k;
        JoinLeaf(left, right, at);
        assert IsLeafAt(f, name, at) by {
          forall j | 0 <= j < at ensures Leaves(f)[j].name != name { JoinLeaf(left, right, j); }
        }
      } else {
        hide Leaves;
        forall k | 0 <= k < |Leaves(f)| ensures Leaves(f)[k].name != name { JoinLeaf(left, right, k); }
      }
  }

  lemma JoinLeaf(left: FromItem, right: FromItem, k: nat)
    ensures var f, n := JoinExpr(left, right), |Leaves(left)|;
      && |Leaves(f)| == n + |Leaves(right)|
      && (k < |Leaves(f)| ==> Leaves(f)[k] == if k < n then Leaves(left)[k] else Leaves(right)[k - n])
  {
  }

  /** FROM item `item` of scope `l` contains a leaf with the name. */
  predicate Names(scopes: seq<FromClause>, l: nat, item: nat, name: string) {
    l < |scopes| && item < |scopes[l]| && FindNamed(scopes[l][item], name) != []
  }

  /** FROM item `item` of scope `l` is the only one in all scopes with a leaf of that name. */
  ghost predicate OnlyNamed(scopes: seq<FromClause>, table: string, l: nat, item: nat) {
    Names(scopes, l, item, table) && forall k: nat, other: nat :: Names(scopes, k, other, table) ==> k == l && other == item
  }

  /** The reference denotes the column of the only FROM item, in any scope, with a leaf of that name. */
  ghost predicate DenotesQualified(scopes: seq<FromClause>, table: string, attr: string, l: nat, item: nat, pos: nat) {
    && OnlyNamed(scopes, table, l, item)
    && exists k: nat, p: nat :: LeafColumn(scopes[l][item], table, attr, k, p) && pos == TotalWidth(Leaves(scopes[l][item])[..k]) + p
  }

  ghost predicate LeafColumn(f: FromItem, table: string, attr: string, k: nat, p: nat) {
    && IsLeafAt(f, table, k) && p < |Leaves(f)[k].attrs| && Leaves(f)[k].attrs[p] == attr
    && Occurrences(Leaves(f)[k].attrs, attr) == 1
  }

  /** `findQualifiedAttrRefInFrom`: outer scopes are searched too, so a table name may occur only once in all
      of them. */
  method FindQualifiedAttrRefInFrom(scopes: seq<FromClause>, table: string, attr: string) returns (r: Resolution)
    ensures r.Found? ==> DenotesQualified(scopes, table, attr, r.levelsUp, r.item, r.pos)
    ensures (forall l: nat, item: nat :: !Names(scopes, l, item, table)) ==> r.NotFound?
    ensures (exists l: nat, i: nat, k: nat, j: nat :: Names(scopes, l, i, table) && Names(scopes, k, j, table) && (l != k || i != j))
      ==> r.Ambiguous?
    ensures forall l: nat, i: nat :: OnlyNamed(scopes, table, l, i) ==>
      var attrs := Attrs(FindNamed(scopes[l][i], table)[0]);
      (r.NotFound? <==> attr !in attrs) && (r.Ambiguous? <==> Occurrences(attrs, attr) > 1)
  {
    r := NotFound;
    for l := 0 to |scopes|
      invariant OnlyAt(scopes, table, l, 0, r)
    {
      for i := 0 to |scopes[l]|
        invariant OnlyAt(scopes, table, l, i, r)
      {
        var found := FindNamed(scopes[l][i], table);
        if found != [] {
          if r.Found? {
            assert Names(scopes, r.levelsUp, r.item, table) && Names(scopes, l, i, table);
            return Ambiguous;
          }
          r := Found(l, i, 0);
        }
      }
    }
    if r.Found? {
      var fromItem := scopes[r.levelsUp][r.item];
      FindNamedFirst(fromItem, table);
      var leaf := FindNamed(fromItem, table)[0];
      ghost var k: nat :| IsLeafAt(fromItem, table, k) && leaf == Leaves(fromItem)[k];
      var at := FindAttrInFromItem(leaf, attr);
      match at
      case Twice => r := Ambiguous;
      case Absent => r := NotFound;
      case Position(p) =>
        var pos := AdaptAttrPosOffset(fromItem, leaf, p);
        assert LeafColumn(fromItem, table, attr, k, p);
        r := Found(r.levelsUp, r.item, pos);
    }
  }

  ghost predicate OnlyAt(scopes: seq<FromClause>, table: string, l: nat, i: nat, r: Resolution) {
    && !r.Ambiguous?
    && (r.Found? ==> Names(scopes, r.levelsUp, r.item, table) && (r.levelsUp < l || (r.levelsUp == l && r.item < i)))
    && (forall k: nat, item: nat :: Names(scopes, k, item, table) && (k < l || (k == l && item < i)) ==>
          r.Found? && k == r.levelsUp && item == r.item)
  }

  lemma {:induction false} TotalWidthSplit(a: seq<FromItem>, b: seq<FromItem>)
    ensures TotalWidth(a + b) == TotalWidth(a) + TotalWidth(b)
  {
    if b == [] {
      assert a + b == a;
    } else {
      assert (a + b)[..|a + b| - 1] == a + b[..|b| - 1];
      TotalWidthSplit(a, b[..|b| - 1]);
    }
  }

  lemma {:induction false} LeavesWidth(f: FromItem)
    ensures TotalWidth(Leaves(f)) == |Attrs(f)|
  {
    match f
    case Leaf(_, _) => assert Leaves(f)[..0] == [];
    case JoinExpr(left, right) =>
      LeavesWidth(left);
      LeavesWidth(right);
      TotalWidthSplit(Leaves(left), Leaves(right));
  }

  lemma {:induction false} LeafRowsShaped(f: FromItem, r: ItemRow)
    requires Shaped(f, r)
    ensures |LeafRows(r)| == |Leaves(f)|
    ensures forall k :: 0 <= k < |Leaves(f)| ==> |LeafRows(r)[k]| == |Attrs(Leaves(f)[k])|
  {
    if f.JoinExpr? {
      LeafRowsShaped(f.left, r.left);
      LeafRowsShaped(f.right, r.right);
    }
  }

  /** Leaf offset plus position indexes, in the row of the FROM item, the value in the row of the leaf. */
  lemma {:induction false} LeafValue(f: FromItem, r: ItemRow, k: nat, pos: nat)
    requires Shaped(f, r) && k < |Leaves(f)| && pos < |Attrs(Leaves(f)[k])|
    ensures |LeafRows(r)| == |Leaves(f)| && |LeafRows(r)[k]| == |Attrs(Leaves(f)[k])|
    ensures var p := TotalWidth(Leaves(f)[..k]) + pos; p < |Flat(r)| && Flat(r)[p] == LeafRows(r)[k][pos]
  {
    LeafRowsShaped(f, r);
    match f
    case Leaf(_, _) => assert Leaves(f)[..0] == [];
    case JoinExpr(left, right) =>
      var n := |Leaves(left)|;
      FlatLength(left, r.left);
      LeafRowsShaped(left, r.left);
      LeafSplit(Leaves(left), Leaves(right), k);
      LeavesWidth(left);
      hide TotalWidth, Attrs, Shaped;
      if k < n {
        LeafValue(left, r.left, k, pos);
      } else {
        LeafValue(right, r.right, k - n, pos);
      }
  }

  lemma LeafSplit(a: seq<FromItem>, b: seq<FromItem>, k: nat)
    requires k < |a| + |b|
    ensures k < |a| ==> (a + b)[k] == a[k] && TotalWidth((a + b)[..k]) == TotalWidth(a[..k])
    ensures k >= |a| ==> (a + b)[k] == b[k - |a|] && TotalWidth((a + b)[..k]) == TotalWidth(a) + TotalWidth(b[..k - |a|])
  {
    if k < |a| {
      assert (a + b)[..k] == a[..k];
    } else {
      assert (a + b)[..k] == a + b[..k - |a|];
      TotalWidthSplit(a, b[..k - |a|]);
    }
  }

  /** With distinct leaf names, a qualified reference reads the column of the leaf it names. */
  lemma QualifiedValue(f: FromItem, r: ItemRow, name: string, k: nat, other: nat, pos: nat)
    requires Shaped(f, r) && DistinctLeaves(f) && IsLeafAt(f, name, k)
    requires other < |Leaves(f)| && Leaves(f)[other].name == name && pos < |Attrs(Leaves(f)[other])|
    ensures |LeafRows(r)| == |Leaves(f)| && |LeafRows(r)[other]| == |Attrs(Leaves(f)[other])|
    ensures var p := TotalWidth(Leaves(f)[..k]) + pos; p < |Flat(r)| && Flat(r)[p] == LeafRows(r)[other][pos]
  {
    assert k == other;
    LeafValue(f, r, k, pos);
  }

  // ----- Positions within the FROM clause -----

  function Widths(clause: FromClause): nat {
    if clause == [] then 0 else Widths(clause[..|clause| - 1]) + |Attrs(clause[|clause| - 1])|
  }

  /** `getAttrsOffsets`: where the columns of each FROM item start. */
  method GetAttrsOffsets(clause: FromClause) returns (offsets: seq<nat>)
    ensures offsets == Offsets(clause)
  {
    offsets := [];
    var curOffset := 0;
    for i := 0 to |clause|
      invariant |offsets| == i && curOffset == Widths(clause[..i])
      invariant forall k :: 0 <= k < i ==> offsets[k] == Widths(clause[..k])
    {
      offsets := offsets + [curOffset];
      assert clause[..i + 1][..i] == clause[..i];
      curOffset := curOffset + |Attrs(clause[i])|;
    }
  }

  function Offsets(clause: FromClause): (offsets: seq<nat>)
    ensures |offsets| == |clause| && forall k :: 0 <= k < |clause| ==> offsets[k] == Widths(clause[..k])
  {
    seq(|clause|, k requires 0 <= k < |clause| => Widths(clause[..k]))
  }

  /** The row of the join tree of a FROM clause: the rows of its items, left to right. */
  function Concatenated(rs: seq<ItemRow>): Row {
    if rs == [] then [] else Concatenated(rs[..|rs| - 1]) + Flat(rs[|rs| - 1])
  }

  ghost predicate AllShaped(clause: FromClause, rs: seq<ItemRow>) {
    |clause| == |rs| && forall i :: 0 <= i < |rs| ==> Shaped(clause[i], rs[i])
  }

  lemma {:induction false} ConcatenatedLength(clause: FromClause, rs: seq<ItemRow>)
    requires AllShaped(clause, rs)
    ensures |Concatenated(rs)| == Widths(clause)
  {
    if rs != [] {
      ConcatenatedLength(clause[..|clause| - 1], rs[..|rs| - 1]);
      FlatLength(clause[|clause| - 1], rs[|rs| - 1]);
    }
  }

  /** FROM-item offset plus position indexes, in the concatenated row, the value in the row of the item. */
  lemma {:induction false} ItemValue(clause: FromClause, rs: seq<ItemRow>, item: nat, pos: nat)
    requires AllShaped(clause, rs) && item < |clause| && pos < |Attrs(clause[item])|
    ensures |Flat(rs[item])| == |Attrs(clause[item])|
    ensures var p := Offsets(clause)[item] + pos; p < |Concatenated(rs)| && Concatenated(rs)[p] == Flat(rs[item])[pos]
  {
    FlatLength(clause[item], rs[item]);
    var n := |clause| - 1;
    ConcatenatedLength(clause[..n], rs[..n]);
    if item < n {
      ItemValue(clause[..n], rs[..n], item, pos);
      assert clause[..n][..item] == clause[..item];
    }
  }

  // ----- Rewriting references -----

  /** `visitAttrRefToSetNewAttrPos`: add the offset of the FROM item and refer to item 0. */
  function Reposition(e: Expr, offsets: seq<nat>): Expr {
    match e
    case Attr(item, pos) => if item < |offsets| then Attr(0, pos + offsets[item]) else e
    case Const(_) => e
    case Apply(op, args) => Apply(op, RepositionAll(args, offsets))
    case Call(name, agg, args) => Call(name, agg, RepositionAll(args, offsets))
    case Case(c, t, f) => Case(Reposition(c, offsets), Reposition(t, offsets), Reposition(f, offsets))
  }

  function RepositionAll(es: seq<Expr>, offsets: seq<nat>): (r: seq<Expr>)
    ensures |r| == |es| && forall i :: 0 <= i < |es| ==> r[i] == Reposition(es[i], offsets)
  {
    seq(|es|, i requires 0 <= i < |es| => Reposition(es[i], offsets))
  }

  /** Since item 0 starts at offset 0, rewriting twice is rewriting once. */
  lemma {:induction false} RepositionTwice(e: Expr, offsets: seq<nat>)
    requires offsets != [] ==> offsets[0] == 0
    ensures Reposition(Reposition(e, offsets), offsets) == Reposition(e, offsets)
    decreases e
  {
    match e
    case Attr(_, _) =>
    case Const(_) =>
    case Apply(_, args) => RepositionAllTwice(args, offsets);
    case Call(_, _, args) => RepositionAllTwice(args, offsets);
    case Case(c, t, f) =>
      RepositionTwice(c, offsets);
      RepositionTwice(t, offsets);
      RepositionTwice(f, offsets);
  }

  lemma {:induction false} RepositionAllTwice(es: seq<Expr>, offsets: seq<nat>)
    requires offsets != [] ==> offsets[0] == 0
    ensures RepositionAll(RepositionAll(es, offsets), offsets) == RepositionAll(es, offsets)
    decreases es
  {
    var once := RepositionAll(es, offsets);
    forall i | 0 <= i < |es| ensures Reposition(once[i], offsets) == once[i] {
      RepositionTwice(es[i], offsets);
    }
    assert RepositionAll(once, offsets) == once;
  }

  lemma OffsetsStart(clause: FromClause)
    ensures clause != [] ==> Offsets(clause)[0] == 0
  {
    assert clause[..0] == [];
  }

  /** References read from one row per FROM item. */
  function EvalScoped(e: Expr, rs: seq<ItemRow>): Value {
    match e
    case Attr(item, pos) => if item < |rs| then Cell(Flat(rs[item]), pos) else Null
    case Const(v) => v
    case Apply(op, args) => ApplyOp(op, EvalScopedAll(args, rs))
    case Call(name, agg, args) => if agg then Null else ApplyFunction(name, EvalScopedAll(args, rs))
    case Case(c, t, f) => if EvalScoped(c, rs) == Bool(true) then EvalScoped(t, rs) else EvalScoped(f, rs)
  }

  function EvalScopedAll(es: seq<Expr>, rs: seq<ItemRow>): (vs: seq<Value>)
    ensures |vs| == |es| && forall i :: 0 <= i < |es| ==> vs[i] == EvalScoped(es[i], rs)
  {
    seq(|es|, i requires 0 <= i < |es| => EvalScoped(es[i], rs))
  }

  /** All references are to existing columns. */
  predicate Resolved(e: Expr, clause: FromClause) {
    match e
    case Attr(item, pos) => item < |clause| && pos < |Attrs(clause[item])|
    case Const(_) => true
    case Apply(_, args) => forall i :: 0 <= i < |args| ==> Resolved(args[i], clause)
    case Call(_, _, args) => forall i :: 0 <= i < |args| ==> Resolved(args[i], clause)
    case Case(c, t, f) => Resolved(c, clause) && Resolved(t, clause) && Resolved(f, clause)
  }

  /** The rewritten expression, over the concatenated row, has the value of the original over the rows of
      the FROM items. */
  lemma {:induction false} RepositionValue(e: Expr, clause: FromClause, rs: seq<ItemRow>)
    requires AllShaped(clause, rs) && Resolved(e, clause)
    ensures Eval(Reposition(e, Offsets(clause)), Concatenated(rs)) == EvalScoped(e, rs)
    decreases e
  {
    match e
    case Attr(item, pos) => ItemValue(clause, rs, item, pos);
    case Const(_) =>
    case Apply(_, args) => RepositionValues(args, clause, rs);
    case Call(_, _, args) => RepositionValues(args, clause, rs);
    case Case(c, t, f) =>
      RepositionValue(c, clause, rs);
      RepositionValue(t, clause, rs);
      RepositionValue(f, clause, rs);
  }

  lemma {:induction false} RepositionValues(es: seq<Expr>, clause: FromClause, rs: seq<ItemRow>)
    requires AllShaped(clause, rs) && forall i :: 0 <= i < |es| ==> Resolved(es[i], clause)
    ensures EvalAll(RepositionAll(es, Offsets(clause)), Concatenated(rs)) == EvalScopedAll(es, rs)
    decreases es
  {
    var es' := RepositionAll(es, Offsets(clause));
    forall i | 0 <= i < |es| ensures Eval(es'[i], Concatenated(rs)) == EvalScoped(es[i], rs) {
      RepositionValue(es[i], clause, rs);
    }
  }

  ghost predicate InClause(s: Expr, clause: FromClause) {
    s.Attr? ==> s.item < |clause| && s.pos < |Attrs(clause[s.item])|
  }

  /** An expression is resolved iff every reference in it is. */
  lemma {:induction false} ResolvedIff(e: Expr, clause: FromClause)
    ensures Resolved(e, clause) <==> forall s :: IsPart(e, s) ==> InClause(s, clause)
    decreases e
  {
    ResolvedOperands(e, clause);
    hide Resolved, InClause, Operands;
    forall i | 0 <= i < |Operands(e)|
      ensures Resolved(Operands(e)[i], clause) <==> forall s :: IsPart(Operands(e)[i], s) ==> InClause(s, clause)
    {
      OperandSmaller(e, i);
      ResolvedIff(Operands(e)[i], clause);
    }
    forall s ensures IsPart(e, s) <==> s == e || exists i :: 0 <= i < |Operands(e)| && IsPart(Operands(e)[i], s) {
      PartsAre(e, s);
    }
  }

  lemma ResolvedOperands(e: Expr, clause: FromClause)
    ensures Resolved(e, clause) <==>
      InClause(e, clause) && forall i :: 0 <= i < |Operands(e)| ==> Resolved(Operands(e)[i], clause)
  {
    var es := Operands(e);
    match e
    case Attr(_, _) =>
    case Const(_) =>
    case Apply(_, args) => assert es == args;
    case Call(_, _, args) => assert es == args;
    case Case(c, t, f) =>
      assert es[0] == c && es[1] == t && es[2] == f && |es| == 3;
      assert (forall i :: 0 <= i < |es| ==> Resolved(es[i], clause)) <==>
        Resolved(es[0], clause) && Resolved(es[1], clause) && Resolved(es[2], clause);
  }

  // ----- Resolved references -----

  lemma {:induction false} OneOccurrence(names: seq<string>, name: string, i: nat, j: nat)
    requires Occurrences(names, name) == 1 && i < |names| && j < |names| && names[i] == name && names[j] == name
    ensures i == j
  {
    var n := |names| - 1;
    if i < n && j < n {
      NameBefore(names, i);
      OneOccurrence(names[..n], name, i, j);
    } else if i != j {
      NameBefore(names, if i < n then i else j);
    }
  }

  lemma NameBefore(names: seq<string>, k: nat)
    requires k + 1 < |names|
    ensures Occurrences(names[..|names| - 1], names[k]) > 0
  {
    assert names[..|names| - 1][k] == names[k];
    OccursIffIn(names[..|names| - 1], names[k]);
  }

  /** Column `p` of leaf `k` has the name. */
  ghost predicate HasColumn(f: FromItem, name: string, k: nat, p: nat) {
    k < |Leaves(f)| && p < |Leaves(f)[k].attrs| && Leaves(f)[k].attrs[p] == name
  }

  /** The names of a FROM item are those of its leaves, one leaf after the other. */
  lemma {:induction false} AttrsAt(f: FromItem, k: nat, p: nat)
    requires k < |Leaves(f)| && p < |Leaves(f)[k].attrs|
    ensures var q := TotalWidth(Leaves(f)[..k]) + p; q < |Attrs(f)| && Attrs(f)[q] == Leaves(f)[k].attrs[p]
  {
    match f
    case Leaf(_, _) => assert Leaves(f)[..0] == [];
    case JoinExpr(left, right) =>
      LeafSplit(Leaves(left), Leaves(right), k);
      LeavesWidth(left);
      hide TotalWidth;
      if k < |Leaves(left)| { AttrsAt(left, k, p); } else { AttrsAt(right, k - |Leaves(left)|, p); }
  }

  /** And every name comes from a leaf. */
  lemma {:induction false} AttrsFrom(f: FromItem, q: nat) returns (k: nat, p: nat)
    requires q < |Attrs(f)|
    ensures HasColumn(f, Attrs(f)[q], k, p) && q == TotalWidth(Leaves(f)[..k]) + p
  {
    match f
    case Leaf(_, _) =>
      assert Leaves(f)[..0] == [];
      k, p := 0, q;
    case JoinExpr(left, right) =>
      LeavesWidth(left);
      if q < |Attrs(left)| {
        k, p := AttrsFrom(left, q);
        LeafSplit(Leaves(left), Leaves(right), k);
      } else {
        k, p := AttrsFrom(right, q - |Attrs(left)|);
        k := |Leaves(left)| + k;
        LeafSplit(Leaves(left), Leaves(right), k);
      }
  }

  /** A FROM item has a name iff a leaf has it, and has it twice iff two columns of leaves do. */
  lemma HasIff(f: FromItem, name: string)
    ensures name in Attrs(f) <==> exists k: nat, p: nat :: HasColumn(f, name, k, p)
    ensures Occurrences(Attrs(f), name) > 1 <==>
      exists k: nat, p: nat, m: nat, q: nat :: HasColumn(f, name, k, p) && HasColumn(f, name, m, q) && (k != m || p != q)
  {
    hide Leaves, TotalWidth, Occurrences;
    if name in Attrs(f) {
      var q :| 0 <= q < |Attrs(f)| && Attrs(f)[q] == name;
      var k, p := AttrsFrom(f, q);
    }
    if k: nat, p: nat :| HasColumn(f, name, k, p) { AttrsAt(f, k, p); }
    OccursTwice(Attrs(f), name);
    if Occurrences(Attrs(f), name) > 1 {
      var i, j :| 0 <= i < j < |Attrs(f)| && Attrs(f)[i] == name && Attrs(f)[j] == name;
      var k, p := AttrsFrom(f, i);
      var m, q := AttrsFrom(f, j);
    }
    if k: nat, p: nat, m: nat, q: nat :|
      HasColumn(f, name, k, p) && HasColumn(f, name, m, q) && (k != m || p != q)
    {
      AttrsAt(f, k, p);
      AttrsAt(f, m, q);
      var i, j := TotalWidth(Leaves(f)[..k]) + p, TotalWidth(Leaves(f)[..m]) + q;
      if i == j { PlacesDiffer(f, k, p, m, q); }
      assert i < j || j < i;
    }
  }

  /** Different columns of leaves are at different positions. */
  lemma PlacesDiffer(f: FromItem, k: nat, p: nat, m: nat, q: nat)
    requires k < |Leaves(f)| && p < |Leaves(f)[k].attrs| && m < |Leaves(f)| && q < |Leaves(f)[m].attrs|
    requires TotalWidth(Leaves(f)[..k]) + p == TotalWidth(Leaves(f)[..m]) + q
    ensures k == m && p == q
  {
    if k < m { WidthGrows(Leaves(f), k, m); } else if m < k { WidthGrows(Leaves(f), m, k); }
  }

  lemma {:induction false} WidthGrows(leaves: seq<FromItem>, k: nat, m: nat)
    requires k < m <= |leaves| && leaves[k].Leaf?
    ensures TotalWidth(leaves[..k]) + |leaves[k].attrs| <= TotalWidth(leaves[..m])
  {
    assert leaves[..m][..m - 1] == leaves[..m - 1];
    if k < m - 1 { WidthGrows(leaves, k, m - 1); }
  }

  lemma {:induction false} OccursTwice(names: seq<string>, name: string)
    ensures Occurrences(names, name) > 1 <==> exists i, j :: 0 <= i < j < |names| && names[i] == name && names[j] == name
  {
    if names != [] {
      var n := |names| - 1;
      OccursTwice(names[..n], name);
      OccursIffIn(names[..n], name);
      if i, j :| 0 <= i < j < |names| && names[i] == name && names[j] == name {
        assert names[..n][i] == name;
      }
      if names[n] == name && name in names[..n] {
        var i :| 0 <= i < n && names[..n][i] == name;
        assert names[i] == name;
      }
    }
  }

  /** What `findAttrRefInFrom` resolves, moved to its place in the concatenated row of its scope, reads the value of the
      only column of that name among the leaves of the scope. */
  lemma ResolvedReads(scopes: seq<FromClause>, name: string, l: nat, item: nat, pos: nat, rs: seq<ItemRow>)
    returns (k: nat, p: nat)
    requires Denotes(scopes, name, l, item, pos) && AllShaped(scopes[l], rs)
    ensures HasColumn(scopes[l][item], name, k, p)
    ensures |LeafRows(rs[item])| == |Leaves(scopes[l][item])| && p < |LeafRows(rs[item])[k]|
    ensures Eval(Reposition(Attr(item, pos), Offsets(scopes[l])), Concatenated(rs)) == LeafRows(rs[item])[k][p]
    ensures forall other: nat, m: nat, q: nat ::
      other < |scopes[l]| && HasColumn(scopes[l][other], name, m, q) ==> other == item && m == k && q == p
  {
    hide Concatenated, Offsets, Leaves, Flat, LeafRows, TotalWidth;
    var clause := scopes[l];
    var f := clause[item];
    ItemValue(clause, rs, item, pos);
    k, p := AttrsFrom(f, pos);
    LeafAttrs(f, k);
    LeafValue(f, rs[item], k, p);
    forall other: nat, m: nat, q: nat | other < |clause| && HasColumn(clause[other], name, m, q)
      ensures other == item && m == k && q == p {
      AttrsAt(clause[other], m, q);
      assert Has(clause, other, name);
      OneOccurrence(Attrs(f), name, TotalWidth(Leaves(f)[..m]) + q, pos);
      PlacesDiffer(f, k, p, m, q);
    }
  }

  /** What `findQualifiedAttrRefInFrom` resolves reads, there, the column of the leaf it names: leaf offset, item offset
      and local position together, for distinct leaf names. */
  lemma QualifiedReads(scopes: seq<FromClause>, table: string, attr: string, l: nat, item: nat, pos: nat, rs: seq<ItemRow>,
                       k: nat, p: nat)
    requires DenotesQualified(scopes, table, attr, l, item, pos) && AllShaped(scopes[l], rs)
    requires DistinctLeaves(scopes[l][item]) && k < |Leaves(scopes[l][item])| && Leaves(scopes[l][item])[k].name == table
    requires p < |Leaves(scopes[l][item])[k].attrs| && Leaves(scopes[l][item])[k].attrs[p] == attr
    ensures |LeafRows(rs[item])| == |Leaves(scopes[l][item])| && p < |LeafRows(rs[item])[k]|
    ensures Eval(Reposition(Attr(item, pos), Offsets(scopes[l])), Concatenated(rs)) == LeafRows(rs[item])[k][p]
  {
    hide Concatenated, Offsets, Leaves, TotalWidth, Flat, Shaped, LeafRows;
    var clause, f := scopes[l], scopes[l][item];
    var m: nat, q: nat :| LeafColumn(f, table, attr, m, q) && pos == TotalWidth(Leaves(f)[..m]) + q;
    assert m == k by { SameLeaf(f, m, k); }
    OneOccurrence(Leaves(f)[k].attrs, attr, p, q);
    LeafAttrs(f, k);
    LeafValue(f, rs[item], k, p);
    PositionInItem(f, rs[item], pos);
    ItemValue(clause, rs, item, pos);
  }

  lemma SameLeaf(f: FromItem, i: nat, j: nat)
    requires DistinctLeaves(f) && i < |Leaves(f)| && j < |Leaves(f)| && Leaves(f)[i].name == Leaves(f)[j].name
    ensures i == j
  {
    hide Leaves;
  }

  lemma LeafAttrs(f: FromItem, k: nat)
    requires k < |Leaves(f)|
    ensures Attrs(Leaves(f)[k]) == Leaves(f)[k].attrs
  {
    hide Leaves;
    assert Leaves(f)[k] in Leaves(f);
  }

  lemma PositionInItem(f: FromItem, r: ItemRow, pos: nat)
    requires Shaped(f, r) && pos < |Flat(r)|
    ensures pos < |Attrs(f)|
  {
    FlatLength(f, r);
  }
}
