/** Result tables of the black-box tests: the normal form that makes bookkeeping columns comparable. */
module ResultTables {
  import opened Names

  type Row = seq<string>

  const RESULT_TID_ATTR: string := "_result_tid"
  const DUP_ATTR: string := "_setprov_dup_count"

  // ----- Columns -----

  datatype Kind = Tid | Dup | Provenance | Normal

  function KindOf(attr: string): Kind {
    if attr == RESULT_TID_ATTR then Tid
    else if attr == DUP_ATTR then Dup
    else if "prov_" <= attr then Provenance
    else Normal
  }

  /** Two columns keep the books, those called `prov_...` hold provenance, all others are normal. */
  lemma KindIs(attr: string)
    ensures KindOf(attr) == Tid <==> attr == "_result_tid"
    ensures KindOf(attr) == Dup <==> attr == "_setprov_dup_count"
    ensures KindOf(attr) == Provenance <==> |attr| >= 5 && attr[..5] == "prov_"
  {
    if |attr| >= 5 && attr[..5] == "prov_" { assert attr[0] == attr[..5][0] == 'p'; }
  }

  /** The cells in the columns of one kind. */
  function Pick(schema: seq<string>, row: Row, kind: Kind): Row {
    if schema == [] || row == [] then []
    else (if KindOf(schema[0]) == kind then [row[0]] else []) + Pick(schema[1..], row[1..], kind)
  }

  /** Columns to the left come first, and every column is looked at by itself. */
  lemma {:induction false} PickConcat(s1: seq<string>, r1: Row, s2: seq<string>, r2: Row, kind: Kind)
    requires |s1| == |r1| && |s2| == |r2|
    ensures Pick(s1 + s2, r1 + r2, kind) == Pick(s1, r1, kind) + Pick(s2, r2, kind)
  {
    if s1 == [] {
      assert s1 + s2 == s2 && r1 + r2 == r2;
    } else {
      assert (s1 + s2)[1..] == s1[1..] + s2 && (r1 + r2)[1..] == r1[1..] + r2;
      PickConcat(s1[1..], r1[1..], s2, r2, kind);
    }
  }

  lemma PickOne(attr: string, v: string, kind: Kind)
    ensures Pick([attr], [v], kind) == if KindOf(attr) == kind then [v] else []
  {
  }

  function NormalPart(schema: seq<string>, row: Row): Row {
    Pick(schema, row, Normal)
  }

  function ProvPart(schema: seq<string>, row: Row): Row {
    Pick(schema, row, Provenance)
  }

  predicate NoDuplicates(schema: seq<string>) {
    forall i, j :: 0 <= i < j < |schema| ==> schema[i] != schema[j]
  }

  /** Both bookkeeping columns exist, and no column occurs twice. */
  predicate Composable(schema: seq<string>) {
    NoDuplicates(schema) && RESULT_TID_ATTR in schema && DUP_ATTR in schema
  }

  predicate Width(rows: seq<Row>, n: nat) {
    forall r :: r in rows ==> |r| == n
  }

  function IndexOf(schema: seq<string>, attr: string): (i: nat)
    requires attr in schema
    ensures i < |schema| && schema[i] == attr
  {
    if schema[0] == attr then 0 else 1 + IndexOf(schema[1..], attr)
  }

  function SetAttr(schema: seq<string>, row: Row, attr: string, v: string): (r: Row)
    requires attr in schema && |row| == |schema|
    ensures |r| == |row|
  {
    row[IndexOf(schema, attr) := v]
  }

  lemma {:induction false} SetOtherKind(schema: seq<string>, row: Row, attr: string, v: string, kind: Kind)
    requires attr in schema && |row| == |schema| && kind != KindOf(attr)
    ensures Pick(schema, SetAttr(schema, row, attr, v), kind) == Pick(schema, row, kind)
  {
    var set_ := SetAttr(schema, row, attr, v);
    if schema[0] == attr {
      assert set_[1..] == row[1..];
    } else {
      assert set_[1..] == SetAttr(schema[1..], row[1..], attr, v);
      SetOtherKind(schema[1..], row[1..], attr, v, kind);
    }
  }

  lemma {:induction false} PickAbsent(schema: seq<string>, row: Row, kind: Kind)
    requires |row| == |schema| && forall a :: a in schema ==> KindOf(a) != kind
    ensures Pick(schema, row, kind) == []
  {
    if schema != [] {
      PickAbsent(schema[1..], row[1..], kind);
    }
  }

  /** There is one cell of each bookkeeping kind: the one just set. */
  lemma {:induction false} SetSameKind(schema: seq<string>, row: Row, attr: string, v: string)
    requires attr in schema && |row| == |schema| && NoDuplicates(schema) && (attr == RESULT_TID_ATTR || attr == DUP_ATTR)
    ensures Pick(schema, SetAttr(schema, row, attr, v), KindOf(attr)) == [v]
  {
    var set_ := SetAttr(schema, row, attr, v);
    if schema[0] == attr {
      assert set_[1..] == row[1..];
      forall a | a in schema[1..] ensures KindOf(a) != KindOf(attr) {
        var i :| 0 <= i < |schema[1..]| && schema[1..][i] == a;
        assert schema[0] != schema[i + 1];
      }
      PickAbsent(schema[1..], row[1..], KindOf(attr));
    } else {
      assert KindOf(schema[0]) != KindOf(attr);
      assert set_[1..] == SetAttr(schema[1..], row[1..], attr, v);
      forall i, j | 0 <= i < j < |schema[1..]| ensures schema[1..][i] != schema[1..][j] { assert schema[i + 1] != schema[j + 1]; }
      SetSameKind(schema[1..], row[1..], attr, v);
    }
  }

  /** A row is determined by its cells of all four kinds. */
  lemma {:induction false} PicksDetermine(schema: seq<string>, r: Row, s: Row)
    requires |r| == |s| == |schema| && forall kind :: Pick(schema, r, kind) == Pick(schema, s, kind)
    ensures r == s
  {
    if schema != [] {
      var k := KindOf(schema[0]);
      assert Pick(schema, r, k)[0] == r[0] && Pick(schema, s, k)[0] == s[0];
      forall kind ensures Pick(schema[1..], r[1..], kind) == Pick(schema[1..], s[1..], kind) {
        var n := if kind == k then 1 else 0;
        assert Pick(schema, r, kind)[n..] == Pick(schema[1..], r[1..], kind);
        assert Pick(schema, s, kind)[n..] == Pick(schema[1..], s[1..], kind);
      }
      PicksDetermine(schema[1..], r[1..], s[1..]);
      assert r == [r[0]] + r[1..] && s == [s[0]] + s[1..];
    }
  }

  /** The bookkeeping cells of a row, overwritten. */
  function Rewritten(schema: seq<string>, row: Row, tid: string, i: nat): (r: Row)
    requires Composable(schema) && |row| == |schema|
    ensures |r| == |row|
  {
    SetAttr(schema, SetAttr(schema, row, RESULT_TID_ATTR, tid), DUP_ATTR, Dec(i))
  }

  lemma RewrittenPicks(schema: seq<string>, row: Row, tid: string, i: nat)
    requires Composable(schema) && |row| == |schema|
    ensures var r := Rewritten(schema, row, tid, i);
      && Pick(schema, r, Normal) == Pick(schema, row, Normal) && Pick(schema, r, Provenance) == Pick(schema, row, Provenance)
      && Pick(schema, r, Tid) == [tid] && Pick(schema, r, Dup) == [Dec(i)]
  {
    var once := SetAttr(schema, row, RESULT_TID_ATTR, tid);
    SetSameKind(schema, row, RESULT_TID_ATTR, tid);
    SetSameKind(schema, once, DUP_ATTR, Dec(i));
    SetOtherKind(schema, row, RESULT_TID_ATTR, tid, Normal);
    SetOtherKind(schema, row, RESULT_TID_ATTR, tid, Provenance);
    SetOtherKind(schema, once, DUP_ATTR, Dec(i), Normal);
    SetOtherKind(schema, once, DUP_ATTR, Dec(i), Provenance);
    SetOtherKind(schema, once, DUP_ATTR, Dec(i), Tid);
  }

  /** So the overwritten row depends only on its normal and provenance parts. */
  lemma RewrittenSame(schema: seq<string>, r: Row, s: Row, tid: string, i: nat)
    requires Composable(schema) && |r| == |s| == |schema|
    requires NormalPart(schema, r) == NormalPart(schema, s) && ProvPart(schema, r) == ProvPart(schema, s)
    ensures Rewritten(schema, r, tid, i) == Rewritten(schema, s, tid, i)
  {
    RewrittenPicks(schema, r, tid, i);
    RewrittenPicks(schema, s, tid, i);
    var r', s' := Rewritten(schema, r, tid, i), Rewritten(schema, s, tid, i);
    forall kind ensures Pick(schema, r', kind) == Pick(schema, s', kind) {
      match kind
      case Tid =>
      case Dup =>
      case Provenance =>
      case Normal =>
    }
    PicksDetermine(schema, r', s');
  }

  // ----- The order of provenance parts -----

  predicate LeText(s: string, t: string) {
    s == "" || (t != "" && (s[0] < t[0] || (s[0] == t[0] && LeText(s[1..], t[1..]))))
  }

  /** The texts agree before `k`; there the first one ends, or has the smaller character. */
  ghost predicate DifferAt(s: string, t: string, k: nat) {
    && k <= |s| && k <= |t| && s[..k] == t[..k]
    && (k == |s| || (k < |t| && s[k] < t[k]))
  }

  /** Texts are ordered by the first character in which they differ, prefixes first. */
  lemma {:induction false} LeTextIff(s: string, t: string)
    ensures LeText(s, t) <==> exists k: nat :: DifferAt(s, t, k)
  {
    if s == "" {
      assert DifferAt(s, t, 0);
    } else if t != "" {
      LeTextIff(s[1..], t[1..]);
      if s[0] < t[0] {
        assert DifferAt(s, t, 0);
      } else if s[0] == t[0] {
        if k: nat :| DifferAt(s[1..], t[1..], k) {
          assert s[..k + 1] == [s[0]] + s[1..][..k] && t[..k + 1] == [t[0]] + t[1..][..k];
          assert DifferAt(s, t, k + 1);
        }
      }
      if k: nat :| DifferAt(s, t, k) {
        if k > 0 {
          assert s[..k][0] == s[0] && t[..k][0] == t[0];
          assert s[1..][..k - 1] == s[..k][1..] && t[1..][..k - 1] == t[..k][1..];
          assert DifferAt(s[1..], t[1..], k - 1);
        }
      }
    }
  }

  /** The rows agree before `k`; there the first one ends, or has the smaller text. */
  ghost predicate RowsDifferAt(s: Row, t: Row, k: nat) {
    && k <= |s| && k <= |t| && s[..k] == t[..k]
    && (k == |s| || (k < |t| && s[k] != t[k] && LeText(s[k], t[k])))
  }

  lemma {:induction false} LeIff(s: Row, t: Row)
    ensures Le(s, t) <==> exists k: nat :: RowsDifferAt(s, t, k)
  {
    hide LeText;
    if s == [] {
      assert RowsDifferAt(s, t, 0);
    } else if t != [] {
      LeIff(s[1..], t[1..]);
      if s[0] != t[0] {
        if LeText(s[0], t[0]) { assert RowsDifferAt(s, t, 0); }
      } else if k: nat :| RowsDifferAt(s[1..], t[1..], k) {
        assert s[..k + 1] == [s[0]] + s[1..][..k] && t[..k + 1] == [t[0]] + t[1..][..k];
        assert RowsDifferAt(s, t, k + 1);
      }
      if k: nat :| RowsDifferAt(s, t, k) {
        if k > 0 {
          assert s[..k][0] == s[0] && t[..k][0] == t[0];
          assert s[1..][..k - 1] == s[..k][1..] && t[1..][..k - 1] == t[..k][1..];
          assert RowsDifferAt(s[1..], t[1..], k - 1);
        }
      }
    }
  }

  predicate Le(s: Row, t: Row) {
    s == [] || (t != [] && if s[0] == t[0] then Le(s[1..], t[1..]) else LeText(s[0], t[0]))
  }

  lemma {:induction false} LeTextOrder(s: string, t: string, u: string)
    ensures LeText(s, t) || LeText(t, s)
    ensures LeText(s, t) && LeText(t, s) ==> s == t
    ensures LeText(s, t) && LeText(t, u) ==> LeText(s, u)
  {
    if s != "" && t != "" {
      LeTextOrder(s[1..], t[1..], if u == "" then u else u[1..]);
      assert s == [s[0]] + s[1..] && t == [t[0]] + t[1..];
    }
  }

  lemma {:induction false} LeOrder(s: Row, t: Row, u: Row)
    ensures Le(s, t) || Le(t, s)
    ensures Le(s, t) && Le(t, s) ==> s == t
    ensures Le(s, t) && Le(t, u) ==> Le(s, u)
  {
    if s != [] && t != [] {
      LeTextOrder(s[0], t[0], if u == [] then "" else u[0]);
      LeOrder(s[1..], t[1..], if u == [] then u else u[1..]);
      assert s == [s[0]] + s[1..] && t == [t[0]] + t[1..];
    }
  }

  predicate Ascending(provs: seq<Row>) {
    forall i, j :: 0 <= i < j < |provs| ==> Le(provs[i], provs[j])
  }

  /** A bag has one ascending arrangement. */
  lemma {:induction false} AscendingUnique(a: seq<Row>, b: seq<Row>)
    requires Ascending(a) && Ascending(b) && multiset(a) == multiset(b)
    ensures a == b
  {
    assert |a| == |multiset(a)| && |b| == |multiset(b)|;
    if a != [] {
      SameLeast(a, b);
      TailBag(a);
      TailBag(b);
      AscendingUnique(a[1..], b[1..]);
    }
  }

  lemma SameLeast(a: seq<Row>, b: seq<Row>)
    requires Ascending(a) && Ascending(b) && multiset(a) == multiset(b) && a != [] && b != []
    ensures a[0] == b[0]
  {
    assert a[0] in multiset(b) && b[0] in multiset(a);
    var i :| 0 <= i < |b| && b[i] == a[0];
    var j :| 0 <= j < |a| && a[j] == b[0];
    LeOrder(a[0], b[0], []);
  }

  lemma TailBag(a: seq<Row>)
    requires a != []
    ensures a == [a[0]] + a[1..] && multiset(a[1..]) == multiset(a) - multiset{a[0]}
    ensures Ascending(a) ==> Ascending(a[1..])
  {
    assert a == [a[0]] + a[1..];
    if Ascending(a) {
      forall i, j | 0 <= i < j < |a[1..]| ensures Le(a[1..][i], a[1..][j]) { assert Le(a[i + 1], a[j + 1]); }
    }
  }

  // ----- Grouping and sorting -----

  function Provs(schema: seq<string>, rows: seq<Row>): (ps: seq<Row>)
    ensures |ps| == |rows| && forall i :: 0 <= i < |rows| ==> ps[i] == ProvPart(schema, rows[i])
  {
    seq(|rows|, i requires 0 <= i < |rows| => ProvPart(schema, rows[i]))
  }

  /** Insert after all rows whose provenance part is not larger. */
  function Insert(schema: seq<string>, r: Row, sorted: seq<Row>): seq<Row> {
    if sorted == [] then [r]
    else if Le(ProvPart(schema, sorted[0]), ProvPart(schema, r)) then [sorted[0]] + Insert(schema, r, sorted[1..])
    else [r] + sorted
  }

  /** Stable sorting by provenance part. */
  function Sorted(schema: seq<string>, rows: seq<Row>): seq<Row> {
    if rows == [] then [] else Insert(schema, rows[|rows| - 1], Sorted(schema, rows[..|rows| - 1]))
  }

  lemma {:induction false} InsertBag(schema: seq<string>, r: Row, sorted: seq<Row>)
    ensures multiset(Insert(schema, r, sorted)) == multiset(sorted) + multiset{r}
    ensures forall x :: x in Insert(schema, r, sorted) ==> x == r || x in sorted
  {
    if sorted != [] {
      assert sorted == [sorted[0]] + sorted[1..];
      InsertBag(schema, r, sorted[1..]);
    }
  }

  lemma ProvsPush(schema: seq<string>, r: Row, rows: seq<Row>)
    ensures Provs(schema, [r] + rows) == [ProvPart(schema, r)] + Provs(schema, rows)
  {
  }

  /** `p` comes before all of them. */
  predicate Below(p: Row, ps: seq<Row>) {
    forall j :: 0 <= j < |ps| ==> Le(p, ps[j])
  }

  lemma BelowInserted(schema: seq<string>, p: Row, r: Row, sorted: seq<Row>)
    requires Below(p, Provs(schema, sorted)) && Le(p, ProvPart(schema, r))
    ensures Below(p, Provs(schema, Insert(schema, r, sorted)))
  {
    hide Le;
    InsertBag(schema, r, sorted);
    var out, ps := Insert(schema, r, sorted), Provs(schema, sorted);
    forall j | 0 <= j < |out| ensures Le(p, ProvPart(schema, out[j])) {
      assert out[j] in out;
      if out[j] != r {
        var k :| 0 <= k < |sorted| && sorted[k] == out[j];
        assert Le(p, ps[k]);
      }
    }
  }

  lemma AscendingParts(p: Row, ps: seq<Row>)
    requires Ascending([p] + ps)
    ensures Below(p, ps) && Ascending(ps)
  {
    hide Le;
    var all := [p] + ps;
    forall j | 0 <= j < |ps| ensures Le(p, ps[j]) { assert Le(all[0], all[j + 1]); }
    forall i, j | 0 <= i < j < |ps| ensures Le(ps[i], ps[j]) { assert Le(all[i + 1], all[j + 1]); }
  }

  lemma BelowLess(q: Row, p: Row, ps: seq<Row>)
    requires Below(p, ps) && Le(q, p)
    ensures Below(q, ps)
  {
    forall j | 0 <= j < |ps| ensures Le(q, ps[j]) { LeOrder(q, p, ps[j]); }
  }

  lemma {:induction false} InsertAscending(schema: seq<string>, r: Row, sorted: seq<Row>)
    requires Ascending(Provs(schema, sorted))
    ensures Ascending(Provs(schema, Insert(schema, r, sorted)))
  {
    var q := ProvPart(schema, r);
    if sorted != [] {
      var first, rest := sorted[0], sorted[1..];
      var p, ps := ProvPart(schema, first), Provs(schema, rest);
      assert sorted == [first] + rest;
      hide Le, Ascending, Below, ProvPart, Provs;
      ProvsPush(schema, first, rest);
      AscendingParts(p, ps);
      if Le(p, q) {
        InsertAscending(schema, r, rest);
        BelowInserted(schema, p, r, rest);
        AscendingPush(p, Provs(schema, Insert(schema, r, rest)));
        ProvsPush(schema, first, Insert(schema, r, rest));
      } else {
        LeOrder(p, q, []);
        BelowLess(q, p, ps);
        BelowPush(q, p, ps);
        AscendingPush(q, [p] + ps);
        ProvsPush(schema, r, sorted);
      }
    }
  }

  lemma BelowPush(q: Row, p: Row, ps: seq<Row>)
    requires Below(q, ps) && Le(q, p)
    ensures Below(q, [p] + ps)
  {
    hide Le;
  }

  lemma AscendingPush(p: Row, ps: seq<Row>)
    requires Ascending(ps) && Below(p, ps)
    ensures Ascending([p] + ps)
  {
    hide Le;
    var all := [p] + ps;
    forall i, j | 0 <= i < j < |all| ensures Le(all[i], all[j]) {
      assert all[j] == ps[j - 1];
      if i > 0 { assert all[i] == ps[i - 1]; }
    }
  }

  lemma {:induction false} SortedProps(schema: seq<string>, rows: seq<Row>)
    ensures multiset(Sorted(schema, rows)) == multiset(rows) && Ascending(Provs(schema, Sorted(schema, rows)))
  {
    if rows != [] {
      var front, last := rows[..|rows| - 1], rows[|rows| - 1];
      assert rows == front + [last];
      SortedProps(schema, front);
      InsertBag(schema, last, Sorted(schema, front));
      InsertAscending(schema, last, Sorted(schema, front));
    }
  }

  function Members(schema: seq<string>, rows: seq<Row>, key: Row): seq<Row> {
    if rows == [] then []
    else
      Members(schema, rows[..|rows| - 1], key)
      + if NormalPart(schema, rows[|rows| - 1]) == key then [rows[|rows| - 1]] else []
  }

  function Keys(schema: seq<string>, rows: seq<Row>): seq<Row> {
    if rows == [] then []
    else
      var front, key := Keys(schema, rows[..|rows| - 1]), NormalPart(schema, rows[|rows| - 1]);
      if key in front then front else front + [key]
  }

  /** The rows of one group, in provenance order, with fresh bookkeeping cells. */
  function NormalGroup(schema: seq<string>, tidOf: Row -> string, rows: seq<Row>, key: Row): (r: seq<Row>)
    requires Composable(schema) && Width(rows, |schema|)
  {
    MembersWidth(schema, rows, key);
    var s := Sorted(schema, Members(schema, rows, key));
    seq(|s|, i requires 0 <= i < |s| => Rewritten(schema, s[i], tidOf(key), i))
  }

  function NormalFor(schema: seq<string>, tidOf: Row -> string, rows: seq<Row>, keys: seq<Row>): seq<Row>
    requires Composable(schema) && Width(rows, |schema|)
  {
    if keys == [] then []
    else NormalFor(schema, tidOf, rows, keys[..|keys| - 1]) + NormalGroup(schema, tidOf, rows, keys[|keys| - 1])
  }

  function NormalRows(schema: seq<string>, tidOf: Row -> string, rows: seq<Row>): seq<Row>
    requires Composable(schema) && Width(rows, |schema|)
  {
    NormalFor(schema, tidOf, rows, Keys(schema, rows))
  }

  lemma {:induction false} MembersProps(schema: seq<string>, rows: seq<Row>, key: Row)
    ensures forall r :: r in Members(schema, rows, key) <==> r in rows && NormalPart(schema, r) == key
  {
    if rows != [] {
      assert rows == rows[..|rows| - 1] + [rows[|rows| - 1]];
      MembersProps(schema, rows[..|rows| - 1], key);
    }
  }

  lemma MembersWidth(schema: seq<string>, rows: seq<Row>, key: Row)
    requires Width(rows, |schema|)
    ensures var s := Sorted(schema, Members(schema, rows, key));
      Width(s, |schema|) && forall i :: 0 <= i < |s| ==> |s[i]| == |schema|
    ensures forall r :: r in Sorted(schema, Members(schema, rows, key)) ==> NormalPart(schema, r) == key
  {
    MembersProps(schema, rows, key);
    SortedProps(schema, Members(schema, rows, key));
    var s := Sorted(schema, Members(schema, rows, key));
    forall r | r in s ensures r in Members(schema, rows, key) {
      assert r in multiset(s);
    }
  }

  // ----- What the normal form keeps -----

  function Pairs(schema: seq<string>, rows: seq<Row>): (ps: seq<(Row, Row)>)
    ensures |ps| == |rows|
    ensures forall i :: 0 <= i < |rows| ==> ps[i] == (NormalPart(schema, rows[i]), ProvPart(schema, rows[i]))
  {
    seq(|rows|, i requires 0 <= i < |rows| => (NormalPart(schema, rows[i]), ProvPart(schema, rows[i])))
  }

  lemma SnocBags(schema: seq<string>, rows: seq<Row>)
    requires rows != []
    ensures var front, last := rows[..|rows| - 1], rows[|rows| - 1];
      && rows == front + [last] && multiset(rows) == multiset(front) + multiset{last}
      && multiset(Pairs(schema, rows)) == multiset(Pairs(schema, front)) + multiset{(NormalPart(schema, last), ProvPart(schema, last))}
  {
    var front, last := rows[..|rows| - 1], rows[|rows| - 1];
    assert rows == front + [last];
    assert Pairs(schema, rows) == Pairs(schema, front) + [(NormalPart(schema, last), ProvPart(schema, last))];
  }

  lemma ProvsSnoc(schema: seq<string>, rows: seq<Row>, r: Row)
    ensures Provs(schema, rows + [r]) == Provs(schema, rows) + [ProvPart(schema, r)]
  {
  }

  /** How often a pair occurs is decided within the group of its key. */
  lemma {:induction false} PairCount(schema: seq<string>, rows: seq<Row>, key: Row, prov: Row)
    ensures multiset(Pairs(schema, rows))[(key, prov)] == multiset(Provs(schema, Members(schema, rows, key)))[prov]
  {
    if rows != [] {
      var front, last := rows[..|rows| - 1], rows[|rows| - 1];
      PairCount(schema, front, key, prov);
      SnocBags(schema, rows);
      ProvsSnoc(schema, Members(schema, front, key), last);
      hide Pairs, Provs, Pick;
      assert Members(schema, front, key) + [] == Members(schema, front, key);
    }
  }

  /** So is how often a row occurs. */
  lemma {:induction false} RowCount(schema: seq<string>, rows: seq<Row>, r: Row)
    ensures multiset(rows)[r] == multiset(Members(schema, rows, NormalPart(schema, r)))[r]
  {
    if rows != [] {
      var front, last := rows[..|rows| - 1], rows[|rows| - 1];
      RowCount(schema, front, r);
      SnocBags(schema, rows);
      hide Pairs, Pick;
    }
  }

  lemma {:induction false} ProvsBag(schema: seq<string>, s: seq<Row>, t: seq<Row>)
    requires multiset(s) == multiset(t)
    ensures multiset(Provs(schema, s)) == multiset(Provs(schema, t))
  {
    assert |s| == |multiset(s)| && |t| == |multiset(t)|;
    if s != [] {
      var front, last := s[..|s| - 1], s[|s| - 1];
      assert s == front + [last];
      assert last in multiset(t);
      var k :| 0 <= k < |t| && t[k] == last;
      var rest := t[..k] + t[k + 1..];
      assert t == t[..k] + [last] + t[k + 1..];
      assert multiset(rest) == multiset(t) - multiset{last} == multiset(front);
      ProvsBag(schema, front, rest);
      ProvsSnoc(schema, front, last);
      TakeOut(schema, t, k);
    }
  }

  lemma TakeOut(schema: seq<string>, t: seq<Row>, k: nat)
    requires k < |t|
    ensures multiset(Provs(schema, t))
         == multiset(Provs(schema, t[..k] + t[k + 1..])) + multiset{ProvPart(schema, t[k])}
  {
    var a, b := Provs(schema, t[..k]), Provs(schema, t[k + 1..]);
    assert Provs(schema, t) == a + [ProvPart(schema, t[k])] + b;
    assert Provs(schema, t[..k] + t[k + 1..]) == a + b;
  }

  // ----- Groups of the normal form -----

  ghost predicate SameGroup(schema: seq<string>, s: seq<Row>, t: seq<Row>, key: Row) {
    Provs(schema, Sorted(schema, Members(schema, s, key))) == Provs(schema, Sorted(schema, Members(schema, t, key)))
  }

  /** Groups with the same provenance parts have the same normal form. */
  lemma NormalGroupSame(schema: seq<string>, tidOf: Row -> string, s: seq<Row>, t: seq<Row>, key: Row)
    requires Composable(schema) && Width(s, |schema|) && Width(t, |schema|) && SameGroup(schema, s, t, key)
    ensures NormalGroup(schema, tidOf, s, key) == NormalGroup(schema, tidOf, t, key)
  {
    MembersWidth(schema, s, key);
    MembersWidth(schema, t, key);
    var a, b := Sorted(schema, Members(schema, s, key)), Sorted(schema, Members(schema, t, key));
    var pa, pb := Provs(schema, a), Provs(schema, b);
    assert |a| == |pa| == |pb| == |b|;
    hide Sorted, Members, Rewritten, Composable;
    forall i | 0 <= i < |a| ensures Rewritten(schema, a[i], tidOf(key), i) == Rewritten(schema, b[i], tidOf(key), i) {
      assert a[i] in a && b[i] in b && pa[i] == pb[i];
      RewrittenSame(schema, a[i], b[i], tidOf(key), i);
    }
  }

  /** Equal bags of pairs give equal groups. */
  lemma PairsDecideGroup(schema: seq<string>, s: seq<Row>, t: seq<Row>, key: Row)
    requires multiset(Pairs(schema, s)) == multiset(Pairs(schema, t))
    ensures SameGroup(schema, s, t, key)
  {
    var ms, mt := Members(schema, s, key), Members(schema, t, key);
    forall p ensures multiset(Provs(schema, ms))[p] == multiset(Provs(schema, mt))[p] {
      PairCount(schema, s, key, p);
      PairCount(schema, t, key, p);
    }
    assert multiset(Provs(schema, ms)) == multiset(Provs(schema, mt));
    SortedProps(schema, ms);
    SortedProps(schema, mt);
    ProvsBag(schema, Sorted(schema, ms), ms);
    ProvsBag(schema, Sorted(schema, mt), mt);
    AscendingUnique(Provs(schema, Sorted(schema, ms)), Provs(schema, Sorted(schema, mt)));
  }

  /** The normal form of a group has its key and its provenance parts, in ascending order. */
  lemma NormalGroupProps(schema: seq<string>, tidOf: Row -> string, rows: seq<Row>, key: Row)
    requires Composable(schema) && Width(rows, |schema|)
    ensures var g := NormalGroup(schema, tidOf, rows, key);
      && Width(g, |schema|) && (forall r :: r in g ==> NormalPart(schema, r) == key)
      && Provs(schema, g) == Provs(schema, Sorted(schema, Members(schema, rows, key)))
  {
    MembersWidth(schema, rows, key);
    var s, g := Sorted(schema, Members(schema, rows, key)), NormalGroup(schema, tidOf, rows, key);
    hide Sorted, Members, Composable;
    forall i | 0 <= i < |s|
      ensures NormalPart(schema, g[i]) == key && ProvPart(schema, g[i]) == ProvPart(schema, s[i]) && |g[i]| == |schema|
    {
      assert s[i] in s;
      RewrittenPicks(schema, s[i], tidOf(key), i);
    }
  }

  /** The rows of a group are numbered in the order of their provenance parts, under the identifier of their key. */
  lemma NumberedGroup(schema: seq<string>, tidOf: Row -> string, rows: seq<Row>, key: Row)
    requires Composable(schema) && Width(rows, |schema|)
    ensures var g := NormalGroup(schema, tidOf, rows, key);
      && (forall i :: 0 <= i < |g| ==> Pick(schema, g[i], Dup) == [Dec(i)] && Pick(schema, g[i], Tid) == [tidOf(key)])
      && (forall i :: 0 <= i < |g| ==> Pick(schema, g[i], Normal) == key)
      && forall i, j :: 0 <= i < j < |g| ==> Le(Pick(schema, g[i], Provenance), Pick(schema, g[j], Provenance))
  {
    NormalGroupProps(schema, tidOf, rows, key);
    MembersWidth(schema, rows, key);
    var m := Members(schema, rows, key);
    SortedProps(schema, m);
    var s, g := Sorted(schema, m), NormalGroup(schema, tidOf, rows, key);
    hide Sorted, Members, Composable, Pick, Le, Rewritten;
    assert Ascending(Provs(schema, g));
    forall i | 0 <= i < |g| ensures Pick(schema, g[i], Dup) == [Dec(i)] && Pick(schema, g[i], Tid) == [tidOf(key)] {
      assert s[i] in s && g[i] in g;
      RewrittenPicks(schema, s[i], tidOf(key), i);
    }
    forall i, j | 0 <= i < j < |g| ensures Le(ProvPart(schema, g[i]), ProvPart(schema, g[j])) {
      assert Le(Provs(schema, g)[i], Provs(schema, g)[j]);
    }
    forall i | 0 <= i < |g| ensures Pick(schema, g[i], Normal) == key { assert g[i] in g; }
  }

  lemma {:induction false} MembersSplit(schema: seq<string>, a: seq<Row>, b: seq<Row>, key: Row)
    ensures Members(schema, a + b, key) == Members(schema, a, key) + Members(schema, b, key)
  {
    if b == [] {
      assert a + b == a;
    } else {
      assert (a + b)[..|a + b| - 1] == a + b[..|b| - 1];
      MembersSplit(schema, a, b[..|b| - 1], key);
    }
  }

  lemma {:induction false} MembersAllOrNone(schema: seq<string>, rows: seq<Row>, key: Row, other: Row)
    requires forall r :: r in rows ==> NormalPart(schema, r) == key
    ensures Members(schema, rows, other) == if key == other then rows else []
  {
    if rows != [] {
      MembersAllOrNone(schema, rows[..|rows| - 1], key, other);
      assert rows == rows[..|rows| - 1] + [rows[|rows| - 1]];
    }
  }

  ghost predicate DistinctKeys(keys: seq<Row>) {
    forall i, j :: 0 <= i < j < |keys| ==> keys[i] != keys[j]
  }

  /** Regrouping the normal form finds each normalised group again. */
  lemma {:induction false} MembersOfNormal(schema: seq<string>, tidOf: Row -> string, rows: seq<Row>, keys: seq<Row>, key: Row)
    requires Composable(schema) && Width(rows, |schema|) && DistinctKeys(keys)
    ensures Members(schema, NormalFor(schema, tidOf, rows, keys), key)
         == if key in keys then NormalGroup(schema, tidOf, rows, key) else []
    ensures Width(NormalFor(schema, tidOf, rows, keys), |schema|)
  {
    if keys != [] {
      var front, last := keys[..|keys| - 1], keys[|keys| - 1];
      assert keys == front + [last];
      assert last !in front;
      MembersOfNormal(schema, tidOf, rows, front, key);
      var g := NormalGroup(schema, tidOf, rows, last);
      NormalGroupProps(schema, tidOf, rows, last);
      hide Composable, NormalGroup, Pick, Sorted;
      MembersSplit(schema, NormalFor(schema, tidOf, rows, front), g, key);
      MembersAllOrNone(schema, g, last, key);
    }
  }

  lemma {:induction false} KeysProps(schema: seq<string>, rows: seq<Row>)
    ensures DistinctKeys(Keys(schema, rows))
    ensures forall key :: key in Keys(schema, rows) <==> exists r :: r in rows && NormalPart(schema, r) == key
  {
    if rows != [] {
      var front, last := rows[..|rows| - 1], rows[|rows| - 1];
      assert rows == front + [last];
      KeysProps(schema, front);
    }
  }

  /** Each group of the normal form, for every key. */
  lemma NormalMembers(schema: seq<string>, tidOf: Row -> string, rows: seq<Row>, key: Row)
    requires Composable(schema) && Width(rows, |schema|)
    ensures Members(schema, NormalRows(schema, tidOf, rows), key) == NormalGroup(schema, tidOf, rows, key)
    ensures Width(NormalRows(schema, tidOf, rows), |schema|)
  {
    KeysProps(schema, rows);
    MembersOfNormal(schema, tidOf, rows, Keys(schema, rows), key);
    if key !in Keys(schema, rows) {
      MembersProps(schema, rows, key);
      var m := Members(schema, rows, key);
      HeadIn(m);
    }
  }

  /** The normal form keeps the bag of pairs. */
  lemma NormalPairs(schema: seq<string>, tidOf: Row -> string, rows: seq<Row>)
    requires Composable(schema) && Width(rows, |schema|)
    ensures multiset(Pairs(schema, NormalRows(schema, tidOf, rows))) == multiset(Pairs(schema, rows))
  {
    var n := NormalRows(schema, tidOf, rows);
    forall key, prov ensures multiset(Pairs(schema, n))[(key, prov)] == multiset(Pairs(schema, rows))[(key, prov)] {
      PairCount(schema, n, key, prov);
      PairCount(schema, rows, key, prov);
      NormalMembers(schema, tidOf, rows, key);
      NormalGroupProps(schema, tidOf, rows, key);
      var m := Members(schema, rows, key);
      SortedProps(schema, m);
      ProvsBag(schema, Sorted(schema, m), m);
    }
    SameCounts(multiset(Pairs(schema, n)), multiset(Pairs(schema, rows)));
  }

  lemma SameCounts(a: multiset<(Row, Row)>, b: multiset<(Row, Row)>)
    requires forall key, prov :: a[(key, prov)] == b[(key, prov)]
    ensures a == b
  {
    forall p ensures a[p] == b[p] { assert a[(p.0, p.1)] == b[(p.0, p.1)]; }
  }

  lemma {:induction false} PairsBag(schema: seq<string>, s: seq<Row>, t: seq<Row>)
    requires multiset(s) == multiset(t)
    ensures multiset(Pairs(schema, s)) == multiset(Pairs(schema, t))
  {
    forall key, prov ensures multiset(Pairs(schema, s))[(key, prov)] == multiset(Pairs(schema, t))[(key, prov)] {
      PairCount(schema, s, key, prov);
      PairCount(schema, t, key, prov);
      var ms, mt := Members(schema, s, key), Members(schema, t, key);
      forall r ensures multiset(ms)[r] == multiset(mt)[r] {
        RowCount(schema, s, r);
        RowCount(schema, t, r);
        MembersProps(schema, s, key);
        MembersProps(schema, t, key);
        if NormalPart(schema, r) != key {
          assert r !in ms && r !in mt;
        }
      }
      assert multiset(ms) == multiset(mt);
      ProvsBag(schema, ms, mt);
    }
    SameCounts(multiset(Pairs(schema, s)), multiset(Pairs(schema, t)));
  }

  /** Two tables have the same normal form iff they agree on the bag of normal and provenance parts. */
  lemma NormalFormComplete(schema: seq<string>, tidOf: Row -> string, s: seq<Row>, t: seq<Row>)
    requires Composable(schema) && Width(s, |schema|) && Width(t, |schema|)
    ensures multiset(NormalRows(schema, tidOf, s)) == multiset(NormalRows(schema, tidOf, t))
       <==> multiset(Pairs(schema, s)) == multiset(Pairs(schema, t))
  {
    var ns, nt := NormalRows(schema, tidOf, s), NormalRows(schema, tidOf, t);
    if multiset(Pairs(schema, s)) == multiset(Pairs(schema, t)) {
      forall r ensures multiset(ns)[r] == multiset(nt)[r] {
        var key := NormalPart(schema, r);
        RowCount(schema, ns, r);
        RowCount(schema, nt, r);
        NormalMembers(schema, tidOf, s, key);
        NormalMembers(schema, tidOf, t, key);
        PairsDecideGroup(schema, s, t, key);
        NormalGroupSame(schema, tidOf, s, t, key);
      }
      assert multiset(ns) == multiset(nt);
    }
    if multiset(ns) == multiset(nt) {
      NormalPairs(schema, tidOf, s);
      NormalPairs(schema, tidOf, t);
      PairsBag(schema, ns, nt);
    }
  }

  /** Normalising twice is normalising once. */
  lemma NormalFormIdempotent(schema: seq<string>, tidOf: Row -> string, rows: seq<Row>)
    requires Composable(schema) && Width(rows, |schema|)
    ensures Width(NormalRows(schema, tidOf, rows), |schema|)
    ensures multiset(NormalRows(schema, tidOf, NormalRows(schema, tidOf, rows))) == multiset(NormalRows(schema, tidOf, rows))
  {
    NormalMembers(schema, tidOf, rows, []);
    NormalPairs(schema, tidOf, rows);
    NormalFormComplete(schema, tidOf, NormalRows(schema, tidOf, rows), rows);
  }

  // ----- The method -----

  lemma MembersStep(schema: seq<string>, rows: seq<Row>, r: Row, key: Row)
    ensures Members(schema, rows + [r], key) == Members(schema, rows, key) + if NormalPart(schema, r) == key then [r] else []
    ensures Keys(schema, rows + [r])
         == if NormalPart(schema, r) in Keys(schema, rows) then Keys(schema, rows) else Keys(schema, rows) + [NormalPart(schema, r)]
  {
    assert (rows + [r])[..|rows|] == rows;
  }

  /** The groups of the first rows, and their keys in insertion order. */
  ghost predicate Grouped(schema: seq<string>, seen: seq<Row>, groups: map<Row, seq<Row>>, order: seq<Row>) {
    && order == Keys(schema, seen) && (forall key :: key in groups <==> key in order)
    && forall key :: key in groups ==> groups[key] == Members(schema, seen, key)
  }

  lemma GroupedPush(schema: seq<string>, seen: seq<Row>, groups: map<Row, seq<Row>>, order: seq<Row>, r: Row)
    requires Grouped(schema, seen, groups, order)
    ensures var key := NormalPart(schema, r);
      Grouped(schema, seen + [r], groups[key := (if key in groups then groups[key] else []) + [r]],
              if key in groups then order else order + [key])
  {
    var k := NormalPart(schema, r);
    MembersStep(schema, seen, r, k);
    var after := groups[k := (if k in groups then groups[k] else []) + [r]];
    hide Pick, Keys;
    if k !in groups {
      assert Members(schema, seen, k) == [] by { NoMembers(schema, seen, k); }
    }
    forall key | key in after ensures after[key] == Members(schema, seen + [r], key) {
      MembersStep(schema, seen, r, key);
    }
  }

  lemma NoMembers(schema: seq<string>, rows: seq<Row>, key: Row)
    requires key !in Keys(schema, rows)
    ensures Members(schema, rows, key) == []
  {
    KeysProps(schema, rows);
    MembersProps(schema, rows, key);
    var m := Members(schema, rows, key);
    HeadIn(m);
  }

  lemma HeadIn(m: seq<Row>)
    ensures m != [] ==> m[0] in m
  {
  }

  /** Collect the rows of each group, in a dictionary that remembers insertion order. */
  method GroupByResult(schema: seq<string>, elements: seq<Row>) returns (groups: map<Row, seq<Row>>, order: seq<Row>)
    ensures Grouped(schema, elements, groups, order)
  {
    hide *;
    groups, order := map[], [];
    ghost var seen: seq<Row> := [];
    NothingGrouped(schema);
    for i := 0 to |elements|
      invariant seen == elements[..i] && Grouped(schema, seen, groups, order)
    {
      var row := elements[i];
      var key := NormalPart(schema, row);
      GroupedPush(schema, seen, groups, order, row);
      if key !in groups {
        groups := groups[key := [] + [row]];
        order := order + [key];
      } else {
        groups := groups[key := groups[key] + [row]];
      }
      seen := seen + [row];
    }
    assert seen == elements;
  }

  /** The rows of one group with fresh bookkeeping cells, added to the counter. */
  method CountGroup(schema: seq<string>, rows: seq<Row>, tid: string, counter: multiset<Row>, ghost group: seq<Row>)
    returns (more: multiset<Row>)
    requires Composable(schema) && Width(rows, |schema|) && |group| == |rows|
    requires forall i :: 0 <= i < |rows| ==> |rows[i]| == |schema| && group[i] == Rewritten(schema, rows[i], tid, i)
    ensures more == counter + multiset(group)
  {
    hide Rewritten, Composable;
    more := counter;
    ghost var done: seq<Row> := [];
    for i := 0 to |rows|
      invariant more == counter + multiset(done) && done == group[..i]
    {
      var r := Rewritten(schema, rows[i], tid, i);
      more := more + multiset{r};
      done := done + [r];
    }
    assert group[..|rows|] == group;
  }

  lemma GroupsAre(schema: seq<string>, rows: seq<Row>, groups: map<Row, seq<Row>>, order: seq<Row>)
    requires Grouped(schema, rows, groups, order)
    ensures order == Keys(schema, rows)
    ensures forall key :: key in order ==> key in groups && groups[key] == Members(schema, rows, key)
  {
  }

  lemma NormalGroupRows(schema: seq<string>, tidOf: Row -> string, rows: seq<Row>, key: Row)
    requires Composable(schema) && Width(rows, |schema|)
    ensures var s, g := Sorted(schema, Members(schema, rows, key)), NormalGroup(schema, tidOf, rows, key);
      && Width(s, |schema|) && |g| == |s|
      && forall i :: 0 <= i < |s| ==> |s[i]| == |schema| && g[i] == Rewritten(schema, s[i], tidOf(key), i)
  {
    MembersWidth(schema, rows, key);
  }

  /** `normalize_prov_composable`, on the elements of the table in any order. */
  method Normalize(schema: seq<string>, elements: seq<Row>, tidOf: Row -> string) returns (normalized: multiset<Row>)
    requires NoDuplicates(schema) && Width(elements, |schema|)
    ensures if RESULT_TID_ATTR in schema && DUP_ATTR in schema
            then normalized == multiset(NormalRows(schema, tidOf, elements))
            else normalized == multiset(elements)
  {
    if RESULT_TID_ATTR !in schema || DUP_ATTR !in schema {
      return multiset(elements);
    }
    assert Composable(schema);
    var groups, order := GroupByResult(schema, elements);
    normalized := multiset{};
    NothingNormal(schema, tidOf, elements);
    GroupsAre(schema, elements, groups, order);
    hide *;
    for g := 0 to |order|
      invariant normalized == multiset(NormalFor(schema, tidOf, elements, order[..g]))
    {
      var grp := order[g];
      assert grp in order && grp in groups;
      NormalGroupRows(schema, tidOf, elements, grp);
      normalized := CountGroup(schema, Sorted(schema, groups[grp]), tidOf(grp), normalized,
                               NormalGroup(schema, tidOf, elements, grp));
      NormalForStep(schema, tidOf, elements, order, g);
    }
    assert order[..|order|] == order;
    NormalRowsAre(schema, tidOf, elements);
  }

  lemma NormalRowsAre(schema: seq<string>, tidOf: Row -> string, rows: seq<Row>)
    requires Composable(schema) && Width(rows, |schema|)
    ensures NormalRows(schema, tidOf, rows) == NormalFor(schema, tidOf, rows, Keys(schema, rows))
  {
  }

  lemma NothingGrouped(schema: seq<string>)
    ensures Grouped(schema, [], map[], [])
  {
  }

  lemma NothingNormal(schema: seq<string>, tidOf: Row -> string, rows: seq<Row>)
    requires Composable(schema) && Width(rows, |schema|)
    ensures NormalFor(schema, tidOf, rows, []) == []
  {
  }

  lemma NormalForStep(schema: seq<string>, tidOf: Row -> string, rows: seq<Row>, keys: seq<Row>, g: nat)
    requires Composable(schema) && Width(rows, |schema|) && g < |keys|
    ensures NormalFor(schema, tidOf, rows, keys[..g + 1])
         == NormalFor(schema, tidOf, rows, keys[..g]) + NormalGroup(schema, tidOf, rows, keys[g])
  {
    assert keys[..g + 1][..g] == keys[..g];
  }
}
