/** The printer and the parser of result tables.  A table is its schema and the list of its rows in the order
    they are printed or read; the bag of rows is taken at the end. */
module TableText {
  type Row = seq<string>

  datatype Result<+T> = Ok(value: T) | Error

  datatype Table = Table(schema: seq<string>, rows: seq<Row>)

  // ----- Strings -----

  /** The ASCII characters that stripping removes. */
  predicate Blank(c: char) {
    c == ' ' || '\t' <= c <= '\r' || 0x1c as char <= c <= 0x1f as char
  }

  function StripLeft(s: string): (r: string)
    ensures |r| <= |s| && forall c :: c in r ==> c in s
  {
    if s != "" && Blank(s[0]) then StripLeft(s[1..]) else s
  }

  function StripRight(s: string): (r: string)
    ensures |r| <= |s| && forall c :: c in r ==> c in s
  {
    if s != "" && Blank(s[|s| - 1]) then StripRight(s[..|s| - 1]) else s
  }

  function Strip(s: string): (r: string)
    ensures forall c :: c in r ==> c in s
  {
    StripRight(StripLeft(s))
  }

  function LowerChar(c: char): (r: char)
    ensures (Blank(r) <==> Blank(c)) && (r == '|' <==> c == '|') && (r == '\n' <==> c == '\n')
  {
    if 'A' <= c <= 'Z' then c + 32 as char else c
  }

  function Lower(s: string): (r: string)
    ensures |r| == |s| && forall i :: 0 <= i < |s| ==> r[i] == LowerChar(s[i])
  {
    seq(|s|, i requires 0 <= i < |s| => LowerChar(s[i]))
  }

  function Spaces(n: nat): (s: string)
    ensures |s| == n && forall c :: c in s ==> c == ' '
  {
    seq(n, _ => ' ')
  }

  /** Padding on the right; text that is too long is kept. */
  function Ljust(s: string, width: nat): string {
    s + Spaces(if width > |s| then width - |s| else 0)
  }

  function Split(s: string, sep: char): (parts: seq<string>)
    ensures parts != []
    ensures forall p, c :: p in parts && c in p ==> c in s && c != sep
  {
    if s == "" then [""]
    else
      var rest := Split(s[1..], sep);
      if s[0] == sep then [""] + rest else [[s[0]] + rest[0]] + rest[1..]
  }

  function DropLast<T>(s: seq<T>): seq<T>
    requires s != []
  {
    s[..|s| - 1]
  }

  // ----- Printing -----

  function Max(a: nat, b: nat): nat {
    if a >= b then a else b
  }

  function ColumnWidth(rows: seq<Row>, i: nat): nat {
    if rows == [] then 0 else Max(if i < |rows[0]| then |rows[0][i]| else 0, ColumnWidth(rows[1..], i))
  }

  function Widths(t: Table): (widths: seq<nat>)
    ensures |widths| == |t.schema|
  {
    seq(|t.schema|, i requires 0 <= i < |t.schema| => Max(ColumnWidth(t.rows, i), |t.schema[i]|))
  }

  function CellsText(r: Row, widths: seq<nat>): string
    requires |r| == |widths|
  {
    if r == [] then "" else " " + Ljust(r[0], widths[0]) + " |" + CellsText(r[1..], widths[1..])
  }

  /** `row_to_string`: cells joined and ended by a bar; without cells there still is the final bar. */
  function RowText(r: Row, widths: seq<nat>): string
    requires |r| == |widths|
  {
    if r == [] then " |" else CellsText(r, widths)
  }

  function Sum(ns: seq<nat>): nat {
    if ns == [] then 0 else Sum(ns[..|ns| - 1]) + ns[|ns| - 1]
  }

  function Divider(widths: seq<nat>): (s: string)
    ensures forall c :: c in s ==> c == '-'
    ensures widths != [] ==> s != ""
  {
    seq(Sum(widths) + 3 * |widths|, _ => '-')
  }

  function RowLines(rows: seq<Row>, widths: seq<nat>): (lines: seq<string>)
    requires Rectangular(rows, |widths|)
    ensures |lines| == |rows|
    ensures forall i :: 0 <= i < |rows| ==> lines[i] == RowText(rows[i], widths)
  {
    seq(|rows|, i requires 0 <= i < |rows| => RowText(rows[i], widths))
  }

  function Terminated(lines: seq<string>): string {
    if lines == [] then "" else Terminated(DropLast(lines)) + lines[|lines| - 1] + "\n"
  }

  predicate Rectangular(rows: seq<Row>, n: nat) {
    forall i :: 0 <= i < |rows| ==> |rows[i]| == n
  }

  /** Every row has a value for every attribute. */
  predicate Complete(t: Table) {
    Rectangular(t.rows, |t.schema|)
  }

  function Lines(t: Table): (lines: seq<string>)
    requires Complete(t)
  {
    var widths := Widths(t);
    [RowText(t.schema, widths), Divider(widths)] + RowLines(t.rows, widths)
  }

  function Print(t: Table): string
    requires Complete(t)
  {
    assert Terminated(Lines(t)) != "";
    DropLast(Terminated(Lines(t)))
  }

  // ----- Parsing -----

  function NonBlank(lines: seq<string>): seq<string> {
    if lines == [] then []
    else (if Strip(lines[0]) != "" then [lines[0]] else []) + NonBlank(lines[1..])
  }

  function StripAll(parts: seq<string>): (r: seq<string>)
    ensures |r| == |parts| && forall i :: 0 <= i < |parts| ==> r[i] == Strip(parts[i])
  {
    seq(|parts|, i requires 0 <= i < |parts| => Strip(parts[i]))
  }

  function LowerAll(parts: seq<string>): (r: seq<string>)
    ensures |r| == |parts| && forall i :: 0 <= i < |parts| ==> r[i] == Lower(parts[i])
  {
    seq(|parts|, i requires 0 <= i < |parts| => Lower(parts[i]))
  }

  /** The text before each bar; what follows the last bar is dropped. */
  function Fields(line: string): seq<string> {
    StripAll(DropLast(Split(line, '|')))
  }

  function ParseRows(lines: seq<string>, n: nat): Result<seq<Row>> {
    if lines == [] then Ok([])
    else
      match ParseRows(DropLast(lines), n)
      case Error => Error
      case Ok(rows) =>
        var row := Fields(lines[|lines| - 1]);
        if |row| != n then Error else Ok(rows + [row])
  }

  function Parse(text: string): Result<Table> {
    var lines := NonBlank(Split(text, '\n'));
    if |lines| < 2 then Error
    else
      var schema := LowerAll(Fields(lines[0]));
      match ParseRows(lines[2..], |schema|)
      case Error => Error
      case Ok(rows) => Ok(Table(schema, rows))
  }

  // ----- The programs -----

  /** `from_str`: one row at a time, added to a counter. */
  method FromStr(text: string) returns (schema: seq<string>, rows: multiset<Row>, ok: bool)
    ensures ok <==> Parse(text).Ok?
    ensures ok ==> schema == Parse(text).value.schema && rows == multiset(Parse(text).value.rows)
  {
    hide Split, Strip, ParseRows;
    var lines := NonBlank(Split(text, '\n'));
    schema, rows := [], multiset{};
    if |lines| < 2 {
      return schema, rows, false;
    }
    schema := LowerAll(Fields(lines[0]));
    lines := lines[2..];
    ghost var done: seq<Row> := [];
    RowsStart(lines, |schema|);
    for i := 0 to |lines|
      invariant ParseRows(lines[..i], |schema|) == Ok(done) && rows == multiset(done)
    {
      var row := Fields(lines[i]);
      RowsStep(lines, i, |schema|);
      if |row| != |schema| {
        RowsFail(lines, i + 1, |schema|);
        return schema, rows, false;
      }
      rows := rows + multiset{row};
      done := done + [row];
    }
    assert lines[..|lines|] == lines;
    ok := true;
  }

  lemma RowsStart(lines: seq<string>, n: nat)
    ensures ParseRows(lines[..0], n) == Ok([])
  {
  }

  lemma RowsStep(lines: seq<string>, i: nat, n: nat)
    requires i < |lines|
    ensures ParseRows(lines[..i + 1], n)
         == match ParseRows(lines[..i], n)
            case Error => Error
            case Ok(rows) => if |Fields(lines[i])| != n then Error else Ok(rows + [Fields(lines[i])])
  {
    assert DropLast(lines[..i + 1]) == lines[..i];
  }

  lemma {:induction false} RowsFail(lines: seq<string>, i: nat, n: nat)
    requires i <= |lines| && ParseRows(lines[..i], n).Error?
    ensures ParseRows(lines, n).Error?
    decreases |lines| - i
  {
    if i == |lines| {
      assert lines[..i] == lines;
    } else {
      RowsStep(lines, i, n);
      RowsFail(lines, i + 1, n);
    }
  }

  /** `__str__`: header, divider and rows, without the newline at the end. */
  method ToText(t: Table) returns (text: string)
    requires Complete(t)
    ensures text == Print(t)
  {
    hide RowText, Divider, Widths;
    var widths := Widths(t);
    text := RowText(t.schema, widths) + "\n";
    text := text + Divider(widths) + "\n";
    ghost var head := [RowText(t.schema, widths), Divider(widths)];
    TwoLines(head[0], head[1]);
    for i := 0 to |t.rows|
      invariant text == Terminated(head + RowLines(t.rows, widths)[..i])
    {
      var all := RowLines(t.rows, widths);
      assert DropLast(head + all[..i + 1]) == head + all[..i] && (head + all[..i + 1])[|head| + i] == all[i];
      text := text + RowText(t.rows[i], widths) + "\n";
    }
    assert Lines(t) == head + RowLines(t.rows, widths)[..|t.rows|];
    text := text[..|text| - 1];
  }

  lemma TwoLines(a: string, b: string)
    ensures Terminated([a, b] + []) == a + "\n" + b + "\n"
  {
    assert [a, b] + [] == [a, b] && DropLast([a, b]) == [a] && DropLast([a]) == [];
    assert Terminated([a]) == a + "\n";
  }

  // ----- Stripping -----

  predicate Trimmed(s: string) {
    s == "" || (!Blank(s[0]) && !Blank(s[|s| - 1]))
  }

  predicate AllBlank(s: string) {
    forall c :: c in s ==> Blank(c)
  }

  lemma {:induction false} StripLeftBlank(pre: string, s: string)
    requires AllBlank(pre)
    ensures StripLeft(pre + s) == StripLeft(s)
  {
    if pre == "" {
      assert pre + s == s;
    } else {
      assert pre[0] in pre && (pre + s)[0] == pre[0] && (pre + s)[1..] == pre[1..] + s;
      StripLeftBlank(pre[1..], s);
    }
  }

  lemma {:induction false} StripRightBlank(s: string, post: string)
    requires AllBlank(post)
    ensures StripRight(s + post) == StripRight(s)
  {
    if post == "" {
      assert s + post == s;
    } else {
      var n := |post| - 1;
      assert post[n] in post && (s + post)[|s + post| - 1] == post[n] && (s + post)[..|s + post| - 1] == s + post[..n];
      StripRightBlank(s, post[..n]);
    }
  }

  lemma StripPadded(pre: string, s: string, post: string)
    requires AllBlank(pre) && AllBlank(post) && Trimmed(s)
    ensures Strip(pre + s + post) == s
  {
    assert pre + s + post == pre + (s + post);
    StripLeftBlank(pre, s + post);
    if s == "" {
      assert s + post == post + "";
      StripLeftBlank(post, "");
    } else {
      assert (s + post)[0] == s[0];
      StripRightBlank(s, post);
    }
  }

  lemma TrimmedKept(s: string)
    requires Trimmed(s)
    ensures Strip(s) == s
  {
    StripPadded("", s, "");
    assert "" + s + "" == s;
  }

  lemma {:induction false} StripLeftProps(s: string)
    ensures StripLeft(s) == "" || !Blank(StripLeft(s)[0])
    ensures forall c :: c in s && !Blank(c) ==> c in StripLeft(s)
  {
    if s != "" && Blank(s[0]) {
      StripLeftProps(s[1..]);
    }
  }

  lemma {:induction false} StripRightProps(s: string)
    ensures StripRight(s) == "" || (StripRight(s)[0] == s[0] && !Blank(StripRight(s)[|StripRight(s)| - 1]))
    ensures forall c :: c in s && !Blank(c) ==> c in StripRight(s)
  {
    if s != "" && Blank(s[|s| - 1]) {
      StripRightProps(s[..|s| - 1]);
    }
  }

  /** Stripping trims, and removes nothing but blanks. */
  lemma StripProps(s: string)
    ensures Trimmed(Strip(s))
    ensures forall c :: c in s && !Blank(c) ==> c in Strip(s)
  {
    StripLeftProps(s);
    StripRightProps(StripLeft(s));
  }

  // ----- Splitting -----

  lemma {:induction false} SplitNone(a: string, sep: char)
    requires sep !in a
    ensures Split(a, sep) == [a]
  {
    if a != "" {
      assert a[0] in a && [a[0]] + a[1..] == a;
      SplitNone(a[1..], sep);
    }
  }

  lemma {:induction false} SplitFirst(a: string, sep: char, b: string)
    requires sep !in a
    ensures Split(a + [sep] + b, sep) == [a] + Split(b, sep)
  {
    var s := a + [sep] + b;
    if a == "" {
      assert s[1..] == b;
    } else {
      assert s[1..] == a[1..] + [sep] + b && s[0] == a[0] && a[0] in a && [a[0]] + a[1..] == a;
      SplitFirst(a[1..], sep, b);
    }
  }

  lemma {:induction false} SplitLast(a: string, sep: char, b: string)
    requires sep !in b
    ensures Split(a + [sep] + b, sep) == Split(a, sep) + [b]
  {
    var s := a + [sep] + b;
    if a == "" {
      assert s[1..] == b;
      SplitNone(b, sep);
    } else {
      assert s[1..] == a[1..] + [sep] + b;
      SplitLast(a[1..], sep, b);
    }
  }

  ghost predicate NoneHas(lines: seq<string>, c: char) {
    forall i :: 0 <= i < |lines| ==> c !in lines[i]
  }

  /** Lines are read back as they were written. */
  lemma {:induction false} SplitTerminated(lines: seq<string>)
    requires lines != [] && NoneHas(lines, '\n')
    ensures Terminated(lines) != "" && Split(DropLast(Terminated(lines)), '\n') == lines
  {
    var front, last := DropLast(lines), lines[|lines| - 1];
    var text := Terminated(front);
    if front == [] {
      assert DropLast(Terminated(lines)) == last && lines == [last];
      SplitNone(last, '\n');
    } else {
      SplitTerminated(front);
      assert text == DropLast(text) + "\n";
      assert DropLast(Terminated(lines)) == DropLast(text) + "\n" + last;
      SplitLast(DropLast(text), '\n', last);
      assert front + [last] == lines;
    }
  }

  lemma {:induction false} NonBlankAll(lines: seq<string>)
    requires forall i :: 0 <= i < |lines| ==> Strip(lines[i]) != ""
    ensures NonBlank(lines) == lines
  {
    if lines != [] {
      NonBlankAll(lines[1..]);
    }
  }

  // ----- Rows -----

  /** Text that survives between bars on one line. */
  predicate Clean(s: string) {
    Strip(s) == s && '|' !in s && '\n' !in s
  }

  predicate AllClean(r: Row) {
    forall i :: 0 <= i < |r| ==> Clean(r[i])
  }

  lemma FieldsFirst(a: string, b: string)
    requires '|' !in a
    ensures Fields(a + "|" + b) == [Strip(a)] + Fields(b)
  {
    SplitFirst(a, '|', b);
    assert DropLast([a] + Split(b, '|')) == [a] + DropLast(Split(b, '|'));
  }

  lemma PaddedCell(x: string, width: nat)
    requires Clean(x)
    ensures var a := " " + Ljust(x, width) + " "; Strip(a) == x && '|' !in a && '\n' !in a
  {
    StripProps(x);
    var spaces := Spaces(if width > |x| then width - |x| else 0);
    StripPadded(" ", x, spaces + " ");
    assert " " + Ljust(x, width) + " " == " " + x + (spaces + " ");
  }

  lemma {:induction false} CellsReadBack(r: Row, widths: seq<nat>)
    requires |r| == |widths| && AllClean(r)
    ensures Fields(CellsText(r, widths)) == r && '\n' !in CellsText(r, widths)
  {
    if r == [] {
      assert Split("", '|') == [""];
    } else {
      hide Strip, Clean, Ljust, Fields;
      CellsReadBack(r[1..], widths[1..]);
      PaddedCell(r[0], widths[0]);
      var a, rest := " " + Ljust(r[0], widths[0]) + " ", CellsText(r[1..], widths[1..]);
      assert CellsText(r, widths) == a + "|" + rest;
      FieldsFirst(a, rest);
      assert [r[0]] + r[1..] == r;
    }
  }

  lemma RowReadBack(r: Row, widths: seq<nat>)
    requires |r| == |widths| && r != [] && AllClean(r)
    ensures Fields(RowText(r, widths)) == r && '\n' !in RowText(r, widths) && Strip(RowText(r, widths)) != ""
  {
    CellsReadBack(r, widths);
    var text := RowText(r, widths);
    assert '|' in text by {
      var head := " " + Ljust(r[0], widths[0]) + " |";
      assert head[|head| - 1] == '|' && text == head + CellsText(r[1..], widths[1..]);
      assert text[|head| - 1] == '|';
    }
    StripProps(text);
  }

  lemma FrontRows(rows: seq<Row>, n: nat)
    requires Rectangular(rows, n) && rows != []
    ensures Rectangular(DropLast(rows), n) && |rows[|rows| - 1]| == n
  {
  }

  lemma {:induction false} RowsReadBack(rows: seq<Row>, widths: seq<nat>)
    requires Rectangular(rows, |widths|) && widths != [] && forall i :: 0 <= i < |rows| ==> AllClean(rows[i])
    ensures ParseRows(RowLines(rows, widths), |widths|) == Ok(rows)
  {
    hide Fields, RowText, AllClean, Rectangular;
    assert |RowLines(rows, widths)| == |rows|;
    if rows != [] {
      var front, last := DropLast(rows), rows[|rows| - 1];
      FrontRows(rows, |widths|);
      RowsReadBack(front, widths);
      assert DropLast(RowLines(rows, widths)) == RowLines(front, widths);
      RowReadBack(last, widths);
      assert front + [last] == rows;
    }
  }

  // ----- Blanks -----

  lemma BlankIs(c: char)
    ensures Blank(c) <==> c as int in {9, 10, 11, 12, 13, 28, 29, 30, 31, 32}
  {
  }

  /** Lines are dropped one by one, those of blanks only. */
  lemma {:induction false} NonBlankConcat(a: seq<string>, b: seq<string>)
    ensures NonBlank(a + b) == NonBlank(a) + NonBlank(b)
  {
    if a == [] {
      assert a + b == b;
    } else {
      assert (a + b)[1..] == a[1..] + b;
      NonBlankConcat(a[1..], b);
    }
  }

  lemma NonBlankOne(line: string)
    ensures NonBlank([line]) == if forall c :: c in line ==> Blank(c) then [] else [line]
  {
    StripProps(line);
    var s := Strip(line);
    if s != "" { assert s[0] in s && !Blank(s[0]); }
    assert [line][1..] == [];
  }

  // ----- Layout -----

  const UPPER: string := "ABCDEFGHIJKLMNOPQRSTUVWXYZ"
  const LOWER: string := "abcdefghijklmnopqrstuvwxyz"

  /** Every capital letter becomes its small one. */
  lemma CapitalsLowered(i: nat)
    requires i < 26
    ensures LowerChar(UPPER[i]) == LOWER[i]
  {
    assert UPPER[i] == (65 + i) as char && LOWER[i] == (97 + i) as char;
  }

  /** No other character is changed. */
  lemma OthersKept(c: char)
    ensures LowerChar(c) == c || c in UPPER
  {
    if 'A' <= c <= 'Z' {
      assert UPPER[c as int - 65] == c;
    }
  }

  /** The values of a column: its name and one cell of each row. */
  ghost predicate InColumn(t: Table, i: nat, v: string)
    requires Complete(t) && i < |t.schema|
  {
    v == t.schema[i] || exists k :: 0 <= k < |t.rows| && t.rows[k][i] == v
  }

  lemma {:induction false} ColumnWidthIs(rows: seq<Row>, n: nat, i: nat)
    requires Rectangular(rows, n) && i < n
    ensures forall k :: 0 <= k < |rows| ==> |rows[k][i]| <= ColumnWidth(rows, i)
    ensures ColumnWidth(rows, i) == 0 || exists k :: 0 <= k < |rows| && |rows[k][i]| == ColumnWidth(rows, i)
  {
    if rows != [] {
      ColumnWidthIs(rows[1..], n, i);
      assert forall k :: 0 < k < |rows| ==> rows[1..][k - 1] == rows[k];
      if k :| 0 <= k < |rows[1..]| && |rows[1..][k][i]| == ColumnWidth(rows[1..], i) {
        assert rows[k + 1] == rows[1..][k];
      }
    }
  }

  /** A column is as wide as its longest value. */
  lemma WidthIs(t: Table, i: nat)
    requires Complete(t) && i < |t.schema|
    ensures forall v :: InColumn(t, i, v) ==> |v| <= Widths(t)[i]
    ensures exists v :: InColumn(t, i, v) && |v| == Widths(t)[i]
  {
    ColumnWidthIs(t.rows, |t.schema|, i);
    var w := ColumnWidth(t.rows, i);
    assert InColumn(t, i, t.schema[i]);
    if w > |t.schema[i]| {
      var k :| 0 <= k < |t.rows| && |t.rows[k][i]| == w;
      assert InColumn(t, i, t.rows[k][i]);
    }
  }

  /** Where the cell of column `k` starts: after the cells before it, each three characters longer than its width. */
  function Start(widths: seq<nat>, k: nat): nat
    requires k <= |widths|
  {
    if k == 0 then 0 else Start(widths, k - 1) + widths[k - 1] + 3
  }

  lemma {:induction false} StartTail(widths: seq<nat>, k: nat)
    requires 0 < k <= |widths|
    ensures Start(widths, k) == widths[0] + 3 + Start(widths[1..], k - 1)
  {
    if k > 1 { StartTail(widths, k - 1); }
  }

  lemma {:induction false} StartIsSum(widths: seq<nat>, k: nat)
    requires k <= |widths|
    ensures Start(widths, k) == Sum(widths[..k]) + 3 * k
  {
    if k > 0 {
      assert widths[..k][..k - 1] == widths[..k - 1];
      StartIsSum(widths, k - 1);
    }
  }

  ghost predicate Fits(r: Row, widths: seq<nat>) {
    |r| == |widths| && forall i :: 0 <= i < |r| ==> |r[i]| <= widths[i]
  }

  /** The text of a cell as it is printed from position `at`: the value after one blank, blanks up to the width, one
      more blank and the bar. */
  ghost predicate CellAt(text: string, at: nat, v: string, width: nat) {
    && at + width + 3 <= |text| && |v| <= width
    && text[at] == ' ' && (forall i :: at < i <= at + |v| ==> text[i] == v[i - at - 1])
    && (forall i :: at + |v| < i <= at + width + 1 ==> text[i] == ' ')
    && text[at + width + 2] == '|'
  }

  /** A line with the cells of a row, which nothing follows. */
  ghost predicate Aligned(line: string, r: Row, widths: seq<nat>)
    requires |r| == |widths|
  {
    |line| == Start(widths, |widths|) && forall k :: 0 <= k < |r| ==> CellAt(line, Start(widths, k), r[k], widths[k])
  }

  /** Values that fit stand in their columns, and nothing follows the last bar. */
  lemma {:induction false} CellsAligned(r: Row, widths: seq<nat>)
    requires Fits(r, widths)
    ensures Aligned(CellsText(r, widths), r, widths)
  {
    if r != [] {
      var head, rest := " " + Ljust(r[0], widths[0]) + " |", CellsText(r[1..], widths[1..]);
      CellsAligned(r[1..], widths[1..]);
      hide CellAt;
      FirstCell(r[0], widths[0], rest);
      hide Ljust;
      assert CellsText(r, widths) == head + rest;
      AlignedPush(head, rest, r, widths);
    }
  }

  lemma AlignedPush(head: string, rest: string, r: Row, widths: seq<nat>)
    requires |r| == |widths| > 0 && |head| == widths[0] + 3
    requires CellAt(head + rest, 0, r[0], widths[0]) && Aligned(rest, r[1..], widths[1..])
    ensures Aligned(head + rest, r, widths)
  {
    assert Start(widths, 0) == 0;
    hide CellAt, Start;
    StartTail(widths, |widths|);
    forall k | 0 < k < |r| ensures CellAt(head + rest, Start(widths, k), r[k], widths[k]) {
      CellPushed(head, rest, r, widths, k);
    }
  }

  lemma CellPushed(head: string, rest: string, r: Row, widths: seq<nat>, k: nat)
    requires 0 < k < |r| == |widths| && |head| == widths[0] + 3 && Aligned(rest, r[1..], widths[1..])
    ensures CellAt(head + rest, Start(widths, k), r[k], widths[k])
  {
    hide CellAt, Start;
    StartTail(widths, k);
    var i := k - 1;
    assert CellAt(rest, Start(widths[1..], i), r[1..][i], widths[1..][i]);
    CellShifted(head, rest, Start(widths[1..], i), r[k], widths[k]);
  }

  lemma FirstCell(v: string, width: nat, rest: string)
    requires |v| <= width
    ensures CellAt(" " + Ljust(v, width) + " |" + rest, 0, v, width)
  {
    var spaces := Spaces(if width > |v| then width - |v| else 0);
    var text := " " + Ljust(v, width) + " |" + rest;
    assert text == " " + v + spaces + " |" + rest;
    forall i | |v| < i <= width ensures text[i] == ' ' {
      assert text[i] == spaces[i - 1 - |v|] && spaces[i - 1 - |v|] in spaces;
    }
  }

  lemma CellShifted(head: string, rest: string, at: nat, v: string, width: nat)
    requires CellAt(rest, at, v, width)
    ensures CellAt(head + rest, |head| + at, v, width)
  {
    var text := head + rest;
    assert forall i :: |head| <= i < |text| ==> text[i] == rest[i - |head|];
  }

  /** All lines of a printed table are equally long, and the cells of a column start and end at the same places. */
  lemma LinesAligned(t: Table)
    requires Complete(t) && t.schema != []
    ensures var lines, w := Lines(t), Widths(t);
      && |lines| == |t.rows| + 2 && Aligned(lines[0], t.schema, w)
      && |lines[1]| == Start(w, |w|) && (forall c :: c in lines[1] ==> c == '-')
      && forall i :: 0 <= i < |t.rows| ==> Aligned(lines[i + 2], t.rows[i], w)
  {
    hide Start, Aligned, Fits, CellsText, Widths, Divider;
    var w := Widths(t);
    DividerAligned(w);
    SchemaFits(t);
    CellsAligned(t.schema, w);
    forall i | 0 <= i < |t.rows| ensures Aligned(RowText(t.rows[i], w), t.rows[i], w) {
      RowFits(t, i);
      CellsAligned(t.rows[i], w);
    }
  }

  lemma DividerAligned(widths: seq<nat>)
    ensures |Divider(widths)| == Start(widths, |widths|)
  {
    StartIsSum(widths, |widths|);
    assert widths[..|widths|] == widths;
  }

  lemma SchemaFits(t: Table)
    requires Complete(t)
    ensures Fits(t.schema, Widths(t))
  {
  }

  lemma RowFits(t: Table, i: nat)
    requires Complete(t) && i < |t.rows|
    ensures Fits(t.rows[i], Widths(t))
  {
    forall k | 0 <= k < |t.schema| ensures |t.rows[i][k]| <= Widths(t)[k] { ColumnWidthIs(t.rows, |t.schema|, k); }
  }

  // ----- Round trip -----

  /** Tables that can be printed and read back. */
  predicate Printable(t: Table) {
    && t.schema != [] && AllClean(t.schema) && (forall i :: 0 <= i < |t.schema| ==> Lower(t.schema[i]) == t.schema[i])
    && forall i :: 0 <= i < |t.rows| ==> AllClean(t.rows[i])
  }

  /** Clean text is read back whatever the case of the names; the names come back in lower case. */
  lemma CleanReadBack(t: Table)
    requires Complete(t) && t.schema != [] && AllClean(t.schema) && forall i :: 0 <= i < |t.rows| ==> AllClean(t.rows[i])
    ensures Parse(Print(t)) == Ok(Table(LowerAll(t.schema), t.rows))
  {
    hide Strip, RowText, Lower, Split, Clean, AllClean, Terminated, Sum, NonBlank, ParseRows, Fields;
    var widths, lines := Widths(t), Lines(t);
    forall i | 0 <= i < |lines| ensures '\n' !in lines[i] && Strip(lines[i]) != "" {
      if i == 0 {
        RowReadBack(t.schema, widths);
      } else if i == 1 {
        assert Divider(widths)[0] in Divider(widths);
        StripProps(Divider(widths));
      } else {
        RowReadBack(t.rows[i - 2], widths);
      }
    }
    SplitTerminated(lines);
    NonBlankAll(lines);
    RowReadBack(t.schema, widths);
    RowsReadBack(t.rows, widths);
    assert lines[2..] == RowLines(t.rows, widths);
  }

  lemma PrintableReadBack(t: Table)
    requires Complete(t) && Printable(t)
    ensures Parse(Print(t)) == Ok(t)
  {
    CleanReadBack(t);
    assert LowerAll(t.schema) == t.schema;
  }

  lemma FieldsClean(line: string)
    requires '\n' !in line
    ensures AllClean(Fields(line))
  {
    var parts := Split(line, '|');
    forall i | 0 <= i < |parts| - 1 ensures Clean(Strip(parts[i])) {
      assert parts[i] in parts;
      StripProps(parts[i]);
      TrimmedKept(Strip(parts[i]));
    }
  }

  lemma LowerClean(s: string)
    requires Clean(s)
    ensures Clean(Lower(s)) && Lower(Lower(s)) == Lower(s)
  {
    hide Strip;
    StripProps(s);
    var l := Lower(s);
    forall i | 0 <= i < |l| ensures l[i] != '|' && l[i] != '\n' && LowerChar(l[i]) == l[i] {
      assert s[i] in s;
    }
    hide LowerChar, Lower;
    TrimmedKept(l);
  }

  lemma {:induction false} NonBlankFrom(lines: seq<string>)
    ensures forall i :: 0 <= i < |NonBlank(lines)| ==> NonBlank(lines)[i] in lines
  {
    if lines != [] {
      NonBlankFrom(lines[1..]);
    }
  }

  lemma {:induction false} ParsedRows(lines: seq<string>, n: nat)
    requires NoneHas(lines, '\n') && ParseRows(lines, n).Ok?
    ensures forall i :: 0 <= i < |ParseRows(lines, n).value| ==> AllClean(ParseRows(lines, n).value[i])
  {
    if lines != [] {
      ParsedRows(DropLast(lines), n);
      FieldsClean(lines[|lines| - 1]);
    }
  }

  /** Whatever the parser returns has only clean text, and names in lower case. */
  lemma ParsedIsClean(text: string)
    requires Parse(text).Ok?
    ensures var t := Parse(text).value; t.schema != [] ==> Printable(t)
  {
    hide Split, Fields, Clean, Lower, AllClean, NonBlank, ParseRows, Strip;
    var all, lines := Split(text, '\n'), NonBlank(Split(text, '\n'));
    NonBlankFrom(all);
    assert NoneHas(lines, '\n');
    FieldsClean(lines[0]);
    var names, t := Fields(lines[0]), Parse(text).value;
    ParsedRows(lines[2..], |LowerAll(names)|);
    LowerAllClean(names);
  }

  lemma LowerAllClean(names: seq<string>)
    requires AllClean(names)
    ensures AllClean(LowerAll(names)) && forall i :: 0 <= i < |names| ==> Lower(LowerAll(names)[i]) == LowerAll(names)[i]
  {
    forall i | 0 <= i < |names| ensures Clean(LowerAll(names)[i]) && Lower(LowerAll(names)[i]) == LowerAll(names)[i] {
      LowerClean(names[i]);
    }
  }

  /** The header of a table without attributes reads as one attribute. */
  lemma NoAttributes(t: Table)
    requires Complete(t) && t.schema == []
    ensures Parse(Print(t)) != Ok(t)
  {
    hide Strip, Split, Terminated, ParseRows, Fields, Sum;
    var lines := Lines(t);
    forall i | 0 <= i < |lines| ensures '\n' !in lines[i] {
      assert i >= 2 ==> t.rows[i - 2] == [];
    }
    SplitTerminated(lines);
    StripProps(lines[0]);
    BarOnly(lines[0]);
    assert NonBlank(lines) == [lines[0]] + NonBlank(lines[1..]);
  }

  lemma BarOnly(line: string)
    requires line == " |"
    ensures '|' in line && |Fields(line)| == 1
  {
    assert line[1] == '|' && line == " " + "|" + "" && Split("", '|') == [""];
    FieldsFirst(" ", "");
  }

  /** A printed table is read back exactly iff it has attributes, its names are in lower case, and no name or value
      contains a bar or a newline or starts or ends with a blank. */
  lemma RoundTripIff(t: Table)
    requires Complete(t)
    ensures Parse(Print(t)) == Ok(t) <==> Printable(t)
  {
    if Printable(t) {
      PrintableReadBack(t);
    } else if t.schema == [] {
      NoAttributes(t);
    } else if Parse(Print(t)) == Ok(t) {
      ParsedIsClean(Print(t));
    }
  }
}
