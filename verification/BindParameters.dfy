/** Bind parameters: the length-prefixed encoding of bind values, their constants, and substitution of values
    for the parameters of a query. */
module BindParameters {
  import opened Names
  import opened Doubles

  datatype Result<T> = Ok(value: T) | Error

  // ----- The encoding -----

  /** Parameter `i` with its value: `#i(length):value`. */
  function EncodeOne(i: nat, value: string): string {
    "#" + Dec(i) + "(" + Dec(|value|) + "):" + value
  }

  function Encode(values: seq<string>, i: nat): string {
    if values == [] then "" else EncodeOne(i, values[0]) + Encode(values[1..], i + 1)
  }

  // ----- Scanning -----

  predicate IsBlank(c: char) {
    c == ' ' || '\t' <= c <= '\r'
  }

  lemma BlankIs(c: char)
    ensures IsBlank(c) <==> c as int in {9, 10, 11, 12, 13, 32}
  {
  }

  function SkipBlanks(s: string): (r: string)
    ensures |r| <= |s|
  {
    if s != "" && IsBlank(s[0]) then SkipBlanks(s[1..]) else s
  }

  function SpanDigits(s: string): (n: nat)
    ensures n <= |s| && forall i :: 0 <= i < n ==> IsDigit(s[i])
    ensures n < |s| ==> !IsDigit(s[n])
  {
    if s != "" && IsDigit(s[0]) then 1 + SpanDigits(s[1..]) else 0
  }

  /** One unsigned number, after blanks. */
  function ScanNumber(s: string): (r: Result<(nat, string)>)
    ensures r.Ok? ==> |r.value.1| < |s|
  {
    var t := SkipBlanks(s);
    var n := SpanDigits(t);
    if n == 0 then Error else Ok((ValueOf(t[..n]), t[n..]))
  }

  function ScanLiteral(s: string, literal: string): (r: Result<string>)
    ensures r.Ok? ==> |r.value| == |s| - |literal|
  {
    if literal <= s then Ok(s[|literal|..]) else Error
  }

  /** The header `#number(length):`, and what follows it. */
  function ScanHeader(s: string): (r: Result<(nat, string)>)
    ensures r.Ok? ==> |r.value.1| < |s|
  {
    var hash := ScanLiteral(SkipBlanks(s), "#");
    if hash.Error? then Error
    else
      var number := ScanNumber(hash.value);
      if number.Error? then Error
      else
        var open := ScanLiteral(number.value.1, "(");
        if open.Error? then Error
        else
          var length := ScanNumber(open.value);
          if length.Error? then Error
          else
            var close := ScanLiteral(length.value.1, "):");
            if close.Error? then Error else Ok((length.value.0, close.value))
  }

  /** All values of an encoded string. */
  function Parse(s: string): Result<seq<string>>
    decreases |s|
  {
    if s == "" then Ok([])
    else
      var header := ScanHeader(s);
      if header.Error? || |header.value.1| < header.value.0 then Error
      else
        var (len, rest) := header.value;
        var more := Parse(rest[len..]);
        if more.Error? then Error else Ok([rest[..len]] + more.value)
  }

  // ----- What the scanner accepts -----

  predicate AllBlank(s: string) {
    forall i :: 0 <= i < |s| ==> IsBlank(s[i])
  }

  predicate Digits(s: string) {
    s != "" && forall i :: 0 <= i < |s| ==> IsDigit(s[i])
  }

  /** Blanks, `#`, a number, the length of the value in parentheses, and a colon; numbers may follow blanks. */
  ghost predicate IsHeader(h: string, len: nat) {
    exists b1, b2, b3, d1, d2 :: HeaderOf(h, len, b1, b2, b3, d1, d2)
  }

  ghost predicate HeaderOf(h: string, len: nat, b1: string, b2: string, b3: string, d1: string, d2: string) {
    && AllBlank(b1) && AllBlank(b2) && AllBlank(b3) && Digits(d1) && Digits(d2) && ValueOf(d2) == len
    && h == b1 + "#" + b2 + d1 + "(" + b3 + d2 + "):"
  }

  /** The string is one header and value after another. */
  ghost predicate Encodes(s: string, values: seq<string>)
    decreases |values|
  {
    if values == [] then s == ""
    else exists h, rest :: StartsWith(s, values[0], h, rest) && Encodes(rest, values[1..])
  }

  ghost predicate StartsWith(s: string, value: string, h: string, rest: string) {
    IsHeader(h, |value|) && s == h + value + rest
  }

  lemma {:induction false} SkipIs(b: string, s: string)
    requires AllBlank(b) && (s != "" ==> !IsBlank(s[0]))
    ensures SkipBlanks(b + s) == s
  {
    if b == "" {
      assert b + s == s;
    } else {
      assert (b + s)[1..] == b[1..] + s;
      SkipIs(b[1..], s);
    }
  }

  lemma {:induction false} Skipped(s: string) returns (b: string)
    ensures AllBlank(b) && s == b + SkipBlanks(s) && (SkipBlanks(s) != "" ==> !IsBlank(SkipBlanks(s)[0]))
  {
    b := "";
    if s != "" && IsBlank(s[0]) {
      b := Skipped(s[1..]);
      b := [s[0]] + b;
    }
  }

  lemma NumberRead(b: string, d: string, rest: string)
    requires AllBlank(b) && Digits(d) && (rest != "" ==> !IsDigit(rest[0]))
    ensures ScanNumber(b + d + rest) == Ok((ValueOf(d), rest))
  {
    assert b + d + rest == b + (d + rest) && (d + rest)[0] == d[0];
    SkipIs(b, d + rest);
    SpanPrefix(d, rest);
    assert (d + rest)[..|d|] == d && (d + rest)[|d|..] == rest;
  }

  lemma NumberFound(s: string) returns (b: string, d: string)
    requires ScanNumber(s).Ok?
    ensures AllBlank(b) && Digits(d) && s == b + d + ScanNumber(s).value.1 && ScanNumber(s).value.0 == ValueOf(d)
    ensures var rest := ScanNumber(s).value.1; rest != "" ==> !IsDigit(rest[0])
  {
    b := Skipped(s);
    var t := SkipBlanks(s);
    d := t[..SpanDigits(t)];
    assert t == d + t[|d|..];
  }

  /** The scanner reads exactly the headers. */
  lemma HeaderIff(s: string, len: nat, rest: string)
    ensures ScanHeader(s) == Ok((len, rest)) <==> exists h :: IsHeader(h, len) && s == h + rest
  {
    if ScanHeader(s) == Ok((len, rest)) {
      var h := HeaderFound(s, len, rest);
    }
    if h :| IsHeader(h, len) && s == h + rest {
      var b1, b2, b3, d1, d2 :| HeaderOf(h, len, b1, b2, b3, d1, d2);
      HeaderRead(h, len, rest, b1, b2, b3, d1, d2);
    }
  }

  lemma HeaderRead(h: string, len: nat, rest: string, b1: string, b2: string, b3: string, d1: string, d2: string)
    requires HeaderOf(h, len, b1, b2, b3, d1, d2)
    ensures ScanHeader(h + rest) == Ok((len, rest))
  {
    hide SkipBlanks, ScanNumber, ValueOf, AllBlank, Digits;
    var s3 := "):" + rest;
    var s2 := b3 + d2 + s3;
    var s1 := "(" + s2;
    var s0 := b2 + d1 + s1;
    var s := "#" + s0;
    assert h + rest == b1 + s;
    SkipIs(b1, s);
    ScanExact("#", s0);
    NumberRead(b2, d1, s1);
    ScanExact("(", s2);
    NumberRead(b3, d2, s3);
    ScanExact("):", rest);
  }

  lemma HeaderFound(s: string, len: nat, rest: string) returns (h: string)
    requires ScanHeader(s) == Ok((len, rest))
    ensures IsHeader(h, len) && s == h + rest
  {
    hide SkipBlanks, ScanNumber, ValueOf, AllBlank, Digits;
    var b1 := Skipped(s);
    var t := SkipBlanks(s);
    var s0 := t[1..];
    assert t == "#" + s0;
    var b2, d1 := NumberFound(s0);
    var s1 := ScanNumber(s0).value.1;
    var s2 := s1[1..];
    assert s1 == "(" + s2;
    var b3, d2 := NumberFound(s2);
    var s3 := ScanNumber(s2).value.1;
    assert s3 == "):" + rest;
    h := b1 + "#" + b2 + d1 + "(" + b3 + d2 + "):";
    assert HeaderOf(h, len, b1, b2, b3, d1, d2);
    Joined(s, b1, b2, d1, b3, d2, rest);
  }

  lemma Joined(s: string, b1: string, b2: string, d1: string, b3: string, d2: string, rest: string)
    requires s == b1 + ("#" + (b2 + d1 + ("(" + (b3 + d2 + ("):" + rest)))))
    ensures s == b1 + "#" + b2 + d1 + "(" + b3 + d2 + "):" + rest
  {
  }

  /** Parsing succeeds exactly on the encodings, however they are spaced, and returns the encoded values. */
  lemma {:induction false} ParseIff(s: string, values: seq<string>)
    ensures Parse(s) == Ok(values) <==> Encodes(s, values)
    decreases |s|
  {
    hide ScanHeader, IsHeader;
    if Parse(s) == Ok(values) {
      if s != "" {
        var (len, after_) := ScanHeader(s).value;
        HeaderIff(s, len, after_);
        var h :| IsHeader(h, len) && s == h + after_;
        var rest := after_[len..];
        ParseIff(rest, values[1..]);
        assert values[0] == after_[..len] && Parse(rest) == Ok(values[1..]);
        assert StartsWith(s, values[0], h, rest);
      }
    }
    if Encodes(s, values) && values != [] {
      var h, rest :| StartsWith(s, values[0], h, rest) && Encodes(rest, values[1..]);
      assert s == h + (values[0] + rest);
      HeaderIff(s, |values[0]|, values[0] + rest);
      ParseIff(rest, values[1..]);
      assert (values[0] + rest)[..|values[0]|] == values[0] && (values[0] + rest)[|values[0]|..] == rest;
      assert [values[0]] + values[1..] == values;
    }
  }

  const LONG_MAX: nat := 0x7FFF_FFFF_FFFF_FFFF

  datatype Constant = Long(n: nat) | Float(d: Double) | Text(s: string)

  predicate AllDigits(s: string) {
    s != "" && SpanDigits(s) == |s|
  }

  /** Digits, a point, and digits. */
  predicate IsDecimal(s: string) {
    var n := SpanDigits(s);
    0 < n < |s| && s[n] == '.' && AllDigits(s[n + 1..])
  }

  function Whole(s: string): string
    requires IsDecimal(s)
  {
    s[..SpanDigits(s)]
  }

  function Fraction(s: string): string
    requires IsDecimal(s)
  {
    s[SpanDigits(s) + 1..]
  }

  function Pow10(k: nat): (p: nat)
    ensures p > 0
  {
    if k == 0 then 1 else 10 * Pow10(k - 1)
  }

  /** `atol`; out of the range of a long its result is not defined by the C standard, here it is the largest long. */
  function LongOf(n: nat): (r: nat)
    ensures r <= LONG_MAX
  {
    if n <= LONG_MAX then n else LONG_MAX
  }

  lemma DigitsOf(s: string)
    requires IsDecimal(s)
    ensures s == Whole(s) + "." + Fraction(s) && AllDigits(Fraction(s)) && Whole(s) != ""
    ensures forall i :: 0 <= i < |Whole(s) + Fraction(s)| ==> IsDigit((Whole(s) + Fraction(s))[i])
  {
  }

  /** The type of a bind value is inferred from its text. */
  function CreateBindConstant(value: string): (c: Constant)
    ensures c.Float? && c.d.Finite? ==> c.d.q > 0
  {
    if AllDigits(value) then Long(LongOf(ValueOf(value)))
    else if IsDecimal(value) then
      DigitsOf(value);
      Float(ToDouble(ValueOf(Whole(value) + Fraction(value)), Pow10(|Fraction(value)|)))
    else Text(value)
  }

  /** One point between digits. */
  ghost predicate HasPoint(s: string, k: nat) {
    k < |s| && s[k] == '.' && Digits(s[..k]) && Digits(s[k + 1..])
  }

  /** What a value becomes depends on its form: digits a long, digits around a point a double, all else a text. */
  lemma KindOfConstant(value: string)
    ensures CreateBindConstant(value).Long? <==> Digits(value)
    ensures CreateBindConstant(value).Float? <==> exists k: nat :: HasPoint(value, k)
    ensures CreateBindConstant(value).Text? ==> CreateBindConstant(value).s == value
    ensures Digits(value) ==>
      CreateBindConstant(value).n == if ValueOf(value) <= LONG_MAX then ValueOf(value) else LONG_MAX
  {
    DigitsIff(value);
    DecimalFormIff(value);
    hide AllDigits, IsDecimal, HasPoint, Digits;
    if AllDigits(value) && IsDecimal(value) { NotAllDigits(value); }
  }

  lemma DecimalFormIff(value: string)
    ensures IsDecimal(value) <==> exists k: nat :: HasPoint(value, k)
  {
    hide Digits;
    var n := SpanDigits(value);
    if n < |value| { DigitsIff(value[n + 1..]); }
    if IsDecimal(value) { assert HasPoint(value, n) by { PrefixDigits(value, n); } }
    if k: nat :| HasPoint(value, k) { PointAfterDigits(value, k); }
  }

  lemma PrefixDigits(value: string, n: nat)
    requires 0 < n == SpanDigits(value)
    ensures Digits(value[..n])
  {
  }

  lemma PointAfterDigits(value: string, k: nat)
    requires HasPoint(value, k)
    ensures SpanDigits(value) == k > 0
  {
    assert value[..k] + value[k..] == value && value[k..][0] == '.';
    SpanPrefix(value[..k], value[k..]);
  }

  lemma DigitsIff(s: string)
    ensures AllDigits(s) <==> Digits(s)
  {
    if Digits(s) {
      SpanPrefix(s, "");
      assert s + "" == s;
    }
  }

  function Constants(values: seq<string>): (cs: seq<Constant>)
    ensures |cs| == |values| && forall i :: 0 <= i < |values| ==> cs[i] == CreateBindConstant(values[i])
  {
    seq(|values|, i requires 0 <= i < |values| => CreateBindConstant(values[i]))
  }

  function Prepend(done: seq<string>, r: Result<seq<string>>): Result<seq<string>> {
    if r.Ok? then Ok(done + r.value) else Error
  }

  lemma PrependNothing(r: Result<seq<string>>)
    ensures Prepend([], r) == r
    ensures r.Ok? ==> Prepend(r.value, Ok([])) == r
  {
    if r.Ok? { assert r.value + [] == r.value && [] + r.value == r.value; }
  }

  lemma PrependPush(done: seq<string>, value: string, r: Result<seq<string>>)
    ensures Prepend(done, Prepend([value], r)) == Prepend(done + [value], r)
    ensures Prepend(done, Error) == Error
  {
    if r.Ok? { assert done + ([value] + r.value) == done + [value] + r.value; }
  }

  lemma ConstantsPush(done: seq<string>, value: string)
    ensures Constants(done + [value]) == Constants(done) + [CreateBindConstant(value)] && Constants([]) == []
  {
  }

  lemma ParseStep(s: string)
    ensures s == "" ==> Parse(s) == Ok([])
    ensures s != "" ==>
      var header := ScanHeader(s);
      if header.Error? || |header.value.1| < header.value.0 then Parse(s) == Error && Prepend([], Parse(s)) == Error
      else Parse(s) == Prepend([header.value.1[..header.value.0]], Parse(header.value.1[header.value.0..]))
  {
  }

  /** `oracleBindToConsts`: advance through the string, one header and value at a time. */
  method OracleBindToConsts(binds: string) returns (r: Result<seq<Constant>>)
    ensures r.Ok? <==> Parse(binds).Ok?
    ensures r.Ok? ==> r.value == Constants(Parse(binds).value)
  {
    hide *;
    PrependNothing(Parse(binds));
    ConstantsPush([], "");
    var consts: seq<Constant> := [];
    ghost var done: seq<string> := [];
    var pos := binds;
    while pos != ""
      invariant consts == Constants(done)
      invariant Parse(binds) == Prepend(done, Parse(pos))
      decreases |pos|
    {
      ParseStep(pos);
      PrependPush(done, "", Error);
      var header := ScanHeader(pos);
      if header.Error? {
        return Error;
      }
      var (len, rest) := header.value;
      if |rest| < len {
        return Error;
      }
      var value := rest[..len];
      pos := rest[len..];
      ConstantsPush(done, value);
      PrependPush(done, value, Parse(pos));
      consts := consts + [CreateBindConstant(value)];
      done := done + [value];
    }
    ParseStep(pos);
    PrependNothing(Ok(done));
    r := Ok(consts);
  }

  // ----- Round trip -----

  lemma {:induction false} SpanPrefix(d: string, rest: string)
    requires forall i :: 0 <= i < |d| ==> IsDigit(d[i])
    requires rest != "" ==> !IsDigit(rest[0])
    ensures SpanDigits(d + rest) == |d|
  {
    if d == "" {
      assert d + rest == rest;
    } else {
      assert (d + rest)[1..] == d[1..] + rest;
      SpanPrefix(d[1..], rest);
    }
  }

  lemma ScanDec(n: nat, rest: string)
    requires rest != "" ==> !IsDigit(rest[0])
    ensures ScanNumber(Dec(n) + rest) == Ok((n, rest))
  {
    DecIsDigits(n);
    var s := Dec(n) + rest;
    assert IsDigit(s[0]) && SkipBlanks(s) == s;
    SpanPrefix(Dec(n), rest);
    assert s[..|Dec(n)|] == Dec(n) && s[|Dec(n)|..] == rest;
  }

  lemma ScanExact(literal: string, rest: string)
    ensures ScanLiteral(literal + rest, literal) == Ok(rest)
  {
  }

  /** A header is read back up to the first character of the value, whatever the value looks like. */
  lemma HeaderReadBack(i: nat, len: nat, rest: string)
    ensures ScanHeader("#" + Dec(i) + "(" + Dec(len) + "):" + rest) == Ok((len, rest))
  {
    hide Dec, SpanDigits, ScanNumber;
    var s3 := "):" + rest;
    var s2 := Dec(len) + s3;
    var s1 := "(" + s2;
    var s0 := Dec(i) + s1;
    var s := "#" + s0;
    assert "#" + Dec(i) + "(" + Dec(len) + "):" + rest == s;
    assert SkipBlanks(s) == s;
    ScanExact("#", s0);
    ScanDec(i, s1);
    ScanExact("(", s2);
    ScanDec(len, s3);
    ScanExact("):", rest);
  }

  lemma {:induction false} ParseEncode(values: seq<string>, i: nat)
    ensures Parse(Encode(values, i)) == Ok(values)
  {
    if values != [] {
      var v, more := values[0], Encode(values[1..], i + 1);
      hide Dec, ScanHeader;
      assert Encode(values, i) == "#" + Dec(i) + "(" + Dec(|v|) + "):" + (v + more);
      HeaderReadBack(i, |v|, v + more);
      ParseEncode(values[1..], i + 1);
      assert (v + more)[..|v|] == v && (v + more)[|v|..] == more;
      assert [v] + values[1..] == values;
    }
  }

  /** The text of a constant in SQL, for strings without the quotes around it. */
  function Show(c: Constant): string
    requires c.Float? && c.d.Finite? ==> c.d.q > 0
  {
    match c
    case Long(n) => Dec(n)
    case Float(d) => PrintDouble(d)
    case Text(s) => s
  }

  /** Digits without a superfluous leading zero. */
  predicate Canonical(s: string) {
    |s| == 1 || (s != "" && s[0] != '0')
  }

  lemma CanonicalIff(s: string, n: nat)
    requires AllDigits(s)
    ensures Dec(n) == s <==> Canonical(s) && ValueOf(s) == n
  {
    DecIsDigits(n);
    if Dec(n) == s && |s| > 1 {
      assert n > 0;
    }
    if Canonical(s) && ValueOf(s) == n {
      if s[0] == '0' {
        assert s[..0] == "";
      } else {
        NumeralIsDec(s);
      }
    }
  }

  /** Digits that do not fit a long are shown by no long at all. */
  lemma NoLongShows(s: string, n: nat)
    requires AllDigits(s) && ValueOf(s) > LONG_MAX && n <= LONG_MAX
    ensures Show(Long(n)) != s
  {
    CanonicalIff(s, n);
  }

  lemma {:induction false} LastDigitsIff(s: string, n: nat)
    requires forall i :: 0 <= i < |s| ==> IsDigit(s[i])
    requires n < Pow10(|s|)
    ensures LastDigits(n, |s|) == s <==> ValueOf(s) == n
  {
    if s != "" {
      var front := s[..|s| - 1];
      LastDigitsIff(front, n / 10);
      var shown := LastDigits(n, |s|);
      assert shown[..|s| - 1] == LastDigits(n / 10, |s| - 1);
      assert s == front + [s[|s| - 1]] && shown == shown[..|s| - 1] + [shown[|s| - 1]];
      assert ValueOf(s) == 10 * ValueOf(front) + (s[|s| - 1] as int - '0' as int);
    }
  }

  lemma {:induction false} ValueConcat(s: string, t: string)
    requires forall i :: 0 <= i < |s + t| ==> IsDigit((s + t)[i])
    ensures forall i :: 0 <= i < |s| ==> IsDigit(s[i])
    ensures forall i :: 0 <= i < |t| ==> IsDigit(t[i])
    ensures ValueOf(s + t) == ValueOf(s) * Pow10(|t|) + ValueOf(t) && ValueOf(t) < Pow10(|t|)
  {
    assert forall i :: 0 <= i < |s| ==> (s + t)[i] == s[i];
    assert forall i :: 0 <= i < |t| ==> (s + t)[|s| + i] == t[i];
    if t == "" {
      assert s + t == s;
    } else {
      var front := t[..|t| - 1];
      assert (s + t)[..|s + t| - 1] == s + front;
      ValueConcat(s, front);
      assert s + t != "" && (s + t)[|s + t| - 1] == t[|t| - 1];
      hide *;
      LastDigit(s + t);
      LastDigit(t);
      TenTimes(|t|);
      Regroup(ValueOf(s), Pow10(|front|), ValueOf(front), t[|t| - 1] as int - '0' as int);
    }
  }

  lemma LastDigit(s: string)
    requires s != "" && forall i :: 0 <= i < |s| ==> IsDigit(s[i])
    ensures IsDigit(s[|s| - 1]) && 0 <= s[|s| - 1] as int - '0' as int < 10
    ensures ValueOf(s) == 10 * ValueOf(s[..|s| - 1]) + (s[|s| - 1] as int - '0' as int)
  {
  }

  lemma TenTimes(k: nat)
    requires k > 0
    ensures Pow10(k) == 10 * Pow10(k - 1)
  {
  }

  lemma Regroup(v: nat, p: nat, w: nat, d: int)
    ensures 10 * (v * p + w) + d == v * (10 * p) + (10 * w + d)
  {
  }

  /** A point splits a text in one way if only digits come before it. */
  lemma SplitAtPoint(a: string, x: string, b: string, y: string)
    requires (forall i :: 0 <= i < |a| ==> IsDigit(a[i])) && forall i :: 0 <= i < |b| ==> IsDigit(b[i])
    ensures a + "." + x == b + "." + y <==> a == b && x == y
  {
    SpanPrefix(a, "." + x);
    SpanPrefix(b, "." + y);
    if a + "." + x == b + "." + y {
      var s := a + ("." + x);
      assert a + "." + x == s && b + "." + y == b + ("." + y);
      assert a == s[..|a|] && b == s[..|b|];
      assert x == s[|a| + 1..] && y == s[|b| + 1..];
    }
  }

  /** When a decimal text survives being read as a double and printed. */
  lemma DecimalIff(value: string)
    requires IsDecimal(value)
    ensures Show(CreateBindConstant(value)) == value
       <==> |Fraction(value)| == 6 && Canonical(Whole(value)) && Survives(ValueOfDecimal(value))
  {
    hide ToDouble, Survives, LastDigits, Dec, RoundHalfEven, Canonical;
    DigitsOf(value);
    NotAllDigits(value);
    var whole, fraction := Whole(value), Fraction(value);
    ValueConcat(whole, fraction);
    var n := ValueOf(whole + fraction);
    var d := ToDouble(n, Pow10(|fraction|));
    if d.Infinite? {
      assert value[0] == whole[0] && IsDigit(whole[0]) && !IsDigit("inf"[0]);
      if |fraction| == 6 { SixDigits(); SurvivesIff(n); }
    } else {
      var m := Millionths(d);
      DecIsDigits(m / MILLION);
      SplitAtPoint(Dec(m / MILLION), LastDigits(m % MILLION, 6), whole, fraction);
      if |fraction| == 6 {
        SixDigits();
        CanonicalIff(whole, m / MILLION);
        LastDigitsIff(fraction, m % MILLION);
        SurvivesIff(n);
        WholeAndRest(m, ValueOf(whole), ValueOf(fraction));
      }
    }
  }

  function ValueOfDecimal(s: string): nat
    requires IsDecimal(s)
  {
    DigitsOf(s);
    ValueOf(Whole(s) + Fraction(s))
  }

  lemma SixDigits()
    ensures Pow10(6) == MILLION
  {
    assert Pow10(3) == 1000;
  }

  lemma NotAllDigits(value: string)
    requires IsDecimal(value)
    ensures !AllDigits(value) && AllDigits(Whole(value))
  {
    var n := SpanDigits(value);
    SpanPrefix(value[..n], "");
    assert value[..n] + "" == value[..n];
  }

  lemma WholeAndRest(m: nat, a: nat, b: nat)
    requires b < MILLION
    ensures m / MILLION == a && m % MILLION == b <==> m == a * MILLION + b
  {
  }

  /** A constant keeps the text of its value iff the value is
      - a number without superfluous leading zero that fits a long,
      - a decimal with six digits after the point, no superfluous leading zero, and a double within half a millionth, or
      - anything else. */
  lemma ConstantKeepsTextIff(value: string)
    ensures Show(CreateBindConstant(value)) == value
       <==> if AllDigits(value) then Canonical(value) && ValueOf(value) <= LONG_MAX
            else if IsDecimal(value) then
              |Fraction(value)| == 6 && Canonical(Whole(value)) && Survives(ValueOfDecimal(value))
            else true
  {
    if AllDigits(value) {
      CanonicalIff(value, LongOf(ValueOf(value)));
    } else if IsDecimal(value) {
      DecimalIff(value);
    }
  }

  /** Decimals below 2^33 need no look at doubles. */
  lemma SmallDecimalIff(value: string)
    requires IsDecimal(value) && (|Fraction(value)| == 6 ==> ValueOfDecimal(value) < 0x2_0000_0000 * MILLION)
    ensures Show(CreateBindConstant(value)) == value <==> |Fraction(value)| == 6 && Canonical(Whole(value))
  {
    DecimalIff(value);
    if |Fraction(value)| == 6 {
      SmallSurvive(ValueOfDecimal(value));
    }
  }

  /** Texts that are lost: too few digits, a leading zero, and a double too far away. */
  lemma DecimalsLost()
    ensures Show(CreateBindConstant("1.50")) != "1.50" && Show(CreateBindConstant("007.500000")) != "007.500000"
  {
    hide Show, CreateBindConstant, SpanDigits, Survives, ValueOf;
    DecimalText("1", "50");
    assert "1.50" == "1" + "." + "50";
    DecimalIff("1.50");
    DecimalText("007", "500000");
    assert "007.500000" == "007" + "." + "500000";
    DecimalIff("007.500000");
  }

  lemma DecimalText(whole: string, fraction: string)
    requires whole != "" && forall i :: 0 <= i < |whole| ==> IsDigit(whole[i])
    requires fraction != "" && forall i :: 0 <= i < |fraction| ==> IsDigit(fraction[i])
    ensures var s := whole + "." + fraction; IsDecimal(s) && Whole(s) == whole && Fraction(s) == fraction
  {
    SpanPrefix(whole, "." + fraction);
    SpanPrefix(fraction, "");
    assert fraction + "" == fraction;
    var s := whole + ("." + fraction);
    assert whole + "." + fraction == s && s[|whole|] == '.' && s[|whole| + 1..] == fraction && s[..|whole|] == whole;
  }

  // ----- Substitution -----

  /** A query with parameters; every node has its children in traversal order. */
  datatype Node = Parameter(position: nat) | Value(text: string) | Branch(op: string, children: seq<Node>)

  function CountParameters(t: Node): nat {
    match t
    case Parameter(_) => 1
    case Value(_) => 0
    case Branch(_, children) => CountAll(children)
  }

  function CountAll(ts: seq<Node>): nat {
    if ts == [] then 0 else CountParameters(ts[0]) + CountAll(ts[1..])
  }

  /** `enumerateParameters`: number the parameters in traversal order, starting at `next`. */
  function Enumerate(t: Node, next: nat): Node {
    match t
    case Parameter(_) => Parameter(next)
    case Value(_) => t
    case Branch(op, children) => Branch(op, EnumerateAll(children, next))
  }

  function EnumerateAll(ts: seq<Node>, next: nat): (r: seq<Node>)
    ensures |r| == |ts|
  {
    if ts == [] then [] else [Enumerate(ts[0], next)] + EnumerateAll(ts[1..], next + CountParameters(ts[0]))
  }

  predicate InRange(t: Node, n: nat) {
    match t
    case Parameter(position) => 1 <= position <= n
    case Value(_) => true
    case Branch(_, children) => AllInRange(children, n)
  }

  predicate AllInRange(ts: seq<Node>, n: nat) {
    forall i :: 0 <= i < |ts| ==> InRange(ts[i], n)
  }

  /** `replaceParamMutator`: a parameter becomes the value at its position; other positions are an error. */
  function Substitute(t: Node, values: seq<string>): Node
    requires InRange(t, |values|)
  {
    match t
    case Parameter(position) => Value(values[position - 1])
    case Value(_) => t
    case Branch(op, children) => Branch(op, SubstituteAll(children, values))
  }

  function SubstituteAll(ts: seq<Node>, values: seq<string>): (r: seq<Node>)
    requires AllInRange(ts, |values|)
    ensures |r| == |ts| && forall i :: 0 <= i < |ts| ==> r[i] == Substitute(ts[i], values)
  {
    seq(|ts|, i requires 0 <= i < |ts| => Substitute(ts[i], values))
  }

  /** Consume one value per parameter, left to right, starting with value `from`. */
  function Fill(t: Node, values: seq<string>, from: nat): Node
    requires from + CountParameters(t) <= |values|
  {
    match t
    case Parameter(_) => Value(values[from])
    case Value(_) => t
    case Branch(op, children) => Branch(op, FillAll(children, values, from))
  }

  function FillAll(ts: seq<Node>, values: seq<string>, from: nat): (r: seq<Node>)
    requires from + CountAll(ts) <= |values|
    ensures |r| == |ts|
  {
    if ts == [] then []
    else [Fill(ts[0], values, from)] + FillAll(ts[1..], values, from + CountParameters(ts[0]))
  }

  // ----- Leaves in traversal order -----

  function Leaves(t: Node): (leaves: seq<Node>)
    ensures forall l :: l in leaves ==> !l.Branch?
  {
    match t
    case Parameter(_) => [t]
    case Value(_) => [t]
    case Branch(_, children) => LeavesOfAll(children)
  }

  function LeavesOfAll(ts: seq<Node>): (leaves: seq<Node>)
    ensures forall l :: l in leaves ==> !l.Branch?
  {
    if ts == [] then [] else Leaves(ts[0]) + LeavesOfAll(ts[1..])
  }

  /** How many of the leaves are parameters. */
  function ParametersIn(leaves: seq<Node>): nat {
    if leaves == [] then 0
    else ParametersIn(leaves[..|leaves| - 1]) + if leaves[|leaves| - 1].Parameter? then 1 else 0
  }

  lemma {:induction false} ParametersConcat(a: seq<Node>, b: seq<Node>)
    ensures ParametersIn(a + b) == ParametersIn(a) + ParametersIn(b)
  {
    if b == [] {
      assert a + b == a;
    } else {
      assert (a + b)[..|a + b| - 1] == a + b[..|b| - 1];
      ParametersConcat(a, b[..|b| - 1]);
    }
  }

  lemma {:induction false} CountIs(t: Node)
    ensures CountParameters(t) == ParametersIn(Leaves(t))
    decreases t
  {
    match t
    case Parameter(_) => assert Leaves(t)[..0] == [];
    case Value(_) => assert Leaves(t)[..0] == [];
    case Branch(_, children) => CountAllIs(children);
  }

  lemma {:induction false} CountAllIs(ts: seq<Node>)
    ensures CountAll(ts) == ParametersIn(LeavesOfAll(ts))
    decreases ts
  {
    hide CountParameters, Leaves;
    if ts != [] {
      CountIs(ts[0]);
      CountAllIs(ts[1..]);
      ParametersConcat(Leaves(ts[0]), LeavesOfAll(ts[1..]));
    }
  }

  /** Leaf `k` with its parameters filled from the values from `from` on, in traversal order. */
  function Filled(leaves: seq<Node>, values: seq<string>, from: nat, k: nat): Node
    requires k < |leaves|
  {
    var i := from + ParametersIn(leaves[..k]);
    if leaves[k].Parameter? && i < |values| then Value(values[i]) else leaves[k]
  }

  lemma {:induction false} FillLeaves(t: Node, values: seq<string>, from: nat)
    requires from + CountParameters(t) <= |values|
    ensures |Leaves(Fill(t, values, from))| == |Leaves(t)|
    ensures forall k :: 0 <= k < |Leaves(t)| ==> Leaves(Fill(t, values, from))[k] == Filled(Leaves(t), values, from, k)
    decreases t
  {
    match t
    case Parameter(_) => assert Leaves(t)[..0] == [];
    case Value(_) => assert Leaves(t)[..0] == [];
    case Branch(_, children) => FillAllLeaves(children, values, from);
  }

  lemma {:induction false} FillAllLeaves(ts: seq<Node>, values: seq<string>, from: nat)
    requires from + CountAll(ts) <= |values|
    ensures |LeavesOfAll(FillAll(ts, values, from))| == |LeavesOfAll(ts)|
    ensures forall k :: 0 <= k < |LeavesOfAll(ts)| ==>
      LeavesOfAll(FillAll(ts, values, from))[k] == Filled(LeavesOfAll(ts), values, from, k)
    decreases ts
  {
    hide CountParameters, Leaves, Fill, ParametersIn;
    if ts != [] {
      var n := CountParameters(ts[0]);
      FillLeaves(ts[0], values, from);
      FillAllLeaves(ts[1..], values, from + n);
      CountIs(ts[0]);
      var a, b := Leaves(ts[0]), LeavesOfAll(ts[1..]);
      var all := LeavesOfAll(ts);
      var filled := FillAll(ts, values, from);
      assert filled[1..] == FillAll(ts[1..], values, from + n);
      forall k | 0 <= k < |all| ensures LeavesOfAll(filled)[k] == Filled(all, values, from, k) {
        if k < |a| {
          assert all[..k] == a[..k];
        } else {
          assert all[..k] == a + b[..k - |a|];
          ParametersConcat(a, b[..k - |a|]);
        }
      }
    }
  }

  /** Numbering and substituting replaces the i-th parameter leaf, in traversal order, by the i-th value, and no other
      leaf. */
  lemma SubstitutedLeaves(t: Node, values: seq<string>)
    requires |values| == ParametersIn(Leaves(t))
    ensures InRange(Enumerate(t, 1), |values|)
    ensures var r := Leaves(Substitute(Enumerate(t, 1), values));
      && |r| == |Leaves(t)|
      && forall k :: 0 <= k < |r| ==> r[k] == Filled(Leaves(t), values, 0, k) && r[k].Value?
  {
    hide Leaves, Enumerate, Substitute, Fill;
    CountIs(t);
    EnumeratedSubstitution(t, values);
    FillLeaves(t, values, 0);
    forall k | 0 <= k < |Leaves(t)| ensures Filled(Leaves(t), values, 0, k).Value? {
      assert Leaves(t)[k] in Leaves(t);
      ParametersBefore(Leaves(t), k);
    }
  }

  lemma ParametersBefore(leaves: seq<Node>, k: nat)
    requires k < |leaves|
    ensures leaves[k].Parameter? ==> ParametersIn(leaves[..k]) < ParametersIn(leaves)
  {
    assert leaves == leaves[..k + 1] + leaves[k + 1..] && leaves[..k + 1][..k] == leaves[..k];
    ParametersConcat(leaves[..k + 1], leaves[k + 1..]);
  }

  lemma {:induction false} SubstituteEnumerated(t: Node, from: nat, values: seq<string>)
    requires from + CountParameters(t) <= |values|
    ensures InRange(Enumerate(t, from + 1), |values|)
    ensures Substitute(Enumerate(t, from + 1), values) == Fill(t, values, from)
    decreases t
  {
    match t
    case Parameter(_) =>
    case Value(_) =>
    case Branch(_, children) => SubstituteEnumeratedAll(children, from, values);
  }

  lemma {:induction false} SubstituteEnumeratedAll(ts: seq<Node>, from: nat, values: seq<string>)
    requires from + CountAll(ts) <= |values|
    ensures AllInRange(EnumerateAll(ts, from + 1), |values|)
    ensures SubstituteAll(EnumerateAll(ts, from + 1), values) == FillAll(ts, values, from)
    decreases ts
  {
    hide Substitute, Fill, Enumerate, InRange;
    if ts != [] {
      var n := CountParameters(ts[0]);
      SubstituteEnumerated(ts[0], from, values);
      SubstituteEnumeratedAll(ts[1..], from + n, values);
      SubstituteFirst(Enumerate(ts[0], from + 1), EnumerateAll(ts[1..], from + n + 1), values);
    }
  }

  lemma SubstituteFirst(t: Node, ts: seq<Node>, values: seq<string>)
    requires InRange(t, |values|) && AllInRange(ts, |values|)
    ensures AllInRange([t] + ts, |values|)
    ensures SubstituteAll([t] + ts, values) == [Substitute(t, values)] + SubstituteAll(ts, values)
  {
    hide Substitute, InRange;
    var all := [t] + ts;
    forall i | 0 <= i < |all| ensures InRange(all[i], |values|) {
      if i > 0 { assert all[i] == ts[i - 1]; }
    }
  }

  /** After numbering, the i-th parameter in traversal order is replaced by the i-th value. */
  lemma EnumeratedSubstitution(t: Node, values: seq<string>)
    requires |values| == CountParameters(t)
    ensures InRange(Enumerate(t, 1), |values|) && Substitute(Enumerate(t, 1), values) == Fill(t, values, 0)
  {
    SubstituteEnumerated(t, 0, values);
  }
}
