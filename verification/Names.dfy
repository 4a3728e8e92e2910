/** Attribute names as the Datalog translator builds them: decimal suffixes, the family of
    names a variable may turn into, and the names invented for constants. */
module Names {

  const DIGITS: string := "0123456789"

  predicate IsDigit(c: char) {
    '0' <= c <= '9'
  }

  function Digit(n: nat): (c: char)
    requires n < 10
    ensures IsDigit(c) && (n > 0 ==> c != '0')
    ensures c as int - '0' as int == n
  {
    DIGITS[n]
  }

  /** The decimal numeral of `n`, as `gprom_itoa` prints it. */
  function Dec(n: nat): (s: string) {
    if n < 10 then [Digit(n)] else Dec(n / 10) + [Digit(n % 10)]
  }

  /** A numeral without leading zero, so the numeral of some `n >= 1`. */
  predicate IsNumeral(s: string) {
    |s| > 0 && s[0] != '0' && forall i :: 0 <= i < |s| ==> IsDigit(s[i])
  }

  function ValueOf(s: string): nat
    requires forall i :: 0 <= i < |s| ==> IsDigit(s[i])
  {
    if s == "" then 0
    else
      assert IsDigit(s[|s| - 1]);
      10 * ValueOf(s[..|s| - 1]) + (s[|s| - 1] as int - '0' as int)
  }

  lemma {:induction false} DecIsDigits(n: nat)
    ensures |Dec(n)| > 0 && forall i :: 0 <= i < |Dec(n)| ==> IsDigit(Dec(n)[i])
    ensures n > 0 ==> IsNumeral(Dec(n))
    ensures ValueOf(Dec(n)) == n
  {
    if n >= 10 {
      DecIsDigits(n / 10);
      assert Dec(n)[..|Dec(n)| - 1] == Dec(n / 10);
    } else {
      assert Dec(n)[..0] == "";
    }
  }

  lemma DecInjective(m: nat, n: nat)
    requires Dec(m) == Dec(n)
    ensures m == n
  {
    DecIsDigits(m);
    DecIsDigits(n);
  }

  /** Every numeral is printed by some number. */
  lemma {:induction false} NumeralIsDec(s: string)
    requires IsNumeral(s)
    ensures ValueOf(s) > 0 && Dec(ValueOf(s)) == s
  {
    var front, last := s[..|s| - 1], s[|s| - 1];
    assert s == front + [last];
    if |s| > 1 {
      NumeralIsDec(front);
      assert ValueOf(s) / 10 == ValueOf(front);
    } else {
      assert ValueOf(front) == 0;
    }
  }

  /** The names variable `v` may carry in a schema: itself, or itself followed by a numeral. */
  predicate InFamily(name: string, v: string) {
    name == v || (|name| > |v| && name[..|v|] == v && IsNumeral(name[|v|..]))
  }

  lemma FamilyExtends(name: string, v: string, count: nat)
    requires InFamily(name, v) && count > 0
    ensures InFamily(name + Dec(count), v)
  {
    DecIsDigits(count);
    var longer := name + Dec(count);
    assert longer[..|v|] == v;
    assert longer[|v|..] == name[|v|..] + Dec(count);
  }

  /** Two families that share a name are nested. */
  lemma FamiliesNested(name: string, v: string, w: string)
    requires InFamily(name, v) && InFamily(name, w)
    ensures v == w || InFamily(v, w) || InFamily(w, v)
  {
    if |v| == |w| {
    } else if |v| < |w| {
      assert w[..|v|] == v;
      assert w[|v|..] == name[|v|..][..|w| - |v|];
    } else {
      assert v[..|w|] == w;
      assert v[|w|..] == name[|w|..][..|v| - |w|];
    }
  }

  /** The attribute name invented for the `arg`-th constant of the goal at position `goal`. */
  function ConstName(goal: nat, arg: nat): string {
    "C_" + Dec(goal) + "_" + Dec(arg)
  }

  /** An underscore after a run of digits marks where that run ends. */
  lemma SplitAtUnderscore(c: string, d: string, x: string, e: string, y: string)
    requires forall i :: 0 <= i < |d| ==> IsDigit(d[i])
    requires forall i :: 0 <= i < |e| ==> IsDigit(e[i])
    requires c + d + "_" + x == c + e + "_" + y
    ensures d == e && x == y
  {
    var s := c + d + "_" + x;
    assert s[|c| + |d|] == '_' && s[|c| + |e|] == '_';
    assert forall i :: |c| <= i < |c| + |d| ==> s[i] == d[i - |c|];
    assert forall i :: |c| <= i < |c| + |e| ==> s[i] == e[i - |c|];
    assert |d| == |e|;
    assert d == s[|c|..|c| + |d|] && e == s[|c|..|c| + |d|];
    assert x == s[|c| + |d| + 1..] && y == s[|c| + |d| + 1..];
  }

  lemma ConstNameInjective(g: nat, a: nat, h: nat, b: nat)
    requires ConstName(g, a) == ConstName(h, b)
    ensures g == h && a == b
  {
    DecIsDigits(g);
    DecIsDigits(h);
    SplitAtUnderscore("C_", Dec(g), Dec(a), Dec(h), Dec(b));
    DecInjective(g, h);
    DecInjective(a, b);
  }

  /** Variables whose generated names can never be confused with each other or with the names of
      constants: no variable is another one followed by a numeral, and no variable's family holds
      the name of a constant. */
  ghost predicate Compatible(vars: set<string>) {
    && (forall v, w :: v in vars && w in vars && v != w ==> !InFamily(w, v))
    && (forall v, g, a :: v in vars ==> !InFamily(ConstName(g, a), v))
  }
}
