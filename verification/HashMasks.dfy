/** The masks and shifts of the hash table, on natural numbers. */
module HashMasks {
  function Pow2(k: nat): (p: nat)
    ensures p > 0
  {
    if k == 0 then 1 else 2 * Pow2(k - 1)
  }

  /** Bitwise conjunction. */
  function And(a: nat, b: nat): (r: nat)
    ensures r <= b
  {
    if a == 0 || b == 0 then 0 else 2 * And(a / 2, b / 2) + (if a % 2 == 1 && b % 2 == 1 then 1 else 0)
  }

  function ShiftRight(a: nat, k: nat): nat {
    if k == 0 then a else ShiftRight(a / 2, k - 1)
  }

  /** Masking with one less than a power of two is the remainder. */
  lemma {:induction false} MaskIsMod(a: nat, k: nat)
    ensures And(a, Pow2(k) - 1) == a % Pow2(k)
  {
    if k == 0 {
      assert a % 1 == 0;
    } else if a != 0 {
      var half := Pow2(k - 1);
      MaskIsMod(a / 2, k - 1);
      assert (2 * half - 1) / 2 == half - 1 && (2 * half - 1) % 2 == 1;
      HalfMod(a, half);
    }
  }

  lemma HalfMod(a: nat, m: nat)
    requires m > 0
    ensures a % (2 * m) == 2 * ((a / 2) % m) + a % 2
  {
    var q, r := (a / 2) / m, (a / 2) % m;
    assert a / 2 == q * m + r;
    assert a == 2 * (a / 2) + a % 2;
    assert a == q * (2 * m) + (2 * r + a % 2) by {
      assert 2 * (q * m) == q * (2 * m);
    }
    ModUnique(a, 2 * m, q, 2 * r + a % 2);
  }

  lemma ModUnique(a: nat, d: nat, q: nat, r: nat)
    requires d > 0 && r < d && a == q * d + r
    ensures a / d == q && a % d == r
  {
    var q', r' := a / d, a % d;
    assert a == q' * d + r';
    SameQuotient(q, q', d, r, r');
  }

  lemma SameQuotient(q: nat, q': nat, d: nat, r: nat, r': nat)
    requires r < d && r' < d && q * d + r == q' * d + r'
    ensures q == q' && r == r'
  {
    assert (q' - q) * d == q' * d - q * d;
    if q < q' {
      Times(q' - q, d);
    } else if q' < q {
      assert (q - q') * d == q * d - q' * d;
      Times(q - q', d);
    }
  }

  lemma Times(n: nat, d: nat)
    requires n >= 1
    ensures n * d >= d
  {
  }

  /** Shifting right is division by a power of two. */
  lemma {:induction false} ShiftIsDiv(a: nat, k: nat)
    ensures ShiftRight(a, k) == a / Pow2(k)
  {
    if k > 0 {
      ShiftIsDiv(a / 2, k - 1);
      var m := Pow2(k - 1);
      var q, r := (a / 2) / m, (a / 2) % m;
      assert a / 2 == q * m + r;
      assert a == q * (2 * m) + (2 * r + a % 2) by {
        assert 2 * (q * m) == q * (2 * m);
      }
      ModUnique(a, 2 * m, q, 2 * r + a % 2);
    }
  }

  /** Rounding `a / b` up. */
  ghost predicate IsCeil(r: nat, a: nat, b: nat) {
    (r == 0 ==> a == 0) && (r > 0 ==> (r - 1) * b < a) && a <= r * b
  }

  /** The shift-and-mask formula of the table rounds up. */
  lemma CeilByMask(a: nat, k: nat)
    ensures IsCeil(ShiftRight(a, k) + (if And(a, Pow2(k) - 1) != 0 then 1 else 0), a, Pow2(k))
  {
    ShiftIsDiv(a, k);
    MaskIsMod(a, k);
    var b := Pow2(k);
    hide *;
    DivMod(a, b);
    QuotientCeil(a, b, a / b, a % b);
  }

  lemma DivMod(a: nat, b: nat)
    requires b > 0
    ensures a == (a / b) * b + a % b && a % b < b
  {
  }

  lemma QuotientCeil(a: nat, b: nat, q: nat, r: nat)
    requires a == q * b + r && r < b
    ensures IsCeil(q + (if r != 0 then 1 else 0), a, b)
  {
    assert (q + 1) * b == q * b + b && (q - 1) * b == q * b - b;
  }
}
