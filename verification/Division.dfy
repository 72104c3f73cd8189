/** Division of whole numbers: by its defining property, and by repeated subtraction. */
module Division {

  lemma MultiplesGap(d: nat, a: int, b: int)
    requires a < b
    ensures d * a + d <= d * b
  {
    var k := b - a - 1;
    assert d * k >= 0;
    assert d * b == d * a + d * k + d;
  }

  lemma SameDivision(d: nat, q: int, r: int, q': int, r': int)
    requires d * q + r == d * q' + r' && 0 <= r < d && 0 <= r' < d
    ensures q == q' && r == r'
  {
    if q < q' {
      MultiplesGap(d, q, q');
    } else if q' < q {
      MultiplesGap(d, q', q);
    }
  }

  lemma DivisionIs(v: int, d: nat, q: int, r: int)
    requires d > 0 && v == d * q + r && 0 <= r < d
    ensures v / d == q && v % d == r
  {
    assert v == d * (v / d) + v % d;
    SameDivision(d, q, r, v / d, v % d);
  }

  /** How often `n` can be taken from `x`. */
  function Quotient(x: nat, n: nat): nat
    requires n > 0
  {
    if x < n then 0 else 1 + Quotient(x - n, n)
  }

  /** What is left then. */
  function Remainder(x: nat, n: nat): (r: nat)
    requires n > 0
    ensures r < n
  {
    if x < n then x else Remainder(x - n, n)
  }

  lemma {:induction false} DividesBySubtraction(x: nat, n: nat)
    requires n > 0
    ensures x / n == Quotient(x, n) && x % n == Remainder(x, n)
  {
    if x < n {
      DivisionIs(x, n, 0, x);
    } else {
      DividesBySubtraction(x - n, n);
      OneMore(n, (x - n) / n);
      DivisionIs(x, n, (x - n) / n + 1, (x - n) % n);
    }
  }

  lemma OneMore(n: int, q: int)
    ensures n * (q + 1) == n * q + n
  {
  }

  /** `q`, `n` times over. */
  function Times(n: nat, q: nat): nat { if n == 0 then 0 else Times(n - 1, q) + q }

  lemma {:induction false} TimesNext(n: nat, q: nat)
    ensures Times(n, q + 1) == Times(n, q) + n
    ensures Times(n, 0) == 0
  {
    if n > 0 {
      TimesNext(n - 1, q);
    }
  }

  /** Quotient and remainder give the number back. */
  lemma {:induction false} DivisionParts(x: nat, n: nat)
    requires n > 0
    ensures Times(n, Quotient(x, n)) + Remainder(x, n) == x
  {
    TimesNext(n, if x < n then 0 else Quotient(x - n, n));
    if x >= n {
      DivisionParts(x - n, n);
    }
  }
}
