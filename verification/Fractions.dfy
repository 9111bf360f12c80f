/** Small facts about real quotients, stated so that every later proof can stay linear. */
module Fractions {

  lemma Quotient(x: real, n: real)
    requires n > 0.0
    ensures x / n * n == x
    ensures (x / n > 0.0 <==> x > 0.0) && (x / n < 0.0 <==> x < 0.0)
    ensures (x / n < 1.0 <==> x < n) && (x / n > 1.0 <==> x > n)
  {
    FactorVersus(x / n, x, n, 0.0);
    FactorVersus(x / n, x, n, 1.0);
  }

  lemma FactorVersus(r: real, x: real, n: real, c: real)
    requires n > 0.0 && r * n == x
    ensures (r < c <==> x < c * n) && (r > c <==> x > c * n)
  {
    ScaleOrder(r, c, n);
    ScaleOrder(c, r, n);
  }

  lemma QuotientOrder(x: real, y: real, n: real)
    requires n > 0.0
    ensures x / n <= y / n <==> x <= y
    ensures x / n < y / n <==> x < y
  {
    Quotient(x, n);
    Quotient(y, n);
    ScaleOrder(x / n, y / n, n);
  }

  lemma QuotientIs(r: real, x: real, n: real)
    requires n > 0.0 && r * n == x
    ensures x / n == r
  {}

  lemma ScaleOrder(x: real, y: real, n: real)
    requires n > 0.0
    ensures x <= y <==> x * n <= y * n
    ensures x < y <==> x * n < y * n
  {
    assert (y - x) * n == y * n - x * n;
    if x < y { assert (y - x) * n > 0.0; }
    if y < x { assert (x - y) * n > 0.0; assert (x - y) * n == x * n - y * n; }
  }

  lemma ScaleMonotone(x: real, y: real, n: real)
    requires n >= 0.0 && x <= y
    ensures x * n <= y * n
  {
    if n > 0.0 { ScaleOrder(x, y, n); }
  }

  lemma Distribute(x: real, y: real, n: real)
    ensures (x - y) * n == x * n - y * n
    ensures (x + y) * n == x * n + y * n
  {}

  lemma Reorder(x: real, y: real, z: real)
    ensures (x * y) * z == x * (y * z) == (x * z) * y
  {}

  lemma TimesRest(x: real, part: real, rest: real)
    requires rest == 1.0 - part
    ensures x * rest == x - x * part
  {}

  lemma TimesNext(x: real, m: real, next: real)
    requires next == m + 1.0
    ensures x * next == x * m + x
  {}

  lemma LessThanWhole(part: real, x: real)
    requires part < 1.0 && x > 0.0
    ensures part * x < x
  {
    ScaleOrder(part, 1.0, x);
  }

  /** Comparing factors by named products. */
  lemma SmallerFactor(x: real, y: real, n: real, xn: real, yn: real)
    requires n > 0.0 && x * n == xn && y * n == yn
    ensures x <= y <==> xn <= yn
    ensures x < y <==> xn < yn
  {
    ScaleOrder(x, y, n);
  }

  lemma QuotientAbove(r: real, x: real, n: real)
    requires n > 0.0
    ensures r < x / n <==> r * n < x
    ensures r > x / n <==> r * n > x
  {
    Quotient(x, n);
    ScaleOrder(r, x / n, n);
    ScaleOrder(x / n, r, n);
  }
}
