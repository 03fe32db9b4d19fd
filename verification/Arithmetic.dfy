/** The few facts about products, quotients and set sizes the other modules need. */
module Arithmetic {
  lemma Monotony(x: nat, y: nat, n: nat)
    requires x <= y
    ensures x * n <= y * n
  {
    assert y * n == x * n + (y - x) * n;
  }

  lemma QuotientBounds(a: nat, n: nat)
    requires n > 0
    ensures a / n * n <= a < a / n * n + n
  {
  }

  lemma QuotientIs(a: nat, n: nat, q: nat)
    requires n > 0 && q * n <= a < q * n + n
    ensures a / n == q
  {
    QuotientBounds(a, n);
    if a / n < q {
      Monotony(a / n + 1, q, n);
    } else if q < a / n {
      Monotony(q + 1, a / n, n);
    }
  }

  lemma QuotientsOrdered(a: nat, b: nat, n: nat)
    requires n > 0 && a <= b
    ensures a / n <= b / n
  {
    QuotientBounds(a, n);
    QuotientBounds(b, n);
    if b / n < a / n {
      Monotony(b / n + 1, a / n, n);
    }
  }

  lemma MultiplesApart(p: nat, q: nat, n: nat)
    requires p <= q
    ensures p * n == q * n || p * n + n == q * n || p * n + 2 * n <= q * n
  {
    if p + 1 < q {
      Monotony(p + 2, q, n);
    } else if p < q {
      assert q * n == p * n + n;
    }
  }

  /** `a / n`, rounded up. */
  function CeilDiv(a: nat, n: nat): nat
    requires n > 0
  {
    (a + n - 1) / n
  }

  lemma CeilBounds(a: nat, n: nat)
    requires n > 0
    ensures var q := CeilDiv(a, n); a <= q * n < a + n
  {
    QuotientBounds(a + n - 1, n);
  }

  lemma CeilIs(a: nat, n: nat, q: nat)
    requires n > 0 && a <= q * n < a + n
    ensures CeilDiv(a, n) == q
  {
    QuotientIs(a + n - 1, n, q);
  }

  // ----- Set sizes -----

  lemma {:induction false} SubsetSize<T>(a: set<T>, b: set<T>)
    requires a <= b
    ensures |a| <= |b|
    decreases a
  {
    if a != {} {
      var x :| x in a;
      SubsetSize(a - {x}, b - {x});
    }
  }
}
