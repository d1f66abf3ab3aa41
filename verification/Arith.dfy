// Divisibility facts the solver does not find by itself.
module Arith {
  lemma MultipleBounds(d: int, m: int)
    requires m >= 0
    ensures d >= 1 ==> d * m >= m
    ensures d <= -1 ==> d * m <= -m
  {
    if d >= 1 {
      assert (d - 1) * m >= 0;
    } else if d <= -1 {
      assert (-d - 1) * m >= 0;
    }
  }

  lemma ProductMonotone(a: nat, b: nat, m: nat)
    ensures a <= b ==> a * m <= b * m
  {
    if a <= b {
      assert (b - a) * m >= 0;
    }
  }

  lemma QuotientUnique(k: int, q: int, r: int, m: int)
    requires 0 <= r < m && k * m == q * m + r
    ensures k == q && r == 0
  {
    assert (k - q) * m == r;
    MultipleBounds(k - q, m);
  }

  lemma QuotientIs(a: nat, q: nat, r: nat, m: nat)
    requires r < m && a == q * m + r
    ensures a / m == q && a % m == r
  {
    var q', r' := a / m, a % m;
    assert (q - q') * m == r' - r;
    MultipleBounds(q - q', m);
  }

  lemma QuotientMonotone(a: nat, b: nat, m: nat)
    requires a <= b && m > 0
    ensures a / m <= b / m
  {
    assert (a / m - b / m) * m == a - b - a % m + b % m;
    MultipleBounds(a / m - b / m, m);
  }

  lemma MultipleDivides(k: nat, m: nat)
    requires m > 0
    ensures (k * m) % m == 0 && (k * m) / m == k
  {
    QuotientUnique(k, (k * m) / m, (k * m) % m, m);
  }

  lemma DividesSum(a: nat, b: nat, m: nat)
    requires m > 0 && a % m == 0 && b % m == 0
    ensures (a + b) % m == 0
  {
    var i, j := a / m, b / m;
    assert a == i * m && b == j * m;
    assert a + b == (i + j) * m;
    MultipleDivides(i + j, m);
  }

  lemma DividesDifference(a: nat, b: nat, m: nat)
    requires m > 0 && a % m == 0 && b % m == 0 && b <= a
    ensures (a - b) % m == 0
  {
    var i, j := a / m, b / m;
    assert a == i * m && b == j * m;
    assert (i - j) * m == a - b;
    MultipleBounds(i - j, m);
    MultipleDivides(i - j, m);
  }

  lemma DividesProduct(i: nat, n: nat, m: nat)
    requires m > 0 && n % m == 0
    ensures (i * n) % m == 0
  {
    var q := n / m;
    assert n == q * m;
    assert i * n == (i * q) * m;
    MultipleDivides(i * q, m);
  }

  lemma DividesTransitive(a: nat, n: nat, m: nat)
    requires m > 0 && n > 0 && a % n == 0 && n % m == 0
    ensures a % m == 0
  {
    assert a == (a / n) * n;
    DividesProduct(a / n, n, m);
  }

  lemma RoundUpDivides(a: nat, m: nat)
    requires m > 0
    ensures (a + (m - a % m)) % m == 0
  {
    assert a + (m - a % m) == (a / m + 1) * m;
    MultipleDivides(a / m + 1, m);
  }

  // Divisibility without the remainder operator, which the solver handles badly for a variable m.
  predicate Divisible(a: nat, m: nat)
    requires m > 0
  {
    if a < m then a == 0 else Divisible(a - m, m)
  }

  lemma {:induction false} DivisibleMod(a: nat, m: nat)
    requires m > 0
    ensures Divisible(a, m) <==> a % m == 0
    decreases a
  {
    if a >= m {
      DivisibleMod(a - m, m);
      if (a - m) % m == 0 {
        MultipleDivides(1, m);
        DividesSum(a - m, 1 * m, m);
      } else if a % m == 0 {
        MultipleDivides(1, m);
        DividesDifference(a, 1 * m, m);
      }
    } else {
      QuotientIs(a, 0, a, m);
    }
  }

  lemma DivisibleSum(a: nat, b: nat, m: nat)
    requires m > 0 && Divisible(a, m) && Divisible(b, m)
    ensures Divisible(a + b, m)
  {
    DivisibleMod(a, m);
    DivisibleMod(b, m);
    DivisibleMod(a + b, m);
    DividesSum(a, b, m);
  }

  // Two multiples of m are at least m apart.
  lemma {:induction false} NextMultiple(a: nat, b: nat, m: nat)
    requires m > 0 && Divisible(a, m) && Divisible(b, m) && a < b
    ensures a + m <= b
    decreases a
  {
    if a >= m {
      NextMultiple(a - m, b - m, m);
    }
  }

  lemma DivisibleMultiple(k: nat, m: nat)
    requires m > 0
    ensures Divisible(k * m, m)
  {
    MultipleDivides(k, m);
    DivisibleMod(k * m, m);
  }
}
