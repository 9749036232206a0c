/** Integer facts about multiplication, Euclidean division and remainders on a cycle. */
module Arithmetic {

  lemma MulMono(a: int, b: int, m: int)
    requires a <= b && m >= 0
    ensures a * m <= b * m
  {
  }

  lemma DivModUnique(j: int, m: int, q: int, k: int)
    requires m > 0 && 0 <= k < m && j == q * m + k
    ensures j / m == q && j % m == k
  {
    var q', k' := j / m, j % m;
    assert j == q' * m + k';
    if q' < q {
      MulMono(q' + 1, q, m);
      assert false;
    } else if q < q' {
      MulMono(q + 1, q', m);
      assert false;
    }
  }

  lemma DivBelow(j: int, m: int, q: int)
    requires m > 0 && 0 <= j < q * m
    ensures 0 <= j / m < q
  {
    var q', k' := j / m, j % m;
    assert j == q' * m + k';
    if q' >= q {
      MulMono(q, q', m);
      assert false;
    }
    if q' < 0 {
      MulMono(q', -1, m);
      assert false;
    }
  }

  /** A remainder of a value less than one lap away from [0, n). */
  lemma ModNear(x: int, n: int)
    requires n > 0 && -n <= x < n
    ensures x % n == if x >= 0 then x else x + n
  {
    if x >= 0 {
      DivModUnique(x, n, 0, x);
    } else {
      DivModUnique(x, n, -1, x + n);
    }
  }

  /** Adding whole laps does not change the remainder. */
  lemma ModAddMultiple(x: int, q: int, n: int)
    requires n > 0
    ensures (x + q * n) % n == x % n
  {
    var d, k := x / n, x % n;
    assert x == d * n + k;
    assert x + q * n == (d + q) * n + k;
    DivModUnique(x + q * n, n, d + q, k);
  }

  /** Reducing a summand first does not change the remainder of the sum. */
  lemma ModAddLeft(a: int, b: int, n: int)
    requires n > 0
    ensures (a % n + b) % n == (a + b) % n
  {
    assert a + b == (a % n + b) + (a / n) * n;
    ModAddMultiple(a % n + b, a / n, n);
  }

  /** Values less than one lap apart, and not equal, have different remainders. */
  lemma ModDistinct(a: int, b: int, n: int)
    requires n > 0 && 0 < b - a < n
    ensures a % n != b % n
  {
    if a % n == b % n {
      var qa, qb := a / n, b / n;
      assert b - a == (qb - qa) * n;
      if qb - qa <= 0 {
        MulMono(qb - qa, 0, n);
      } else {
        MulMono(1, qb - qa, n);
      }
      assert false;
    }
  }
}
