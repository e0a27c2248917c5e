/** Integer facts shared by the word encoding and the constraint-matrix
    bookkeeping: powers, binomial coefficients, Euclidean division. */
module Combinatorics {

  /** `b ** e` on Python integers. */
  function Pow(b: int, e: nat): int
  {
    if e == 0 then 1 else b * Pow(b, e - 1)
  }

  lemma {:induction false} PowPositive(b: int, e: nat)
    requires b >= 1
    ensures Pow(b, e) >= 1
  {
    if e > 0 {
      PowPositive(b, e - 1);
      MulAtLeast(b, Pow(b, e - 1), 1, 1);
    }
  }

  lemma {:induction false} PowAdd(b: int, e1: nat, e2: nat)
    ensures Pow(b, e1 + e2) == Pow(b, e1) * Pow(b, e2)
  {
    if e1 > 0 {
      PowAdd(b, e1 - 1, e2);
      calc {
        Pow(b, e1 + e2);
        b * Pow(b, (e1 - 1) + e2);
        b * (Pow(b, e1 - 1) * Pow(b, e2));
        (b * Pow(b, e1 - 1)) * Pow(b, e2);
      }
    }
  }

  lemma {:induction false} PowMonotone(b: int, e1: nat, e2: nat)
    requires b >= 1 && e1 <= e2
    ensures Pow(b, e1) <= Pow(b, e2)
  {
    if e1 < e2 {
      PowMonotone(b, e1, e2 - 1);
      PowPositive(b, e2 - 1);
      MulAtLeast(b, Pow(b, e2 - 1), 1, Pow(b, e2 - 1));
    }
  }

  /** a >= c >= 0 and d >= e >= 0 give a * d >= c * e. */
  lemma MulAtLeast(a: int, d: int, c: int, e: int)
    requires a >= c >= 0 && d >= e >= 0
    ensures a * d >= c * e
  {
    assert a * d - c * d == (a - c) * d;
    assert c * d - c * e == c * (d - e);
  }

  lemma MulAssoc(a: int, b: int, c: int)
    ensures a * (b * c) == (a * b) * c
  {
  }

  /** The ordinary binomial coefficient, zero when k > n, as
      `scipy.comb(n, k, exact=1)` returns it. */
  function Choose(n: nat, k: nat): nat
  {
    if k == 0 then 1 else if n == 0 then 0 else Choose(n - 1, k - 1) + Choose(n - 1, k)
  }

  lemma {:induction false} ChooseBeyond(n: nat, k: nat)
    requires k > n
    ensures Choose(n, k) == 0
  {
    if n > 0 {
      ChooseBeyond(n - 1, k - 1);
      ChooseBeyond(n - 1, k);
    }
  }

  lemma {:induction false} ChooseWithin(n: nat, k: nat)
    requires k <= n
    ensures Choose(n, k) >= 1
  {
    if k > 0 {
      ChooseWithin(n - 1, k - 1);
    }
  }

  /** Partial binomial sum: the sum over o < j of Choose(n, o) * a^o. */
  function BinomSum(n: nat, a: int, j: nat): int
  {
    if j == 0 then 0 else BinomSum(n, a, j - 1) + Choose(n, j - 1) * Pow(a, j - 1)
  }

  /** Pascal's rule lifted to partial sums. */
  lemma {:induction false} BinomSumStep(n: nat, a: int, j: nat)
    requires j >= 1
    ensures BinomSum(n + 1, a, j) == BinomSum(n, a, j) + a * BinomSum(n, a, j - 1)
  {
    if j > 1 {
      BinomSumStep(n, a, j - 1);
      PascalTermStep(a, BinomSum(n, a, j - 1), BinomSum(n, a, j - 2),
                     Choose(n, j - 1), Choose(n, j - 2), Pow(a, j - 2), Pow(a, j - 1));
    }
  }

  /** The ring identity behind BinomSumStep, stated over plain integers. */
  lemma PascalTermStep(a: int, s1: int, s2: int, c1: int, c2: int, p2: int, t: int)
    requires t == a * p2 && s1 == s2 + c2 * p2
    ensures s1 + a * s2 + (c2 + c1) * t == (s1 + c1 * t) + a * s1
  {
    assert (c2 + c1) * t == c2 * t + c1 * t;
    assert c2 * t == a * (c2 * p2);
    assert a * s1 == a * s2 + a * (c2 * p2);
  }

  /** The binomial theorem: the sum over o <= n of Choose(n, o) * a^o is (a + 1)^n. */
  lemma {:induction false} BinomialTheorem(n: nat, a: int)
    ensures BinomSum(n, a, n + 1) == Pow(a + 1, n)
  {
    if n > 0 {
      BinomialTheorem(n - 1, a);
      BinomSumStep(n - 1, a, n + 1);
      ChooseBeyond(n - 1, n);
      assert BinomSum(n - 1, a, n + 1) == BinomSum(n - 1, a, n);
      calc {
        BinomSum(n, a, n + 1);
        BinomSum(n - 1, a, n) + a * BinomSum(n - 1, a, n);
        (a + 1) * Pow(a + 1, n - 1);
      }
    }
  }

  /** Euclidean quotient and remainder are unique. */
  lemma DivModUnique(x: int, d: int, q: int, r: int)
    requires d > 0 && 0 <= r < d && x == q * d + r
    ensures x / d == q && x % d == r
  {
    var q', r' := x / d, x % d;
    assert x == q' * d + r';
    assert (q - q') * d == r' - r;
    if q > q' {
      MulAtLeast(q - q', d, 1, d);
    } else if q < q' {
      MulAtLeast(q' - q, d, 1, d);
    }
  }

  /** Reducing modulo c * k and then modulo c is reducing modulo c. */
  lemma ModMod(x: int, c: int, k: int)
    requires c > 0 && k > 0
    ensures c * k > 0 && (x % (c * k)) % c == x % c
  {
    MulAtLeast(c, k, 1, 1);
    var ck := c * k;
    var q, r := x / ck, x % ck;
    var q2, r2 := r / c, r % c;
    assert x == q * ck + r;
    assert r == q2 * c + r2;
    assert x == (q * k + q2) * c + r2;
    DivModUnique(x, c, q * k + q2, r2);
  }

  /** (q * d + x) % d == x % d */
  lemma ModAddMultiple(x: int, q: int, d: int)
    requires d > 0
    ensures (q * d + x) % d == x % d
  {
    var q', r' := x / d, x % d;
    assert q * d + x == (q + q') * d + r';
    DivModUnique(q * d + x, d, q + q', r');
  }
}
