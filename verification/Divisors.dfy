/** Least elements, primes, and what divides a product. */
module Divisors {
  import N = Numerals

  /** A set of numbers that holds zero and the differences of its members. */
  ghost predicate Subtractive(P: nat -> bool) {
    P(0) && forall a: nat, b: nat :: P(a) && P(b) && b <= a ==> P(a - b)
  }

  lemma {:induction false} RemainderIn(P: nat -> bool, n: nat, d: nat)
    requires Subtractive(P) && P(n) && P(d) && d > 0
    ensures P(n % d)
    decreases n
  {
    if n >= d {
      RemainderIn(P, n - d, d);
      DropOne(n, d);
    }
  }

  lemma DropOne(n: nat, d: nat)
    requires 0 < d <= n
    ensures (n - d) % d == n % d
  {
    var q := n / d;
    assert n == q * d + n % d && (q - 1) * d == q * d - d;
    assert q > 0;
    N.DivModUnique(q - 1, n % d, d);
  }

  /** The least member of such a set, other than zero, divides all of them. */
  lemma {:induction false} LeastDivides(P: nat -> bool, k: nat) returns (d: nat)
    requires Subtractive(P) && P(k) && k > 0
    ensures 0 < d <= k && P(d) && forall n: nat :: P(n) ==> n % d == 0
    decreases k
  {
    if n: nat :| P(n) && n % k != 0 {
      RemainderIn(P, n, k);
      d := LeastDivides(P, n % k);
    } else {
      d := k;
    }
  }

  ghost predicate Prime(q: nat) {
    q > 1 && forall d: nat :: 1 < d < q ==> q % d != 0
  }

  lemma DivModSum(q: nat, a: nat, b: nat)
    requires q > 0 && a % q == 0 && b % q == 0 && b <= a
    ensures (a - b) % q == 0
  {
    var x, y := a / q, b / q;
    assert a == q * x && b == q * y;
    assert a - b == q * (x - y);
    assert y <= x;
    ProductMod(q, x - y);
  }

  lemma ProductMod(q: nat, m: nat)
    requires q > 0
    ensures (q * m) % q == 0 && (q * m) / q == m
  {
    assert q * m == m * q + 0;
    N.DivModUnique(m, 0, q);
  }

  /** A prime that divides a product divides one of its factors. */
  lemma Euclid(q: nat, a: nat, b: nat)
    requires Prime(q) && (a * b) % q == 0
    ensures a % q == 0 || b % q == 0
  {
    var P := (x: nat) => (x * b) % q == 0;
    forall x: nat, y: nat | P(x) && P(y) && y <= x ensures P(x - y) {
      assert (x - y) * b == x * b - y * b && y * b <= x * b;
      DivModSum(q, x * b, y * b);
    }
    ProductMod(q, b);
    assert P(q) && P(a) && P(0);
    var d := LeastDivides(P, q);
    assert q % d == 0;
    assert d == 1 || d == q;
  }

  // ------------------------------------------------------------------ small primes

  /** It is enough to try the numbers below m. */
  lemma PrimeByTrial(q: nat, m: nat)
    requires 1 < q < m * m && forall d: nat :: 1 < d < m ==> q % d != 0
    ensures Prime(q)
  {
    forall d: nat | 1 < d < q ensures q % d != 0 {
      if d >= m && q % d == 0 {
        SmallerFactor(q, d, q / d, m);
      }
    }
  }

  lemma SmallerFactor(q: nat, d: nat, e: nat, m: nat)
    requires q == d * e && m <= d < q < m * m
    ensures 1 < e < m && q % e == 0
  {
    if e >= m {
      LargeFactors(d, e, m);
    }
    if e > 0 {
      ProductMod(e, d);
    }
  }

  lemma LargeFactors(d: nat, e: nat, m: nat)
    requires d >= m && e >= m
    ensures d * e >= m * m
  {
    assert d * e == m * m + m * (e - m) + (d - m) * e;
  }

  lemma NothingDivides257(d: nat)
    requires 1 < d < 17
    ensures 257 % d != 0
  {
  }

  lemma NothingDivides65537(d: nat)
    requires 1 < d < 257
    ensures 65537 % d != 0
  {
  }

  lemma FermatPrimes()
    ensures Prime(3) && Prime(5) && Prime(17) && Prime(257) && Prime(65537)
  {
    forall d: nat | 1 < d < 17 ensures 257 % d != 0 { NothingDivides257(d); }
    forall d: nat | 1 < d < 257 ensures 65537 % d != 0 { NothingDivides65537(d); }
    PrimeByTrial(257, 17);
    PrimeByTrial(65537, 257);
  }

  // ------------------------------------------------------------------ divisors of 2^32 - 1

  lemma FactorLeft(q: nat, m: nat, d: nat, e: nat) returns (c: nat)
    requires Prime(q) && d * e == q * m && e % q != 0
    ensures c * e == m
  {
    ProductMod(q, m);
    Euclid(q, d, e);
    c := d / q;
    assert d == q * c && (q * c) * e == q * (c * e);
    SameFactor(q, c * e, m);
  }

  lemma SameFactor(q: nat, x: nat, y: nat)
    requires q > 0 && q * x == q * y
    ensures x == y
  {
    ProductMod(q, x);
    ProductMod(q, y);
  }

  lemma Quotient(q: nat, d: nat, e: nat, m: nat)
    requires q > 0 && d * e == q * m && e % q == 0
    ensures d * (e / q) == m
  {
    var c := e / q;
    assert e == q * c && d * (q * c) == q * (d * c);
    SameFactor(q, d * c, m);
  }

  lemma NotOne(c: nat, e: nat)
    requires e > 1
    ensures c * e != 1
  {
    if c > 0 {
      assert c * e == e + (c - 1) * e;
    }
  }

  /** A proper divisor of 2^32 - 1 divides its quotient by one of its primes. */
  lemma ProperDivisor(d: nat, e: nat) returns (q: nat)
    requires d * e == 0xFFFF_FFFF && e > 1
    ensures q in {3, 5, 17, 257, 65537} && e % q == 0
  {
    FermatPrimes();
    if e % 3 == 0 { return 3; }
    if e % 5 == 0 { return 5; }
    if e % 17 == 0 { return 17; }
    if e % 257 == 0 { return 257; }
    if e % 65537 == 0 { return 65537; }
    hide Prime;
    var c := FactorLeft(3, 5 * 17 * 257 * 65537, d, e);
    c := FactorLeft(5, 17 * 257 * 65537, c, e);
    c := FactorLeft(17, 257 * 65537, c, e);
    c := FactorLeft(257, 65537, c, e);
    c := FactorLeft(65537, 1, c, e);
    NotOne(c, e);
  }
}
