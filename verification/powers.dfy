/** Powers of two, and quotients and remainders by them. */
module Powers {

  function Pow2(n: nat): (p: nat)
    ensures p > 0
  {
    if n == 0 then 1 else 2 * Pow2(n - 1)
  }

  lemma SmallPowers()
    ensures Pow2(0) == 1 && Pow2(1) == 2 && Pow2(7) == 128 && Pow2(8) == 256
    ensures Pow2(15) == 32768 && Pow2(16) == 65536 && Pow2(32) == 0x1_0000_0000
  {
    assert Pow2(3) == 8 && Pow2(4) == 16;
    PowersMultiply(4, 3);
    PowersMultiply(4, 4);
    PowersMultiply(8, 7);
    PowersMultiply(8, 8);
    PowersMultiply(16, 16);
  }

  lemma {:induction false} PowersAscend(i: nat, j: nat)
    requires i <= j
    ensures Pow2(i) <= Pow2(j)
    decreases j
  {
    if i < j {
      PowersAscend(i, j - 1);
    }
  }

  lemma PowerDoubles(n: nat)
    ensures Pow2(n + 1) == 2 * Pow2(n) && Pow2(0) == 1
  {
  }

  lemma DoubleProduct(x: int, y: int)
    ensures (2 * x) * y == 2 * (x * y) && x * (2 * y) == 2 * (x * y)
  {
  }

  lemma {:induction false} PowersMultiply(i: nat, j: nat)
    ensures Pow2(i + j) == Pow2(i) * Pow2(j)
  {
    hide Pow2;
    PowerDoubles(0);
    if i > 0 {
      calc {
        Pow2(i + j);
      ==  { PowerDoubles(i - 1 + j); }
        2 * Pow2(i - 1 + j);
      ==  { PowersMultiply(i - 1, j); }
        2 * (Pow2(i - 1) * Pow2(j));
      ==  { DoubleProduct(Pow2(i - 1), Pow2(j)); }
        (2 * Pow2(i - 1)) * Pow2(j);
      ==  { PowerDoubles(i - 1); }
        Pow2(i) * Pow2(j);
      }
    }
  }

  lemma NotNegative(x: nat, y: nat)
    ensures x * y >= 0
  {
  }

  /** Multiples of a divisor are ordered as their factors. */
  lemma RowsBelow(q: int, bound: int, p: nat)
    requires q < bound
    ensures q * p + p <= bound * p
  {
    NotNegative(bound - q - 1, p);
    assert (bound - q - 1) * p == bound * p - q * p - p;
  }

  /** Quotient and remainder are determined by their equation. */
  lemma Divided(x: int, p: nat, q: int, r: int)
    requires p > 0 && x == q * p + r && 0 <= r < p
    ensures x / p == q && x % p == r
  {
    var q', r' := x / p, x % p;
    assert x == q' * p + r';
    if q' < q {
      RowsBelow(q', q, p);
    } else if q < q' {
      RowsBelow(q, q', p);
    }
  }

  /** A multiple of p * m passes through a division by p. */
  lemma DivideSum(a: int, p: nat, m: nat, c: int)
    requires p > 0
    ensures (a + p * m * c) / p == a / p + m * c
  {
    assert p * m * c == (m * c) * p;
    assert a == (a / p) * p + a % p;
    assert (a / p + m * c) * p == (a / p) * p + (m * c) * p;
    Divided(a + p * m * c, p, a / p + m * c, a % p);
  }

  /** A multiple of the modulus does not matter. */
  lemma DropMultiple(a: int, m: nat, c: int)
    requires m > 0
    ensures (a + m * c) % m == a % m
  {
    assert a == (a / m) * m + a % m;
    assert (a / m + c) * m == (a / m) * m + m * c;
    Divided(a + m * c, m, a / m + c, a % m);
  }

  /** Low digits stay, high digits are reduced on their own. */
  lemma ReduceHigh(a: nat, m: nat, y: int, n: nat)
    requires a < m && n > 0
    ensures (a + m * y) % (m * n) == a + m * (y % n)
  {
    var q, r := y / n, y % n;
    assert y == q * n + r;
    assert m * y == q * (m * n) + m * r;
    RowsBelow(r, n, m);
    assert m * r + m <= m * n && m * r >= 0;
    Divided(a + m * y, m * n, q, a + m * r);
  }

  /** Dividing by p and then by n divides by their product. */
  lemma DivideTwice(x: int, p: nat, n: nat)
    requires p > 0 && n > 0
    ensures p * n > 0 && x / p / n == x / (p * n)
  {
    var q, r := x / p, x % p;
    var q', r' := q / n, q % n;
    assert x == q * p + r && q == q' * n + r';
    assert q * p == q' * (p * n) + r' * p;
    RowsBelow(r', n, p);
    assert r' * p >= 0;
    Divided(x, p * n, q', r' * p + r);
  }

  lemma RowsAscend(q: int, q': int, p: nat)
    requires q <= q'
    ensures q * p <= q' * p
  {
    NotNegative(q' - q, p);
    assert (q' - q) * p == q' * p - q * p;
  }

  lemma QuotientBelow(x: nat, p: nat, m: nat)
    requires p > 0 && x < p * m
    ensures x / p < m
  {
    var q := x / p;
    assert q * p <= x;
    if q >= m {
      RowsAscend(m, q, p);
    }
  }

  /** The quotient of a reduced number, from the number itself. */
  lemma QuotientOfReduced(u: nat, p: nat, m: nat, e: int)
    requires p > 0 && m > 0 && u < p * m
    ensures (u + p * m * e) / p % m == u / p
  {
    DivideSum(u, p, m, e);
    DropMultiple(u / p, m, e);
    QuotientBelow(u, p, m);
    Divided(u / p, m, 0, u / p);
  }

  /** A field of u that ends below the part that rest adds. */
  lemma FieldBelow(u: nat, p: nat, n: nat, k: nat, rest: nat)
    requires p > 0 && n > 0
    ensures (u + p * (n * k) * rest) / p % n == u / p % n
  {
    DivideSum(u, p, n * k, rest);
    assert (n * k) * rest == n * (k * rest);
    DropMultiple(u / p, n, k * rest);
  }

  /** A field made of the top of u and the bottom of v. */
  lemma FieldAcross(u: nat, v: nat, p: nat, m: nat, n: nat, k: nat, rest: nat)
    requires p > 0 && m > 0 && n > 0 && u < p * m
    ensures (u + p * m * (v + n * k * rest)) / p % (m * n) == u / p + m * (v % n)
  {
    var high := v + n * k * rest;
    DivideSum(u, p, m, high);
    QuotientBelow(u, p, m);
    ReduceHigh(u / p, m, high, n);
    assert n * k * rest == n * (k * rest);
    DropMultiple(v, n, k * rest);
  }
}
