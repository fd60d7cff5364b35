/** Powers and remainders of natural numbers. */
module Powers {

  function Pow(base: nat, n: nat): (p: nat)
    ensures base > 0 ==> p > 0
  {
    if n == 0 then 1 else base * Pow(base, n - 1)
  }

  lemma PowStep(base: nat, n: nat)
    requires n > 0
    ensures Pow(base, n) == base * Pow(base, n - 1)
  {}

  lemma PowSquare(base: nat)
    ensures Pow(base, 2) == base * base
  {
    assert Pow(base, 1) == base;
  }

  lemma {:induction false} PowAdd(base: nat, a: nat, b: nat)
    ensures Pow(base, a + b) == Pow(base, a) * Pow(base, b)
  {
    hide Pow;
    if a == 0 {
      PowZero(base);
    } else {
      PowAdd(base, a - 1, b);
      PowStep(base, a);
      PowStep(base, a + b);
      Associate(base, Pow(base, a - 1), Pow(base, b));
    }
  }

  lemma Associate(x: nat, y: nat, z: nat)
    ensures x * (y * z) == (x * y) * z
  {}

  lemma PowZero(base: nat)
    ensures Pow(base, 0) == 1
  {}

  lemma PowDouble(base: nat, n: nat)
    ensures Pow(base, 2 * n) == Pow(base, n) * Pow(base, n)
  {
    PowAdd(base, n, n);
  }

  lemma {:induction false} PowGrows(a: nat, b: nat, n: nat)
    requires a <= b
    ensures Pow(a, n) <= Pow(b, n)
  {
    if n > 0 {
      PowGrows(a, b, n - 1);
      ProductGrows(a, b, Pow(a, n - 1), Pow(b, n - 1));
    }
  }

  lemma ProductGrows(a: nat, b: nat, p: nat, q: nat)
    requires a <= b && p <= q
    ensures a * p <= b * q
  {
    assert a * (q - p) >= 0 && (b - a) * q >= 0;
  }

  /** With a positive base a larger exponent gives no smaller power. */
  lemma {:induction false} PowRises(base: nat, a: nat, b: nat)
    requires base > 0 && a <= b
    ensures Pow(base, a) <= Pow(base, b)
  {
    hide Pow;
    if a < b {
      PowRises(base, a, b - 1);
      PowStep(base, b);
      ProductGrows(1, base, Pow(base, b - 1), Pow(base, b - 1));
    }
  }

  // ---- Remainders ----

  lemma ModUnique(x: nat, m: nat, q: nat, r: nat)
    requires m > 0 && x == m * q + r && r < m
    ensures x % m == r
  {
    var d := q - x / m;
    assert m * d == x % m - r by {
      assert m * (x / m) + x % m == m * q + r;
    }
    MultiplesApart(m, d);
  }

  lemma MultiplesApart(m: nat, d: int)
    requires m > 0
    ensures d > 0 ==> m * d >= m
    ensures d < 0 ==> m * d <= -(m as int)
  {
    if d < 0 {
      assert m * (-d - 1) >= 0;
    } else if d > 0 {
      assert m * (d - 1) >= 0;
    }
  }

  lemma SmallMod(x: nat, m: nat)
    requires x < m
    ensures x % m == x
  {}

  lemma MultipleOf(m: nat, n: nat)
    requires m > 0
    ensures m * n % m == 0
  {
    ModUnique(m * n, m, n, 0);
  }

  /** Division and remainder by base * p, one digit at a time. */
  lemma ModStep(value: nat, base: nat, p: nat)
    requires base > 0 && p > 0
    ensures base * p > 0 && value % (base * p) == value % base + base * ((value / base) % p)
  {
    var q: nat, r: nat := value / base, value % base;
    var q2: nat, r2: nat := q / p, q % p;
    assert value == base * q + r;
    assert q == p * q2 + r2;
    ModAt(base, p, q2, r2, r);
  }

  lemma ModAt(base: nat, p: nat, q: nat, r2: nat, r: nat)
    requires r < base && r2 < p
    ensures base * p > 0 && (base * (p * q + r2) + r) % (base * p) == base * r2 + r
  {
    var m, low := base * p, base * r2 + r;
    Distribute(base, p, q, r2);
    DigitBelow(base, p, r, r2);
    assert m > 0 && low < m;
    ModUnique(m * q + low, m, q, low);
  }

  lemma Distribute(base: nat, p: nat, q: nat, r: nat)
    ensures base * (p * q + r) == (base * p) * q + base * r
  {}

  lemma DigitBelow(base: nat, p: nat, r: nat, r2: nat)
    requires r < base && r2 < p
    ensures base * r2 + r < base * p
  {
    ProductGrows(base, base, r2 + 1, p);
  }

  lemma QuotientTwice(x: nat, m: nat, p: nat)
    requires m > 0 && p > 0
    ensures m * p > 0 && x / m / p == x / (m * p)
  {
    var q: nat, r: nat := x / m, x % m;
    var q2: nat, r2: nat := q / p, q % p;
    assert x == m * q + r;
    assert q == p * q2 + r2;
    QuotientOfParts(m, p, q2, r2, r);
  }

  lemma QuotientOfParts(m: nat, p: nat, q: nat, r2: nat, r: nat)
    requires r < m && r2 < p
    ensures m * p > 0 && (m * (p * q + r2) + r) / (m * p) == q
  {
    var n, low := m * p, m * r2 + r;
    Distribute(m, p, q, r2);
    DigitBelow(m, p, r, r2);
    assert n > 0 && low < n;
    QuotientIs(n * q + low, n, q, low);
  }

  lemma QuotientIs(x: nat, m: nat, q: nat, r: nat)
    requires m > 0 && x == m * q + r && r < m
    ensures x / m == q
  {
    ModUnique(x, m, q, r);
    assert m * (x / m) == m * q;
    MultiplesApart(m, x / m - q);
  }
}
