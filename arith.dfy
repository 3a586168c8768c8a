/** Integer powers and the congruence facts that modular exponentiation rests on.
    Python integers are unbounded, so Dafny's `int` models them directly; for a
    positive modulus Python's `%` (floored) and Dafny's `%` (Euclidean) agree. */
module Arith {

  /** b raised to the natural power e. */
  ghost function Pow(b: int, e: nat): (r: int)
    ensures b >= 1 ==> r >= 1
    decreases e
  {
    if e == 0 then 1 else b * Pow(b, e - 1)
  }

  /** The first power is the base itself. */
  lemma PowOne(b: int)
    ensures Pow(b, 1) == b
  {
    assert Pow(b, 1) == b * Pow(b, 0);
  }

  /** Exponents add: b^(e1 + e2) == b^e1 * b^e2. */
  lemma {:induction false} PowAdd(b: int, e1: nat, e2: nat)
    ensures Pow(b, e1 + e2) == Pow(b, e1) * Pow(b, e2)
    decreases e1
  {
    if e1 > 0 {
      PowAdd(b, e1 - 1, e2);
      assert b * (Pow(b, e1 - 1) * Pow(b, e2)) == (b * Pow(b, e1 - 1)) * Pow(b, e2);
      assert Pow(b, e1 + e2) == b * Pow(b, e1 - 1 + e2);
    }
  }

  /** Squaring the base doubles the exponent: (b*b)^k == b^(2k). */
  lemma {:induction false} PowSquare(b: int, k: nat)
    ensures Pow(b * b, k) == Pow(b, 2 * k)
    decreases k
  {
    if k > 0 {
      PowSquare(b, k - 1);
      PowAdd(b, 2, 2 * (k - 1));
      assert Pow(b, 2) == b * b;
    }
  }

  /** A value n written as q*m + r with 0 <= r < m has remainder r. */
  lemma ModUnique(n: int, q: int, r: int, m: int)
    requires m > 0 && 0 <= r < m && n == q * m + r
    ensures n % m == r
  {
    var q' := n / m;
    var r' := n % m;
    var d := q - q';
    assert d * m == r' - r by {
      assert n == q' * m + r';
    }
    if d >= 1 {
      assert d * m == (d - 1) * m + m;
      MulNonNegative(d - 1, m);
    } else if d <= -1 {
      assert -d * m == (-d - 1) * m + m;
      MulNonNegative(-d - 1, m);
    }
  }

  /** The product of two non-negative integers is non-negative. */
  lemma MulNonNegative(a: int, b: int)
    requires a >= 0 && b >= 0
    ensures a * b >= 0
  {
  }

  /** Reducing a factor modulo m first does not change the product's remainder. */
  lemma ModMulLeft(a: int, b: int, m: int)
    requires m > 0
    ensures (a * b) % m == ((a % m) * b) % m
  {
    var q := a / m;
    var s := ((a % m) * b) / m;
    var t := ((a % m) * b) % m;
    assert a == q * m + a % m;
    assert a * b == (q * b) * m + (a % m) * b;
    assert (a % m) * b == s * m + t;
    assert a * b == (q * b + s) * m + t;
    ModUnique(a * b, q * b + s, t, m);
  }

  /** Products of congruent factors are congruent. */
  lemma MulCongruent(a: int, a': int, b: int, b': int, m: int)
    requires m > 0 && a % m == a' % m && b % m == b' % m
    ensures (a * b) % m == (a' * b') % m
  {
    ModMulLeft(a, b, m);
    ModMulLeft(a', b, m);
    ModMulLeft(b, a', m);
    ModMulLeft(b', a', m);
    assert b * a' == a' * b;
    assert b' * a' == a' * b';
  }

  /** Powers of congruent bases are congruent. */
  lemma {:induction false} PowCongruent(a: int, a': int, e: nat, m: int)
    requires m > 0 && a % m == a' % m
    ensures Pow(a, e) % m == Pow(a', e) % m
    decreases e
  {
    if e > 0 {
      PowCongruent(a, a', e - 1, m);
      MulCongruent(a, a', Pow(a, e - 1), Pow(a', e - 1), m);
    }
  }

  /** A value already in [0, m) is its own remainder. */
  lemma ModOfReduced(r: int, m: int)
    requires m > 0 && 0 <= r < m
    ensures r % m == r
  {
    ModUnique(r, 0, r, m);
  }

  /** Reducing twice is reducing once. */
  lemma ModMod(a: int, m: int)
    requires m > 0
    ensures (a % m) % m == a % m
  {
    ModOfReduced(a % m, m);
  }
}
