/** Natural-number powers and the few facts about Euclidean division that the
    bit-reversal, FFT and modular-reduction models share. */
module Arith {

  /** b raised to the e-th power. */
  function Pow(b: nat, e: nat): nat
  {
    if e == 0 then 1 else b * Pow(b, e - 1)
  }

  lemma {:induction false} PowAdd(b: nat, e1: nat, e2: nat)
    ensures Pow(b, e1 + e2) == Pow(b, e1) * Pow(b, e2)
  {
    if e1 > 0 {
      PowAdd(b, e1 - 1, e2);
      assert Pow(b, e1 + e2) == b * Pow(b, e1 - 1 + e2);
    }
  }

  /** A power of a power multiplies the exponents. */
  lemma {:induction false} PowMul(b: nat, e1: nat, e2: nat)
    ensures Pow(Pow(b, e1), e2) == Pow(b, e1 * e2)
  {
    if e2 > 0 {
      PowMul(b, e1, e2 - 1);
      PowAdd(b, e1, e1 * (e2 - 1));
      assert e1 + e1 * (e2 - 1) == e1 * e2;
    }
  }

  /** Squaring the base doubles the exponent. */
  lemma {:induction false} PowSquare(b: nat, e: nat)
    ensures Pow(b * b, e) == Pow(b, 2 * e)
  {
    if e > 0 {
      PowSquare(b, e - 1);
      calc {
        Pow(b * b, e);
        b * b * Pow(b * b, e - 1);
        b * b * Pow(b, 2 * e - 2);
        b * (b * Pow(b, 2 * e - 2));
        { assert Pow(b, 2 * e - 1) == b * Pow(b, 2 * e - 2); }
        b * Pow(b, 2 * e - 1);
      }
    }
  }

  /** Euclidean division by a positive divisor is unique. */
  lemma {:induction false} DivModUnique(x: int, m: int, q: int, r: int)
    requires m > 0 && 0 <= r < m && x == q * m + r
    ensures x / m == q && x % m == r
  {
    var q0, r0 := x / m, x % m;
    assert x == q0 * m + r0;
    if q0 < q {
      assert (q - q0) * m >= m by { MulMonotone(q - q0, 1, m); }
    } else if q0 > q {
      assert (q0 - q) * m >= m by { MulMonotone(q0 - q, 1, m); }
    }
  }

  /** The quotient and remainder of a natural number by a positive divisor. */
  lemma {:induction false} DivModNat(n: int, T: int)
    requires n >= 0 && T >= 1
    ensures n / T >= 0 && 0 <= n % T < T && n == (n / T) * T + n % T
  {
  }

  lemma {:induction false} MulMonotone(a: int, b: int, m: int)
    requires a >= b && m >= 0
    ensures a * m >= b * m
  {
    assert a * m - b * m == (a - b) * m;
  }

  lemma {:induction false} ModAddMultiple(x: int, k: int, m: int)
    requires m > 0
    ensures (x + k * m) % m == x % m
  {
    DivModUnique(x + k * m, m, x / m + k, x % m);
  }

  /** Reducing a factor before multiplying does not change the product modulo m. */
  lemma {:induction false} ModMulLeft(a: int, b: int, m: int)
    requires m > 0
    ensures ((a % m) * b) % m == (a * b) % m
  {
    assert a * b == (a % m) * b + ((a / m) * b) * m by {
      assert a == (a / m) * m + a % m;
    }
    ModAddMultiple((a % m) * b, (a / m) * b, m);
  }

  lemma {:induction false} ModMulRight(a: int, b: int, m: int)
    requires m > 0
    ensures (a * (b % m)) % m == (a * b) % m
  {
    ModMulLeft(b, a, m);
  }

  lemma {:induction false} ModAddLeft(a: int, b: int, m: int)
    requires m > 0
    ensures ((a % m) + b) % m == (a + b) % m
  {
    ModAddMultiple((a % m) + b, a / m, m);
  }

  lemma {:induction false} ModAddRight(a: int, b: int, m: int)
    requires m > 0
    ensures (a + (b % m)) % m == (a + b) % m
  {
    ModAddLeft(b, a, m);
  }

  lemma {:induction false} PowModBase(b: nat, e: nat, m: nat)
    requires m > 0
    ensures Pow(b % m, e) % m == Pow(b, e) % m
  {
    if e > 0 {
      calc {
        Pow(b % m, e) % m;
        ((b % m) * Pow(b % m, e - 1)) % m;
        { ModMulRight(b % m, Pow(b % m, e - 1), m); }
        ((b % m) * (Pow(b % m, e - 1) % m)) % m;
        { PowModBase(b, e - 1, m); }
        ((b % m) * (Pow(b, e - 1) % m)) % m;
        { ModMulRight(b % m, Pow(b, e - 1), m); }
        ((b % m) * Pow(b, e - 1)) % m;
        { ModMulLeft(b, Pow(b, e - 1), m); }
        Pow(b, e) % m;
      }
    }
  }

  /** Two numbers with the same residue that are less than m apart are equal. */
  lemma {:induction false} SameResidueClose(a: int, b: int, m: int)
    requires m > 0 && a % m == b % m && a <= b < a + m
    ensures a == b
  {
    var qa, qb := a / m, b / m;
    assert b - a == (qb - qa) * m;
    if qb > qa {
      MulMonotone(qb - qa, 1, m);
    } else if qb < qa {
      MulMonotone(qa - qb, 1, m);
    }
  }

  /** Splitting b blocks of size n by residue modulo T: the b-th block lies
      in round b / T at position b % T of that round. */
  lemma {:induction false} BlockRound(b: int, T: int, n: int)
    requires T > 0
    ensures b * n == (b % T) * n + (b / T) * (T * n)
  {
    var q, r := b / T, b % T;
    assert b == q * T + r;
    assert b * n == (q * T + r) * n;
  }

  /** Position t of round k, in blocks of size n. */
  lemma {:induction false} RoundStart(t: int, k: int, T: int, n: int)
    ensures t * n + k * (T * n) == (t + k * T) * n
  {
  }
}
