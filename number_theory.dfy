/** Integer facts the revalidators rely on: powers, the greatest common
    divisor that Python's math.gcd computes, and inverses modulo m.
    With a positive modulus, Python's `%` (floor) and Dafny's `%` (Euclidean)
    give the same non-negative remainder, so `%` below is Python's `%`. */
module NumberTheory {

  /** Python's `b ** n` for a natural exponent. */
  function Pow(b: int, n: nat): int
  {
    if n == 0 then 1 else b * Pow(b, n - 1)
  }

  /** Python's math.gcd on non-negative arguments (Euclid's algorithm). */
  function Gcd(a: nat, b: nat): (g: nat)
    ensures a > 0 || b > 0 ==> g > 0
    decreases b
  {
    if b == 0 then a else Gcd(b, a % b)
  }

  /** Coefficients (s, t) with s * a + t * b == Gcd(a, b) (extended Euclid). */
  function Bezout(a: nat, b: nat): (st: (int, int))
    ensures st.0 * a + st.1 * b == Gcd(a, b)
    decreases b
  {
    if b == 0 then (1, 0)
    else
      var st' := Bezout(b, a % b);
      assert a % b == a - (a / b) * b;
      assert st'.0 * b + st'.1 * (a - (a / b) * b) == st'.1 * a + (st'.0 - st'.1 * (a / b)) * b;
      (st'.1, st'.0 - st'.1 * (a / b))
  }

  // ---------------------------------------------------------------- powers

  lemma {:induction false} PowAdd(b: int, i: nat, j: nat)
    ensures Pow(b, i + j) == Pow(b, i) * Pow(b, j)
    decreases j
  {
    if j > 0 {
      PowAdd(b, i, j - 1);
      calc {
        Pow(b, i + j);
        b * Pow(b, i + (j - 1));
        b * (Pow(b, i) * Pow(b, j - 1));
        Pow(b, i) * (b * Pow(b, j - 1));
      }
    }
  }

  lemma {:induction false} PowPositive(b: int, n: nat)
    requires b >= 1
    ensures Pow(b, n) >= 1
  {
    if n > 0 {
      PowPositive(b, n - 1);
      MulAtLeast(b, Pow(b, n - 1));
    }
  }

  /** Powers of a base of at least 2 grow strictly and outgrow the exponent. */
  lemma {:induction false} PowGrows(b: int, n: nat)
    requires b >= 2
    ensures n < Pow(b, n) < Pow(b, n + 1)
  {
    if n > 0 {
      PowGrows(b, n - 1);
    }
    PowPositive(b, n);
    assert Pow(b, n + 1) == b * Pow(b, n) >= 2 * Pow(b, n);
  }

  lemma {:induction false} PowStrictlyIncreasing(b: int, i: nat, j: nat)
    requires b >= 2 && i < j
    ensures Pow(b, i) < Pow(b, j)
    decreases j - i
  {
    PowGrows(b, i);
    if i + 1 < j {
      PowStrictlyIncreasing(b, i + 1, j);
    }
  }

  lemma MulAtLeast(x: int, y: int)
    requires x >= 1 && y >= 1
    ensures x * y >= y
  {
    assert x * y == (x - 1) * y + y;
  }

  // ------------------------------------------------------------- remainders

  /** The quotient and remainder of Euclidean division are unique. */
  lemma ModUnique(a: int, m: int, q: int, r: int)
    requires m > 0 && a == q * m + r && 0 <= r < m
    ensures a % m == r && a / m == q
  {
    var q0, r0 := a / m, a % m;
    assert a == q0 * m + r0;
    assert (q - q0) * m == r0 - r;
    if q > q0 {
      MulAtLeast(q - q0, m);
    } else if q < q0 {
      MulAtLeast(q0 - q, m);
    }
  }

  lemma ModAddMultiple(k: int, z: int, m: int)
    requires m > 0
    ensures (k * m + z) % m == z % m
  {
    assert k * m + z == (k + z / m) * m + z % m;
    ModUnique(k * m + z, m, k + z / m, z % m);
  }

  lemma MulModLeft(x: int, y: int, m: int)
    requires m > 0
    ensures (x * y) % m == ((x % m) * y) % m
  {
    assert x * y == (x / m * y) * m + (x % m) * y by {
      assert x == (x / m) * m + x % m;
    }
    ModAddMultiple(x / m * y, (x % m) * y, m);
  }

  lemma MulMod(x: int, y: int, m: int)
    requires m > 0
    ensures (x * y) % m == ((x % m) * (y % m)) % m
  {
    MulModLeft(x, y, m);
    MulModLeft(y, x % m, m);
  }

  lemma MulModRight(x: int, y: int, m: int)
    requires m > 0
    ensures (x * y) % m == (x * (y % m)) % m
  {
    MulModLeft(y, x, m);
    assert y * x == x * y && (y % m) * x == x * (y % m);
  }

  /** A multiple of m times anything is a multiple of m. */
  lemma MulModZero(p: int, q: int, m: int)
    requires m > 0 && p % m == 0
    ensures (p * q) % m == 0
  {
    MulModLeft(p, q, m);
    assert (p % m) * q == 0 * q == 0;
  }

  lemma AddModLeft(x: int, y: int, m: int)
    requires m > 0
    ensures (x + y) % m == ((x % m) + y) % m
  {
    assert x + y == (x / m) * m + ((x % m) + y);
    ModAddMultiple(x / m, (x % m) + y, m);
  }

  /** A common divisor of a and b divides a * k + b. */
  lemma DividesCombination(d: int, a: int, k: int, b: int)
    requires d > 0 && a % d == 0 && b % d == 0
    ensures (k * a + b) % d == 0
  {
    assert a == (a / d) * d;
    assert k * a + b == (k * (a / d)) * d + b by {
      assert k * a == k * ((a / d) * d) == (k * (a / d)) * d;
    }
    ModAddMultiple(k * (a / d), b, d);
  }

  // -------------------------------------------------------------------- gcd

  /** Gcd(a, b) divides both arguments. */
  lemma {:induction false} GcdDivides(a: nat, b: nat)
    requires a > 0 || b > 0
    ensures Gcd(a, b) > 0 && a % Gcd(a, b) == 0 && b % Gcd(a, b) == 0
    decreases b
  {
    if b > 0 {
      GcdDivides(b, a % b);
      var g := Gcd(a, b);
      assert a == (a / b) * b + a % b;
      DividesCombination(g, b, a / b, a % b);
    }
  }

  /** An argument coprime to m has an inverse modulo m. */
  lemma InverseExists(b: nat, m: nat) returns (inv: int)
    requires m >= 2 && Gcd(b, m) == 1
    ensures (b * inv) % m == 1
  {
    var st := Bezout(b, m);
    inv := st.0;
    assert b * inv == (-st.1) * m + 1;
    ModUnique(b * inv, m, -st.1, 1);
  }

  /** Multiplication by a unit modulo m can be cancelled. */
  lemma CancelUnit(b: nat, x: int, y: int, m: nat)
    requires m >= 2 && Gcd(b, m) == 1
    requires (b * x) % m == (b * y) % m
    ensures x % m == y % m
  {
    var inv := InverseExists(b, m);
    forall z: int ensures z % m == (inv * ((b * z) % m)) % m {
      calc {
        z % m;
        (1 * z) % m;
        ((b * inv) % m * z) % m;
        { MulModLeft(b * inv, z, m); }
        ((b * inv) * z) % m;
        { assert (b * inv) * z == inv * (b * z); }
        (inv * (b * z)) % m;
        { MulModLeft(b * z, inv, m); assert (b * z) * inv == inv * (b * z); assert ((b * z) % m) * inv == inv * ((b * z) % m); }
        (inv * ((b * z) % m)) % m;
      }
    }
  }
}
