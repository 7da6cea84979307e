/**
 Number theory behind the prime search: divisibility, primality, the integer
 square root that stands in for the program's floating-point square root, and
 the least-divisor argument that makes trial division up to the square root
 sufficient.
 */
module Arith {

  /** The largest value of the program's unsigned 32-bit word. */
  const U32Max: nat := 0xFFFF_FFFF

  /** `d` divides `n` evenly. */
  predicate Divides(d: nat, n: nat)
    requires d > 0
  {
    n % d == 0
  }

  /** `n` is a prime: at least 2 and without a divisor strictly between 1 and itself. */
  predicate Prime(n: nat) {
    n >= 2 && forall d :: 2 <= d < n ==> !Divides(d, n)
  }

  /** `a <= b` implies `a * a <= b * b`. */
  lemma SquareMonotone(a: nat, b: nat)
    requires a <= b
    ensures a * a <= b * b
  {
    assert a * a <= a * b by {
      MulMonotone(a, a, b);
    }
    assert a * b <= b * b by {
      MulMonotone(b, a, b);
    }
  }

  /** Multiplying by a natural keeps an inequality. */
  lemma MulMonotone(k: nat, a: nat, b: nat)
    requires a <= b
    ensures k * a <= k * b
  {
    assert k * b == k * a + k * (b - a);
  }

  /**
   Integer floor square root. Recursing on `n / 4` keeps the depth logarithmic:
   if `s` is the root of `n / 4`, the root of `n` is `2 * s` or `2 * s + 1`.
   */
  function Isqrt(n: nat): (r: nat)
    ensures r * r <= n < (r + 1) * (r + 1)
    decreases n
  {
    if n == 0 then 0
    else if n < 4 then 1
    else
      var s := Isqrt(n / 4);
      RootDoubles(n, s);
      var r := 2 * s;
      if (r + 1) * (r + 1) <= n then r + 1 else r
  }

  /** If `s` is the root of `n / 4` then `n` lies between the squares of `2 * s` and `2 * s + 2`. */
  lemma RootDoubles(n: nat, s: nat)
    requires s * s <= n / 4 < (s + 1) * (s + 1)
    ensures (2 * s) * (2 * s) <= n < (2 * s + 2) * (2 * s + 2)
  {
    var q := n / 4;
    assert (2 * s) * (2 * s) == 4 * (s * s);
    assert (2 * s + 2) * (2 * s + 2) == 4 * ((s + 1) * (s + 1));
    assert n < 4 * q + 4;
  }

  /** The root is pinned down by its defining inequalities. */
  lemma IsqrtUnique(n: nat, r: nat)
    requires r * r <= n < (r + 1) * (r + 1)
    ensures Isqrt(n) == r
  {
    var q := Isqrt(n);
    if q < r {
      SquareMonotone(q + 1, r);
    } else if q > r {
      SquareMonotone(r + 1, q);
    }
  }

  /** The root grows with its argument. */
  lemma IsqrtMonotone(a: nat, b: nat)
    requires a <= b
    ensures Isqrt(a) <= Isqrt(b)
  {
    var p, q := Isqrt(a), Isqrt(b);
    if p > q {
      SquareMonotone(q + 1, p);
    }
  }

  /** Every `p` with `p * p <= n` is at most the root of `n`. */
  lemma BelowIsqrt(n: nat, p: nat)
    requires p * p <= n
    ensures p <= Isqrt(n)
  {
    var r := Isqrt(n);
    if p > r {
      SquareMonotone(r + 1, p);
    }
  }

  /** For `n >= 2` the root lies strictly below `n`. */
  lemma IsqrtBelow(n: nat)
    requires n >= 2
    ensures Isqrt(n) < n
  {
    var r := Isqrt(n);
    if r >= n {
      SquareMonotone(n, r);
      MulMonotone(n, 2, n);
    }
  }

  /** The root never exceeds its argument. */
  lemma IsqrtAtMost(n: nat)
    ensures Isqrt(n) <= n
  {
    var r := Isqrt(n);
    if r > n {
      MulMonotone(r, 1, r);
    }
  }

  /** A product is divisible by each factor. */
  lemma DividesProduct(d: nat, q: nat)
    requires d > 0
    ensures Divides(d, d * q)
  {
    DivModUnique(d * q, d, q, 0);
  }

  /** Multiplying a strict inequality by `d` opens a gap of at least `d`. */
  lemma MulStep(d: nat, a: nat, b: nat)
    requires a < b
    ensures d * a + d <= d * b
  {
    MulMonotone(d, a + 1, b);
    assert d * (a + 1) == d * a + d;
  }

  /** Division with remainder has a unique result. */
  lemma DivModUnique(n: nat, d: nat, q: nat, r: nat)
    requires d > 0 && r < d && n == d * q + r
    ensures n / d == q && n % d == r
  {
    var q', r' := n / d, n % d;
    assert n == d * q' + r';
    if q' < q {
      MulStep(d, q', q);
    } else if q' > q {
      MulStep(d, q, q');
    }
  }

  /** Divisibility is transitive. */
  lemma DividesTransitive(a: nat, b: nat, c: nat)
    requires a > 0 && b > 0
    requires Divides(a, b) && Divides(b, c)
    ensures Divides(a, c)
  {
    var x, y := b / a, c / b;
    assert b == a * x;
    assert c == b * y;
    assert c == a * (x * y);
    DividesProduct(a, x * y);
  }

  /** Every divisor of an odd number is odd. */
  lemma OddDivisor(d: nat, n: nat)
    requires d > 0 && n % 2 == 1 && Divides(d, n)
    ensures d % 2 == 1
  {
    var q := n / d;
    assert n == d * q;
    if d % 2 == 0 {
      var h := d / 2;
      assert n == 2 * (h * q);
      DividesProduct(2, h * q);
    }
  }

  /** The least divisor of `n` that is at least `k`. */
  function LeastDivisorFrom(n: nat, k: nat): (d: nat)
    requires 2 <= k <= n
    requires forall e :: 2 <= e < k ==> !Divides(e, n)
    ensures k <= d <= n && Divides(d, n)
    ensures forall e :: 2 <= e < d ==> !Divides(e, n)
    decreases n - k
  {
    if Divides(k, n) then k
    else
      assert k != n by {
        assert n % n == 0;
      }
      LeastDivisorFrom(n, k + 1)
  }

  /** The least divisor of `n` other than 1. */
  function LeastDivisor(n: nat): (d: nat)
    requires n >= 2
    ensures 2 <= d <= n && Divides(d, n)
    ensures forall e :: 2 <= e < d ==> !Divides(e, n)
  {
    LeastDivisorFrom(n, 2)
  }

  /** The cofactor `n / d` of a proper divisor `d` is itself a proper divisor. */
  lemma Cofactor(n: nat, d: nat)
    requires 2 <= d < n && Divides(d, n)
    ensures n == d * (n / d)
    ensures 2 <= n / d && Divides(n / d, n)
  {
    var q := n / d;
    assert n == d * q;
    DividesProduct(q, d);
    assert q * d == n;
  }

  /** The least divisor of a number is prime. */
  lemma LeastDivisorIsPrime(n: nat)
    requires n >= 2
    ensures Prime(LeastDivisor(n))
  {
    var d := LeastDivisor(n);
    forall e | 2 <= e < d
      ensures !Divides(e, d)
    {
      if Divides(e, d) {
        DividesTransitive(e, d, n);
      }
    }
  }

  /**
   A number that is not prime has its least divisor at or below its square
   root. This is why trial division only needs the primes up to the root.
   */
  lemma LeastDivisorBelowRoot(n: nat)
    requires n >= 2 && !Prime(n)
    ensures LeastDivisor(n) <= Isqrt(n)
  {
    var d := LeastDivisor(n);
    var w :| 2 <= w < n && Divides(w, n);
    assert d <= w;
    Cofactor(n, d);
    var q := n / d;
    assert d <= q;
    MulMonotone(d, d, q);
    BelowIsqrt(n, d);
  }
}
