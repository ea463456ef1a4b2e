/** Integer facts shared by the whole model: powers, primality by trial
    division, integer square roots, perfect squares, Euclid's lemma and the
    existence of a prime above every bound. Everything here is about
    unbounded integers; no machine width is involved. */
module NumberTheory {

  /** b raised to the e-th power. */
  function Pow(b: int, e: nat): int
  {
    if e == 0 then 1 else b * Pow(b, e - 1)
  }

  /** k squared, as a named term so that quantifiers over squares have a trigger. */
  function Sq(k: int): int
  {
    k * k
  }

  /** n is the square of a natural number. */
  ghost predicate IsSquare(n: int)
  {
    exists k: nat :: Sq(k) == n
  }

  /** The usual definition: at least 2 and no divisor strictly between 1 and n. */
  predicate Prime(n: int)
  {
    n >= 2 && forall d :: 2 <= d < n ==> n % d != 0
  }

  /** (x, y) writes n as x*x + y*y with 1 <= x and x < y (strict) or x <= y. */
  ghost predicate IsRep(n: int, x: int, y: int, strict: bool)
  {
    1 <= x && (if strict then x < y else x <= y) && Sq(x) + Sq(y) == n
  }

  ghost predicate HasRep(n: int, strict: bool)
  {
    exists x: int, y: int :: IsRep(n, x, y, strict)
  }

  /** p is a sum of two squares a*a + b*b with 1 <= a <= b. Fermat's two-square
      theorem says this holds for every prime p == 1 (mod 4); the model takes it
      as a hypothesis wherever it is needed and never proves it. */
  ghost predicate HasTwoSquareRep(p: int)
  {
    HasRep(p, false)
  }

  /** For odd n the two squares cannot be equal, so a representation with
      x <= y is one with x < y. */
  lemma OddRepIsStrict(n: int)
    requires n % 2 == 1 && HasTwoSquareRep(n)
    ensures HasRep(n, true)
  {
    var x, y :| IsRep(n, x, y, false);
    assert x * x + x * x == 2 * (x * x);
    assert IsRep(n, x, y, true);
  }

  // ---------------------------------------------------------------------
  // The two-pointer walk for a representation: every representation (x, y)
  // lies inside the window a <= x, y <= b, and each step shrinks the window.

  ghost predicate WalkBounds(n: int, a: int, b: int, strict: bool)
  {
    forall x: int, y: int :: IsRep(n, x, y, strict) ==> a <= x && y <= b
  }

  lemma SquareLessIff(x: int, y: int)
    requires 0 <= x && 0 <= y
    ensures x < y <==> x * x < y * y
  {
    if x < y {
      SquareStrictMonotone(x, y);
    } else {
      SquareMonotone(y, x);
    }
  }

  /** Starting window: a = 1 and b the integer square root of n - 1. */
  lemma WalkStart(n: int, b: int, strict: bool)
    requires n >= 1 && 0 <= b && b * b <= n - 1 < (b + 1) * (b + 1)
    ensures WalkBounds(n, 1, b, strict)
  {
    forall x: int, y: int | IsRep(n, x, y, strict)
      ensures 1 <= x && y <= b
    {
      MulAtLeastOne(x, x);
      SquareLessIff(y, b + 1);
    }
  }

  /** a*a + b*b is too large: no representation uses b. */
  lemma WalkDown(n: int, a: int, b: int, strict: bool)
    requires WalkBounds(n, a, b, strict) && a >= 1 && a * a + b * b > n
    ensures WalkBounds(n, a, b - 1, strict)
  {
    forall x: int, y: int | IsRep(n, x, y, strict)
      ensures a <= x && y <= b - 1
    {
      SquareMonotone(a, x);
    }
  }

  /** a*a + b*b is too small: no representation uses a. */
  lemma WalkUp(n: int, a: int, b: int, strict: bool)
    requires WalkBounds(n, a, b, strict) && a * a + b * b < n
    ensures WalkBounds(n, a + 1, b, strict)
  {
    forall x: int, y: int | IsRep(n, x, y, strict)
      ensures a + 1 <= x && y <= b
    {
      SquareMonotone(y, b);
    }
  }

  /** The window closed with a >= b: no representation with x < y. */
  lemma WalkExhaustedStrict(n: int, a: int, b: int)
    requires WalkBounds(n, a, b, true) && a >= b
    ensures !HasRep(n, true)
  {
  }

  // ---------------------------------------------------------------------
  // Powers

  lemma {:induction false} PowAdd(b: int, i: nat, j: nat)
    ensures Pow(b, i + j) == Pow(b, i) * Pow(b, j)
    decreases i
  {
    if i > 0 {
      PowAdd(b, i - 1, j);
      assert Pow(b, i + j) == b * Pow(b, i - 1 + j);
    }
  }

  lemma {:induction false} PowMul(b: int, c: int, e: nat)
    ensures Pow(b * c, e) == Pow(b, e) * Pow(c, e)
    decreases e
  {
    if e > 0 {
      PowMul(b, c, e - 1);
      var x, y := Pow(b, e - 1), Pow(c, e - 1);
      calc {
        Pow(b * c, e);
        (b * c) * Pow(b * c, e - 1);
        (b * c) * (x * y);
        { MulRearrange(b, c, x, y); }
        (b * x) * (c * y);
        Pow(b, e) * Pow(c, e);
      }
    }
  }

  lemma {:induction false} PowPositive(b: int, e: nat)
    requires b >= 1
    ensures Pow(b, e) >= 1
    decreases e
  {
    if e > 0 {
      PowPositive(b, e - 1);
      MulAtLeastOne(b, Pow(b, e - 1));
    }
  }

  lemma PowDouble(b: int, e: nat)
    ensures Pow(b, 2 * e) == Pow(b, e) * Pow(b, e)
  {
    PowAdd(b, e, e);
  }

  lemma MulAssoc(a: int, b: int, c: int)
    ensures (a * b) * c == a * (b * c)
  {
  }

  lemma MulRearrange(b: int, c: int, x: int, y: int)
    ensures (b * c) * (x * y) == (b * x) * (c * y)
  {
  }

  lemma MulAtLeastOne(x: int, y: int)
    requires x >= 1 && y >= 1
    ensures x * y >= 1 && x * y >= y && x * y >= x
  {
  }

  // ---------------------------------------------------------------------
  // Squares and integer square roots

  /** (k + 1)^2 = k^2 + 2k + 1: how the walks update a running square. */
  lemma SquareSucc(k: int)
    ensures (k + 1) * (k + 1) == k * k + 2 * k + 1
  {
  }

  lemma SquareMonotone(x: int, y: int)
    requires 0 <= x <= y
    ensures x * x <= y * y
  {
    assert x * x <= x * y <= y * y;
  }

  lemma SquareStrictMonotone(x: int, y: int)
    requires 0 <= x < y
    ensures x * x < y * y
  {
    assert x * x <= x * y < y * y;
  }

  /** Natural numbers strictly between two consecutive squares are not squares. */
  lemma NotSquareBetween(k: int, b: nat)
    requires b * b < k < (b + 1) * (b + 1)
    ensures !IsSquare(k)
  {
    if IsSquare(k) {
      var y: nat :| Sq(y) == k;
      if y <= b {
        SquareMonotone(y, b);
      } else {
        SquareMonotone(b + 1, y);
      }
      assert false;
    }
  }

  /** The largest r with r*r <= n (Python's math.isqrt on a non-negative argument). */
  function Isqrt(n: nat): (r: nat)
    ensures r * r <= n < (r + 1) * (r + 1)
  {
    if n < 4 then (if n == 0 then 0 else 1)
    else
      var s := Isqrt(n / 4);
      IsqrtDouble(n, s);
      if (2 * s + 1) * (2 * s + 1) <= n then 2 * s + 1 else 2 * s
  }

  /** The root of n / 4, doubled, brackets the root of n to within one. */
  lemma IsqrtDouble(n: nat, s: nat)
    requires s * s <= n / 4 < (s + 1) * (s + 1)
    ensures (2 * s) * (2 * s) <= n < (2 * s + 2) * (2 * s + 2)
  {
    var q := n / 4;
    assert n == 4 * q + n % 4;
    assert (2 * s) * (2 * s) == 4 * (s * s);
    assert (2 * s + 2) * (2 * s + 2) == 4 * ((s + 1) * (s + 1));
  }

  /** The integer square root is unique. */
  lemma IsqrtUnique(n: nat, r: nat)
    requires r * r <= n < (r + 1) * (r + 1)
    ensures r == Isqrt(n)
  {
    var s := Isqrt(n);
    if r < s {
      SquareMonotone(r + 1, s);
      assert false;
    } else if s < r {
      SquareMonotone(s + 1, r);
      assert false;
    }
  }

  /** n is a square exactly when its integer square root squares back to it. */
  lemma IsSquareIffIsqrt(n: nat)
    ensures IsSquare(n) <==> Isqrt(n) * Isqrt(n) == n
  {
    IsSquareIffRoot(n, Isqrt(n));
  }

  lemma IsSquareIffRoot(n: nat, r: nat)
    requires r * r <= n < (r + 1) * (r + 1)
    ensures IsSquare(n) <==> r * r == n
  {
    if r * r == n {
      assert Sq(r) == n;
    } else {
      NotSquareBetween(n, r);
    }
  }

  lemma SquareIsSquare(k: int)
    ensures IsSquare(k * k)
  {
    if k >= 0 {
      assert Sq(k) == k * k;
    } else {
      var m: nat := -k;
      assert Sq(m) == k * k;
    }
  }

  // ---------------------------------------------------------------------
  // Divisibility

  lemma MulMod(c: int, d: int)
    requires d > 0
    ensures (c * d) % d == 0 && (d * c) % d == 0
  {
    var q, r := (c * d) / d, (c * d) % d;
    assert c * d == d * q + r && 0 <= r < d;
    assert d * (c - q) == r;
    assert c - q >= 1 ==> d * (c - q) >= d;
    assert c - q <= -1 ==> d * (c - q) <= -d;
  }

  lemma ModOfSum(x: int, y: int, d: int)
    requires d > 0 && x % d == 0 && y % d == 0
    ensures (x + y) % d == 0 && (x - y) % d == 0
  {
    var qx, qy := x / d, y / d;
    assert x == d * qx && y == d * qy;
    assert x + y == d * (qx + qy);
    assert x - y == d * (qx - qy);
    MulMod(qx + qy, d);
    MulMod(qx - qy, d);
  }

  lemma ModAddMultiple(x: int, k: int, d: int)
    requires d > 0
    ensures (x + d * k) % d == x % d
  {
    var q, r := x / d, x % d;
    assert x + d * k == d * (q + k) + r;
    var q', r' := (x + d * k) / d, (x + d * k) % d;
    assert d * (q + k - q') == r' - r;
    assert q + k - q' >= 1 ==> d * (q + k - q') >= d;
    assert q + k - q' <= -1 ==> d * (q + k - q') <= -d;
  }

  /** Quotient and remainder are determined by n == d*q + r with 0 <= r < d. */
  lemma DivModUnique(n: int, d: int, q: int, r: int)
    requires d > 0 && 0 <= r < d && n == d * q + r
    ensures n / d == q && n % d == r
  {
    var q', r' := n / d, n % d;
    assert d * (q - q') == r' - r;
    assert q - q' >= 1 ==> d * (q - q') >= d;
    assert q - q' <= -1 ==> d * (q - q') <= -d;
  }

  /** A square's residue depends only on the residue of its root. */
  lemma ModSquare(k: int, d: int)
    requires d > 0
    ensures (k * k) % d == ((k % d) * (k % d)) % d
  {
    var q, r := k / d, k % d;
    assert k == d * q + r;
    var x := d * q * q + 2 * q * r;
    calc {
      k * k;
      (d * q + r) * (d * q + r);
      (d * q) * (d * q) + 2 * ((d * q) * r) + r * r;
      { MulAssoc(d, q, d * q); MulAssoc(d, q, r); }
      r * r + d * x;
    }
    ModAddMultiple(r * r, x, d);
  }

  lemma DividesTrans(a: int, b: int, c: int)
    requires b > 0 && c > 0 && a % b == 0 && b % c == 0
    ensures a % c == 0
  {
    var x, y := a / b, b / c;
    assert a == b * x && b == c * y;
    assert a == c * (y * x);
    MulMod(y * x, c);
  }

  lemma DividesMultiple(a: int, k: int, d: int)
    requires d > 0 && a % d == 0
    ensures (a * k) % d == 0 && (k * a) % d == 0
  {
    var x := a / d;
    assert a == d * x;
    assert a * k == d * (x * k);
    MulMod(x * k, d);
  }

  lemma DivisorAtMost(n: int, d: int)
    requires n > 0 && d > 0 && n % d == 0
    ensures d <= n
  {
    var k := n / d;
    assert n == d * k;
    assert k <= 0 ==> d * k <= 0;
    MulAtLeastOne(d, k);
  }

  lemma EvenDoesNotDivideOdd(n: int, d: int)
    requires n % 2 == 1 && d > 0 && d % 2 == 0
    ensures n % d != 0
  {
    if n % d == 0 {
      DividesTrans(n, d, 2);
    }
  }

  /** Trial division over odd candidates: an odd n that no number in [2, p)
      divides and odd p does not divide has no divisor in [2, p + 2). */
  lemma OddCandidateStep(n: int, p: int)
    requires n % 2 == 1 && p >= 3 && p % 2 == 1
    requires forall d :: 2 <= d < p ==> n % d != 0
    requires n % p != 0
    ensures forall d :: 2 <= d < p + 2 ==> n % d != 0
    ensures (p + 2) * (p + 2) > p * p
  {
    EvenDoesNotDivideOdd(n, p + 1);
  }

  /** If n has no divisor in [2, k) and k*k > n, then n is prime. */
  lemma NoSmallDivisorMeansPrime(n: int, k: int)
    requires n >= 2 && k >= 2
    requires forall d :: 2 <= d < k ==> n % d != 0
    requires k * k > n
    ensures Prime(n)
  {
    forall d | k <= d < n
      ensures n % d != 0
    {
      NoLargeDivisor(n, k, d);
    }
  }

  /** A divisor d in [k, n) would leave a cofactor in [2, k). */
  lemma NoLargeDivisor(n: int, k: int, d: int)
    requires n >= 2 && 2 <= k <= d < n && k * k > n
    requires forall d' :: 2 <= d' < k ==> n % d' != 0
    ensures n % d != 0
  {
    if n % d == 0 {
      var c := n / d;
      assert n == d * c;
      CofactorBounds(n, d, c, k);
      MulMod(d, c);
    }
  }

  lemma CofactorBounds(n: int, d: int, c: int, k: int)
    requires n == d * c && 2 <= k <= d < n && k * k > n
    ensures 2 <= c < k
  {
    assert c <= 1 ==> d * c <= d;
    assert c >= k ==> d * c >= k * c >= k * k;
  }

  lemma SmallMod(x: int, d: int)
    requires 0 <= x < d
    ensures x % d == x
  {
  }

  /** The least divisor at least 2 of n is prime. */
  lemma LeastDivisorIsPrime(n: int, d: int)
    requires 2 <= d && n > 0 && n % d == 0
    requires forall d' :: 2 <= d' < d ==> n % d' != 0
    ensures Prime(d)
  {
    forall d' | 2 <= d' < d
      ensures d % d' != 0
    {
      if d % d' == 0 {
        DividesTrans(n, d, d');
      }
    }
  }

  /** Both primes, one divides the other: they are equal. */
  lemma PrimeDividesPrime(q: int, p: int)
    requires Prime(q) && Prime(p) && p % q == 0
    ensures q == p
  {
    DivisorAtMost(p, q);
  }

  lemma {:induction false} EuclidCore(q: int, a: int, b: int)
    requires Prime(q) && 0 < a < q
    requires (a * b) % q == 0
    ensures b % q == 0
    decreases a
  {
    if a > 1 {
      var t, r := q / a, q % a;
      assert q == a * t + r;
      assert r != 0;
      assert r * b == q * b - t * (a * b);
      MulMod(b, q);
      DividesMultiple(a * b, t, q);
      ModOfSum(q * b, t * (a * b), q);
      EuclidCore(q, r, b);
    }
  }

  /** Euclid's lemma: a prime dividing a product divides one of the factors. */
  lemma EuclidLemma(q: int, a: int, b: int)
    requires Prime(q) && (a * b) % q == 0
    ensures a % q == 0 || b % q == 0
  {
    var r := a % q;
    if r != 0 {
      var k := a / q;
      assert a == q * k + r;
      assert a * b == r * b + q * (k * b);
      ModAddMultiple(r * b, k * b, q);
      EuclidCore(q, r, b);
    }
  }

  /** A prime dividing p^e, with p prime, is p. */
  lemma {:induction false} PrimeDividesPrimePower(q: int, p: int, e: nat)
    requires Prime(q) && Prime(p) && e >= 1 && Pow(p, e) % q == 0
    ensures q == p
    decreases e
  {
    if e == 1 {
      assert Pow(p, e) == p;
      PrimeDividesPrime(q, p);
    } else {
      EuclidLemma(q, p, Pow(p, e - 1));
      if p % q == 0 {
        PrimeDividesPrime(q, p);
      } else {
        PrimeDividesPrimePower(q, p, e - 1);
      }
    }
  }

  // ---------------------------------------------------------------------
  // A prime above every bound

  function Factorial(n: nat): (r: nat)
    ensures r >= 1
  {
    if n == 0 then 1 else (MulAtLeastOne(n, Factorial(n - 1)); n * Factorial(n - 1))
  }

  lemma {:induction false} FactorialDivisible(n: nat, d: int)
    requires 1 <= d <= n
    ensures Factorial(n) % d == 0
    decreases n
  {
    if d == n {
      MulMod(Factorial(n - 1), n);
    } else {
      FactorialDivisible(n - 1, d);
      DividesMultiple(Factorial(n - 1), n, d);
    }
  }

  /** The least divisor of n that is at least d. */
  ghost function LeastDivisorFrom(n: int, d: int): (r: int)
    requires 2 <= d <= n
    ensures d <= r <= n && n % r == 0
    ensures forall d' :: d <= d' < r ==> n % d' != 0
    decreases n - d
  {
    if n % d == 0 then d else LeastDivisorFrom(n, d + 1)
  }

  /** There is a prime strictly greater than n (Euclid). */
  lemma PrimeAbove(n: int) returns (p: int)
    ensures p > n && Prime(p)
  {
    var m: nat := if n < 1 then 1 else n;
    var big := Factorial(m) + 1;
    p := LeastDivisorFrom(big, 2);
    LeastDivisorIsPrime(big, p);
    SmallMod(1, p);
    if p <= m {
      FactorialDivisible(m, p);
      ModOfSum(big, Factorial(m), p);
    }
  }
}
