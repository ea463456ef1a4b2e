/** factors.py: trial-division primality and factorization, Jacobi's count,
    and the sum-of-two-squares engine that composes per-prime solutions with
    Diophantus's identity and checks the result against Jacobi's count. */
module Factors {
  import opened NumberTheory
  import opened Gaussian
  import opened Factorization
  import opened Outcomes

  // ---------------------------------------------------------------------
  // isprime

  /** isprime(n): divide by 2, 3, 5, 7, ... until a divisor is found (not
      prime) or the candidate's square exceeds n (prime). The order of the two
      tests makes 2 composite (2 % 2 == 0) and 1 prime (1 % 2 != 0 and
      2 * 2 > 1); for n <= 1 the answer is just "n is odd". */
  method IsPrime(n: int) returns (r: bool)
    ensures n >= 3 ==> (r <==> Prime(n))
    ensures n == 2 ==> !r
    ensures n <= 1 ==> (r <==> n % 2 == 1)
  {
    var p := 2;
    while true
      invariant p == 2 || (p >= 3 && p % 2 == 1 && n % 2 == 1 && n >= 4)
      invariant forall d :: 2 <= d < p ==> n % d != 0
      invariant n >= 3 ==> p < n
      decreases n - p * p
    {
      if n % p == 0 {
        return false;
      } else if p * p > n {
        if n >= 3 {
          NoSmallDivisorMeansPrime(n, p);
        }
        return true;
      }
      if p == 2 {
        p := 3;
      } else {
        CandidateAdvance(n, p);
        p := p + 2;
      }
    }
  }

  /** Moving from an odd candidate p with p * p <= n to p + 2. */
  lemma CandidateAdvance(n: int, p: int)
    requires n % 2 == 1 && p >= 3 && p % 2 == 1 && p * p <= n
    requires forall d :: 2 <= d < p ==> n % d != 0
    requires n % p != 0
    ensures forall d :: 2 <= d < p + 2 ==> n % d != 0
    ensures (p + 2) * (p + 2) > p * p && p + 2 < n
  {
    OddCandidateStep(n, p);
    assert p * p >= 3 * p;
  }

  /** isprime with the two small cases the source gets wrong put right: false
      below 2 and true for 2; everything else is decided as the source does. */
  method IsPrimeCorrected(n: int) returns (r: bool)
    ensures r <==> Prime(n)
  {
    if n < 2 {
      return false;
    } else if n == 2 {
      return true;
    }
    r := IsPrime(n);
  }

  /** The defect: the as-written test rejects the prime 2 and accepts 1, so
      the primes() generator built on it never yields 2. */
  method IsPrimeSmallCases() returns (two: bool, one: bool)
    ensures Prime(2) && !two
    ensures !Prime(1) && one
  {
    two := IsPrime(2);
    one := IsPrime(1);
  }

  // ---------------------------------------------------------------------
  // factorize1mod4, factorize and getnum

  /** Every prime divisor of n is congruent to 1 mod 4. */
  ghost predicate PrimeDivisorsAre1Mod4(n: int)
  {
    forall q :: Prime(q) && n % q == 0 ==> q % 4 == 1
  }

  /** factorize1mod4(n): None for even n, None as soon as a prime factor not
      congruent to 1 mod 4 turns up, and otherwise the factorization of n. */
  method Factorize1Mod4(n: int) returns (r: Option<seq<PrimeFactor>>)
    ensures n % 2 == 0 ==> r == None
    ensures n % 2 == 1 && n < 0 ==> r == Some([])
    ensures n % 2 == 1 && n >= 1 ==> (r.Some? <==> PrimeDivisorsAre1Mod4(n))
    ensures r.Some? && n >= 1 ==> IsFactorizationOf(r.value, n)
    ensures r.Some? ==> Keys1Mod4(r.value)
  {
    if n % 2 == 0 {
      return None;
    }
    var m, i, fs := n, 3, [];
    if m < 0 {
      // Neither the loop test i * i <= m nor the final m > 1 can hold.
      return Some(fs);
    }
    while i * i <= m
      invariant TrialState(n, m, i, fs) && i >= 3 && i % 2 == 1 && Keys1Mod4(fs)
      decreases m, m - i * i
    {
      assert m % 2 != 0;
      if m % i == 0 {
        TrialDivide(n, m, i, fs);
        if i % 4 == 1 {
          DictInc1Mod4(fs, i);
          fs := DictInc(fs, i);
          m := m / i;
        } else {
          CofactorDivisor(n, m, i, fs);
          return None;
        }
      } else {
        TrialSkipOdd(n, m, i, fs);
        i := i + 2;
      }
    }
    TrialFinish(n, m, i, fs);
    if m > 1 {
      if m % 4 == 1 {
        DictInc1Mod4(fs, m);
        fs := DictInc(fs, m);
      } else {
        return None;
      }
    }
    PrimeDivisorsFollowKeys(fs, n);
    return Some(fs);
  }

  /** The dict {2: k}, or {} when k is 0. */
  function PowerOfTwo(k: nat): (fs: seq<PrimeFactor>)
    ensures Value(fs) == Pow(2, k)
  {
    if k == 0 then [] else
      assert [PrimeFactor(2, k)][..0] == [];
      [PrimeFactor(2, k)]
  }

  /** factorize(n): strip factors of 2, then trial-divide by odd i while
      i * i <= the cofactor, and record a leftover cofactor above 1 as a prime.
      On 0 the first loop never ends, hence the precondition; a negative n
      keeps only its factors of 2. */
  method Factorize(n: int) returns (fs: seq<PrimeFactor>)
    requires n != 0
    ensures n >= 1 ==> IsFactorizationOf(fs, n) && GetNum(fs) == n
    ensures n < 0 ==> |fs| <= 1 && forall j :: 0 <= j < |fs| ==> fs[j].p == 2
  {
    var m := n;
    var k: nat := 0;
    fs := [];
    while m % 2 == 0
      invariant fs == PowerOfTwo(k) && m * Pow(2, k) == n
      invariant (n >= 1 ==> m >= 1) && (n < 0 ==> m < 0)
      decreases if m >= 0 then m else -m
    {
      HalveStep(m, k);
      fs := DictInc(fs, 2);
      m := m / 2;
      k := k + 1;
    }
    if m < 0 {
      // Neither the loop test i * i <= m nor the final m > 1 can hold.
      return;
    }
    var i := 3;
    assert TrialState(n, m, i, fs);
    while i * i <= m
      invariant TrialState(n, m, i, fs) && i >= 3 && i % 2 == 1
      decreases m, m - i * i
    {
      assert m % 2 != 0;
      if m % i == 0 {
        TrialDivide(n, m, i, fs);
        fs := DictInc(fs, i);
        m := m / i;
      } else {
        TrialSkipOdd(n, m, i, fs);
        i := i + 2;
      }
    }
    TrialFinish(n, m, i, fs);
    if m > 1 {
      fs := DictInc(fs, m);
    }
    GetNumIsValue(fs);
  }

  /** One round of the factor-2 loop: halving m and raising the power of 2
      keeps their product. */
  lemma HalveStep(m: int, k: nat)
    requires m % 2 == 0
    ensures DictInc(PowerOfTwo(k), 2) == PowerOfTwo(k + 1)
    ensures (m / 2) * Pow(2, k + 1) == m * Pow(2, k)
    ensures m > 0 ==> 0 < m / 2 < m
    ensures m < 0 ==> m < m / 2 < 0
  {
    assert m == 2 * (m / 2);
    MulAssoc(m / 2, 2, Pow(2, k));
  }

  /** reduce(mul, ...) over the terms after the first, starting from acc. */
  function ReduceMul(acc: int, fs: seq<PrimeFactor>): int
    decreases |fs|
  {
    if |fs| == 0 then acc else ReduceMul(acc * Pow(fs[0].p, fs[0].e), fs[1..])
  }

  /** getnum(factors): 1 for the empty dict, otherwise reduce(mul) of the
      terms p ** e in dict order. */
  function GetNum(fs: seq<PrimeFactor>): int
  {
    if |fs| == 0 then 1 else ReduceMul(Pow(fs[0].p, fs[0].e), fs[1..])
  }

  lemma {:induction false} ReduceMulIsValue(acc: int, fs: seq<PrimeFactor>)
    ensures ReduceMul(acc, fs) == acc * Value(fs)
    decreases |fs|
  {
    if |fs| > 0 {
      ReduceMulIsValue(acc * Pow(fs[0].p, fs[0].e), fs[1..]);
      ValueCons(fs);
      MulAssoc(acc, Pow(fs[0].p, fs[0].e), Value(fs[1..]));
    }
  }

  /** getnum recomputes the value of the factorization. */
  lemma GetNumIsValue(fs: seq<PrimeFactor>)
    ensures GetNum(fs) == Value(fs)
  {
    if |fs| > 0 {
      ReduceMulIsValue(Pow(fs[0].p, fs[0].e), fs[1..]);
      ValueCons(fs);
    }
  }

  // ---------------------------------------------------------------------
  // countsumsquares (parkersquare.py holds an identical copy)

  /** The loop over the dict items from the current entry on, with the running
      product `ways`: a prime congruent to 3 mod 4 with odd exponent ends it
      with 0, a prime congruent to 1 mod 4 multiplies by e + 1. */
  function CountFrom(fs: seq<PrimeFactor>, ways: nat): (r: nat)
    ensures r == if HasOddPower3Mod4(fs) then 0 else ways * Prod1Mod4(fs)
  {
    if |fs| == 0 then ways
    else if fs[0].p % 4 == 3 && fs[0].e % 2 == 1 then 0
    else
      CountFromStep(fs, ways);
      CountFrom(fs[1..], if fs[0].p % 4 == 1 then ways * (fs[0].e + 1) else ways)
  }

  /** An entry that does not end the loop leaves the verdict to the rest and
      moves its factor into the running product. */
  lemma CountFromStep(fs: seq<PrimeFactor>, ways: nat)
    requires |fs| > 0 && !(fs[0].p % 4 == 3 && fs[0].e % 2 == 1)
    ensures HasOddPower3Mod4(fs) <==> HasOddPower3Mod4(fs[1..])
    ensures ways * Prod1Mod4(fs) == (if fs[0].p % 4 == 1 then ways * (fs[0].e + 1) else ways) * Prod1Mod4(fs[1..])
  {
    var rest := fs[1..];
    if HasOddPower3Mod4(fs) {
      var i :| 0 <= i < |fs| && fs[i].p % 4 == 3 && fs[i].e % 2 == 1;
      assert rest[i - 1] == fs[i];
    }
    if HasOddPower3Mod4(rest) {
      var i :| 0 <= i < |rest| && rest[i].p % 4 == 3 && rest[i].e % 2 == 1;
      assert fs[i + 1] == rest[i];
    }
    var f := JacobiFactor(fs[0]);
    ScaleStep(ways, f, Prod1Mod4(rest), if fs[0].p % 4 == 1 then ways * (fs[0].e + 1) else ways);
  }

  lemma ScaleStep(ways: int, f: int, q: int, w: int)
    requires w == ways * f
    ensures ways * (f * q) == w * q
  {
    MulAssoc(ways, f, q);
  }

  /** countsumsquares(factors): Jacobi's count, starting from 4 ways. */
  function CountSumSquares(fs: seq<PrimeFactor>): (r: nat)
    ensures r == JacobiCount(fs)
    ensures r % 4 == 0
    ensures r == 0 <==> HasOddPower3Mod4(fs)
  {
    JacobiCountShape(fs);
    CountFrom(fs, 4)
  }

  // ---------------------------------------------------------------------
  // The sum-of-two-squares engine

  /** _diophantus((a, b), (p, q)) = (ap + bq, aq - bp): the Gaussian product of
      the conjugate of the first pair with the second, so its norm is the
      product of the two norms. */
  function Diophantus(z: Pair, w: Pair): (r: Pair)
    ensures r == Mul(Conj(z), w)
    ensures Norm(r) == Norm(z) * Norm(w)
  {
    Pair(z.first * w.first + z.second * w.second, z.first * w.second - z.second * w.first)
  }

  /** _primesumsquares(p): raises below 2, (1, 1) for 2, None for p == 3 mod 4,
      and otherwise the two-pointer walk from (1, isqrt(p - 1)), which returns
      the representation with 0 < a < b and the least a, or raises when there
      is none. The walk does not test primality: it succeeds exactly when p
      has such a representation. */
  method PrimeSumSquares(p: int) returns (r: Result<Option<Pair>>)
    ensures p < 2 ==> r == Raise(FactorException)
    ensures p == 2 ==> r == Ok(Some(Pair(1, 1)))
    ensures p >= 2 && p % 4 == 3 ==> r == Ok(None)
    ensures p > 2 && p % 4 != 3 ==> (r.Ok? <==> HasRep(p, true))
    ensures p > 2 && p % 4 != 3 && r.Ok? ==>
      r.value.Some? && IsRep(p, r.value.value.first, r.value.value.second, true)
      && forall x, y :: IsRep(p, x, y, true) ==> r.value.value.first <= x
    ensures r.Raise? ==> r.error == FactorException
  {
    if p < 2 {
      return Raise(FactorException);
    } else if p == 2 {
      return Ok(Some(Pair(1, 1)));
    } else if p % 4 == 3 {
      return Ok(None);
    }
    var a, asq := 1, 1;
    var b: int := Isqrt(p - asq);
    var bsq := b * b;
    WalkStart(p, b, true);
    while asq < bsq
      invariant 1 <= a && 0 <= b && asq == a * a && bsq == b * b
      invariant WalkBounds(p, a, b, true)
      decreases b - a
    {
      SquareLessIff(a, b);
      if asq + bsq == p {
        assert IsRep(p, a, b, true);
        return Ok(Some(Pair(a, b)));
      } else if asq + bsq > p {
        WalkDown(p, a, b, true);
        SquareSucc(b - 1);
        b := b - 1;
        bsq := bsq - (b + b + 1);
      } else {
        WalkUp(p, a, b, true);
        SquareSucc(a);
        a := a + 1;
        asq := asq + a + a - 1;
      }
    }
    SquareLessIff(a, b);
    WalkExhaustedStrict(p, a, b);
    return Raise(FactorException);
  }

  /** With Fermat's two-square theorem as hypothesis, the walk succeeds on
      every odd prime congruent to 1 mod 4. */
  lemma PrimeSumSquaresSucceeds(p: int)
    requires Prime(p) && p % 4 == 1 && HasTwoSquareRep(p)
    ensures HasRep(p, true)
  {
    OddRepIsStrict(p);
  }

  /** Every pair in the set has norm n. */
  ghost predicate AllNorm(zs: set<Pair>, n: int)
  {
    forall z {:trigger Norm(z)} :: z in zs ==> Norm(z) == n
  }

  /** {_diophantus(x, y) for x, y in itertools.product(xs, ys)} */
  function DiophantusProduct(xs: set<Pair>, ys: set<Pair>): set<Pair>
  {
    set x, y | x in xs && y in ys :: Diophantus(x, y)
  }

  /** Composing pairs of norm nx with pairs of norm ny gives pairs of norm
      nx * ny, and at least one when both sides have one. */
  lemma DiophantusProductNorms(xs: set<Pair>, ys: set<Pair>, nx: int, ny: int)
    requires AllNorm(xs, nx) && AllNorm(ys, ny)
    ensures AllNorm(DiophantusProduct(xs, ys), nx * ny)
    ensures xs != {} && ys != {} ==> DiophantusProduct(xs, ys) != {}
  {
    if xs != {} && ys != {} {
      var x :| x in xs;
      var y :| y in ys;
      assert Diophantus(x, y) in DiophantusProduct(xs, ys);
    }
  }

  /** {(a * scale, b * scale) for a, b in pairs} */
  function ScaleAll(zs: set<Pair>, s: int): set<Pair>
  {
    set z | z in zs :: Scale(z, s)
  }

  lemma ScaleAllNorms(zs: set<Pair>, s: int, n: int)
    requires AllNorm(zs, n)
    ensures AllNorm(ScaleAll(zs, s), s * s * n)
  {
  }

  /** The eight sign and order variants of (a, b). */
  function SignsAndOrders(a: int, b: int): set<Pair>
  {
    {Pair(a, b), Pair(-a, b), Pair(a, -b), Pair(-a, -b),
     Pair(b, a), Pair(-b, a), Pair(b, -a), Pair(-b, -a)}
  }

  lemma SignsAndOrdersNorms(a: int, b: int)
    ensures AllNorm(SignsAndOrders(a, b), a * a + b * b)
    ensures Pair(a, b) in SignsAndOrders(a, b)
  {
    assert (-a) * (-a) == a * a && (-b) * (-b) == b * b;
    forall z | z in SignsAndOrders(a, b)
      ensures Norm(z) == a * a + b * b
    {
    }
  }

  /** The exponent _primepowersumsquares effectively uses: range(2, e + 1) is
      empty for e <= 1, which leaves the eight pairs of norm p. */
  function EffectiveExponent(e: int): nat
  {
    if e >= 1 then e else 1
  }

  /** _primepowersumsquares(p, e): the empty set for p == 3 mod 4; otherwise
      the eight sign/order variants of _primesumsquares(p), multiplied e - 1
      times more by those eight with _diophantus. Every pair has norm p^e
      (p itself when e <= 1); the exception of _primesumsquares propagates. */
  method PrimePowerSumSquares(p: int, e: int) returns (r: Result<set<Pair>>)
    ensures p % 4 == 3 ==> r == Ok({})
    ensures p % 4 != 3 ==> (r.Ok? <==> p == 2 || (p > 2 && HasRep(p, true)))
    ensures p % 4 != 3 && r.Ok? ==> r.value != {} && AllNorm(r.value, Pow(p, EffectiveExponent(e)))
    ensures r.Raise? ==> r.error == FactorException
  {
    if p % 4 == 3 {
      return Ok({});
    }
    var base := PrimeSumSquares(p);
    if base.Raise? {
      return Raise(base.error);
    }
    var a, b := base.value.value.first, base.value.value.second;
    var basepairs := SignsAndOrders(a, b);
    SignsAndOrdersNorms(a, b);
    var pairs := PowerPairs(basepairs, e, p);
    return Ok(pairs);
  }

  /** The loop of _primepowersumsquares: starting from the base pairs of
      norm p, compose with them once for each k in range(2, e + 1). */
  method PowerPairs(basepairs: set<Pair>, e: int, ghost p: int) returns (pairs: set<Pair>)
    requires basepairs != {} && AllNorm(basepairs, p)
    ensures pairs != {} && AllNorm(pairs, Pow(p, EffectiveExponent(e)))
  {
    pairs := basepairs;
    var k := 2;
    while k <= e
      invariant 2 <= k && (k <= e + 1 || k == 2)
      invariant pairs != {} && AllNorm(pairs, Pow(p, k - 1))
    {
      DiophantusProductNorms(pairs, basepairs, Pow(p, k - 1), p);
      pairs := DiophantusProduct(pairs, basepairs);
      k := k + 1;
    }
  }

  /** The four units, the starting set of getsumsquares. */
  const PyUnits: set<Pair> := {Pair(0, 1), Pair(1, 0), Pair(0, -1), Pair(-1, 0)}

  /** What getsumsquares multiplies into the norm for one dict entry: p^e for
      odd primes (p itself when the exponent is 0 and p == 1 mod 4), and
      nothing for p == 2, which the as-written loop skips; withTwo adds the
      corrected treatment of 2. */
  function FactorNorm(f: PrimeFactor, withTwo: bool): int
  {
    if f.p % 4 == 1 then Pow(f.p, EffectiveExponent(f.e))
    else if f.p % 4 == 3 then Pow(f.p, f.e)
    else if withTwo && f.p == 2 then Pow(2, f.e)
    else 1
  }

  /** The product of FactorNorm over the dict. */
  function ComposedNorm(fs: seq<PrimeFactor>, withTwo: bool): int
  {
    if |fs| == 0 then 1 else ComposedNorm(fs[..|fs| - 1], withTwo) * FactorNorm(fs[|fs| - 1], withTwo)
  }

  lemma ComposedNormStep(fs: seq<PrimeFactor>, i: nat, withTwo: bool)
    requires i < |fs|
    ensures ComposedNorm(fs[..i + 1], withTwo) == ComposedNorm(fs[..i], withTwo) * FactorNorm(fs[i], withTwo)
  {
    assert fs[..i + 1][..i] == fs[..i];
  }

  /** One round of the getsumsquares loop on the entry fs[i]: compose with
      the pairs of p^e when p == 1 mod 4, empty the set and stop at an odd
      power of a prime == 3 mod 4, scale by p^(e/2) at an even power, and
      (withTwo only) multiply by (1 + i)^e when p == 2. */
  method ComposeStep(pairs: set<Pair>, fs: seq<PrimeFactor>, i: nat, withTwo: bool)
    returns (r: Result<set<Pair>>, stop: bool)
    requires i < |fs| && AllNorm(pairs, ComposedNorm(fs[..i], withTwo))
    ensures r.Ok? ==> AllNorm(r.value, ComposedNorm(fs[..i + 1], withTwo))
    ensures stop <==> r.Ok? && fs[i].p % 4 == 3 && fs[i].e % 2 == 1
    ensures stop ==> r.value == {}
    ensures !withTwo && fs[i].p % 2 == 0 ==> r == Ok(pairs)
    ensures r.Raise? ==> r.error == FactorException
  {
    ghost var n := ComposedNorm(fs[..i], withTwo);
    ComposedNormStep(fs, i, withTwo);
    var f := fs[i];
    stop := false;
    if f.p % 4 == 1 {
      var fpairs := PrimePowerSumSquares(f.p, f.e);
      if fpairs.Raise? {
        return Raise(fpairs.error), false;
      }
      DiophantusProductNorms(pairs, fpairs.value, n, FactorNorm(f, withTwo));
      r := Ok(DiophantusProduct(pairs, fpairs.value));
    } else if f.p % 4 == 3 && f.e % 2 == 1 {
      r, stop := Ok({}), true;
    } else if f.p % 4 == 3 && f.e % 2 == 0 {
      var scale := Pow(f.p, f.e / 2);
      PowDouble(f.p, f.e / 2);
      ScaleAllNorms(pairs, scale, n);
      r := Ok(ScaleAll(pairs, scale));
    } else if withTwo && f.p == 2 {
      var g := GPow(Pair(1, 1), f.e);
      assert AllNorm({g}, Pow(2, f.e));
      DiophantusProductNorms(pairs, {g}, n, Pow(2, f.e));
      r := Ok(DiophantusProduct(pairs, {g}));
    } else {
      r := Ok(pairs);
    }
  }

  lemma UnitsNorm(fs: seq<PrimeFactor>, withTwo: bool)
    ensures AllNorm(PyUnits, ComposedNorm(fs[..0], withTwo))
  {
    assert fs[..0] == [];
  }

  /** Every key is even. */
  predicate EvenKeys(fs: seq<PrimeFactor>)
  {
    forall j :: 0 <= j < |fs| ==> fs[j].p % 2 == 0
  }

  /** With only even keys Jacobi's count is 4, the number of units. */
  lemma EvenKeysCount(fs: seq<PrimeFactor>)
    requires EvenKeys(fs)
    ensures CountSumSquares(fs) == |PyUnits| == 4
  {
    EvenKeysProduct(fs);
    assert |{Pair(0, 1)}| == 1;
    assert |{Pair(0, 1), Pair(1, 0)}| == 2;
    assert |{Pair(0, 1), Pair(1, 0), Pair(0, -1)}| == 3;
  }

  lemma {:induction false} EvenKeysProduct(fs: seq<PrimeFactor>)
    requires EvenKeys(fs)
    ensures !HasOddPower3Mod4(fs) && Prod1Mod4(fs) == 1
    decreases |fs|
  {
    if |fs| > 0 {
      EvenKeysProduct(fs[1..]);
      assert fs[0].p % 4 != 1 && fs[0].p % 4 != 3;
    }
  }

  /** The getsumsquares loop followed by the Jacobi gate: raise unless the set
      has exactly countsumsquares(factors) elements. */
  method ComposeSumSquares(fs: seq<PrimeFactor>, withTwo: bool) returns (r: Result<set<Pair>>)
    ensures r.Ok? ==> |r.value| == CountSumSquares(fs)
    ensures r.Ok? ==> AllNorm(r.value, ComposedNorm(fs, withTwo))
    ensures !withTwo && EvenKeys(fs) ==> r == Ok(PyUnits)
    ensures r.Raise? ==> r.error == FactorException
  {
    var pairs := PyUnits;
    var i := 0;
    ghost var stopped := false;
    UnitsNorm(fs, withTwo);
    while i < |fs|
      invariant 0 <= i <= |fs|
      invariant AllNorm(pairs, ComposedNorm(fs[..i], withTwo))
      invariant !withTwo && EvenKeys(fs) ==> pairs == PyUnits
      invariant !stopped
    {
      var step, stop := ComposeStep(pairs, fs, i, withTwo);
      if step.Raise? {
        return step;
      }
      pairs := step.value;
      i := i + 1;
      if stop {
        stopped := true;
        break;
      }
    }
    if !withTwo && EvenKeys(fs) {
      EvenKeysCount(fs);
    }
    if |pairs| != CountSumSquares(fs) {
      return Raise(FactorException);
    }
    if !stopped {
      assert fs[..i] == fs;
    }
    return Ok(pairs);
  }

  /** getsumsquares(factors) as written: the factor 2 is never composed in. */
  method GetSumSquares(fs: seq<PrimeFactor>) returns (r: Result<set<Pair>>)
    ensures r.Ok? ==> |r.value| == CountSumSquares(fs)
    ensures r.Ok? && PositiveExponents(fs) && (forall j :: 0 <= j < |fs| ==> fs[j].p % 2 == 1) ==>
      AllNorm(r.value, Value(fs))
    ensures EvenKeys(fs) ==> r == Ok(PyUnits)
    ensures r.Raise? ==> r.error == FactorException
  {
    r := ComposeSumSquares(fs, false);
    if PositiveExponents(fs) && (forall j :: 0 <= j < |fs| ==> fs[j].p % 2 == 1) {
      ComposedNormIsValue(fs, false);
    }
  }

  /** getsumsquares with 2 handled: for a factorization whose keys are 2 or odd
      with positive exponents, every returned pair has norm equal to the
      number, as the docstring promises. */
  method GetSumSquaresCorrected(fs: seq<PrimeFactor>) returns (r: Result<set<Pair>>)
    ensures r.Ok? ==> |r.value| == CountSumSquares(fs)
    ensures r.Ok? && PositiveExponents(fs) && (forall j :: 0 <= j < |fs| ==> fs[j].p == 2 || fs[j].p % 2 == 1) ==>
      AllNorm(r.value, Value(fs))
    ensures r.Raise? ==> r.error == FactorException
  {
    r := ComposeSumSquares(fs, true);
    if PositiveExponents(fs) && (forall j :: 0 <= j < |fs| ==> fs[j].p == 2 || fs[j].p % 2 == 1) {
      ComposedNormIsValue(fs, true);
    }
  }

  /** For keys that the loop handles and positive exponents, the composed norm
      is the number itself. */
  lemma {:induction false} ComposedNormIsValue(fs: seq<PrimeFactor>, withTwo: bool)
    requires PositiveExponents(fs)
    requires forall j :: 0 <= j < |fs| ==> (withTwo && fs[j].p == 2) || fs[j].p % 2 == 1
    ensures ComposedNorm(fs, withTwo) == Value(fs)
    decreases |fs|
  {
    if |fs| > 0 {
      ComposedNormIsValue(fs[..|fs| - 1], withTwo);
    }
  }

  /** The defect on the smallest even input: for n = 2 = 2^1, getsumsquares
      returns the four units, whose norm is 1, not 2. */
  method GetSumSquaresOfTwo() returns (r: Result<set<Pair>>)
    ensures Value([PrimeFactor(2, 1)]) == 2
    ensures r.Ok? && forall z :: z in r.value ==> Norm(z) == 1
  {
    assert Value([PrimeFactor(2, 1)]) == 2 by {
      assert [PrimeFactor(2, 1)][..0] == [];
    }
    r := GetSumSquares([PrimeFactor(2, 1)]);
  }
}
