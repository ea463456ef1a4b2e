/** Prime factorizations as the source stores them: a Python dict {p: e} in
    insertion order, or a C array of primefactor_t {p, e}. Both become a
    sequence of PrimeFactor entries. Also Jacobi's two-square count as a
    closed-form reference for the two countsumsquares loops. */
module Factorization {
  import opened NumberTheory

  datatype PrimeFactor = PrimeFactor(p: nat, e: nat)

  /** The product of p^e over all entries, left to right; 1 when empty. */
  function Value(fs: seq<PrimeFactor>): int
  {
    if |fs| == 0 then 1 else Value(fs[..|fs| - 1]) * Pow(fs[|fs| - 1].p, fs[|fs| - 1].e)
  }

  predicate AllPrime(fs: seq<PrimeFactor>)
  {
    forall i :: 0 <= i < |fs| ==> Prime(fs[i].p)
  }

  predicate PositiveExponents(fs: seq<PrimeFactor>)
  {
    forall i :: 0 <= i < |fs| ==> fs[i].e >= 1
  }

  /** Keys strictly increasing, hence pairwise distinct. */
  predicate Ascending(fs: seq<PrimeFactor>)
  {
    forall i, j :: 0 <= i < j < |fs| ==> fs[i].p < fs[j].p
  }

  predicate DistinctKeys(fs: seq<PrimeFactor>)
  {
    forall i, j :: 0 <= i < j < |fs| ==> fs[i].p != fs[j].p
  }

  predicate HasKey(fs: seq<PrimeFactor>, p: int)
  {
    exists i :: 0 <= i < |fs| && fs[i].p == p
  }

  /** fs is the prime factorization of n, keys in ascending order. */
  predicate IsFactorizationOf(fs: seq<PrimeFactor>, n: int)
  {
    AllPrime(fs) && PositiveExponents(fs) && Ascending(fs) && Value(fs) == n
  }

  lemma ValueAppend(fs: seq<PrimeFactor>, f: PrimeFactor)
    ensures Value(fs + [f]) == Value(fs) * Pow(f.p, f.e)
  {
    assert (fs + [f])[..|fs|] == fs;
  }

  /** Extending a prefix by one entry multiplies the value by that entry's power. */
  lemma ValueStep(fs: seq<PrimeFactor>, k: nat)
    requires k < |fs|
    ensures Value(fs[..k + 1]) == Value(fs[..k]) * Pow(fs[k].p, fs[k].e)
  {
    assert fs[..k + 1] == fs[..k] + [fs[k]];
    ValueAppend(fs[..k], fs[k]);
  }

  /** The value also unfolds from the front. */
  lemma {:induction false} ValueCons(fs: seq<PrimeFactor>)
    requires |fs| > 0
    ensures Value(fs) == Pow(fs[0].p, fs[0].e) * Value(fs[1..])
    decreases |fs|
  {
    var n := |fs| - 1;
    if n == 0 {
      assert fs[..0] == [] && fs[1..] == [];
    } else {
      ValueCons(fs[..n]);
      assert fs[..n][1..] == fs[1..][..n - 1];
      assert fs[..n][0] == fs[0];
      assert fs[1..][n - 1] == fs[n];
      MulAssoc(Pow(fs[0].p, fs[0].e), Value(fs[1..][..n - 1]), Pow(fs[n].p, fs[n].e));
    }
  }

  /** Every entry has p >= 1, so the value is at least 1. */
  lemma {:induction false} ValuePositive(fs: seq<PrimeFactor>)
    requires forall i :: 0 <= i < |fs| ==> fs[i].p >= 1
    ensures Value(fs) >= 1
    decreases |fs|
  {
    if |fs| > 0 {
      ValuePositive(fs[..|fs| - 1]);
      PowPositive(fs[|fs| - 1].p, fs[|fs| - 1].e);
      MulAtLeastOne(Value(fs[..|fs| - 1]), Pow(fs[|fs| - 1].p, fs[|fs| - 1].e));
    }
  }

  /** Incrementing the exponent of entry i multiplies the value by its prime. */
  lemma {:induction false} ValueIncAt(fs: seq<PrimeFactor>, i: nat)
    requires i < |fs|
    ensures Value(fs[i := PrimeFactor(fs[i].p, fs[i].e + 1)]) == Value(fs) * fs[i].p
    decreases |fs|
  {
    var gs := fs[i := PrimeFactor(fs[i].p, fs[i].e + 1)];
    var n := |fs| - 1;
    var a, last := Value(fs[..n]), Pow(fs[n].p, fs[n].e);
    assert Value(fs) == a * last;
    if i == n {
      assert gs[..n] == fs[..n];
      assert Pow(fs[i].p, fs[i].e + 1) == fs[i].p * last;
      assert Value(gs) == a * (fs[i].p * last);
      MulAssoc(a, fs[i].p, last);
      MulSwap(a, fs[i].p, last);
    } else {
      assert gs[..n] == fs[..n][i := PrimeFactor(fs[i].p, fs[i].e + 1)];
      ValueIncAt(fs[..n], i);
      assert Value(gs) == (a * fs[i].p) * last;
      MulSwap(a, fs[i].p, last);
    }
  }

  lemma MulSwap(a: int, b: int, c: int)
    ensures (a * b) * c == (a * c) * b
  {
    MulAssoc(a, b, c);
    MulAssoc(a, c, b);
  }

  /** The position of key p, or |fs| when p is absent. */
  function IndexOf(fs: seq<PrimeFactor>, p: int): (i: nat)
    ensures i <= |fs|
    ensures i < |fs| ==> fs[i].p == p
    ensures forall j :: 0 <= j < i ==> fs[j].p != p
  {
    if |fs| == 0 then 0
    else if fs[0].p == p then 0
    else 1 + IndexOf(fs[1..], p)
  }

  /** Python's `factors[p] = factors.get(p, 0) + 1` on an insertion-ordered
      dict: bump the exponent of p in place, or append (p, 1) at the end. */
  function DictInc(fs: seq<PrimeFactor>, p: nat): (r: seq<PrimeFactor>)
    ensures Value(r) == Value(fs) * p
    ensures HasKey(fs, p) ==> |r| == |fs|
    ensures !HasKey(fs, p) ==> r == fs + [PrimeFactor(p, 1)]
    ensures forall j :: 0 <= j < |fs| ==> r[j].p == fs[j].p
    ensures forall j :: 0 <= j < |fs| && fs[j].p != p ==> r[j] == fs[j]
    ensures forall j :: 0 <= j < |r| ==> r[j].e >= 1 || (j < |fs| && r[j] == fs[j])
  {
    var i := IndexOf(fs, p);
    if i < |fs| then
      ValueIncAt(fs, i);
      fs[i := PrimeFactor(p, fs[i].e + 1)]
    else
      ValueAppend(fs, PrimeFactor(p, 1));
      assert Pow(p, 1) == p;
      fs + [PrimeFactor(p, 1)]
  }

  /** Every exponent doubled: the factorization of the square. */
  function Doubled(fs: seq<PrimeFactor>): (r: seq<PrimeFactor>)
    ensures |r| == |fs|
    ensures forall i :: 0 <= i < |fs| ==> r[i] == PrimeFactor(fs[i].p, 2 * fs[i].e)
  {
    seq(|fs|, i requires 0 <= i < |fs| => PrimeFactor(fs[i].p, 2 * fs[i].e))
  }

  /** Doubling exponents keeps the keys prime and the exponents positive. */
  lemma DoubledKeepsPrimes(fs: seq<PrimeFactor>)
    requires AllPrime(fs) && PositiveExponents(fs)
    ensures AllPrime(Doubled(fs)) && PositiveExponents(Doubled(fs))
  {
  }

  /** Counting one more prime keeps the keys prime and the exponents positive. */
  lemma DictIncKeepsPrimes(fs: seq<PrimeFactor>, p: nat)
    requires AllPrime(fs) && PositiveExponents(fs) && Prime(p)
    ensures AllPrime(DictInc(fs, p)) && PositiveExponents(DictInc(fs, p))
  {
    var r := DictInc(fs, p);
    forall j | 0 <= j < |r|
      ensures Prime(r[j].p) && r[j].e >= 1
    {
      if j < |fs| {
        assert r[j].p == fs[j].p;
      }
    }
  }

  lemma {:induction false} ValueDoubled(fs: seq<PrimeFactor>)
    ensures Value(Doubled(fs)) == Value(fs) * Value(fs)
    decreases |fs|
  {
    if |fs| > 0 {
      var n := |fs| - 1;
      assert Doubled(fs)[..n] == Doubled(fs[..n]);
      ValueDoubled(fs[..n]);
      PowDouble(fs[n].p, fs[n].e);
      MulRearrange(Value(fs[..n]), Value(fs[..n]), Pow(fs[n].p, fs[n].e), Pow(fs[n].p, fs[n].e));
    }
  }

  /** A prime that divides the value of a factorization into primes is one of
      its keys (with a positive exponent). */
  lemma {:induction false} PrimeDivisorIsKey(fs: seq<PrimeFactor>, q: int)
    requires AllPrime(fs) && Prime(q) && Value(fs) % q == 0
    ensures exists i :: 0 <= i < |fs| && fs[i].p == q && fs[i].e >= 1
    decreases |fs|
  {
    SmallMod(1, q);
    var n := |fs| - 1;
    var last := Pow(fs[n].p, fs[n].e);
    EuclidLemma(q, Value(fs[..n]), last);
    if Value(fs[..n]) % q == 0 {
      PrimeDivisorIsKey(fs[..n], q);
      var i :| 0 <= i < n && fs[..n][i].p == q && fs[..n][i].e >= 1;
      assert fs[i].p == q;
    } else {
      assert fs[n].e >= 1;
      PrimeDividesPrimePower(q, fs[n].p, fs[n].e);
    }
  }

  // ---------------------------------------------------------------------
  // Trial division: the remaining cofactor m has no divisor below the
  // current candidate i, so a candidate that divides m is prime.

  /** The state of a trial-division loop on n: fs holds the primes divided
      out so far, m is what is left, and no number in [2, i) divides m. */
  predicate TrialState(n: int, m: int, i: int, fs: seq<PrimeFactor>)
  {
    2 <= i && 1 <= m && Value(fs) * m == n
    && (forall d :: 2 <= d < i ==> m % d != 0)
    && AllPrime(fs) && PositiveExponents(fs) && Ascending(fs)
    && (forall j :: 0 <= j < |fs| ==> fs[j].p <= i)
  }

  /** Dividing the cofactor m by its least divisor i records the prime i. */
  lemma TrialDivide(n: int, m: int, i: int, fs: seq<PrimeFactor>)
    requires TrialState(n, m, i, fs) && m % i == 0
    ensures Prime(i) && 1 <= m / i < m
    ensures TrialState(n, m / i, i, DictInc(fs, i))
  {
    DivideCofactor(n, m, i, fs);
    DictIncAscending(fs, i);
    var r := DictInc(fs, i);
    assert AllPrime(r) && PositiveExponents(r);
  }

  /** The arithmetic of one division: value * cofactor is still n, the
      cofactor shrinks, and it still has no divisor below i. */
  lemma DivideCofactor(n: int, m: int, i: int, fs: seq<PrimeFactor>)
    requires 2 <= i && 1 <= m && m % i == 0 && Value(fs) * m == n
    requires forall d :: 2 <= d < i ==> m % d != 0
    ensures Prime(i) && 1 <= m / i < m
    ensures Value(DictInc(fs, i)) * (m / i) == n
    ensures forall d :: 2 <= d < i ==> (m / i) % d != 0
  {
    LeastDivisorIsPrime(m, i);
    var k := m / i;
    QuotientBounds(m, i);
    MulAssoc(Value(fs), i, k);
    forall d | 2 <= d < i
      ensures k % d != 0
    {
      if k % d == 0 {
        DividesTrans(m, k, d);
      }
    }
  }

  /** The quotient by a divisor i >= 2 is a smaller positive divisor. */
  lemma QuotientBounds(m: int, i: int)
    requires 2 <= i && 1 <= m && m % i == 0
    ensures m == i * (m / i) && 1 <= m / i < m && m % (m / i) == 0
  {
    var k := m / i;
    assert m == i * k;
    assert k <= 0 ==> i * k <= 0;
    assert k >= 1 ==> i * k >= 2 * k;
    MulMod(i, k);
  }

  /** A candidate that does not divide m moves on by one. */
  lemma TrialSkip(n: int, m: int, i: int, fs: seq<PrimeFactor>)
    requires TrialState(n, m, i, fs) && m % i != 0
    ensures TrialState(n, m, i + 1, fs)
    ensures (i + 1) * (i + 1) > i * i
  {
    SquareSucc(i);
  }

  /** An odd candidate that does not divide an odd m moves on by two: the even
      number in between cannot divide m either. */
  lemma TrialSkipOdd(n: int, m: int, i: int, fs: seq<PrimeFactor>)
    requires TrialState(n, m, i, fs) && m % i != 0 && m % 2 == 1 && i % 2 == 1
    ensures TrialState(n, m, i + 2, fs)
    ensures (i + 2) * (i + 2) > i * i && (i + 2) % 2 == 1
  {
    OddCandidateStep(m, i);
  }

  /** When i * i exceeds m, what is left is 1 or a prime, and recording it
      completes the factorization of n. */
  lemma TrialFinish(n: int, m: int, i: int, fs: seq<PrimeFactor>)
    requires TrialState(n, m, i, fs) && i * i > m
    ensures m == 1 ==> IsFactorizationOf(fs, n)
    ensures m > 1 ==> Prime(m) && n % m == 0 && IsFactorizationOf(DictInc(fs, m), n)
  {
    if m > 1 {
      NoSmallDivisorMeansPrime(m, i);
      MulMod(1, m);
      CofactorDivisor(n, m, m, fs);
      DictIncAscending(fs, m);
    }
  }

  /** A divisor of the cofactor divides n. */
  lemma CofactorDivisor(n: int, m: int, d: int, fs: seq<PrimeFactor>)
    requires d > 0 && m % d == 0 && Value(fs) * m == n
    ensures n % d == 0
  {
    DividesMultiple(m, Value(fs), d);
  }

  /** Adding key i to ascending keys that are all at most i keeps them ascending. */
  lemma DictIncAscending(fs: seq<PrimeFactor>, i: nat)
    requires Ascending(fs) && forall j :: 0 <= j < |fs| ==> fs[j].p <= i
    ensures Ascending(DictInc(fs, i))
  {
  }

  /** Every key is congruent to 1 mod 4. */
  predicate Keys1Mod4(fs: seq<PrimeFactor>)
  {
    forall j :: 0 <= j < |fs| ==> fs[j].p % 4 == 1
  }

  lemma DictInc1Mod4(fs: seq<PrimeFactor>, p: nat)
    requires Keys1Mod4(fs) && p % 4 == 1
    ensures Keys1Mod4(DictInc(fs, p))
  {
  }

  /** All keys congruent to 1 mod 4 and fs factors n: so is every prime divisor of n. */
  lemma PrimeDivisorsFollowKeys(fs: seq<PrimeFactor>, n: int)
    requires AllPrime(fs) && Value(fs) == n && Keys1Mod4(fs)
    ensures forall q :: Prime(q) && n % q == 0 ==> q % 4 == 1
  {
    forall q | Prime(q) && n % q == 0
      ensures q % 4 == 1
    {
      PrimeDivisorIsKey(fs, q);
    }
  }

  // ---------------------------------------------------------------------
  // Jacobi's two-square count

  /** Some prime congruent to 3 mod 4 occurs to an odd power. */
  predicate HasOddPower3Mod4(fs: seq<PrimeFactor>)
  {
    exists i :: 0 <= i < |fs| && fs[i].p % 4 == 3 && fs[i].e % 2 == 1
  }

  /** The factor one entry contributes to Jacobi's count. */
  function JacobiFactor(f: PrimeFactor): nat
  {
    if f.p % 4 == 1 then f.e + 1 else 1
  }

  /** The product of (e + 1) over the entries with p == 1 (mod 4). */
  function Prod1Mod4(fs: seq<PrimeFactor>): nat
  {
    if |fs| == 0 then 1 else JacobiFactor(fs[0]) * Prod1Mod4(fs[1..])
  }

  /** Jacobi's two-square theorem in closed form: the number of integer pairs
      (a, b), signs and order counted, with a*a + b*b equal to the value. */
  function JacobiCount(fs: seq<PrimeFactor>): nat
  {
    if HasOddPower3Mod4(fs) then 0 else 4 * Prod1Mod4(fs)
  }

  lemma {:induction false} Prod1Mod4Positive(fs: seq<PrimeFactor>)
    ensures Prod1Mod4(fs) >= 1
    decreases |fs|
  {
    if |fs| > 0 {
      Prod1Mod4Positive(fs[1..]);
      MulAtLeastOne(JacobiFactor(fs[0]), Prod1Mod4(fs[1..]));
    }
  }

  lemma {:induction false} Prod1Mod4Snoc(fs: seq<PrimeFactor>, f: PrimeFactor)
    ensures Prod1Mod4(fs + [f]) == Prod1Mod4(fs) * JacobiFactor(f)
    decreases |fs|
  {
    if |fs| > 0 {
      assert (fs + [f])[1..] == fs[1..] + [f];
      assert (fs + [f])[0] == fs[0];
      Prod1Mod4Snoc(fs[1..], f);
      MulAssoc(JacobiFactor(fs[0]), Prod1Mod4(fs[1..]), JacobiFactor(f));
    }
  }

  /** The count is a multiple of 4 (the four units), and zero exactly when a
      prime congruent to 3 mod 4 occurs to an odd power. */
  lemma JacobiCountShape(fs: seq<PrimeFactor>)
    ensures JacobiCount(fs) % 4 == 0
    ensures JacobiCount(fs) == 0 <==> HasOddPower3Mod4(fs)
  {
    Prod1Mod4Positive(fs);
  }
}
