/** The Python search for a Parker square (parkersquare.py): a 3x3 magic
    square whose nine entries are perfect squares. The centre is m*m; the
    eight border entries come in opposite pairs (a, b) of squares with
    a + b = 2*m*m. The search finds those pairs, places two of them on the
    diagonals and a third in the middle column so that the top and bottom
    rows balance, then tries to fill in the middle row with squares. */
module ParkerSquare {
  import opened NumberTheory
  import opened Gaussian
  import opened Factorization
  import opened Outcomes
  import Factors

  // ---------------------------------------------------------------------
  // is_square: a residue prefilter modulo 5184, then math.isqrt

  /** The modulus of the prefilter. */
  const CheckMod: int := 5184

  /** The residues of squares modulo CheckMod. */
  const SquareResidues: set<int> := set i | 0 <= i < CheckMod :: (i * i) % CheckMod

  /** Every square passes the prefilter. */
  lemma SquareResidue(k: int)
    ensures (k * k) % CheckMod in SquareResidues
  {
    var r := k % CheckMod;
    ModSquare(k, CheckMod);
    assert 0 <= r < CheckMod;
  }

  /** What the prefilter rejects is not a square. */
  lemma NotResidueNotSquare(n: int)
    requires n % CheckMod !in SquareResidues
    ensures !IsSquare(n)
  {
    if IsSquare(n) {
      var k: nat :| Sq(k) == n;
      SquareResidue(k);
    }
  }

  /** is_square(n). Python's % floors, which for the positive modulus agrees
      with Dafny's, so a negative n gets a residue in [0, CheckMod) too; when
      that residue is a square residue, math.isqrt(n) raises ValueError. */
  function SquareTest(n: int): (r: Result<bool>)
    ensures r.Ok? ==> (r.value <==> IsSquare(n))
    ensures n >= 0 ==> r.Ok?
    ensures n < 0 ==> (r.Raise? <==> n % CheckMod in SquareResidues)
    ensures r.Raise? ==> r.error == ValueError
  {
    if n % CheckMod !in SquareResidues then
      NotResidueNotSquare(n);
      Ok(false)
    else if n < 0 then
      Raise(ValueError)
    else
      IsSquareIffIsqrt(n);
      Ok(Isqrt(n) * Isqrt(n) == n)
  }

  // ---------------------------------------------------------------------
  // factorize: trial division by every i >= 2

  /** The trial-division loop from state (m, i, fs), as a recursion: divide
      out i while it divides m, otherwise move to i + 1; once i*i > m, what is
      left (if above 1) is a prime factor. */
  function FactorFrom(n: int, m: int, i: int, fs: seq<PrimeFactor>): (r: seq<PrimeFactor>)
    requires TrialState(n, m, i, fs)
    ensures IsFactorizationOf(r, n)
    decreases m, m - i * i
  {
    if i * i <= m then
      if m % i == 0 then
        TrialDivide(n, m, i, fs);
        FactorFrom(n, m / i, i, DictInc(fs, i))
      else
        TrialSkip(n, m, i, fs);
        FactorFrom(n, m, i + 1, fs)
    else
      TrialFinish(n, m, i, fs);
      if m > 1 then DictInc(fs, m) else fs
  }

  /** factorize(n): the prime factorization of n in ascending order. For
      n < 1 the loop test and the final test both fail, so the result is
      empty. */
  function Factorize(n: int): (r: seq<PrimeFactor>)
    ensures n >= 1 ==> IsFactorizationOf(r, n)
    ensures n < 1 ==> r == []
  {
    if n < 1 then [] else FactorFrom(n, n, 2, [])
  }

  // ---------------------------------------------------------------------
  // getsumsquares: every (a*a, b*b) with 0 < a < b and a*a + b*b = n

  /** x is the smaller root of a representation n = x*x + y*y with 1 <= x < y. */
  ghost predicate IsLeg(n: int, x: int)
  {
    exists y :: IsRep(n, x, y, true)
  }

  /** The pairs of squares (x*x, n - x*x) for the legs x in [1, hi), by
      increasing x. */
  ghost function Reps(n: int, hi: int): seq<Pair>
    decreases hi
  {
    if hi <= 1 then []
    else Reps(n, hi - 1) + (if IsLeg(n, hi - 1) then [Pair(Sq(hi - 1), n - Sq(hi - 1))] else [])
  }

  /** All the ways of writing n as a sum of two distinct positive squares,
      as pairs of squares with the smaller first, by increasing smaller
      square. Every leg of n is below n. */
  ghost function SquarePairs(n: int): seq<Pair>
  {
    Reps(n, n)
  }

  /** (a, b) are two positive squares, a < b, adding up to n. */
  ghost predicate IsSquarePair(n: int, p: Pair)
  {
    IsSquare(p.first) && IsSquare(p.second) && 0 < p.first < p.second && p.first + p.second == n
  }

  lemma LegPair(n: int, x: int)
    requires IsLeg(n, x)
    ensures IsSquarePair(n, Pair(Sq(x), n - Sq(x)))
  {
    var y :| IsRep(n, x, y, true);
    MulAtLeastOne(x, x);
    SquareStrictMonotone(x, y);
    SquareIsSquare(x);
    SquareIsSquare(y);
  }

  lemma {:induction false} RepsSound(n: int, hi: int)
    ensures forall k :: 0 <= k < |Reps(n, hi)| ==> IsSquarePair(n, Reps(n, hi)[k])
    decreases hi
  {
    if hi > 1 {
      RepsSound(n, hi - 1);
      if IsLeg(n, hi - 1) {
        LegPair(n, hi - 1);
      }
    }
  }

  /** The smaller squares strictly increase, and all lie below hi*hi. */
  lemma {:induction false} RepsOrdered(n: int, hi: int)
    ensures forall k :: 0 <= k < |Reps(n, hi)| ==> Reps(n, hi)[k].first < hi * hi
    ensures forall k1, k2 :: 0 <= k1 < k2 < |Reps(n, hi)| ==> Reps(n, hi)[k1].first < Reps(n, hi)[k2].first
    decreases hi
  {
    if hi > 1 {
      RepsOrdered(n, hi - 1);
      SquareSucc(hi - 1);
    }
  }

  lemma {:induction false} RepsComplete(n: int, hi: int, x: int, y: int)
    requires IsRep(n, x, y, true) && x < hi
    ensures Pair(Sq(x), Sq(y)) in Reps(n, hi)
    decreases hi
  {
    if x == hi - 1 {
      assert IsLeg(n, x);
      assert Reps(n, hi)[|Reps(n, hi)| - 1] == Pair(Sq(x), Sq(y));
    } else {
      RepsComplete(n, hi - 1, x, y);
    }
  }

  lemma {:induction false} RepsLength(n: int, hi: int)
    ensures |Reps(n, hi)| <= if hi <= 1 then 0 else hi - 1
    decreases hi
  {
    if hi > 1 {
      RepsLength(n, hi - 1);
    }
  }

  /** A shorter bound gives a prefix. */
  lemma {:induction false} RepsPrefix(n: int, a: int, hi: int)
    requires a <= hi
    ensures |Reps(n, a)| <= |Reps(n, hi)| && Reps(n, hi)[..|Reps(n, a)|] == Reps(n, a)
    decreases hi - a
  {
    if a < hi && hi > 1 {
      RepsPrefix(n, a, hi - 1);
    }
  }

  /** Without legs in [a, hi) the two bounds give the same list. */
  lemma {:induction false} RepsStable(n: int, a: int, hi: int)
    requires a <= hi && forall x :: a <= x < hi ==> !IsLeg(n, x)
    ensures Reps(n, hi) == Reps(n, a)
    decreases hi - a
  {
    if a < hi && hi > 1 {
      RepsStable(n, a, hi - 1);
    }
  }

  /** The reference list: sound, complete, ordered, and shorter than n. */
  lemma SquarePairsSpec(n: int)
    requires n >= 1
    ensures forall k :: 0 <= k < |SquarePairs(n)| ==> IsSquarePair(n, SquarePairs(n)[k])
    ensures forall x, y :: IsRep(n, x, y, true) ==> Pair(Sq(x), Sq(y)) in SquarePairs(n)
    ensures forall k1, k2 :: 0 <= k1 < k2 < |SquarePairs(n)| ==> SquarePairs(n)[k1].first < SquarePairs(n)[k2].first
    ensures |SquarePairs(n)| < n
  {
    RepsSound(n, n);
    RepsOrdered(n, n);
    RepsLength(n, n);
    forall x, y | IsRep(n, x, y, true)
      ensures Pair(Sq(x), Sq(y)) in SquarePairs(n)
    {
      MulAtLeastOne(x, x);
      MulAtLeastOne(y, y);
      RepsComplete(n, n, x, y);
    }
  }

  /** The state of the two-pointer walk at (a, b): the representation with
      smaller root a has its larger root at most b, and b is too small for
      a - 1. */
  predicate WalkInv(n: int, a: int, b: int)
  {
    1 <= a && 0 <= b && a * a + (b + 1) * (b + 1) > n && (a - 1) * (a - 1) + b * b < n
  }

  lemma WalkInit(n: int)
    requires n >= 1
    ensures WalkInv(n, 1, Isqrt(n - 1))
  {
  }

  /** One step of the walk: a is a leg exactly when a*a + b*b hits n, and the
      next state keeps the invariant. */
  lemma WalkStep(n: int, a: int, b: int)
    requires WalkInv(n, a, b) && a * a < b * b
    ensures a < b
    ensures IsLeg(n, a) <==> a * a + b * b == n
    ensures a * a + b * b >= n ==> WalkInv(n, a + 1, b - 1)
    ensures a * a + b * b < n ==> WalkInv(n, a + 1, b)
    ensures (a + 1) * (a + 1) == a * a + 2 * a + 1 && (b - 1) * (b - 1) == b * b - 2 * b + 1
  {
    SquareLessIff(a, b);
    SquareSucc(a);
    SquareSucc(a - 1);
    SquareSucc(b);
    SquareSucc(b - 1);
    if IsLeg(n, a) {
      var y :| IsRep(n, a, y, true);
      SquareLessIff(y, b + 1);
      if y < b {
        SquareMonotone(y, b - 1);
        assert false;
      }
    }
    if a * a + b * b == n {
      assert IsRep(n, a, b, true);
    }
  }

  /** Once the walk closes (a >= b), no leg remains at or above a. */
  lemma WalkExit(n: int, a: int, b: int)
    requires WalkInv(n, a, b) && a * a >= b * b
    ensures a <= n
    ensures forall x :: a <= x ==> !IsLeg(n, x)
  {
    SquareLessIff(a, b);
    WalkBelow(n, a, b);
    forall x | a <= x
      ensures !IsLeg(n, x)
    {
      if IsLeg(n, x) {
        var y :| IsRep(n, x, y, true);
        SquareMonotone(a, x);
        SquareMonotone(b + 1, y);
        assert false;
      }
    }
  }

  lemma WalkBelow(n: int, a: int, b: int)
    requires WalkInv(n, a, b)
    ensures a <= n
  {
    if a > 1 {
      MulAtLeastOne(a - 1, a - 1);
    }
  }

  /** How many pairs a stopafter value lets through out of m. */
  function Clamp(limit: int, m: nat): (r: nat)
    ensures r <= m && (limit <= 0 ==> r == 0) && (0 <= limit <= m ==> r == limit)
    ensures limit >= m ==> r == m
  {
    if limit <= 0 then 0 else if limit < m then limit else m
  }

  /** getsumsquares(n, stopafter). stopafter defaults to n, which no count
      reaches; n < 1 makes math.isqrt(n - 1) raise ValueError. The result is
      the first stopafter pairs of the complete list, or all of it. */
  method GetSumSquares(n: int, stopafter: Option<int>) returns (r: Result<seq<Pair>>)
    ensures n < 1 ==> r == Raise(ValueError)
    ensures n >= 1 ==> r.Ok? && r.value == SquarePairs(n)[..Clamp(if stopafter.None? then n else stopafter.value, |SquarePairs(n)|)]
    ensures n >= 1 && stopafter.None? ==> r == Ok(SquarePairs(n))
  {
    var limit := if stopafter.None? then n else stopafter.value;
    if n - 1 < 0 {
      return Raise(ValueError);
    }
    var pairs: seq<Pair> := [];
    var a := 1;
    var asq := 1;
    var b: int := Isqrt(n - asq);
    var bsq := b * b;
    var nfound := 0;
    WalkInit(n);
    while asq < bsq && nfound < limit
      invariant WalkInv(n, a, b) && asq == a * a && bsq == b * b
      invariant pairs == Reps(n, a) && nfound == |pairs|
      invariant nfound == 0 || nfound <= limit
      decreases b - a
    {
      WalkStep(n, a, b);
      if asq + bsq == n {
        pairs := pairs + [Pair(asq, bsq)];
        nfound := nfound + 1;
      }
      if asq + bsq >= n {
        b := b - 1;
        bsq := bsq - (b + b + 1);
      }
      a := a + 1;
      asq := asq + a + a - 1;
    }
    WalkBelow(n, a, b);
    RepsPrefix(n, a, n);
    if asq >= bsq {
      WalkExit(n, a, b);
      RepsStable(n, a, n);
    }
    RepsLength(n, n);
    return Ok(pairs);
  }

  // ---------------------------------------------------------------------
  // getborderpairs: the pairs of squares around a centre m*m

  /** The factorization getborderpairs builds for 2*m*m: every exponent of
      m doubled, then the exponent of 2 raised by one. */
  function BorderFactors(m: int): (r: seq<PrimeFactor>)
  {
    DictInc(Doubled(Factorize(m)), 2)
  }

  lemma BorderFactorsValue(m: int)
    requires m >= 1
    ensures Value(BorderFactors(m)) == 2 * m * m
    ensures AllPrime(BorderFactors(m)) && PositiveExponents(BorderFactors(m))
  {
    var fs := Factorize(m);
    assert IsFactorizationOf(fs, m);
    var d := Doubled(fs);
    ValueDoubled(fs);
    DoubledKeepsPrimes(fs);
    assert Prime(2);
    DictIncKeepsPrimes(d, 2);
    TwiceSquare(m, Value(d));
  }

  lemma TwiceSquare(m: int, v: int)
    requires v == m * m
    ensures v * 2 == 2 * m * m
  {
  }

  /** numways: Jacobi's count for 2*m*m, less the four representations with
      a zero square, over the eight orderings and signs of each pair; Python's
      // floors, as Dafny's / does for the positive divisor. */
  function NumWays(m: int): int
  {
    (Factors.CountSumSquares(BorderFactors(m)) - 4) / 8
  }

  /** A centre m < 1 has the empty factorization and no pairs. */
  lemma NumWaysBelowOne(m: int)
    requires m < 1
    ensures NumWays(m) == 0
  {
    assert BorderFactors(m) == [PrimeFactor(2, 1)];
  }

  /** getborderpairs(m): None when fewer than four pairs are predicted;
      otherwise the first numways pairs of squares adding up to 2*m*m, or
      the bare Exception when the walk finds fewer. */
  method GetBorderPairs(m: int) returns (r: Result<Option<seq<Pair>>>)
    ensures r == Ok(None) <==> NumWays(m) < 4
    ensures r.Raise? <==> NumWays(m) >= 4 && |SquarePairs(2 * m * m)| < NumWays(m)
    ensures r.Raise? ==> r.error == CountMismatch
    ensures r.Ok? && r.value.Some? ==> r.value.value == SquarePairs(2 * m * m)[..NumWays(m)]
  {
    var numways := NumWays(m);
    if numways < 4 {
      return Ok(None);
    }
    if m < 1 {
      NumWaysBelowOne(m);
    }
    r := CheckedPairs(m, numways);
  }

  /** The end of getborderpairs, once numways is at least 4: the walk for
      2*m*m stopped after numways pairs, and the bare Exception when it found
      fewer. */
  method CheckedPairs(m: int, numways: int) returns (r: Result<Option<seq<Pair>>>)
    requires m >= 1 && numways >= 4
    ensures r.Raise? <==> |SquarePairs(2 * m * m)| < numways
    ensures r.Raise? ==> r.error == CountMismatch
    ensures r.Ok? ==> r.value.Some? && r.value.value == SquarePairs(2 * m * m)[..numways]
  {
    var n := 2 * m * m;
    TwiceSquarePositive(m);
    var pairs := GetSumSquares(n, Some(numways));
    if |pairs.value| != numways {
      return Raise(CountMismatch);
    }
    return Ok(Some(pairs.value));
  }

  /** Every pair getborderpairs returns is two distinct positive squares adding
      up to 2*m*m, listed by increasing smaller square. */
  lemma BorderPairsAreSquarePairs(m: int, pairs: seq<Pair>)
    requires m >= 1 && 0 <= NumWays(m) <= |SquarePairs(2 * m * m)|
    requires pairs == SquarePairs(2 * m * m)[..NumWays(m)]
    ensures forall k :: 0 <= k < |pairs| ==> IsSquarePair(2 * m * m, pairs[k])
    ensures forall k1, k2 :: 0 <= k1 < k2 < |pairs| ==> pairs[k1].first < pairs[k2].first
  {
    var n := 2 * m * m;
    TwiceSquarePositive(m);
    RepsSound(n, n);
    RepsOrdered(n, n);
    PrefixOfSquarePairs(n, SquarePairs(n), NumWays(m), pairs);
  }

  lemma TwiceSquarePositive(m: int)
    requires m >= 1
    ensures 2 * m * m >= 2
  {
    MulAtLeastOne(m, m);
    TwiceSquare(m, m * m);
  }

  /** A prefix of a sound, ordered list of square pairs is sound and ordered. */
  lemma PrefixOfSquarePairs(n: int, all: seq<Pair>, c: int, pre: seq<Pair>)
    requires 0 <= c <= |all| && pre == all[..c]
    requires forall k :: 0 <= k < |all| ==> IsSquarePair(n, all[k])
    requires forall k1, k2 :: 0 <= k1 < k2 < |all| ==> all[k1].first < all[k2].first
    ensures forall k :: 0 <= k < |pre| ==> IsSquarePair(n, pre[k])
    ensures forall k1, k2 :: 0 <= k1 < k2 < |pre| ==> pre[k1].first < pre[k2].first
  {
    forall k | 0 <= k < c
      ensures pre[k] == all[k]
    {
    }
  }

  // ---------------------------------------------------------------------
  // partialsquares: two pairs on the diagonals, a third in the middle column

  /** A 3x3 grid in row-major order (the Python list of three rows). */
  datatype Grid = Grid(top: seq<int>, middle: seq<int>, bottom: seq<int>)

  predicate WellShaped(g: Grid)
  {
    |g.top| == 3 && |g.middle| == 3 && |g.bottom| == 3
  }

  /** Corners c1 on the main diagonal and c2 on the other, smaller square on
      the top row; the column pair with its larger square on top; the middle
      row still zero. */
  function Place(c1: Pair, c2: Pair, col: Pair): (g: Grid)
    ensures WellShaped(g)
  {
    Grid([c1.first, col.second, c2.first], [0, 0, 0], [c2.second, col.first, c1.second])
  }

  /** The column pair is neither corner pair and the top and bottom rows balance. */
  predicate Fits(c1: Pair, c2: Pair, col: Pair)
  {
    col != c1 && col != c2 && c1.first + col.second + c2.first == c2.second + col.first + c1.second
  }

  /** The three pairs the generator picks for one grid: the two corner pairs
      and the middle-column pair. */
  datatype Choice = Choice(c1: Pair, c2: Pair, col: Pair)

  /** The inner loop: every column pair, in order, that fits the corners. */
  function ColumnChoices(cols: seq<Pair>, c1: Pair, c2: Pair): seq<Choice>
    decreases |cols|
  {
    if |cols| == 0 then []
    else (if Fits(c1, c2, cols[0]) then [Choice(c1, c2, cols[0])] else []) + ColumnChoices(cols[1..], c1, c2)
  }

  /** One row of itertools.combinations(pairs, 2): the corner pairs (i, j),
      (i, j + 1), ... up to the end of the list. */
  function RowChoices(pairs: seq<Pair>, i: nat, j: nat): seq<Choice>
    requires i < |pairs|
    decreases |pairs| - j
  {
    if j >= |pairs| then []
    else ColumnChoices(pairs, pairs[i], pairs[j]) + RowChoices(pairs, i, j + 1)
  }

  /** itertools.combinations(pairs, 2) from row i on, rows in order. */
  function AllChoices(pairs: seq<Pair>, i: nat): seq<Choice>
    decreases |pairs| - i
  {
    if i >= |pairs| then []
    else RowChoices(pairs, i, i + 1) + AllChoices(pairs, i + 1)
  }

  /** The grid of each choice, in order. */
  function Places(cs: seq<Choice>): (gs: seq<Grid>)
    ensures |gs| == |cs|
    ensures forall t :: 0 <= t < |cs| ==> gs[t] == Place(cs[t].c1, cs[t].c2, cs[t].col)
  {
    seq(|cs|, t requires 0 <= t < |cs| => Place(cs[t].c1, cs[t].c2, cs[t].col))
  }

  /** partialsquares(pairs): the grids the generator yields, in order. */
  function PartialSquares(pairs: seq<Pair>): seq<Grid>
  {
    Places(AllChoices(pairs, 0))
  }

  /** Corner pairs i < j and column pair k that the generator accepts. */
  predicate Yields(pairs: seq<Pair>, i: int, j: int, k: int)
  {
    0 <= i < j < |pairs| && 0 <= k < |pairs| && Fits(pairs[i], pairs[j], pairs[k])
  }

  /** Every column pair that fits is chosen: the position where it is. */
  lemma {:induction false} ColumnChoicesHas(cols: seq<Pair>, c1: Pair, c2: Pair, k: int) returns (t: int)
    requires 0 <= k < |cols| && Fits(c1, c2, cols[k])
    ensures 0 <= t < |ColumnChoices(cols, c1, c2)| && ColumnChoices(cols, c1, c2)[t] == Choice(c1, c2, cols[k])
    decreases k
  {
    var head: seq<Choice> := if Fits(c1, c2, cols[0]) then [Choice(c1, c2, cols[0])] else [];
    var tail := ColumnChoices(cols[1..], c1, c2);
    assert ColumnChoices(cols, c1, c2) == head + tail;
    if k == 0 {
      t := 0;
    } else {
      assert cols[1..][k - 1] == cols[k];
      var t' := ColumnChoicesHas(cols[1..], c1, c2, k - 1);
      t := |head| + t';
    }
  }

  /** Every choice of the inner loop is a column pair that fits. */
  lemma {:induction false} ColumnChoicesWitness(cols: seq<Pair>, c1: Pair, c2: Pair, t: int) returns (k: int)
    requires 0 <= t < |ColumnChoices(cols, c1, c2)|
    ensures 0 <= k < |cols| && Fits(c1, c2, cols[k]) && ColumnChoices(cols, c1, c2)[t] == Choice(c1, c2, cols[k])
    decreases |cols|
  {
    var head: seq<Choice> := if Fits(c1, c2, cols[0]) then [Choice(c1, c2, cols[0])] else [];
    var tail := ColumnChoices(cols[1..], c1, c2);
    assert ColumnChoices(cols, c1, c2) == head + tail;
    if t < |head| {
      k := 0;
    } else {
      var k' := ColumnChoicesWitness(cols[1..], c1, c2, t - |head|);
      k := k' + 1;
    }
  }

  lemma {:induction false} RowChoicesHas(pairs: seq<Pair>, i: nat, j: nat, j2: int, k: int) returns (t: int)
    requires i < |pairs| && j <= j2 < |pairs| && 0 <= k < |pairs| && Fits(pairs[i], pairs[j2], pairs[k])
    ensures 0 <= t < |RowChoices(pairs, i, j)| && RowChoices(pairs, i, j)[t] == Choice(pairs[i], pairs[j2], pairs[k])
    decreases j2 - j
  {
    var head := ColumnChoices(pairs, pairs[i], pairs[j]);
    var tail := RowChoices(pairs, i, j + 1);
    assert RowChoices(pairs, i, j) == head + tail;
    if j == j2 {
      t := ColumnChoicesHas(pairs, pairs[i], pairs[j], k);
    } else {
      var t' := RowChoicesHas(pairs, i, j + 1, j2, k);
      t := |head| + t';
    }
  }

  lemma {:induction false} RowChoicesWitness(pairs: seq<Pair>, i: nat, j: nat, t: int) returns (j2: int, k: int)
    requires i < |pairs| && 0 <= t < |RowChoices(pairs, i, j)|
    ensures j <= j2 < |pairs| && 0 <= k < |pairs| && Fits(pairs[i], pairs[j2], pairs[k])
    ensures RowChoices(pairs, i, j)[t] == Choice(pairs[i], pairs[j2], pairs[k])
    decreases |pairs| - j
  {
    var head := ColumnChoices(pairs, pairs[i], pairs[j]);
    var tail := RowChoices(pairs, i, j + 1);
    assert RowChoices(pairs, i, j) == head + tail;
    if t < |head| {
      k := ColumnChoicesWitness(pairs, pairs[i], pairs[j], t);
      j2 := j;
    } else {
      j2, k := RowChoicesWitness(pairs, i, j + 1, t - |head|);
    }
  }

  /** Row i comes first in AllChoices(pairs, i) ... */
  lemma AllChoicesHead(pairs: seq<Pair>, i: nat, t: int)
    requires i < |pairs| && 0 <= t < |RowChoices(pairs, i, i + 1)|
    ensures t < |AllChoices(pairs, i)| && AllChoices(pairs, i)[t] == RowChoices(pairs, i, i + 1)[t]
  {
  }

  /** ... and the later rows follow it. */
  lemma AllChoicesTail(pairs: seq<Pair>, i: nat, t: int)
    requires i < |pairs| && 0 <= t < |AllChoices(pairs, i + 1)|
    ensures |RowChoices(pairs, i, i + 1)| + t < |AllChoices(pairs, i)|
    ensures AllChoices(pairs, i)[|RowChoices(pairs, i, i + 1)| + t] == AllChoices(pairs, i + 1)[t]
  {
  }

  /** A choice with corner pair i is found in row i. */
  lemma AllChoicesHere(pairs: seq<Pair>, i: nat, j2: int, k: int) returns (t: int)
    requires Yields(pairs, i, j2, k)
    ensures 0 <= t < |AllChoices(pairs, i)| && AllChoices(pairs, i)[t] == Choice(pairs[i], pairs[j2], pairs[k])
  {
    t := RowChoicesHas(pairs, i, i + 1, j2, k);
    AllChoicesHead(pairs, i, t);
  }

  lemma {:induction false} AllChoicesHas(pairs: seq<Pair>, i: nat, i2: int, j2: int, k: int) returns (t: int)
    requires i <= i2 && Yields(pairs, i2, j2, k)
    ensures 0 <= t < |AllChoices(pairs, i)| && AllChoices(pairs, i)[t] == Choice(pairs[i2], pairs[j2], pairs[k])
    decreases i2 - i
  {
    if i == i2 {
      t := AllChoicesHere(pairs, i, j2, k);
    } else {
      var t' := AllChoicesHas(pairs, i + 1, i2, j2, k);
      AllChoicesTail(pairs, i, t');
      t := |RowChoices(pairs, i, i + 1)| + t';
    }
  }

  lemma {:induction false} AllChoicesWitness(pairs: seq<Pair>, i: nat, t: int) returns (i2: int, j2: int, k: int)
    requires 0 <= t < |AllChoices(pairs, i)|
    ensures i <= i2 && Yields(pairs, i2, j2, k) && AllChoices(pairs, i)[t] == Choice(pairs[i2], pairs[j2], pairs[k])
    decreases |pairs| - i
  {
    var head := RowChoices(pairs, i, i + 1);
    var tail := AllChoices(pairs, i + 1);
    assert AllChoices(pairs, i) == head + tail;
    if t < |head| {
      j2, k := RowChoicesWitness(pairs, i, i + 1, t);
      i2 := i;
    } else {
      i2, j2, k := AllChoicesWitness(pairs, i + 1, t - |head|);
    }
  }

  lemma PartialSquaresMembership(pairs: seq<Pair>, g: Grid)
    ensures g in PartialSquares(pairs)
        <==> exists i, j, k :: Yields(pairs, i, j, k) && g == Place(pairs[i], pairs[j], pairs[k])
  {
    var cs := AllChoices(pairs, 0);
    if g in PartialSquares(pairs) {
      var t :| 0 <= t < |cs| && g == Places(cs)[t];
      var i, j, k := AllChoicesWitness(pairs, 0, t);
    }
    if exists i, j, k :: Yields(pairs, i, j, k) && g == Place(pairs[i], pairs[j], pairs[k]) {
      var i, j, k :| Yields(pairs, i, j, k) && g == Place(pairs[i], pairs[j], pairs[k]);
      var t := AllChoicesHas(pairs, 0, i, j, k);
      assert Places(cs)[t] == g;
    }
  }

  // ---------------------------------------------------------------------
  // finishsquare: fill the middle row so that every column adds up

  function RowSum(row: seq<int>): int
    requires |row| == 3
  {
    row[0] + row[1] + row[2]
  }

  /** What column c needs in the middle row for its sum to equal the top row's. */
  function Candidate(g: Grid, c: int): int
    requires WellShaped(g) && 0 <= c < 3
  {
    RowSum(g.top) - g.top[c] - g.bottom[c]
  }

  /** The grid with every middle entry set to its candidate. */
  function Completed(g: Grid): (h: Grid)
    requires WellShaped(g)
    ensures WellShaped(h)
  {
    Grid(g.top, [Candidate(g, 0), Candidate(g, 1), Candidate(g, 2)], g.bottom)
  }

  /** finishsquare(square). The source fills the middle row of its argument
      in place and returns it; here the filled grid is returned. A negative
      candidate that passes the residue prefilter makes is_square raise. */
  method FinishSquare(square: Grid) returns (r: Result<(bool, Grid)>)
    requires WellShaped(square)
    ensures r.Raise? <==> exists c :: 0 <= c < 3 && Candidate(square, c) < 0
                                      && Candidate(square, c) % CheckMod in SquareResidues
    ensures r.Raise? ==> r.error == ValueError
    ensures r.Ok? ==> WellShaped(r.value.1) && r.value.1.top == square.top && r.value.1.bottom == square.bottom
    ensures r.Ok? ==> forall c :: 0 <= c < 3 ==>
              r.value.1.middle[c] == if IsSquare(Candidate(square, c)) then Candidate(square, c) else square.middle[c]
    ensures r.Ok? ==> (r.value.0 <==> forall c :: 0 <= c < 3 ==> IsSquare(Candidate(square, c)))
    ensures r.Ok? && r.value.0 ==> r.value.1 == Completed(square)
  {
    var total := square.top[0] + square.top[1] + square.top[2];
    var works := true;
    var middle := square.middle;
    for col := 0 to 3
      invariant |middle| == 3
      invariant forall c :: 0 <= c < col ==>
                  !(Candidate(square, c) < 0 && Candidate(square, c) % CheckMod in SquareResidues)
      invariant forall c :: 0 <= c < col ==>
                  middle[c] == if IsSquare(Candidate(square, c)) then Candidate(square, c) else square.middle[c]
      invariant forall c :: col <= c < 3 ==> middle[c] == square.middle[c]
      invariant works <==> forall c :: 0 <= c < col ==> IsSquare(Candidate(square, c))
    {
      var candidate := total - square.top[col] - square.bottom[col];
      assert candidate == Candidate(square, col);
      var t := SquareTest(candidate);
      if t.Raise? {
        return Raise(t.error);
      }
      if t.value {
        middle := middle[col := candidate];
      } else {
        works := false;
      }
    }
    return Ok((works, Grid(square.top, middle, square.bottom)));
  }

  // ---------------------------------------------------------------------
  // What a successful search finds

  /** Every row, every column and both diagonals add up to the top row's sum. */
  predicate IsMagic(g: Grid)
  {
    WellShaped(g)
    && RowSum(g.middle) == RowSum(g.top) && RowSum(g.bottom) == RowSum(g.top)
    && (forall c :: 0 <= c < 3 ==> g.top[c] + g.middle[c] + g.bottom[c] == RowSum(g.top))
    && g.top[0] + g.middle[1] + g.bottom[2] == RowSum(g.top)
    && g.top[2] + g.middle[1] + g.bottom[0] == RowSum(g.top)
  }

  ghost predicate AllSquares(g: Grid)
  {
    WellShaped(g)
    && forall c :: 0 <= c < 3 ==> IsSquare(g.top[c]) && IsSquare(g.middle[c]) && IsSquare(g.bottom[c])
  }

  /** When every pair adds up to the same n, a yielded grid completed by
      finishsquare is magic: balancing the top and bottom rows is all the
      diagonals need, since opposite entries add up to n. When the pairs are
      pairs of squares and finishsquare reports success, every entry is a
      square: a Parker square proper. */
  lemma FinishedIsMagic(pairs: seq<Pair>, n: int, g: Grid)
    requires forall k :: 0 <= k < |pairs| ==> pairs[k].first + pairs[k].second == n
    requires g in PartialSquares(pairs)
    ensures WellShaped(g) && g.middle == [0, 0, 0] && RowSum(g.top) == RowSum(g.bottom)
    ensures IsMagic(Completed(g))
    ensures (forall k :: 0 <= k < |pairs| ==> IsSquarePair(n, pairs[k]))
            && (forall c :: 0 <= c < 3 ==> IsSquare(Candidate(g, c)))
            ==> AllSquares(Completed(g))
  {
    PartialSquaresMembership(pairs, g);
    var i, j, k :| Yields(pairs, i, j, k) && g == Place(pairs[i], pairs[j], pairs[k]);
    assert pairs[i].first + pairs[i].second == n && pairs[k].first + pairs[k].second == n;
    assert pairs[j].first + pairs[j].second == n;
  }
}
