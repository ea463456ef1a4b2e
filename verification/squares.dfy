/** The sum-of-two-squares engine of the C port (c/src/squares.c): Jacobi's
    count, an integer square root by bisection, one representation of a prime
    by a two-pointer walk, all representations of a prime power as products of
    Gaussian integers, and their combination over a whole factorization.
    Arrays of pair_t are sequences of Gaussian.Pair; an array the caller
    passes in to be filled is a sequence argument and the filled array is the
    result. GMP integers and unsigned longs are unbounded here. */
module Squares {
  import opened NumberTheory
  import opened Gaussian
  import opened Factorization
  import opened Outcomes

  // ---------------------------------------------------------------------
  // countsumsquares

  /** countsumsquares(factors, len): start at 4 and multiply by e + 1 for each
      p == 1 (mod 4); stop with 0 at the first p == 3 (mod 4) with odd e. The
      result is Jacobi's closed form. */
  method CountSumSquares(fs: seq<PrimeFactor>) returns (count: nat)
    ensures count == JacobiCount(fs)
    ensures count % 4 == 0 && (count == 0 <==> HasOddPower3Mod4(fs))
  {
    JacobiCountShape(fs);
    count := 4;
    for i := 0 to |fs|
      invariant !HasOddPower3Mod4(fs[..i])
      invariant count == 4 * Prod1Mod4(fs[..i])
    {
      var f := fs[i];
      assert fs[..i + 1] == fs[..i] + [f];
      Prod1Mod4Snoc(fs[..i], f);
      if f.p % 4 == 1 {
        MulAssoc(4, Prod1Mod4(fs[..i]), f.e + 1);
        count := count * (f.e + 1);
      } else if f.p % 4 == 3 && f.e % 2 == 1 {
        assert HasOddPower3Mod4(fs);
        return 0;
      }
      var seen := fs[..i + 1];
      assert !HasOddPower3Mod4(seen) by {
        forall j | 0 <= j < i + 1
          ensures !(seen[j].p % 4 == 3 && seen[j].e % 2 == 1)
        {
          if j < i {
            assert seen[j] == fs[..i][j];
          }
        }
      }
    }
    assert fs[..|fs|] == fs;
  }

  /** The first factorization of the C tests has 64 representations; with 3
      raised to an odd power instead there are none. */
  lemma CountExamples()
    ensures JacobiCount([PrimeFactor(2, 5), PrimeFactor(3, 2), PrimeFactor(5, 1), PrimeFactor(11, 2), PrimeFactor(41, 7)]) == 64
    ensures JacobiCount([PrimeFactor(2, 5), PrimeFactor(3, 3), PrimeFactor(5, 1), PrimeFactor(11, 2), PrimeFactor(41, 7)]) == 0
  {
    var fs1 := [PrimeFactor(2, 5), PrimeFactor(3, 2), PrimeFactor(5, 1), PrimeFactor(11, 2), PrimeFactor(41, 7)];
    var fs2 := [PrimeFactor(2, 5), PrimeFactor(3, 3), PrimeFactor(5, 1), PrimeFactor(11, 2), PrimeFactor(41, 7)];
    assert !HasOddPower3Mod4(fs1) by {
      forall j | 0 <= j < 5
        ensures !(fs1[j].p % 4 == 3 && fs1[j].e % 2 == 1)
      {
      }
    }
    assert fs1[1..][1..][1..][1..][1..] == [];
    assert Prod1Mod4(fs1) == 16;
    assert fs2[1].p % 4 == 3 && fs2[1].e % 2 == 1;
  }

  // ---------------------------------------------------------------------
  // isqrt

  /** isqrt(value): bisection on [low, high) with low*low <= value < high*high. */
  method Isqrt(value: nat) returns (low: nat)
    ensures low * low <= value < (low + 1) * (low + 1)
    ensures low == NumberTheory.Isqrt(value)
  {
    var high: nat := value + 1;
    low := 0;
    SquareMonotone(1, high);
    while low < high - 1
      invariant low < high
      invariant low * low <= value < high * high
      decreases high - low
    {
      var mid := (high + low) / 2;
      if mid * mid <= value {
        low := mid;
      } else {
        high := mid;
      }
    }
    IsqrtUnique(value, low);
  }

  // ---------------------------------------------------------------------
  // primesumsquares

  /** No sum of two squares is congruent to 3 mod 4: squares are 0 or 1 mod 4. */
  lemma SquareMod4(x: int)
    ensures Sq(x) % 4 == 0 || Sq(x) % 4 == 1
  {
    ModSquare(x, 4);
    var r := x % 4;
    if r == 0 {
    } else if r == 1 {
    } else if r == 2 {
      assert r * r == 4;
    } else {
      assert r * r == 9;
    }
  }

  lemma NoRep3Mod4(n: int)
    requires n % 4 == 3
    ensures !HasRep(n, false)
  {
    if HasRep(n, false) {
      var x, y :| IsRep(n, x, y, false);
      SquareMod4(x);
      SquareMod4(y);
      var qx, qy := Sq(x) / 4, Sq(y) / 4;
      assert n == 4 * (qx + qy) + (Sq(x) % 4 + Sq(y) % 4);
      ModAddMultiple(Sq(x) % 4 + Sq(y) % 4, qx + qy, 4);
      assert false;
    }
  }

  /** The closed window a >= b without a hit leaves no representation. */
  lemma WalkMissed(n: int, a: int, b: int)
    requires WalkBounds(n, a, b, false) && a >= b && a * a + b * b != n
    ensures !HasRep(n, false)
  {
  }

  /** The pair the walk of primesumsquares stops on from the window (a, b):
      stop on a hit or once a reaches b; otherwise lower b when a*a + b*b is
      too large and raise a when it is too small. */
  function WalkFrom(prime: int, a: int, b: int): Pair
    decreases b - a
  {
    if a * a + b * b == prime || a >= b then Pair(a, b)
    else if a * a + b * b > prime then WalkFrom(prime, a, b - 1)
    else WalkFrom(prime, a + 1, b)
  }

  /** The walk's start: a = 1 and b = isqrt(prime - 1). */
  function WalkPair(prime: int): Pair
    requires prime >= 1
  {
    WalkFrom(prime, 1, NumberTheory.Isqrt(prime - 1))
  }

  /** The walk of primesumsquares for prime % 4 != 3: a = 1 and b = isqrt(prime
      - 1), then lower b while a*a + b*b is too large and raise a while it is too
      small, until it hits prime or a reaches b. For prime == 1 it stops at once
      on (1, 0). The loop computes WalkPair, and where it stops is what
      WalkOutcome describes. */
  method Walk(prime: nat) returns (a: nat, b: nat)
    requires prime >= 1
    ensures Pair(a, b) == WalkPair(prime)
    ensures WalkOutcome(prime, a, b)
  {
    a := 1;
    var asquared := 1;
    b := Isqrt(prime - asquared);
    var bsquared := b * b;
    WalkInit(prime, b);
    while asquared + bsquared != prime && a < b
      invariant 1 <= a && asquared == a * a && bsquared == b * b
      invariant a <= b || prime == 1
      invariant prime == 1 ==> a == 1 && b == 0
      invariant WalkBounds(prime, a, b, false)
      invariant WalkFrom(prime, a, b) == WalkPair(prime)
      decreases b - a
    {
      if asquared + bsquared > prime {
        WalkDown(prime, a, b, false);
        b := b - 1;
        SquareSucc(b);
        bsquared := bsquared - (b + b + 1);
      } else if asquared + bsquared < prime {
        WalkUp(prime, a, b, false);
        a := a + 1;
        SquareSucc(a - 1);
        asquared := asquared + a + a - 1;
      }
    }
    WalkEnd(prime, a, b);
  }

  /** Where the walk stops: on (1, 0) for prime == 1; on the representation
      with the smallest first component when there is one; and off target
      only when there is none. */
  ghost predicate WalkOutcome(prime: int, a: int, b: int)
  {
    && (prime == 1 ==> a == 1 && b == 0)
    && (prime >= 2 && a * a + b * b == prime ==> IsRep(prime, a, b, false))
    && (a * a + b * b == prime ==> forall x, y :: IsRep(prime, x, y, false) ==> a <= x)
    && (a * a + b * b != prime ==> !HasRep(prime, false))
  }

  lemma WalkInit(prime: int, b: nat)
    requires prime >= 1 && b * b <= prime - 1 < (b + 1) * (b + 1)
    ensures WalkBounds(prime, 1, b, false)
    ensures prime >= 2 ==> b >= 1
    ensures prime == 1 ==> b == 0
  {
    WalkStart(prime, b, false);
    if b >= 1 {
      MulAtLeastOne(b, b);
    }
  }

  lemma WalkEnd(prime: int, a: int, b: int)
    requires prime >= 1 && 1 <= a && (a <= b || prime == 1)
    requires prime == 1 ==> a == 1 && b == 0
    requires WalkBounds(prime, a, b, false)
    requires a * a + b * b == prime || a >= b
    ensures WalkOutcome(prime, a, b)
  {
    if a * a + b * b != prime {
      WalkMissed(prime, a, b);
    }
  }

  /** primesumsquares(out, prime) as written: 0 for prime == 3 (mod 4);
      otherwise it stores the final (a, b) of the walk and returns 1 whether or
      not the walk found prime. For prime >= 2 the stored pair is a
      representation exactly when one exists, and then it is the one with the
      smallest first component. */
  method PrimeSumSquares(prime: nat) returns (found: nat, out: Option<Pair>)
    requires prime >= 1
    ensures prime % 4 == 3 ==> found == 0 && out == None
    ensures prime % 4 != 3 ==> found == 1 && out == Some(WalkPair(prime))
    ensures prime == 1 ==> out == Some(Pair(1, 0))
    ensures prime >= 2 && out.Some? ==> (Norm(out.value) == prime <==> HasRep(prime, false))
    ensures prime >= 2 && out.Some? && Norm(out.value) == prime ==>
              IsRep(prime, out.value.first, out.value.second, false)
              && forall x, y :: IsRep(prime, x, y, false) ==> out.value.first <= x
  {
    if prime % 4 == 3 {
      return 0, None;
    }
    var a, b := Walk(prime);
    return 1, Some(Pair(a, b));
  }

  /** 9 is 1 mod 4 but not a sum of two positive squares. */
  lemma NoRepNine()
    ensures !HasRep(9, false)
  {
    if HasRep(9, false) {
      var x, y :| IsRep(9, x, y, false);
      if y >= 3 {
        SquareMonotone(3, y);
        assert false;
      }
      assert false;
    }
  }

  /** primesumsquares reports a pair for 9 that does not sum to 9: the walk
      ends at (2, 2) with 8. */
  method PrimeSumSquaresOfNine() returns (found: nat, out: Option<Pair>)
    ensures found == 1 && out.Some? && Norm(out.value) != 9
  {
    found, out := PrimeSumSquares(9);
    NoRepNine();
  }

  /** primesumsquares as its comment describes it: return 1 and store the pair
      only when the walk finds one. For prime >= 2 the result is 1 exactly
      when prime is a sum of two positive squares. */
  method PrimeSumSquaresChecked(prime: nat) returns (found: nat, out: Option<Pair>)
    requires prime >= 1
    ensures found == 1 <==> out.Some?
    ensures found == 0 || found == 1
    ensures out.Some? ==> Norm(out.value) == prime
    ensures prime >= 2 ==> (found == 1 <==> HasRep(prime, false))
    ensures prime == 1 ==> out == Some(Pair(1, 0))
    ensures prime >= 2 && out.Some? ==>
              IsRep(prime, out.value.first, out.value.second, false)
              && forall x, y :: IsRep(prime, x, y, false) ==> out.value.first <= x
  {
    if prime % 4 == 3 {
      NoRep3Mod4(prime);
      return 0, None;
    }
    var a, b := Walk(prime);
    if a * a + b * b == prime {
      return 1, Some(Pair(a, b));
    }
    return 0, None;
  }

  /** The C test vectors of primesumsquares: 2 = 1^2 + 1^2, 5 = 1^2 + 2^2,
      13 = 2^2 + 3^2 and 1009 = 15^2 + 28^2; 3, 11 and 1019 are 3 mod 4 and
      give 0. */
  method PrimeSumSquaresExamples() returns (r2: Option<Pair>, r5: Option<Pair>, r13: Option<Pair>,
                                            r1009: Option<Pair>, f3: nat, f11: nat, f1019: nat)
    ensures r2 == Some(Pair(1, 1)) && r5 == Some(Pair(1, 2)) && r13 == Some(Pair(2, 3))
    ensures r1009 == Some(Pair(15, 28))
    ensures f3 == 0 && f11 == 0 && f1019 == 0
  {
    var f2, f5, f13, f1009;
    f2, r2 := PrimeSumSquares(2);
    assert IsRep(2, 1, 1, false);
    RepFirstSmall(2, r2.value.first, r2.value.second, 1);
    f5, r5 := PrimeSumSquares(5);
    assert IsRep(5, 1, 2, false);
    RepFirstSmall(5, r5.value.first, r5.value.second, 1);
    f13, r13 := PrimeSumSquares(13);
    assert IsRep(13, 2, 3, false);
    NotSquareBetween(12, 3);
    RepFirstSmall(13, r13.value.first, r13.value.second, 2);
    f1009, r1009 := PrimeSumSquares(1009);
    assert IsRep(1009, 15, 28, false);
    RepFirstSmall(1009, r1009.value.first, r1009.value.second, 15);
    if r1009.value.first < 15 {
      NoLegBelow15(r1009.value.first);
      assert false;
    }
    RootOf784(r1009.value.second);
    var o3, o11, o1019;
    f3, o3 := PrimeSumSquares(3);
    f11, o11 := PrimeSumSquares(11);
    f1019, o1019 := PrimeSumSquares(1019);
  }

  /** For 1 <= a < 15, 1009 - a^2 lies strictly between two consecutive
      squares, so 15 is the least first component of a representation. */
  lemma NoLegBelow15(a: int)
    requires 1 <= a < 15
    ensures !IsSquare(1009 - Sq(a))
  {
    if a <= 6 {
      assert 31 * 31 < 1009 - Sq(a) < 32 * 32 by {
        SquareMonotone(a, 6);
        SquareMonotone(1, a);
      }
      NotSquareBetween(1009 - Sq(a), 31);
    } else if a <= 10 {
      assert 30 * 30 < 1009 - Sq(a) < 31 * 31 by {
        SquareMonotone(a, 10);
        SquareMonotone(7, a);
      }
      NotSquareBetween(1009 - Sq(a), 30);
    } else if a <= 12 {
      assert 29 * 29 < 1009 - Sq(a) < 30 * 30 by {
        SquareMonotone(a, 12);
        SquareMonotone(11, a);
      }
      NotSquareBetween(1009 - Sq(a), 29);
    } else {
      assert 28 * 28 < 1009 - Sq(a) < 29 * 29 by {
        SquareMonotone(a, 14);
        SquareMonotone(13, a);
      }
      NotSquareBetween(1009 - Sq(a), 28);
    }
  }

  /** 28 is the only positive square root of 784. */
  lemma RootOf784(b: int)
    requires b >= 1 && Sq(b) == 784
    ensures b == 28
  {
    if b < 28 {
      SquareStrictMonotone(b, 28);
    } else if b > 28 {
      SquareStrictMonotone(28, b);
    }
  }

  /** A representation (a, b) of n with a <= c pins b once a is known. */
  lemma RepFirstSmall(n: int, a: int, b: int, c: int)
    requires IsRep(n, a, b, false) && a <= c
    ensures 1 <= a <= c && Sq(b) == n - Sq(a) && b >= 1
  {
  }

  // ---------------------------------------------------------------------
  // diophantus, getunits, diophantus_prod

  /** getunits: the four units 1, i, -1, -i, each the previous one times i,
      which are exactly the Gaussian integers of norm 1. */
  function GetUnits(): (r: seq<Pair>)
    ensures |r| == 4 && r[0] == One
    ensures forall k :: 0 <= k < 3 ==> r[k + 1] == Mul(r[k], I)
    ensures forall z :: Norm(z) == 1 <==> z in r
  {
    UnitsHaveNormOne();
    [Pair(1, 0), Pair(0, 1), Pair(-1, 0), Pair(0, -1)]
  }

  lemma UnitsHaveNormOne()
    ensures forall z :: Norm(z) == 1 <==> z in [Pair(1, 0), Pair(0, 1), Pair(-1, 0), Pair(0, -1)]
  {
    forall z
      ensures Norm(z) == 1 <==> z in [Pair(1, 0), Pair(0, 1), Pair(-1, 0), Pair(0, -1)]
    {
      NormOneIsUnit(z);
    }
  }

  /** Position k of a len1-by-len2 block lies in row k / len2, column k % len2. */
  lemma FlatBounds(k: int, len1: int, len2: int)
    requires 0 <= k < len1 * len2 && 0 <= len1 && 0 <= len2
    ensures len2 > 0 && 0 <= k / len2 < len1 && 0 <= k % len2 < len2
  {
    if len2 == 0 {
      assert false;
    }
    var q := k / len2;
    assert k == len2 * q + k % len2;
    if q >= len1 {
      assert false;
    }
  }

  /** Row i, column j of the block sits at i * len2 + j. */
  lemma FlatIndex(i: int, j: int, len1: int, len2: int)
    requires 0 <= i < len1 && 0 <= j < len2
    ensures 0 <= i * len2 + j < len1 * len2
    ensures (i * len2 + j) / len2 == i && (i * len2 + j) % len2 == j
    ensures i * len2 + len2 <= len1 * len2
  {
    RowEnd(i, len1, len2);
    DivModUnique(i * len2 + j, len2, i, j);
  }

  lemma RowEnd(i: int, len1: int, len2: int)
    requires 0 <= i < len1 && 0 <= len2
    ensures i * len2 + len2 <= len1 * len2
  {
    assert i * len2 + len2 == (i + 1) * len2;
    assert len1 * len2 - (i + 1) * len2 == (len1 - (i + 1)) * len2;
  }

  /** The product diophantus_prod stores at position k. */
  function ProdAt(arr1: seq<Pair>, arr2: seq<Pair>, k: int): (r: Pair)
    requires 0 <= k < |arr1| * |arr2|
    ensures Norm(r) == Norm(arr1[k / |arr2|]) * Norm(arr2[k % |arr2|])
  {
    FlatBounds(k, |arr1|, |arr2|);
    Mul(arr1[k / |arr2|], arr2[k % |arr2|])
  }

  /** diophantus_prod(out, arr1, len1, arr2, len2): for every i and j, in that
      nesting, out[i * len2 + j] = diophantus(arr1[i], arr2[j]); the rest of out
      is left alone. */
  method DiophantusProd(out: seq<Pair>, arr1: seq<Pair>, arr2: seq<Pair>) returns (r: seq<Pair>)
    requires |arr1| * |arr2| <= |out|
    ensures |r| == |out|
    ensures forall k :: 0 <= k < |arr1| * |arr2| ==> r[k] == ProdAt(arr1, arr2, k)
    ensures forall k :: |arr1| * |arr2| <= k < |out| ==> r[k] == out[k]
  {
    r := out;
    for i := 0 to |arr1|
      invariant |r| == |out|
      invariant i * |arr2| <= |arr1| * |arr2|
      invariant forall k :: 0 <= k < i * |arr2| ==> r[k] == ProdAt(arr1, arr2, k)
      invariant forall k :: i * |arr2| <= k < |out| ==> r[k] == out[k]
    {
      if |arr2| > 0 {
        FlatIndex(i, 0, |arr1|, |arr2|);
      }
      for j := 0 to |arr2|
        invariant |r| == |out|
        invariant forall k :: 0 <= k < i * |arr2| + j ==> r[k] == ProdAt(arr1, arr2, k)
        invariant forall k :: i * |arr2| + j <= k < |out| ==> r[k] == out[k]
      {
        var outidx := i * |arr2| + j;
        FlatIndex(i, j, |arr1|, |arr2|);
        r := r[outidx := Mul(arr1[i], arr2[j])];
      }
      assert i * |arr2| + |arr2| == (i + 1) * |arr2|;
    }
  }

  /** Read by row and column: diophantus_prod stores arr1[i] * arr2[j] at
      i * len2 + j. */
  lemma ProdAtRowColumn(arr1: seq<Pair>, arr2: seq<Pair>, i: int, j: int)
    requires 0 <= i < |arr1| && 0 <= j < |arr2|
    ensures 0 <= i * |arr2| + j < |arr1| * |arr2|
    ensures ProdAt(arr1, arr2, i * |arr2| + j) == Mul(arr1[i], arr2[j])
  {
    FlatIndex(i, j, |arr1|, |arr2|);
  }

  /** All of arr1 has norm n1 and all of arr2 has norm n2: every product has
      norm n1 * n2. */
  lemma ProdNorms(arr1: seq<Pair>, arr2: seq<Pair>, n1: int, n2: int)
    requires forall k :: 0 <= k < |arr1| ==> Norm(arr1[k]) == n1
    requires forall k :: 0 <= k < |arr2| ==> Norm(arr2[k]) == n2
    ensures forall k :: 0 <= k < |arr1| * |arr2| ==> Norm(ProdAt(arr1, arr2, k)) == n1 * n2
  {
    forall k | 0 <= k < |arr1| * |arr2|
      ensures Norm(ProdAt(arr1, arr2, k)) == n1 * n2
    {
      FlatBounds(k, |arr1|, |arr2|);
    }
  }

  // ---------------------------------------------------------------------
  // primepowersumsquares

  /** The entry contributes a sum-of-two-squares factor: every representation
      count below relies on p being 2, 1 mod 4 with a representation, or 3
      mod 4. */
  ghost predicate PowerRepresentable(pf: PrimeFactor)
  {
    pf.e == 0 || pf.p == 2 || pf.p % 4 == 3 || HasRep(pf.p, false)
  }

  /** primepowersumsquares(out, pf): the representations of p^e, up to the
      four rotations. e == 0 gives (1, 0); p == 2 gives 2^(e/2) on one or
      both sides; p == 3 (mod 4) gives (p^(e/2), 0) for even e and nothing
      for odd e; otherwise, with base the pair primesumsquares stores for p
      (unchecked: the walk's last pair, a representation only when p has
      one) and rev its swap, the e + 1 products base^i * rev^(e - i). The
      count is the entry's factor in Jacobi's count, and each pair has norm
      p^e when p is representable. */
  method PrimePowerSumSquares(pf: PrimeFactor) returns (count: nat, pairs: seq<Pair>)
    requires pf.p >= 1
    ensures count == |pairs|
    ensures pf.p == 2 || pf.p % 4 == 1 || pf.p % 4 == 3 ==>
              count == (if pf.p % 4 == 3 && pf.e % 2 == 1 then 0 else JacobiFactor(pf))
    ensures pf.p != 2 && pf.p % 4 != 1 && pf.p % 4 != 3 ==> count == pf.e + 1
    ensures PowerRepresentable(pf) ==> forall k :: 0 <= k < count ==> Norm(pairs[k]) == Pow(pf.p, pf.e)
    ensures pf.e >= 1 && pf.p != 2 && pf.p % 4 != 3 ==>
              forall k :: 0 <= k < count ==>
                pairs[k] == Mul(GPow(WalkPair(pf.p), k), GPow(Swap(WalkPair(pf.p)), pf.e - k))
  {
    var p, e := pf.p, pf.e;
    if e == 0 {
      return 1, [One];
    } else if p == 2 && e % 2 == 0 {
      var h := Pow(2, e / 2);
      PowDouble(2, e / 2);
      return 1, [Pair(h, 0)];
    } else if p == 2 && e % 2 == 1 {
      var h := Pow(2, e / 2);
      PowDouble(2, e / 2);
      assert Pow(2, e) == 2 * Pow(2, 2 * (e / 2));
      return 1, [Pair(h, h)];
    } else if p % 4 == 3 && e % 2 == 0 {
      var h := Pow(p, e / 2);
      PowDouble(p, e / 2);
      return 1, [Pair(h, 0)];
    } else if p % 4 == 3 && e % 2 == 1 {
      return 0, [];
    }
    var _, stored := PrimeSumSquares(p);
    var base := stored.value;
    pairs := PowerProducts(base, e);
    count := e + 1;
    if PowerRepresentable(pf) {
      assert p >= 2 ==> HasRep(p, false);
      assert Norm(base) == p;
    }
  }

  /** The swap of a pair: rev in primepowersumsquares. */
  function Swap(z: Pair): (r: Pair)
    ensures Norm(r) == Norm(z)
  {
    Pair(z.second, z.first)
  }

  /** The walk for 9 ends on (2, 2): isqrt(8) is 2, and 1 + 4 is too small. */
  lemma WalkPairOfNine()
    ensures WalkPair(9) == Pair(2, 2)
  {
    IsqrtUnique(8, 2);
    assert WalkFrom(9, 2, 2) == Pair(2, 2);
  }

  /** primepowersumsquares on 9^1 stores two pairs of norm 8: the unchecked
      base (2, 2) is composed as if it represented 9. */
  method PrimePowerOfNine() returns (count: nat, pairs: seq<Pair>)
    ensures count == 2 && |pairs| == 2
    ensures Norm(pairs[0]) == 8 && Norm(pairs[1]) == 8
  {
    count, pairs := PrimePowerSumSquares(PrimeFactor(9, 1));
    WalkPairOfNine();
    ProductNorm(Pair(2, 2), 1, 0);
    ProductNorm(Pair(2, 2), 1, 1);
  }

  /** The general case of primepowersumsquares: with rev the swap of base,
      tmp1[i] = base^i and tmp2[i] = rev^i by repeated diophantus from (1, 0),
      and out[i] = tmp1[i] * tmp2[e - i] for i from 0 to e. Each product has
      the norm of base raised to e. */
  method PowerProducts(base: Pair, e: nat) returns (pairs: seq<Pair>)
    ensures |pairs| == e + 1
    ensures forall k :: 0 <= k <= e ==> pairs[k] == Mul(GPow(base, k), GPow(Swap(base), e - k))
    ensures forall k :: 0 <= k <= e ==> Norm(pairs[k]) == Pow(Norm(base), e)
  {
    var rev := Swap(base);
    var tmp1 := PowerTable(base, e);
    var tmp2 := PowerTable(rev, e);
    pairs := [];
    for i := 0 to e + 1
      invariant |pairs| == i
      invariant forall k :: 0 <= k < i ==> pairs[k] == Mul(GPow(base, k), GPow(rev, e - k))
    {
      pairs := pairs + [Mul(tmp1[i], tmp2[e - i])];
    }
    forall k | 0 <= k <= e
      ensures Norm(pairs[k]) == Pow(Norm(base), e)
    {
      ProductNorm(base, e, k);
    }
  }

  /** z^0, z^1, ..., z^e by repeated diophantus from (1, 0). */
  method PowerTable(z: Pair, e: nat) returns (tmp: seq<Pair>)
    ensures |tmp| == e + 1
    ensures forall k :: 0 <= k <= e ==> tmp[k] == GPow(z, k)
  {
    tmp := [One];
    for i := 1 to e + 1
      invariant |tmp| == i
      invariant forall k :: 0 <= k < i ==> tmp[k] == GPow(z, k)
    {
      tmp := tmp + [Mul(tmp[i - 1], z)];
    }
  }

  /** base^k times the swapped base to the e - k has norm N(base)^e. */
  lemma ProductNorm(base: Pair, e: nat, k: nat)
    requires k <= e
    ensures Norm(Mul(GPow(base, k), GPow(Swap(base), e - k))) == Pow(Norm(base), e)
  {
    var rev := Swap(base);
    assert Norm(rev) == Norm(base);
    PowAdd(Norm(base), k, e - k);
  }

  /** The C test vectors: 2^0, 3^0 and 5^0 give one pair; 2^5 and 2^6 one;
      11^1 none and 11^2 one; 13^5 six and 13^6 seven. */
  method PrimePowerExamples() returns (counts: seq<nat>)
    ensures counts == [1, 1, 1, 1, 1, 0, 1, 6, 7]
  {
    var inputs := [PrimeFactor(2, 0), PrimeFactor(3, 0), PrimeFactor(5, 0), PrimeFactor(2, 5), PrimeFactor(2, 6),
                   PrimeFactor(11, 1), PrimeFactor(11, 2), PrimeFactor(13, 5), PrimeFactor(13, 6)];
    counts := [];
    for i := 0 to 9
      invariant |counts| == i
      invariant forall k :: 0 <= k < i ==> counts[k] == [1, 1, 1, 1, 1, 0, 1, 6, 7][k]
    {
      var c, _ := PrimePowerSumSquares(inputs[i]);
      counts := counts + [c];
    }
  }

  // ---------------------------------------------------------------------
  // getsumsquares

  /** Fermat's two-square theorem for the keys congruent to 1 mod 4. */
  ghost predicate FermatKeys(fs: seq<PrimeFactor>)
  {
    forall j :: 0 <= j < |fs| && fs[j].p % 4 == 1 ==> HasTwoSquareRep(fs[j].p)
  }

  /** Every prime other than 2 is odd, so it is 1 or 3 mod 4. */
  lemma PrimeMod4(p: int)
    requires Prime(p)
    ensures p == 2 || p % 4 == 1 || p % 4 == 3
  {
    if p != 2 {
      assert p % 2 != 0;
      var r := p % 4;
      assert p == r + 2 * (2 * (p / 4));
      ModAddMultiple(r, 2 * (p / 4), 2);
    }
  }

  /** getsumsquares(out, pf, pflen): nothing when countsumsquares is 0;
      otherwise start from the four units and, for each entry, replace the
      running array by its products with the entry's prime-power pairs; then
      copy the running array to the front of out. Exactly Jacobi's count of
      slots are written, the rest of out is left alone, and under Fermat's
      theorem every written pair has norm equal to the factorization's value. */
  method GetSumSquares(out: seq<Pair>, pf: seq<PrimeFactor>) returns (r: seq<Pair>)
    requires AllPrime(pf)
    requires JacobiCount(pf) <= |out|
    ensures |r| == |out|
    ensures forall k :: JacobiCount(pf) <= k < |out| ==> r[k] == out[k]
    ensures FermatKeys(pf) ==> forall k :: 0 <= k < JacobiCount(pf) ==> Norm(r[k]) == Value(pf)
  {
    var c := CountSumSquares(pf);
    if c == 0 {
      return out;
    }
    var running := GetUnits();
    assert pf[..0] == [];
    for i := 0 to |pf|
      invariant |running| == 4 * Prod1Mod4(pf[..i])
      invariant FermatKeys(pf) ==> forall k :: 0 <= k < |running| ==> Norm(running[k]) == Value(pf[..i])
    {
      var f := pf[i];
      assert !(f.p % 4 == 3 && f.e % 2 == 1);
      var tmp := ExtendPairs(running, f, Value(pf[..i]));
      assert pf[..i + 1] == pf[..i] + [f];
      Prod1Mod4Snoc(pf[..i], f);
      MulAssoc(4, Prod1Mod4(pf[..i]), JacobiFactor(f));
      if FermatKeys(pf) {
        PrimeMod4(f.p);
        assert PowerRepresentable(f);
        ValueStep(pf, i);
      }
      running := tmp;
    }
    assert pf[..|pf|] == pf;
    r := CopyFront(out, running);
  }

  /** One pass of the outer loop of getsumsquares: the pairs of one prime
      power, and the products of every running pair with every one of them.
      When the running pairs all have norm v, the products have norm
      v * p^e. */
  method ExtendPairs(running: seq<Pair>, f: PrimeFactor, ghost v: int) returns (tmp: seq<Pair>)
    requires Prime(f.p) && !(f.p % 4 == 3 && f.e % 2 == 1)
    ensures |tmp| == |running| * JacobiFactor(f)
    ensures PowerRepresentable(f) && (forall k :: 0 <= k < |running| ==> Norm(running[k]) == v) ==>
              forall k :: 0 <= k < |tmp| ==> Norm(tmp[k]) == v * Pow(f.p, f.e)
  {
    PrimeMod4(f.p);
    var curlen, cur := PrimePowerSumSquares(f);
    tmp := DiophantusProd(seq(|running| * curlen, _ => Pair(0, 0)), running, cur);
    if PowerRepresentable(f) && (forall k :: 0 <= k < |running| ==> Norm(running[k]) == v) {
      ProdNorms(running, cur, v, Pow(f.p, f.e));
    }
  }

  /** The closing memcpy: src goes to the front of out, the rest is kept. */
  method CopyFront(out: seq<Pair>, src: seq<Pair>) returns (r: seq<Pair>)
    requires |src| <= |out|
    ensures |r| == |out|
    ensures forall k :: 0 <= k < |src| ==> r[k] == src[k]
    ensures forall k :: |src| <= k < |out| ==> r[k] == out[k]
  {
    r := out;
    for i := 0 to |src|
      invariant |r| == |out|
      invariant forall k :: 0 <= k < i ==> r[k] == src[k]
      invariant forall k :: i <= k < |out| ==> r[k] == out[k]
    {
      r := r[i := src[i]];
    }
  }

  /** The C test vector: 2 * 3^2 * 5^3 * 13 = 29250 has 32 representations. */
  lemma GetSumSquaresExample()
    ensures Value([PrimeFactor(2, 1), PrimeFactor(3, 2), PrimeFactor(5, 3), PrimeFactor(13, 1)]) == 29250
    ensures JacobiCount([PrimeFactor(2, 1), PrimeFactor(3, 2), PrimeFactor(5, 3), PrimeFactor(13, 1)]) == 32
  {
    var fs := [PrimeFactor(2, 1), PrimeFactor(3, 2), PrimeFactor(5, 3), PrimeFactor(13, 1)];
    assert Pow(2, 1) == 2 && Pow(3, 2) == 9 && Pow(5, 3) == 125 && Pow(13, 1) == 13;
    assert fs[..0] == [];
    ValueStep(fs, 0);
    ValueStep(fs, 1);
    ValueStep(fs, 2);
    ValueStep(fs, 3);
    assert fs[..4] == fs;
    assert !HasOddPower3Mod4(fs) by {
      forall j | 0 <= j < 4
        ensures !(fs[j].p % 4 == 3 && fs[j].e % 2 == 1)
      {
      }
    }
    assert fs[1..][1..][1..][1..] == [];
  }
}
