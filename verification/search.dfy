/** The search driver of the C port (c/src/search.c): from the factorization
    of m, the factorization of 2*m*m; all representations of 2*m*m as a sum
    of two squares; those with 0 < a < b, squared; and the hand-off to
    constructsquare, which is still a stub that reports nothing found. */
module Search {
  import opened NumberTheory
  import opened Gaussian
  import opened Factorization
  import Squares
  import ParkerSquare

  // ---------------------------------------------------------------------
  // constructsquare

  /** constructsquare: a placeholder in the source that always returns 0. */
  function ConstructSquare(rootmidfac: seq<PrimeFactor>, outerpairs: seq<Pair>): int
  {
    0
  }

  // ---------------------------------------------------------------------
  // twice_squared

  /** twice_squared(out, in, len): every exponent doubled, the exponent of 2
      raised by one more, and (2, 1) appended when 2 is not a key. For keys
      that are distinct this is the factorization of 2*m*m, built exactly as
      the Python getborderpairs builds it: double the exponents, then add one
      factor 2 to the dict. */
  method TwiceSquared(inp: seq<PrimeFactor>) returns (out: seq<PrimeFactor>, len: nat)
    ensures len == |out|
    ensures len == if HasKey(inp, 2) then |inp| else |inp| + 1
    ensures forall i :: 0 <= i < |inp| ==>
              out[i] == PrimeFactor(inp[i].p, 2 * inp[i].e + (if inp[i].p == 2 then 1 else 0))
    ensures !HasKey(inp, 2) ==> out[|inp|] == PrimeFactor(2, 1)
    ensures forall j :: 0 <= j < |out| ==> (j < |inp| && out[j].p == inp[j].p) || out[j].p == 2
    ensures AllPrime(inp) ==> AllPrime(out)
    ensures DistinctKeys(inp) ==> out == DictInc(Doubled(inp), 2)
    ensures DistinctKeys(inp) ==> Value(out) == 2 * (Value(inp) * Value(inp))
  {
    var twofound := false;
    out := [];
    for i := 0 to |inp|
      invariant |out| == i
      invariant forall k :: 0 <= k < i ==>
                  out[k] == PrimeFactor(inp[k].p, 2 * inp[k].e + (if inp[k].p == 2 then 1 else 0))
      invariant twofound <==> exists k :: 0 <= k < i && inp[k].p == 2
    {
      var e := inp[i].e * 2;
      if inp[i].p == 2 {
        e := e + 1;
        twofound := true;
      }
      out := out + [PrimeFactor(inp[i].p, e)];
    }
    if !twofound {
      out := out + [PrimeFactor(2, 1)];
    }
    len := |out|;
    TwiceFacts(inp, out);
  }

  /** What the entry-wise shape of the result implies: its keys, primality,
      and for distinct keys the Python construction and the value. */
  lemma TwiceFacts(inp: seq<PrimeFactor>, out: seq<PrimeFactor>)
    requires |out| == if HasKey(inp, 2) then |inp| else |inp| + 1
    requires forall i :: 0 <= i < |inp| ==>
               out[i] == PrimeFactor(inp[i].p, 2 * inp[i].e + (if inp[i].p == 2 then 1 else 0))
    requires !HasKey(inp, 2) ==> out[|inp|] == PrimeFactor(2, 1)
    ensures forall j :: 0 <= j < |out| ==> (j < |inp| && out[j].p == inp[j].p) || out[j].p == 2
    ensures AllPrime(inp) ==> AllPrime(out)
    ensures DistinctKeys(inp) ==> out == DictInc(Doubled(inp), 2)
    ensures DistinctKeys(inp) ==> Value(out) == 2 * (Value(inp) * Value(inp))
  {
    assert Prime(2);
    if DistinctKeys(inp) {
      TwiceIsDictInc(inp, out);
      ValueDoubled(inp);
    }
  }

  /** The C loop and the Python dict update agree when the keys are distinct. */
  lemma TwiceIsDictInc(inp: seq<PrimeFactor>, out: seq<PrimeFactor>)
    requires DistinctKeys(inp)
    requires |out| == if HasKey(inp, 2) then |inp| else |inp| + 1
    requires forall i :: 0 <= i < |inp| ==>
               out[i] == PrimeFactor(inp[i].p, 2 * inp[i].e + (if inp[i].p == 2 then 1 else 0))
    requires !HasKey(inp, 2) ==> out[|inp|] == PrimeFactor(2, 1)
    ensures out == DictInc(Doubled(inp), 2)
  {
    var d := Doubled(inp);
    var j := IndexOf(d, 2);
    if j < |d| {
      assert HasKey(inp, 2) by {
        assert inp[j].p == 2;
      }
      var r := d[j := PrimeFactor(2, d[j].e + 1)];
      assert DictInc(d, 2) == r;
      forall i | 0 <= i < |inp|
        ensures out[i] == r[i]
      {
        if i != j {
          assert inp[i].p != inp[j].p by {
            if i < j {
            } else {
            }
          }
        }
      }
    } else {
      assert DictInc(d, 2) == d + [PrimeFactor(2, 1)];
    }
  }

  // ---------------------------------------------------------------------
  // square_filter

  /** The pairs square_filter keeps: 0 < a < b. */
  predicate Keep(z: Pair)
  {
    0 < z.first < z.second
  }

  /** (a*a, b*b) */
  function SquaredPair(z: Pair): Pair
  {
    Pair(Sq(z.first), Sq(z.second))
  }

  /** square_filter(pairs, len): the pairs with 0 < a < b, squared, packed to
      the front in their original order; the count is returned. idx records
      where each kept pair came from: it is increasing and names every pair
      that passes the test, so the result is an order-preserving filter. Each
      result is a pair of positive squares, the smaller first, that sums to
      the norm of its source. */
  method SquareFilter(pairs: seq<Pair>) returns (r: seq<Pair>, store: nat, ghost idx: seq<int>)
    ensures store == |r| == |idx| && store <= |pairs|
    ensures forall t :: 0 <= t < |r| ==>
              0 <= idx[t] < |pairs| && Keep(pairs[idx[t]]) && r[t] == SquaredPair(pairs[idx[t]])
    ensures forall s, t :: 0 <= s < t < |idx| ==> idx[s] < idx[t]
    ensures forall k :: 0 <= k < |pairs| && Keep(pairs[k]) ==> k in idx
    ensures forall t :: 0 <= t < |r| ==>
              0 < r[t].first < r[t].second && IsSquare(r[t].first) && IsSquare(r[t].second)
              && r[t].first + r[t].second == Norm(pairs[idx[t]])
  {
    r := [];
    idx := [];
    for get := 0 to |pairs|
      invariant |r| == |idx| <= get
      invariant forall t :: 0 <= t < |r| ==>
                  0 <= idx[t] < get && Keep(pairs[idx[t]]) && r[t] == SquaredPair(pairs[idx[t]])
      invariant forall s, t :: 0 <= s < t < |idx| ==> idx[s] < idx[t]
      invariant forall k :: 0 <= k < get && Keep(pairs[k]) ==> k in idx
    {
      if Keep(pairs[get]) {
        r := r + [SquaredPair(pairs[get])];
        idx := idx + [get];
      }
    }
    store := |r|;
    forall t | 0 <= t < |r|
      ensures 0 < r[t].first < r[t].second && IsSquare(r[t].first) && IsSquare(r[t].second)
    {
      var z := pairs[idx[t]];
      SquareStrictMonotone(z.first, z.second);
      MulAtLeastOne(z.first, z.first);
      SquareIsSquare(z.first);
      SquareIsSquare(z.second);
    }
  }

  // ---------------------------------------------------------------------
  // findparkersquare

  /** findparkersquare(square, rootmidfac, numfac): build the factorization
      of 2*m*m, all its sum-of-two-squares pairs, filter and square them, and
      hand the result (outerpairs) to constructsquare, whose answer is
      returned. When the keys are distinct and Fermat's theorem supplies the
      primes congruent to 1 mod 4, every pair handed over is one of the
      square pairs the Python getsumsquares lists for 2*m*m. */
  method FindParkerSquare(rootmidfac: seq<PrimeFactor>) returns (found: int, outerpairs: seq<Pair>)
    requires AllPrime(rootmidfac)
    ensures found == 0
    ensures DistinctKeys(rootmidfac) && Squares.FermatKeys(rootmidfac) ==>
              forall t :: 0 <= t < |outerpairs| ==>
                outerpairs[t] in ParkerSquare.SquarePairs(2 * (Value(rootmidfac) * Value(rootmidfac)))
  {
    var pairsum, pairsumlen := TwiceSquared(rootmidfac);
    var numpairs := Squares.CountSumSquares(pairsum);
    var borderpairs := Squares.GetSumSquares(seq(numpairs, _ => Pair(0, 0)), pairsum);
    var count;
    ghost var idx;
    outerpairs, count, idx := SquareFilter(borderpairs);
    found := ConstructSquare(rootmidfac, outerpairs);
    if DistinctKeys(rootmidfac) && Squares.FermatKeys(rootmidfac) {
      var n := 2 * (Value(rootmidfac) * Value(rootmidfac));
      assert Squares.FermatKeys(pairsum);
      assert numpairs == |borderpairs|;
      ValuePositive(rootmidfac);
      MulAtLeastOne(Value(rootmidfac), Value(rootmidfac));
      ParkerSquare.SquarePairsSpec(n);
      forall t | 0 <= t < |outerpairs|
        ensures outerpairs[t] in ParkerSquare.SquarePairs(n)
      {
        var z := borderpairs[idx[t]];
        assert Norm(z) == n;
        assert IsRep(n, z.first, z.second, true);
      }
    }
  }
}
