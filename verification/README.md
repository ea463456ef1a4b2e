# ParkerSquare in Dafny

This project models the arithmetic core of ParkerSquare, a search for a
"Parker square": a 3x3 magic square whose nine entries are all perfect
squares. The centre of such a square is m*m. The eight border entries come
in opposite pairs (a, b) of squares with a + b = 2*m*m. The search does
three things:

- it counts those pairs with Jacobi's two-square theorem;
- it lists them;
- it tries every way of placing two pairs on the diagonals and a third in
  the middle column, then fills in the middle row.

Three parts of the repository are modelled:

- `factors.py` (module `Factors`): trial-division factorization into a
  dictionary {p: e}, `isprime`, the Jacobi count, a search for a prime as
  a sum of two squares, Diophantus's identity, and the enumeration of
  every pair (a, b) with a^2 + b^2 = n from a factorization.
- `parkersquare.py` (module `ParkerSquare`):
  - `is_square`, with its residue prefilter modulo 5184;
  - the two-pointer walk that lists the square pairs adding up to n;
  - `getborderpairs`, which predicts the number of pairs from the
    factorization of 2*m*m before looking;
  - the `partialsquares` generator and `finishsquare`.
- The C port:
  - `c/src/primes.c` (module `Primes`): `tovalue`, the `tostring`
    renderer with its `snprintf` clipping, `isprime` and `nextprime`.
  - `c/src/squares.c` (module `Squares`): the same sum-of-squares
    machinery on arrays of `pair_t`, including `isqrt` and
    `diophantus_prod`.
  - `c/src/search.c` (module `Search`): `twice_squared`, `square_filter`
    and `findparkersquare`.

Supporting modules:

- `NumberTheory`: primes, squares, powers, the integer square root and
  representations as sums of two squares.
- `Gaussian`: pairs as Gaussian integers. `Mul` is Diophantus's identity
  and `Norm` is a^2 + b^2.
- `Factorization`: a factorization is an ordered sequence of
  `PrimeFactor(p, e)`. It stands for a Python dict in insertion order and
  for a C `primefactor_t` array. The module also holds `Value`, `DictInc`
  (`d[p] = d.get(p, 0) + 1`) and the Jacobi count.
- `Outcomes`: `Result`, which is `Ok` or `Raise` of a Python exception
  class, and `Option`.

Python's `set` results are Dafny `set<Pair>`. C arrays written through an
`out` pointer are sequences: the method returns the new contents.

Fermat's theorem on sums of two squares (every prime p with p % 4 == 1 is
a^2 + b^2) is not proved here. Where a property depends on it, the
property takes it as a hypothesis (`HasTwoSquareRep`, `Squares.FermatKeys`).

## Model

| member | source | states |
|---|---|---|
| Factors.IsPrime | factors.py:13-27 | For n >= 3 the answer is exactly primality. The function answers False for 2, and for n <= 1 it answers "n is odd" (see Findings). |
| Factors.IsPrimeSmallCases | factors.py:21-27 | The Python isprime rejects the prime 2 and accepts the non-prime 1. |
| Factors.IsPrimeCorrected | factors.py:21-27 | With 2 and n < 2 handled first, the same trial division answers exactly "n is prime" for every integer. |
| Factors.Factorize1Mod4 | factors.py:36-59 | Even n gives None and negative odd n gives the empty dict. For n >= 1 the result is Some exactly when every prime divisor of n is 1 mod 4, and then it is a prime factorization of n whose keys are all 1 mod 4. |
| Factors.Factorize | factors.py:62-79 | For n >= 1 the result is a prime factorization of n (primes, positive exponents, distinct ascending keys, value n), and getnum gives n back. For negative n only the key 2 can appear. |
| Factors.GetNumIsValue | factors.py:175-180 | getnum (reduce with mul, 1 for the empty dict) is the value of the factorization. |
| Factors.CountSumSquares | factors.py:82-95 | The count is Jacobi's 4 times the product of (e+1) over keys p = 1 mod 4. It is 0 exactly when some key p = 3 mod 4 has an odd exponent, and it is always a multiple of 4. parkersquare.py:35-48 is an identical copy, modelled by this same member. |
| Factors.Diophantus | factors.py:98-104 | _diophantus is the product of the conjugate of the first pair with the second, so its norm is the product of the two norms. |
| Factors.PrimeSumSquares | factors.py:107-133 | p < 2 raises FactorException. 2 gives (1, 1) and p = 3 mod 4 gives None. Otherwise the walk succeeds exactly when p = a^2 + b^2 with 0 < a < b; it then returns the representation with the least a, and it raises FactorException otherwise. |
| Factors.PrimeSumSquaresSucceeds | factors.py:132-133 | Given Fermat's theorem for p, the search never reaches the raise for a prime p = 1 mod 4. |
| Factors.SignsAndOrdersNorms | factors.py:143 | All eight sign and order variants of (a, b) have norm a^2 + b^2, and (a, b) is among them. |
| Factors.DiophantusProductNorms | factors.py:147 | Combining two sets of pairs with _diophantus multiplies their norms and keeps both sets non-empty. |
| Factors.ScaleAllNorms | factors.py:166-168 | Scaling every pair by s multiplies the norm by s*s. |
| Factors.PowerPairs | factors.py:143-148 | Starting from the non-empty base pairs of p, raising them up to exponent e gives a non-empty set of pairs of norm p^max(e,1). |
| Factors.PrimePowerSumSquares | factors.py:136-148 | p = 3 mod 4 gives the empty set. Otherwise the call succeeds exactly when p is 2 or has a representation 0 < a < b, and then every returned pair has norm p^max(e,1). Failure is a FactorException. |
| Factors.ComposeStep | factors.py:159-168 | One loop step multiplies the norm of every pair by the factor's share: p^max(e,1) for a key 1 mod 4 and p^e for a key 3 mod 4. An odd power of a key 3 mod 4 empties the set and stops the loop. As written, an even key leaves the set unchanged. |
| Factors.ComposeSumSquares | factors.py:158-172 | After the loop and the final check, a successful result has exactly countsumsquares many pairs, each of norm the composed value. A dict with only even keys yields the four units unchanged. |
| Factors.GetSumSquares | factors.py:151-172 | As written. A success has the Jacobi count of pairs. For odd keys every pair has norm n, but keys 2 are skipped, so a dict of even keys yields the four unit pairs (see Findings). |
| Factors.GetSumSquaresOfTwo | factors.py:159-168 | For {2: 1}, whose value is 2, every returned pair has norm 1, not 2. |
| Factors.GetSumSquaresCorrected | factors.py:151-172 | With a factor 2^e composed in as (1 + i)^e, a success has the Jacobi count of pairs, and for prime-power keys 2 or odd every pair has norm n. |
| Factorization.DictInc | factors.py:73 | `d[p] = d.get(p, 0) + 1` multiplies the value by p. It keeps the length when p is a key and appends (p, 1) otherwise, and it changes no other entry. |
| ParkerSquare.SquareResidue | parkersquare.py:10-11 | The square of every integer is a residue modulo 5184 in the precomputed set. |
| ParkerSquare.NotResidueNotSquare | parkersquare.py:15 | A number whose residue is not in the set is not a square, so the prefilter never rejects a square. |
| ParkerSquare.SquareTest | parkersquare.py:13-15 | For n >= 0, is_square is true exactly for perfect squares. A negative n raises ValueError (from math.isqrt) exactly when its residue passes the prefilter, and is False otherwise. |
| ParkerSquare.Factorize | parkersquare.py:19-33 | For n >= 1 the result is a prime factorization of n. For n < 1 it is the empty dict. |
| ParkerSquare.SquarePairsSpec | parkersquare.py:50-57 | The reference list of square pairs of n: each entry (a^2, b^2) has 0 < a < b and a^2 + b^2 = n. Every such representation appears, the entries are strictly ordered by the first square, and there are fewer than n of them. |
| ParkerSquare.GetSumSquares | parkersquare.py:50-75 | n < 1 raises ValueError. Otherwise the walk returns the first min(stopafter, count) square pairs of n, clamped at 0, and all of them when stopafter is None. |
| ParkerSquare.BorderFactorsValue | parkersquare.py:84-86 | Doubling every exponent of factorize(m) and adding one factor 2 gives a prime factorization of 2*m*m. |
| ParkerSquare.NumWaysBelowOne | parkersquare.py:84-88 | For m < 1 the factorization is empty, so numways is 0 and the result is None. |
| ParkerSquare.GetBorderPairs | parkersquare.py:77-93 | None exactly when numways < 4. The count-mismatch exception is raised exactly when 2*m*m has fewer than numways square pairs. Otherwise the result is the first numways square pairs. |
| ParkerSquare.BorderPairsAreSquarePairs | parkersquare.py:77-93 | The pairs getborderpairs returns are pairs of positive squares, smaller first, adding up to 2*m*m, in strictly increasing order. |
| ParkerSquare.PartialSquaresMembership | parkersquare.py:97-123 | The generator yields grid g exactly when corner pairs i < j and a column pair k, different from both corners, balance the top and bottom rows, and g is their placement. |
| ParkerSquare.FinishSquare | parkersquare.py:125-140 | ValueError exactly when some column's candidate is negative and passes the prefilter. Otherwise each middle entry becomes its candidate exactly when that candidate is a square and is kept otherwise. The flag is true exactly when all three are squares, and then the grid is completed. |
| ParkerSquare.FinishedIsMagic | parkersquare.py:97-140 | A yielded grid has a zero middle row and balanced top and bottom rows. Completing it gives a magic square. With square pairs and square candidates, every entry is a square. |
| Primes.ToValue | c/src/primes.c:13-23 | tovalue is the product of p^e over the array, and 1 for the empty array. |
| Primes.ValueExample | c/src/test.c:12-20 | The test factorization 2^5 * 3^2 * 5^1 * 11^2 * 41^7 has value 33933984681025440. |
| Primes.DecimalRoundTrip | c/src/primes.c:37-39 | The %lu rendering of a number reads back as the same number, and it starts with '0' only for 0 itself. |
| Primes.ToString | c/src/primes.c:30-45 | An empty array or a zero buffer stores nothing and returns 0. Otherwise the buffer holds the rendering "p^e * p^e ..." cut to buflen-1 characters. The return value is the full length when it fits. When it does not fit, the return value is the length up to the term that overflowed. |
| Primes.WriteTerms | c/src/primes.c:35-44 | The snprintf loop over terms: it stops once the running length reaches buflen and stores the concatenation clipped to buflen-1 characters. |
| Primes.RenderExample | c/src/test.c:22-28 | The test factorization renders as "2^5 * 3^2 * 5^1 * 11^2 * 41^7". |
| Primes.IsPrime | c/src/primes.c:49-62 | The C isprime, with its incrementally updated p^2, answers exactly "n is prime". |
| Primes.NextPrime | c/src/primes.c:66-72 | nextprime(n) is a prime above n, and no prime lies strictly between them. |
| Squares.CountSumSquares | c/src/squares.c:35-48 | The C count is the Jacobi count: a multiple of 4, and zero exactly when a key 3 mod 4 has an odd exponent. |
| Squares.CountExamples | c/src/test.c:73-80 | The two test factorizations count 64 and 0. |
| Squares.Isqrt | c/src/squares.c:54-67 | The binary search returns the integer square root, low^2 <= value < (low+1)^2. |
| Squares.NoRep3Mod4 | c/src/squares.c:76-77 | A number 3 mod 4 is not a sum of two squares, so returning 0 there loses nothing. |
| Squares.Walk | c/src/squares.c:80-92 | The loop stops on the pair the step rule reaches from (1, isqrt(p - 1)). That pair is a representation with 1 <= a <= b and the least a when p has one. When the pair misses p, p has no representation. |
| Squares.PrimeSumSquares | c/src/squares.c:74-97 | As written. 3 mod 4 returns 0 and stores nothing. Anything else returns 1 and stores the walk's last pair. That pair has norm p exactly when p has a representation, and then it is the one with the least a (see Findings). |
| Squares.PrimeSumSquaresOfNine | c/src/squares.c:84-95 | For 9 the function returns 1 with a pair whose norm is not 9. |
| Squares.WalkPairOfNine | c/src/squares.c:80-92 | The walk for 9 starts at (1, 2) and stops on (2, 2). |
| Squares.PrimeSumSquaresChecked | c/src/squares.c:69-97 | When 1 is returned only for a pair that was actually found, the result is 1 exactly when p has a representation, and then the stored pair has norm p and the least a. |
| Squares.PrimeSumSquaresExamples | c/src/test.c:82-101 | All seven test vectors, on the as-written function: 2 gives (1, 1), 5 gives (1, 2), 13 gives (2, 3) and 1009 gives (15, 28); 3, 11 and 1019 give 0. |
| Squares.GetUnits | c/src/squares.c:188-201 | The four units, each the previous one times i. They are exactly the pairs of norm 1. |
| Gaussian.Mul | c/src/squares.c:99-112 | diophantus is Gaussian multiplication, so the norm of the product is the product of the norms. |
| Gaussian.NormProduct | c/src/squares.c:105-111 | (ac - bd)^2 + (ad + bc)^2 = (a^2 + b^2)(c^2 + d^2). |
| Squares.DiophantusProd | c/src/squares.c:203-216 | Entry i*len2 + j of the output is the product of arr1[i] and arr2[j]. Entries beyond len1*len2 are untouched. |
| Squares.ProdAtRowColumn | c/src/squares.c:208-216 | The flat index i*len2 + j is in range and addresses the product of arr1[i] and arr2[j]. |
| Squares.ProdNorms | c/src/squares.c:203-216 | If every pair in arr1 has norm n1 and every pair in arr2 has norm n2, every product has norm n1*n2. |
| Squares.PowerProducts | c/src/squares.c:158-175 | Entry k is base^k times rev^(e-k), and every entry has norm Norm(base)^e. |
| Squares.PrimePowerSumSquares | c/src/squares.c:114-186 | The count follows the branches: 0 for an odd power of a prime 3 mod 4, e+1 for a prime 1 mod 4 (1 when e is 0), 1 for 2 and for an even power of a prime 3 mod 4, and e+1 for any other base, which falls into the last branch. In that last branch, entry k is base^k * rev^(e-k), where base is the pair the unchecked primesumsquares walk stores for p and rev is its swap. With a representable base, every pair has norm p^e. |
| Squares.PrimePowerOfNine | c/src/squares.c:159-175 | For 9^1 the unchecked base is (2, 2), so primepowersumsquares stores two pairs of norm 8, not 9. |
| Squares.PrimePowerExamples | c/src/test.c:103-123 | The nine test prime powers give counts 1, 1, 1, 1, 1, 0, 1, 6, 7. |
| Squares.ExtendPairs | c/src/squares.c:240-256 | One factor step: the running list grows by the factor's count. If every running pair has norm v, every new pair has norm v*p^e. |
| Squares.GetSumSquares | c/src/squares.c:218-269 | The first countsumsquares entries of out are overwritten and the rest are untouched. Given Fermat's theorem for the keys, every written pair has norm equal to the value of the factorization. |
| Squares.GetSumSquaresExample | c/src/test.c:125-141 | The test factorization of 29250 has 32 pairs. |
| Search.TwiceSquared | c/src/search.c:22-48 | Every exponent is doubled, the exponent of 2 gets one more, and (2, 1) is appended when 2 is absent. The length is len or len+1. For distinct keys the value is 2*m*m, and the result equals the Python dict construction. |
| Search.TwiceIsDictInc | c/src/search.c:29-47 | For distinct keys, the C loop gives the same factorization as doubling the exponents and then adding a factor 2 to the dict. |
| Search.SquareFilter | c/src/search.c:50-70 | The pairs with 0 < a < b, squared, are packed to the front in their original order. Every such pair is kept, and each result is two positive squares, smaller first, adding up to its source's norm. |
| Search.FindParkerSquare | c/src/search.c:72-111 | The result is 0 (constructsquare is a stub). For distinct keys and given Fermat's theorem, every pair handed to constructsquare is one of the square pairs of 2*m*m. |

## Left out

- Fixed-width C arithmetic is not modelled: all `unsigned long` and `size_t` values are unbounded. This affects:
  - `isqrt`'s `value + 1` and `mid * mid`;
  - `a*a` and `b*b` in `primesumsquares`;
  - `nextprime` past the largest `unsigned long`;
  - the `size_t` count in `countsumsquares`.

  GMP integers are unbounded too, so the GMP arithmetic is exact.
- GMP and memory management (`mpz_init`, `mpz_clear`, `malloc`, `free`, `pair_array_init`, `pair_array_clear`) are left out. Arrays become sequences. This means `primepowersumsquares` clearing only `pf.e` of its `pf.e + 1` temporaries (c/src/squares.c:177-178), a leak of one GMP pair each, is not visible in the model.
- Printing and timing are not part of this model: `search`, the `__main__` block and `square_sqrt` in parkersquare.py, and c/src/parkersquare.c with the test printouts of c/src/test.c. The test expectations are stated as the example lemmas above.
- The `primes()` generator and `_countup` of factors.py are not modelled as generators. `Primes.NextPrime` covers enumerating primes.
- The exploration scripts, tests/factor_tests.py and the C headers are not part of this model.
- Fermat's two-square theorem is a hypothesis, not a proof. This affects:
  - `Factors.PrimeSumSquaresSucceeds`;
  - the norm clauses of `Squares.PrimePowerSumSquares`, `Squares.GetSumSquares` and `Search.FindParkerSquare` (via `PowerRepresentable` and `FermatKeys`).
- Factors.GetSumSquares, Factors.GetSumSquaresCorrected and Factors.ComposeSumSquares: their contracts state the count and the norm of every pair. They do not state that the pairs are all distinct or that every representation appears. That would need unique factorization in the Gaussian integers, which is not modelled.
- Squares.GetSumSquares: states the norm of each pair written. It does not state that the pairs are distinct or complete, for the same reason.
- Factors.Factorize: requires n != 0, because the source loops forever dividing 0 by 2.
- ParkerSquare.FinishSquare: the source mutates its argument and returns it. The model returns the filled grid instead.
- Search.FindParkerSquare: `constructsquare` in c/src/search.c is a stub that returns 0, and it is modelled as exactly that. The square it would fill (`square`) is not modelled.
- Primes.ToString: the snprintf formatting is split into rendering each term (`Terms`) and writing the clipped concatenation (`WriteTerms`). The bytes stored past the terminating NUL are not modelled.
- Factors.PrimePowerSumSquares: Python sets of tuples are modelled as sets of pairs, and only the norm of each pair is stated, not how many pairs the set holds.

## Findings

| source | as written | input that shows it | evidently intended | confidence | as-written member | corrected member |
|---|---|---|---|---|---|---|
| factors.py:21-27 | `isprime` tries 2 first and returns False when 2 divides n; it returns True when p*p > n before any other check | `isprime(2)` is False and `isprime(1)` is True | True exactly for primes | not executed; high, the control flow is direct | Factors.IsPrime, Factors.IsPrimeSmallCases | Factors.IsPrimeCorrected |
| factors.py:159-168 | `getsumsquares` has no branch for p == 2, so a factor 2 leaves the pairs unchanged | `getsumsquares({2: 1})` returns the four units, of norm 1 rather than 2 | each factor 2^e composed in as (1 + i)^e, so that every pair has norm n | not executed; high for the norm; the final count check still passes because the Jacobi count ignores 2 | Factors.GetSumSquares, Factors.GetSumSquaresOfTwo | Factors.GetSumSquaresCorrected |
| c/src/squares.c:84-95 | `primesumsquares` returns 1 after the walk whether or not a*a + b*b equals prime | `primesumsquares(out, 9)` returns 1 with a pair whose squares do not add up to 9 | return 1 only when a pair was found, as its comment says; the Python version raises here | not executed; medium, since callers normally pass primes; primepowersumsquares passes its base unchecked, so a non-prime key 9 gives pairs of norm 8 | Squares.PrimeSumSquares, Squares.PrimeSumSquaresOfNine, Squares.PrimePowerOfNine | Squares.PrimeSumSquaresChecked |
