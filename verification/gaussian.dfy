/** Gaussian integers a + b*i, written as pairs (the C pair_t and the Python
    tuples of the sum-of-two-squares engine), with their norm a*a + b*b. A
    pair of norm n is a way of writing n as a sum of two squares. */
module Gaussian {
  import opened NumberTheory

  datatype Pair = Pair(first: int, second: int)

  /** a*a + b*b */
  function Norm(z: Pair): int
  {
    z.first * z.first + z.second * z.second
  }

  /** The complex conjugate a - b*i. */
  function Conj(z: Pair): (r: Pair)
    ensures Norm(r) == Norm(z)
  {
    Pair(z.first, -z.second)
  }

  /** The product (a + b*i)(c + d*i) = (ac - bd) + (ad + bc)i, which is what
      diophantus in squares.c stores. Its norm is the product of the norms:
      the Brahmagupta-Fibonacci identity, so a representation of m times a
      representation of n is a representation of m*n. */
  function Mul(z: Pair, w: Pair): (r: Pair)
    ensures Norm(r) == Norm(z) * Norm(w)
  {
    var a, b, c, d := z.first, z.second, w.first, w.second;
    NormProduct(a, b, c, d);
    Pair(a * c - b * d, a * d + b * c)
  }

  lemma NormProduct(a: int, b: int, c: int, d: int)
    ensures (a * c - b * d) * (a * c - b * d) + (a * d + b * c) * (a * d + b * c)
         == (a * a + b * b) * (c * c + d * d)
  {
    calc {
      (a * c - b * d) * (a * c - b * d) + (a * d + b * c) * (a * d + b * c);
      (a * c) * (a * c) - 2 * ((a * c) * (b * d)) + (b * d) * (b * d)
        + (a * d) * (a * d) + 2 * ((a * d) * (b * c)) + (b * c) * (b * c);
      { assert (a * c) * (b * d) == (a * d) * (b * c); }
      (a * c) * (a * c) + (b * d) * (b * d) + (a * d) * (a * d) + (b * c) * (b * c);
      { assert (a * c) * (a * c) == (a * a) * (c * c);
        assert (b * d) * (b * d) == (b * b) * (d * d);
        assert (a * d) * (a * d) == (a * a) * (d * d);
        assert (b * c) * (b * c) == (b * b) * (c * c); }
      (a * a) * (c * c) + (b * b) * (d * d) + (a * a) * (d * d) + (b * b) * (c * c);
      (a * a + b * b) * (c * c + d * d);
    }
  }

  /** The multiplicative identity 1 + 0i. */
  const One := Pair(1, 0)

  /** The imaginary unit 0 + 1i. */
  const I := Pair(0, 1)

  /** z to the k-th power, built up by repeated multiplication from One. */
  function GPow(z: Pair, k: nat): (r: Pair)
    ensures Norm(r) == Pow(Norm(z), k)
  {
    if k == 0 then One else Mul(GPow(z, k - 1), z)
  }

  /** Both components multiplied by s; the norm scales by s*s. */
  function Scale(z: Pair, s: int): (r: Pair)
    ensures Norm(r) == s * s * Norm(z)
  {
    var a, b := z.first, z.second;
    assert (a * s) * (a * s) + (b * s) * (b * s) == s * s * (a * a + b * b);
    Pair(a * s, b * s)
  }

  /** The Gaussian integers of norm 1 are exactly the four units 1, i, -1, -i. */
  lemma NormOneIsUnit(z: Pair)
    ensures Norm(z) == 1 <==> z in {Pair(1, 0), Pair(0, 1), Pair(-1, 0), Pair(0, -1)}
  {
    var a, b := z.first, z.second;
    assert a * a >= 0 && b * b >= 0;
    assert (a >= 2 || a <= -2) ==> a * a >= 4;
    assert (b >= 2 || b <= -2) ==> b * b >= 4;
  }
}
