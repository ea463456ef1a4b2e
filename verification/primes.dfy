/** The prime helpers of the C port (c/src/primes.c): the value of a
    factorization, its textual form written into a bounded buffer the way
    snprintf does, primality by odd trial division and the next prime. GMP
    integers and unsigned longs are unbounded here. */
module Primes {
  import opened NumberTheory
  import opened Factorization
  import opened Outcomes
  import Factors

  // ---------------------------------------------------------------------
  // tovalue

  /** tovalue: the running product of p^e from the front of the array. */
  method ToValue(fs: seq<PrimeFactor>) returns (out: int)
    ensures out == Value(fs)
  {
    out := 1;
    for i := 0 to |fs|
      invariant out == Value(fs[..i])
    {
      ValueStep(fs, i);
      out := out * Pow(fs[i].p, fs[i].e);
    }
    assert fs[..|fs|] == fs;
  }

  // ---------------------------------------------------------------------
  // tostring

  function Min(a: int, b: int): int
  {
    if a <= b then a else b
  }

  function DigitChar(d: int): char
    requires 0 <= d < 10
  {
    (48 + d) as char
  }

  /** "%lu": the decimal digits of n, most significant first. */
  function Decimal(n: nat): (s: string)
    ensures |s| >= 1
    ensures forall k :: 0 <= k < |s| ==> '0' <= s[k] <= '9'
    decreases n
  {
    if n < 10 then [DigitChar(n)] else Decimal(n / 10) + [DigitChar(n % 10)]
  }

  /** Reading decimal digits back, most significant first. */
  function ParseDecimal(s: string): int
  {
    if |s| == 0 then 0 else 10 * ParseDecimal(s[..|s| - 1]) + (s[|s| - 1] as int - 48)
  }

  /** The rendering is exact and has no leading zero. */
  lemma {:induction false} DecimalRoundTrip(n: nat)
    ensures ParseDecimal(Decimal(n)) == n
    ensures Decimal(n)[0] == '0' <==> n == 0
    decreases n
  {
    if n >= 10 {
      var d := Decimal(n / 10);
      DecimalRoundTrip(n / 10);
      assert (d + [DigitChar(n % 10)])[..|d|] == d;
    }
  }

  /** One entry as tostring prints it: "p^e", preceded by " * " except first. */
  function Term(f: PrimeFactor, first: bool): string
  {
    (if first then "" else " * ") + Decimal(f.p) + "^" + Decimal(f.e)
  }

  /** The formatted terms, one per entry, as the snprintf calls produce them. */
  function Terms(fs: seq<PrimeFactor>): (ts: seq<string>)
    ensures |ts| == |fs|
    ensures forall k :: 0 <= k < |fs| ==> ts[k] == Term(fs[k], k == 0)
  {
    seq(|fs|, k requires 0 <= k < |fs| => Term(fs[k], k == 0))
  }

  /** The terms of a prefix are a prefix of the terms. */
  lemma TermsPrefix(fs: seq<PrimeFactor>, t: nat)
    requires t <= |fs|
    ensures Terms(fs[..t]) == Terms(fs)[..t]
  {
  }

  /** The whole factorization: the terms in array order, written out. */
  function Render(fs: seq<PrimeFactor>): string
  {
    Concat(Terms(fs))
  }

  /** Strings written one after the other. */
  function Concat(ts: seq<string>): string
    decreases |ts|
  {
    if |ts| == 0 then "" else Concat(ts[..|ts| - 1]) + ts[|ts| - 1]
  }

  lemma ConcatStep(ts: seq<string>, k: nat)
    requires k < |ts|
    ensures Concat(ts[..k + 1]) == Concat(ts[..k]) + ts[k]
  {
    assert ts[..k + 1][..k] == ts[..k];
  }

  /** Writing a prefix of the terms writes a prefix of the text. */
  lemma {:induction false} ConcatPrefix(ts: seq<string>, k: nat)
    requires k <= |ts|
    ensures |Concat(ts[..k])| <= |Concat(ts)| && Concat(ts)[..|Concat(ts[..k])|] == Concat(ts[..k])
    decreases |ts|
  {
    if k < |ts| {
      var init := ts[..|ts| - 1];
      assert init[..k] == ts[..k];
      ConcatPrefix(init, k);
    } else {
      assert ts[..k] == ts;
    }
  }

  /** tostring(buf, buflen, factors, faclen): the terms are formatted as Term
      says, and written into the buffer by WriteTerms. stored is what buf
      holds up to its terminator, None when nothing was written to it. */
  method ToString(buflen: nat, fs: seq<PrimeFactor>) returns (stored: Option<string>, count: nat)
    ensures buflen == 0 || |fs| == 0 ==> stored == None && count == 0
    ensures buflen > 0 && |fs| > 0 ==> stored == Some(Render(fs)[..Min(|Render(fs)|, buflen - 1)])
    ensures count <= |Render(fs)| && (count < buflen ==> count == |Render(fs)|)
    ensures count >= buflen > 0 ==>
              exists t :: 1 <= t <= |fs| && count == |Render(fs[..t])| && |Render(fs[..t - 1])| < buflen
  {
    var ts := Terms(fs);
    stored, count := WriteTerms(buflen, ts);
    if count >= buflen > 0 {
      var t :| 1 <= t <= |ts| && count == |Concat(ts[..t])| && |Concat(ts[..t - 1])| < buflen;
      TermsPrefix(fs, t);
      TermsPrefix(fs, t - 1);
    }
  }

  /** The loop of tostring. Each snprintf stores at most buflen - start - 1
      characters of its term and a terminator, and returns the length of the
      whole term; the loop stops once the summed lengths reach buflen. */
  method WriteTerms(buflen: nat, ts: seq<string>) returns (stored: Option<string>, count: nat)
    ensures buflen == 0 || |ts| == 0 ==> stored == None && count == 0
    ensures buflen > 0 && |ts| > 0 ==> stored == Some(Concat(ts)[..Min(|Concat(ts)|, buflen - 1)])
    ensures count <= |Concat(ts)| && (count < buflen ==> count == |Concat(ts)|)
    ensures count >= buflen > 0 ==>
              exists t :: 1 <= t <= |ts| && count == |Concat(ts[..t])| && |Concat(ts[..t - 1])| < buflen
  {
    var start: nat := 0;
    var idx := 0;
    var text := "";
    assert ts[..0] == [];
    while idx < |ts| && start < buflen
      invariant 0 <= idx <= |ts|
      invariant start == |Concat(ts[..idx])|
      invariant buflen > 0 ==> text == Concat(ts[..idx])[..Min(start, buflen - 1)]
      invariant idx > 0 ==> buflen > 0 && |Concat(ts[..idx - 1])| < buflen
    {
      var term := ts[idx];
      ConcatStep(ts, idx);
      var room := buflen - start - 1;
      ClippedAppend(Concat(ts[..idx]), term, buflen);
      text := text + term[..Min(|term|, room)];
      start := start + |term|;
      idx := idx + 1;
    }
    if idx > 0 {
      StoredText(ts, idx, start, buflen, text);
    }
    stored := if idx > 0 then Some(text) else None;
    count := start;
  }

  /** One snprintf into the room left after the text so far: the buffer then
      holds the longest prefix of the longer text that fits. */
  lemma ClippedAppend(text: string, term: string, buflen: nat)
    requires |text| < buflen
    ensures text + term[..Min(|term|, buflen - |text| - 1)] == (text + term)[..Min(|text| + |term|, buflen - 1)]
  {
    var k := Min(|term|, buflen - |text| - 1);
    assert (text + term)[..|text| + k] == text + term[..k];
  }

  /** When the loop stops after idx terms, either all terms were written or
      the buffer is full; in both cases the buffer holds the longest prefix of
      the whole text that fits before the terminator. */
  lemma StoredText(ts: seq<string>, idx: nat, start: nat, buflen: nat, text: string)
    requires 0 < idx <= |ts| && buflen > 0
    requires start == |Concat(ts[..idx])| && (idx < |ts| ==> start >= buflen)
    requires text == Concat(ts[..idx])[..Min(start, buflen - 1)]
    ensures text == Concat(ts)[..Min(|Concat(ts)|, buflen - 1)]
    ensures start <= |Concat(ts)| && (start < buflen ==> start == |Concat(ts)|)
  {
    ConcatPrefix(ts, idx);
    if idx == |ts| {
      assert ts[..idx] == ts;
    } else {
      var whole, part := Concat(ts), Concat(ts[..idx]);
      assert part == whole[..start];
      assert text == part[..buflen - 1];
    }
  }

  /** The factorization the C tests print. */
  const ExampleFactors := [PrimeFactor(2, 5), PrimeFactor(3, 2), PrimeFactor(5, 1), PrimeFactor(11, 2), PrimeFactor(41, 7)]

  lemma ExampleTerms()
    ensures Term(ExampleFactors[0], true) == "2^5" && Term(ExampleFactors[1], false) == " * 3^2"
    ensures Term(ExampleFactors[2], false) == " * 5^1" && Term(ExampleFactors[3], false) == " * 11^2"
    ensures Term(ExampleFactors[4], false) == " * 41^7"
  {
    assert Decimal(2) == "2" && Decimal(3) == "3" && Decimal(5) == "5";
    assert Decimal(1) == "1" && Decimal(7) == "7";
    assert Decimal(11) == "11" && Decimal(41) == "41";
  }

  /** It renders as 2^5 * 3^2 * 5^1 * 11^2 * 41^7. */
  lemma RenderExample()
    ensures Render(ExampleFactors) == "2^5 * 3^2 * 5^1 * 11^2 * 41^7"
  {
    var ts := Terms(ExampleFactors);
    ExampleTerms();
    assert ts == ["2^5", " * 3^2", " * 5^1", " * 11^2", " * 41^7"];
    ConcatExample();
  }

  lemma ConcatExample()
    ensures Concat(["2^5", " * 3^2", " * 5^1", " * 11^2", " * 41^7"]) == "2^5 * 3^2 * 5^1 * 11^2 * 41^7"
  {
    var ts := ["2^5", " * 3^2", " * 5^1", " * 11^2", " * 41^7"];
    assert ts[..0] == [];
    ConcatStep(ts, 0);
    ConcatStep(ts, 1);
    ConcatStep(ts, 2);
    ConcatStep(ts, 3);
    ConcatStep(ts, 4);
    assert ts[..5] == ts;
  }

  /** Its value, 33933984681025440. */
  lemma ValueExample()
    ensures Value(ExampleFactors) == 33933984681025440
  {
    var fs := ExampleFactors;
    assert Pow(41, 7) == 194754273881;
    assert Pow(2, 5) == 32 && Pow(3, 2) == 9 && Pow(5, 1) == 5 && Pow(11, 2) == 121;
    assert fs[..0] == [];
    ValueStep(fs, 0);
    ValueStep(fs, 1);
    ValueStep(fs, 2);
    ValueStep(fs, 3);
    ValueStep(fs, 4);
    assert fs[..5] == fs;
  }

  // ---------------------------------------------------------------------
  // isprime and nextprime

  /** isprime(n): 2 and 3 directly, even numbers out, then odd candidates p
      while p*p < n, keeping psquared == p*p by adding 4(p - 1) after each
      step of two. */
  method IsPrime(n: nat) returns (r: bool)
    ensures r <==> Prime(n)
  {
    if n < 2 {
      return false;
    }
    if n == 2 || n == 3 {
      return true;
    }
    if n % 2 == 0 {
      assert n % 2 == 0 && 2 < n;
      return false;
    }
    var p := 3;
    var psquared := 9;
    while psquared < n && n % p != 0
      invariant 3 <= p < n && p % 2 == 1 && psquared == p * p
      invariant forall d :: 2 <= d < p ==> n % d != 0
      decreases n - psquared
    {
      Factors.CandidateAdvance(n, p);
      SquareStep(p);
      p := p + 2;
      psquared := psquared + 4 * (p - 1);
    }
    if n % p != 0 {
      SquareSucc(p);
      NoSmallDivisorMeansPrime(n, p + 1);
    }
    return n % p != 0;
  }

  lemma SquareStep(p: int)
    ensures (p + 2) * (p + 2) == p * p + 4 * (p + 1)
  {
  }

  /** nextprime(n): count up from n + 1 until isprime holds. A prime above n
      exists, which bounds the search. */
  method NextPrime(n: nat) returns (r: nat)
    ensures r > n && Prime(r)
    ensures forall q :: n < q < r ==> !Prime(q)
  {
    ghost var bound := PrimeAbove(n);
    var i := n + 1;
    var ip := IsPrime(i);
    while !ip
      invariant n < i <= bound
      invariant ip <==> Prime(i)
      invariant forall q :: n < q < i ==> !Prime(q)
      decreases bound - i
    {
      i := i + 1;
      ip := IsPrime(i);
    }
    return i;
  }
}
