/** Two sieves of Eratosthenes. The type-level one works on lists of integer
    constants: `Range<2, N + 1>` lists the candidates, and `PrimeSieve` keeps the head
    and sieves the tail with `Filter` by "not divisible by the head". The `constexpr`
    one marks a `bool` array, counts the marks and collects the marked indices. Both
    produce the primes up to `N`. */
module CompileTimePrimeSieve {
  import opened Common

  // ---------------------------------------------------------------------------
  // Primality

  ghost predicate IsPrime(k: int) {
    k >= 2 && forall d :: 2 <= d < k ==> !Divides(d, k)
  }

  // ---------------------------------------------------------------------------
  // The type-level sieve, on sequences of constants

  /** Strictly increasing. */
  ghost predicate Increasing(xs: seq<int>) {
    forall i, j :: 0 <= i < j < |xs| ==> xs[i] < xs[j]
  }

  /** `Filter<Pred, List>`: the elements satisfying `pred`, in their order. */
  function Filter(pred: int -> bool, xs: seq<int>): (r: seq<int>)
    ensures |r| <= |xs|
  {
    if |xs| == 0 then []
    else if pred(xs[0]) then [xs[0]] + Filter(pred, xs[1..])
    else Filter(pred, xs[1..])
  }

  /** `Filter` keeps exactly the elements satisfying `pred`. */
  lemma {:induction false} FilterMembers(pred: int -> bool, xs: seq<int>)
    ensures forall x :: x in Filter(pred, xs) <==> x in xs && pred(x)
  {
    if |xs| > 0 {
      FilterMembers(pred, xs[1..]);
      assert xs == [xs[0]] + xs[1..];
    }
  }

  /** `Range<First, Last>`: `First` up to `Last - 1`; the last template argument must
      be reachable from the first. */
  function Range(first: int, last: int): (r: seq<int>)
    requires first <= last
    ensures |r| == last - first
    ensures forall i :: 0 <= i < |r| ==> r[i] == first + i
    decreases last - first
  {
    if first == last then [] else [first] + Range(first + 1, last)
  }

  /** The predicate `PrimeSieve` filters the tail with: not a multiple of `h`. */
  function NotMultipleOf(h: int): (r: int -> bool)
    requires h != 0
    ensures forall x :: r.requires(x)
    ensures forall x :: !r(x) ==> x == h * (x / h)
    ensures h > 0 ==> forall q :: !r(h * q)
  {
    MultiplesDivisible(h);
    x => x % h != 0
  }

  /** Every multiple of a positive `h` leaves no remainder. */
  lemma MultiplesDivisible(h: int)
    requires h != 0
    ensures h > 0 ==> forall q :: (h * q) % h == 0
  {
    if h > 0 {
      forall q ensures (h * q) % h == 0 {
        MultipleDivides(h, q);
      }
    }
  }

  /** `PrimeSieve<List>`: keep the head, drop its multiples from the tail, repeat.
      The heads must be non-zero, as each is used as a divisor. */
  function PrimeSieve(xs: seq<int>): (r: seq<int>)
    requires forall x :: x in xs ==> x != 0
    ensures forall x :: x in r ==> x in xs
    decreases |xs|
  {
    if |xs| == 0 then []
    else
      var h := xs[0];
      assert h in xs;
      var rest := Filter(NotMultipleOf(h), xs[1..]);
      FilterMembers(NotMultipleOf(h), xs[1..]);
      [h] + PrimeSieve(rest)
  }

  /** `GeneratePrimes<N>`: the sieve over `Range<2, N + 1>`. */
  function GeneratePrimes(n: int): (r: seq<int>)
    requires n >= 1
    ensures forall x :: x in r ==> 2 <= x <= n
  {
    var candidates := Range(2, n + 1);
    assert forall x :: x in candidates ==> 2 <= x <= n;
    PrimeSieve(candidates)
  }

  /** The primes up to `n`, in increasing order: the reference both sieves meet. */
  ghost function Primes(n: int): seq<int>
    requires n >= -1
  {
    Filter(IsPrime, Range(0, n + 1))
  }

  /** Filtering keeps a strictly increasing list strictly increasing. */
  lemma {:induction false} FilterIncreasing(pred: int -> bool, xs: seq<int>)
    requires Increasing(xs)
    ensures Increasing(Filter(pred, xs))
  {
    if |xs| > 0 {
      FilterIncreasing(pred, xs[1..]);
      FilterMembers(pred, xs[1..]);
      var r := Filter(pred, xs[1..]);
      forall i | 0 <= i < |r|
        ensures xs[0] < r[i]
      {
        assert r[i] in r;
        var k :| 0 <= k < |xs[1..]| && xs[1..][k] == r[i];
        assert xs[k + 1] == r[i];
      }
      if pred(xs[0]) {
        var f := Filter(pred, xs);
        assert f == [xs[0]] + r;
        forall i, j | 0 <= i < j < |f|
          ensures f[i] < f[j]
        {
          assert f[j] == r[j - 1];
          if i > 0 {
            assert f[i] == r[i - 1];
          }
        }
      }
    }
  }

  /** When `pred` implies `keep` on `xs`, filtering by `keep` first changes nothing. */
  lemma {:induction false} FilterImplied(pred: int -> bool, keep: int -> bool, xs: seq<int>)
    requires forall x :: x in xs && pred(x) ==> keep(x)
    ensures Filter(pred, Filter(keep, xs)) == Filter(pred, xs)
  {
    if |xs| > 0 {
      var t := xs[1..];
      FilterImplied(pred, keep, t);
      if keep(xs[0]) {
        var k := [xs[0]] + Filter(keep, t);
        assert Filter(keep, xs) == k && k[0] == xs[0] && k[1..] == Filter(keep, t);
      } else {
        var y := xs[0];
        assert y in xs;
        if pred(y) {
          assert false;
        }
      }
    }
  }

  /** Every composite member of `xs` has a smaller divisor in `xs`. */
  ghost predicate DivisorClosed(xs: seq<int>) {
    forall x :: x in xs && !IsPrime(x) ==> exists y :: y in xs && 0 < y < x && Divides(y, x)
  }

  /** The sieve keeps exactly the primes of a strictly increasing candidate list of
      numbers at least 2 in which every composite has a smaller divisor: the head is
      then prime, and sieving out its multiples keeps that shape. */
  lemma {:induction false} SieveKeepsPrimes(xs: seq<int>)
    requires Candidates(xs)
    ensures PrimeSieve(xs) == Filter(IsPrime, xs)
    decreases |xs|
  {
    if |xs| > 0 {
      var h, t := xs[0], xs[1..];
      assert h in xs;
      var rest := Filter(NotMultipleOf(h), t);
      HeadIsPrime(xs);
      SievedCandidates(xs);
      SieveKeepsPrimes(rest);
      assert PrimeSieve(xs) == [h] + PrimeSieve(rest);
      forall x | x in t && IsPrime(x)
        ensures NotMultipleOf(h)(x)
      {
        var k :| 0 <= k < |t| && t[k] == x;
        assert xs[k + 1] == x;
        PrimeNotMultiple(h, x);
      }
      FilterImplied(IsPrime, NotMultipleOf(h), t);
    }
  }

  /** A prime is not a multiple of any smaller number from 2 on. */
  lemma PrimeNotMultiple(h: int, x: int)
    requires 2 <= h < x && IsPrime(x)
    ensures NotMultipleOf(h)(x)
  {
    assert !Divides(h, x);
  }

  /** The shape of a candidate list: strictly increasing, every member at least 2,
      every composite member with a smaller divisor in the list. */
  ghost predicate Candidates(xs: seq<int>) {
    Increasing(xs) && (forall x :: x in xs ==> x >= 2) && DivisorClosed(xs)
  }

  /** Sieving the tail by the head keeps the candidate shape. */
  lemma SievedCandidates(xs: seq<int>)
    requires |xs| > 0 && Candidates(xs)
    ensures xs[0] in xs && Candidates(Filter(NotMultipleOf(xs[0]), xs[1..]))
  {
    var h, t := xs[0], xs[1..];
    assert h in xs;
    var rest := Filter(NotMultipleOf(h), t);
    FilterIncreasing(NotMultipleOf(h), t);
    FilterMembers(NotMultipleOf(h), t);
    forall x | x in rest && !IsPrime(x)
      ensures exists y :: y in rest && 0 < y < x && Divides(y, x)
    {
      var y :| y in xs && 0 < y < x && Divides(y, x);
      if Divides(h, y) {
        DividesTrans(h, y, x);
      }
      assert y in t;
    }
  }

  /** The head of a candidate list is prime: a composite head would need a smaller
      divisor in the list, and there is none. */
  lemma HeadIsPrime(xs: seq<int>)
    requires |xs| > 0 && Candidates(xs)
    ensures IsPrime(xs[0])
  {
    forall y | y in xs
      ensures y >= xs[0]
    {
      var j :| 0 <= j < |xs| && xs[j] == y;
      assert j == 0 || xs[0] < xs[j];
    }
  }

  /** `Range<2, N + 1>` is a candidate list: a composite's least divisor lies in it. */
  lemma RangeCandidates(n: int)
    requires n >= 1
    ensures Candidates(Range(2, n + 1))
  {
    var cands := Range(2, n + 1);
    forall x | x in cands && !IsPrime(x)
      ensures exists y :: y in cands && 0 < y < x && Divides(y, x)
    {
      var d :| 2 <= d < x && Divides(d, x);
      assert cands[d - 2] == d;
    }
  }

  /** The type-level generator yields exactly the primes up to `n`, in increasing
      order. */
  lemma GeneratePrimesCorrect(n: int)
    requires n >= 1
    ensures GeneratePrimes(n) == Primes(n)
  {
    var cands := Range(2, n + 1);
    RangeCandidates(n);
    SieveKeepsPrimes(cands);
    var all := Range(0, n + 1);
    assert all[2..] == cands;
    assert Filter(IsPrime, all) == Filter(IsPrime, all[1..]) == Filter(IsPrime, all[1..][1..]) by {
      assert !IsPrime(all[0]) && !IsPrime(all[1..][0]);
    }
    assert all[1..][1..] == cands;
  }

  // ---------------------------------------------------------------------------
  // The constexpr sieve

  /** No `d` with `2 <= d < p` and `d * d <= i` divides `i`. */
  ghost predicate NoSmallDivisor(i: int, p: int) {
    forall d :: 2 <= d < p && d * d <= i ==> !Divides(d, i)
  }

  /** `d * d` grows with `d` on the naturals. */
  lemma SquareMono(a: int, b: int)
    requires 0 <= a <= b
    ensures a * a <= b * b
  {
    if a > 0 && a < b {
      MulBounds(a, b - a);
      MulBounds(b, b - a);
    }
  }

  /** A divisor `d` of `i` strictly between 1 and `i` has a cofactor `i / d` that is at
      least 2 and divides `i`. */
  lemma Cofactor(i: int, d: int)
    requires 2 <= d < i && Divides(d, i)
    ensures 2 <= i / d && Divides(i / d, i) && d * (i / d) == i
  {
    var e := i / d;
    assert i == d * e;
    MulBounds(d, e - 1);
    MultipleDivides(e, d);
  }

  /** The smaller of two factors is at most the square root of their product. */
  lemma SmallerFactor(d: int, e: int)
    requires 0 <= d <= e
    ensures d * d <= d * e
  {
    if 0 < d < e {
      MulBounds(d, e - d);
    }
  }

  /** A prime has no divisor `d >= 2` with `d * d <= i`: such a `d` is below `i`. */
  lemma PrimeNoSmallDivisor(i: int, p: int)
    requires IsPrime(i)
    ensures NoSmallDivisor(i, p)
  {
    forall d | 2 <= d < p && d * d <= i
      ensures !Divides(d, i)
    {
      MulBounds(d, d - 1);
    }
  }

  /** A composite `i` with `i < p * p` has a divisor below `p` whose square is at
      most `i`. */
  lemma CompositeSmallDivisor(i: int, p: int)
    requires i >= 2 && p >= 2 && p * p > i && !IsPrime(i)
    ensures !NoSmallDivisor(i, p)
  {
    var d :| 2 <= d < i && Divides(d, i);
    Cofactor(i, d);
    var e := i / d;
    var m := if d <= e then d else e;
    if d <= e {
      SmallerFactor(d, e);
    } else {
      SmallerFactor(e, d);
    }
    assert m * m <= i && Divides(m, i);
    if m >= p {
      SquareMono(p, m);
    }
  }

  /** Once `p * p > i`, having no divisor below `p` up to the square root is being
      prime. */
  lemma PrimeBySmallDivisors(i: int, p: int)
    requires i >= 2 && p >= 2 && p * p > i
    ensures NoSmallDivisor(i, p) <==> IsPrime(i)
  {
    if IsPrime(i) {
      PrimeNoSmallDivisor(i, p);
    } else {
      CompositeSmallDivisor(i, p);
    }
  }

  /** `PrimeSieveFn<N>`: marks `2..N`, then clears the multiples from `p * p` on of
      each still-marked `p` with `p * p <= N`. The result marks exactly the primes. */
  method PrimeSieveFn(n: int) returns (sieve: array<bool>)
    requires n + 1 >= 0
    ensures fresh(sieve) && sieve.Length == n + 1
    ensures forall i :: 0 <= i <= n ==> sieve[i] == IsPrime(i)
  {
    sieve := new bool[n + 1](_ => false);
    var i := 2;
    while i <= n
      invariant 2 <= i && (i <= n + 1 || i == 2)
      invariant forall j :: 0 <= j <= n ==> sieve[j] == (2 <= j < i)
    {
      sieve[i] := true;
      i := i + 1;
    }
    var p := 2;
    while p * p <= n
      invariant p >= 2
      decreases n - p
      invariant forall j :: 0 <= j <= n ==> sieve[j] == (j >= 2 && NoSmallDivisor(j, p))
    {
      MulBounds(p, p - 1);
      if sieve[p] {
        CrossOff(sieve, p, n);
      } else {
        forall j | 0 <= j <= n && j >= 2 && NoSmallDivisor(j, p)
          ensures NoSmallDivisor(j, p + 1)
        {
          CompositeStep(j, p);
        }
      }
      p := p + 1;
    }
    forall j | 2 <= j <= n
      ensures sieve[j] == IsPrime(j)
    {
      PrimeBySmallDivisors(j, p);
    }
  }

  /** A composite `p` crosses off nothing new: every multiple of it at or past `p * p`
      already has a smaller divisor. */
  lemma CompositeStep(j: int, p: int)
    requires p >= 2 && !NoSmallDivisor(p, p) && NoSmallDivisor(j, p)
    ensures NoSmallDivisor(j, p + 1)
  {
    if p * p <= j && Divides(p, j) {
      var d :| 2 <= d < p && d * d <= p && Divides(d, p);
      MulBounds(p, p);
      assert d * d <= j;
      assert !Divides(d, j);
      DividesTrans(d, p, j);
      assert false;
    }
  }

  /** The inner loop: clears `p * p, p * p + p, ...` up to `n`. */
  method CrossOff(sieve: array<bool>, p: int, n: int)
    requires p >= 2 && p * p <= n && sieve.Length == n + 1
    requires forall j :: 0 <= j <= n ==> sieve[j] == (j >= 2 && NoSmallDivisor(j, p))
    modifies sieve
    ensures forall j :: 0 <= j <= n ==> sieve[j] == (j >= 2 && NoSmallDivisor(j, p + 1))
  {
    var i := p * p;
    ghost var q := p;
    while i <= n
      invariant p * p <= i && i == p * q
      invariant forall j :: 0 <= j <= n ==>
        sieve[j] == (j >= 2 && NoSmallDivisor(j, p) && !(p * p <= j < i && Divides(p, j)))
      decreases n - i
    {
      MultipleDivides(p, q);
      assert p * (q + 1) == i + p;
      sieve[i] := false;
      i, q := i + p, q + 1;
      forall j | 0 <= j <= n && i - p < j < i
        ensures !Divides(p, j)
      {
        ModUnique(j, p, q - 1, j - (i - p));
      }
    }
  }

  /** The indices in `lo..hi - 1` that `s` marks, in increasing order. */
  ghost function Marked(s: seq<bool>, lo: int, hi: int): seq<int>
    requires 0 <= lo && (hi <= lo || hi <= |s|)
    decreases hi - lo
  {
    if hi <= lo then [] else Marked(s, lo, hi - 1) + (if s[hi - 1] then [hi - 1] else [])
  }

  /** Extending the range only appends. */
  lemma {:induction false} MarkedPrefix(s: seq<bool>, lo: int, hi: int, hi': int)
    requires 0 <= lo <= hi <= hi' <= |s|
    ensures Marked(s, lo, hi) <= Marked(s, lo, hi')
    decreases hi' - hi
  {
    if hi < hi' {
      MarkedPrefix(s, lo, hi, hi' - 1);
    }
  }

  /** Over a sieve that marks exactly the primes, the marked indices from 2 are the
      primes. */
  lemma {:induction false} MarkedPrimes(s: seq<bool>, n: int)
    requires n >= -1 && |s| == n + 1
    requires forall i :: 0 <= i <= n ==> s[i] == IsPrime(i)
    ensures Marked(s, 2, |s|) == Primes(n)
    decreases n
  {
    if n >= 2 {
      var t := s[..n];
      assert Marked(t, 2, n) == Primes(n - 1) by {
        MarkedPrimes(t, n - 1);
      }
      assert Marked(s, 2, n) == Marked(t, 2, n) by {
        MarkedOfPrefix(s, 2, n);
      }
      assert Marked(s, 2, n + 1) == Marked(s, 2, n) + (if s[n] then [n] else []);
      assert Primes(n) == Primes(n - 1) + (if IsPrime(n) then [n] else []) by {
        assert Range(0, n + 1) == Range(0, n) + [n];
        FilterAppend(IsPrime, Range(0, n), n);
      }
    } else {
      MarkedNoPrimes(s, n);
    }
  }

  /** Below 2 there is nothing to mark and no prime. */
  lemma MarkedNoPrimes(s: seq<bool>, n: int)
    requires -1 <= n < 2 && |s| == n + 1
    ensures Marked(s, 2, |s|) == Primes(n) == []
  {
    assert Range(0, n + 1) == if n == 1 then [0, 1] else if n == 0 then [0] else [];
    assert !IsPrime(0) && !IsPrime(1);
  }

  /** Marking depends only on the entries inside the range. */
  lemma {:induction false} MarkedOfPrefix(s: seq<bool>, lo: int, hi: int)
    requires 0 <= lo <= hi < |s|
    ensures Marked(s[..|s| - 1], lo, hi) == Marked(s, lo, hi)
    decreases hi - lo
  {
    if lo < hi {
      MarkedOfPrefix(s, lo, hi - 1);
    }
  }

  /** Filtering a list with one more element at the back. */
  lemma {:induction false} FilterAppend(pred: int -> bool, xs: seq<int>, x: int)
    ensures Filter(pred, xs + [x]) == Filter(pred, xs) + (if pred(x) then [x] else [])
  {
    if |xs| > 0 {
      assert (xs + [x])[1..] == xs[1..] + [x];
      FilterAppend(pred, xs[1..], x);
    } else {
      assert (xs + [x])[1..] == [];
    }
  }

  /** `CountPrime`: the number of marked indices from 2 on. */
  method CountPrime(sieve: array<bool>) returns (count: nat)
    ensures count == |Marked(sieve[..], 2, sieve.Length)|
  {
    count := 0;
    var i := 2;
    while i < sieve.Length
      invariant 2 <= i && (i <= sieve.Length || i == 2)
      invariant count == |Marked(sieve[..], 2, i)|
    {
      if sieve[i] {
        count := count + 1;
      }
      i := i + 1;
    }
  }

  /** `GetPrimes<N>`: an array of `CountPrime` slots filled with the marked indices of
      `PrimeSieveFn<N>` in increasing order, which are the primes up to `N`. */
  method GetPrimes(n: int) returns (result: array<int>)
    requires n + 1 >= 0
    ensures fresh(result) && result[..] == Primes(n)
  {
    var sieve := PrimeSieveFn(n);
    var c := CountPrime(sieve);
    ghost var s := sieve[..];
    result := new int[c];
    var i, j := 2, 0;
    while i < sieve.Length
      modifies result
      invariant 2 <= i && (i <= sieve.Length || i == 2)
      invariant j == |Marked(s, 2, i)| <= c
      invariant result[..j] == Marked(s, 2, i)
    {
      ghost var next := Marked(s, 2, i + 1);
      assert next == Marked(s, 2, i) + (if s[i] then [i] else []);
      assert |next| <= c by {
        MarkedPrefix(s, 2, i + 1, sieve.Length);
      }
      if sieve[i] {
        result[j] := i;
        assert result[..j + 1] == next;
        j := j + 1;
      }
      i := i + 1;
    }
    assert result[..] == result[..j] == Marked(s, 2, sieve.Length);
    MarkedPrimes(s, n);
  }

  /** `k % lo != 0` for every `lo <= d < hi`, checked one divisor at a time. */
  function NoDivisorBetween(k: int, lo: int, hi: int): bool
    requires lo >= 1
    decreases hi - lo
  {
    lo >= hi || (k % lo != 0 && NoDivisorBetween(k, lo + 1, hi))
  }

  /** Trial division up to `k - 1` decides primality. */
  lemma {:induction false} TrialDivision(k: int, lo: int)
    requires 2 <= lo && NoDivisorBetween(k, lo, k)
    ensures forall d :: lo <= d < k ==> !Divides(d, k)
    decreases k - lo
  {
    if lo < k {
      TrialDivision(k, lo + 1);
    }
  }

  /** The primes up to `n` are those up to `n - 1`, then `n` if it is prime. */
  lemma PrimesStep(n: int)
    requires n >= 0
    ensures Primes(n) == Primes(n - 1) + (if IsPrime(n) then [n] else [])
  {
    assert Range(0, n + 1) == Range(0, n) + [n];
    FilterAppend(IsPrime, Range(0, n), n);
  }

  /** Which numbers up to 10 are prime. */
  lemma SmallPrimality()
    ensures !IsPrime(0) && !IsPrime(1) && IsPrime(2) && IsPrime(3) && !IsPrime(4)
    ensures IsPrime(5) && !IsPrime(6) && IsPrime(7) && !IsPrime(8) && !IsPrime(9) && !IsPrime(10)
  {
    TrialDivision(2, 2);
    TrialDivision(3, 2);
    TrialDivision(5, 2);
    TrialDivision(7, 2);
    assert Divides(2, 4) && Divides(2, 6) && Divides(2, 8) && Divides(3, 9) && Divides(2, 10);
  }

  /** The primes up to 5. */
  lemma PrimesUpToFive()
    ensures Primes(1) == [] && Primes(2) == [2] && Primes(3) == [2, 3] && Primes(5) == [2, 3, 5]
  {
    SmallPrimality();
    assert Primes(-1) == [];
    PrimesStep(0);
    PrimesStep(1);
    PrimesStep(2);
    PrimesStep(3);
    PrimesStep(4);
    PrimesStep(5);
  }

  /** The primes up to 7. */
  lemma PrimesUpToSeven()
    ensures Primes(6) == [2, 3, 5] && Primes(7) == [2, 3, 5, 7]
  {
    SmallPrimality();
    PrimesUpToFive();
    PrimesStep(6);
    PrimesStep(7);
  }

  /** The primes up to 10. */
  lemma SmallPrimes()
    ensures Primes(1) == [] && Primes(2) == [2] && Primes(3) == [2, 3]
    ensures Primes(5) == [2, 3, 5] && Primes(6) == [2, 3, 5] && Primes(7) == [2, 3, 5, 7]
    ensures Primes(10) == [2, 3, 5, 7]
  {
    SmallPrimality();
    PrimesUpToFive();
    PrimesUpToSeven();
    PrimesStep(8);
    PrimesStep(9);
    PrimesStep(10);
  }

  /** `CountPrime(PrimeSieveFn<N>())`: the number of primes up to `N`. */
  method CountUpTo(n: int) returns (count: nat)
    requires n + 1 >= 0
    ensures count == |Primes(n)|
  {
    var sieve := PrimeSieveFn(n);
    count := CountPrime(sieve);
    MarkedPrimes(sieve[..], n);
  }

  /** The `static_assert`s on `CountPrime(PrimeSieveFn<N>())`. */
  method CountScenario() returns (c1: nat, c2: nat, c3: nat, c5: nat, c6: nat, c7: nat)
    ensures c1 == 0 && c2 == 1 && c3 == 2 && c5 == 3 && c6 == 3 && c7 == 4
  {
    SmallPrimes();
    c1 := CountUpTo(1);
    c2 := CountUpTo(2);
    c3 := CountUpTo(3);
    c5 := CountUpTo(5);
    c6 := CountUpTo(6);
    c7 := CountUpTo(7);
  }

  /** `main`: `GetPrimes<10>()` holds 2, 3, 5 and 7, as does `GeneratePrimes<10>`. */
  method SieveScenario() returns (primes: seq<int>)
    ensures primes == [2, 3, 5, 7] && GeneratePrimes(10) == primes
  {
    var r := GetPrimes(10);
    primes := r[..];
    SmallPrimes();
    GeneratePrimesCorrect(10);
  }
}
