/** Trial-division primality and "smallest prime at least `start`", the two
    helpers that choose the length of a short code. */
module Primes {

  /** The mathematical definition: at least 2 and no divisor strictly between 1 and itself. */
  ghost predicate Prime(n: int) {
    n >= 2 && forall d :: 2 <= d < n ==> n % d != 0
  }

  /** `Math.max(2, start)`: where the search for a prime begins. */
  function SearchStart(start: int): (x: int)
    ensures x >= 2 && x >= start
    ensures start < 2 ==> x == 2
    ensures start >= 2 ==> x == start
  {
    if start < 2 then 2 else start
  }

  /** `p` is the smallest prime that is at least `max(2, start)`. */
  ghost predicate IsNextPrime(start: int, p: int) {
    Prime(p) && p >= SearchStart(start) &&
    forall q :: SearchStart(start) <= q < p ==> !Prime(q)
  }

  // ---------------------------------------------------------------------------
  // Divisibility helpers

  /** Division and remainder of `d * x + r` by `d`, for `0 <= r < d`. */
  lemma MulDivMod(d: int, x: int, r: int)
    requires d > 0 && 0 <= r < d
    ensures (d * x + r) / d == x && (d * x + r) % d == r
  {
    var q, s := (d * x + r) / d, (d * x + r) % d;
    assert d * (x - q) == s - r;
    assert x - q >= 1 ==> d * (x - q) >= d * 1;
    assert x - q <= -1 ==> d * (x - q) <= d * -1;
  }

  lemma MulMod(d: int, k: int)
    requires d > 0
    ensures (d * k) % d == 0
  {
    MulDivMod(d, k, 0);
  }

  /** If `j` divides `d` and `d` divides `m`, then `j` divides `m`. */
  lemma DividesTrans(j: int, d: int, m: int)
    requires j > 0 && d > 0
    requires d % j == 0 && m % d == 0
    ensures m % j == 0
  {
    var a, b := d / j, m / d;
    assert d == j * a;
    assert m == d * b;
    assert m == j * (a * b);
    MulMod(j, a * b);
  }

  /** A multiple of `d` is followed by a number that leaves remainder 1. */
  lemma NeighbourMod(a: int, d: int)
    requires d >= 2 && a % d == 0
    ensures (a + 1) % d == 1
  {
    assert a == d * (a / d);
    MulDivMod(d, a / d, 1);
  }

  /** A divisor `d` of `n` with `2 <= d < n` has a co-divisor `n / d` in the same range. */
  lemma CoDivisor(n: int, d: int)
    requires 2 <= d < n && n % d == 0
    ensures 2 <= n / d < n && n % (n / d) == 0 && n == d * (n / d)
  {
    var e := n / d;
    assert n == d * e;
    assert e <= 1 ==> d * e <= d * 1;
    assert e >= n ==> d * e >= 2 * e;
    assert n == e * d;
    MulMod(e, d);
  }

  /** An odd number has only odd divisors. */
  lemma OddDivisor(n: int, d: int)
    requires n % 2 == 1 && d > 0 && n % d == 0
    ensures d % 2 == 1
  {
    if d % 2 == 0 {
      DividesTrans(2, d, n);
    }
  }

  lemma SquareMonotone(a: int, b: int)
    requires 0 <= a <= b
    ensures a * a <= b * b
  {
    assert a * a <= a * b;
    assert a * b <= b * b;
  }

  // ---------------------------------------------------------------------------
  // isPrime

  lemma MulMonotone(a: int, b: int, c: int)
    requires 0 <= a && b <= c
    ensures a * b <= a * c
  {
  }

  /** A composite odd number has an odd divisor `m >= 3` with `m * m <= n`. */
  lemma SmallOddDivisor(n: int, d: int) returns (m: int)
    requires n > 3 && n % 2 == 1 && 2 <= d < n && n % d == 0
    ensures 3 <= m && m % 2 == 1 && m * m <= n && n % m == 0
  {
    CoDivisor(n, d);
    var e := n / d;
    if d <= e {
      m := d;
      MulMonotone(d, d, e);
    } else {
      m := e;
      MulMonotone(e, e, d);
      assert e * d == n;
    }
    OddDivisor(n, m);
  }

  /** Odd trial division up to the square root decides primality of an odd
      number greater than 3: the reasoning behind the loop in `IsPrime`. */
  lemma OddTrialDivision(n: int)
    requires n > 3 && n % 2 == 1
    ensures Prime(n) <==> forall i :: 3 <= i && i % 2 == 1 && i * i <= n ==> n % i != 0
  {
    if Prime(n) {
      forall i | 3 <= i && i % 2 == 1 && i * i <= n
        ensures n % i != 0
      {
        assert i * 1 < i * i;
      }
    } else {
      var d :| 2 <= d < n && n % d == 0;
      var m := SmallOddDivisor(n, d);
    }
  }

  /** The odd number after odd `i` is `i + 2`; `i + 1` is even. */
  lemma OddStep(i: int)
    requires i % 2 == 1
    ensures (i + 1) % 2 == 0 && (i + 2) % 2 == 1
  {
  }

  /** A trial divisor `i >= 2` with `i * i <= n` lies strictly below `n`. */
  lemma SquareBound(i: int, n: int)
    requires 2 <= i && i * i <= n
    ensures i < n
  {
    assert i * 1 < i * i;
  }

  /** Trial division that has passed every odd candidate below `i`, where
      `i * i > n`, has shown an odd `n > 3` to be prime. */
  lemma TrialDivisionComplete(n: int, i: int)
    requires n > 3 && n % 2 == 1 && 3 <= i && n < i * i
    requires forall j :: 3 <= j < i && j % 2 == 1 ==> n % j != 0
    ensures Prime(n)
  {
    OddTrialDivision(n);
    forall j | 3 <= j && j % 2 == 1 && j * j <= n
      ensures n % j != 0
    {
      if j >= i {
        SquareMonotone(i, j);
      }
    }
  }

  /** Trial division as the source writes it: false for n <= 1, true for 2 and 3,
      false for other even numbers, then odd candidates `i` while `i * i <= n`. */
  method IsPrime(n: int) returns (b: bool)
    ensures b == Prime(n)
  {
    if n <= 1 {
      return false;
    }
    if n <= 3 {
      return true;
    }
    if n % 2 == 0 {
      return false;
    }
    var i := 3;
    while i * i <= n
      invariant 3 <= i && i % 2 == 1
      invariant forall j :: 3 <= j < i && j % 2 == 1 ==> n % j != 0
      decreases n - i
    {
      SquareBound(i, n);
      if n % i == 0 {
        return false;
      }
      OddStep(i);
      i := i + 2;
    }
    TrialDivisionComplete(n, i);
    return true;
  }

  // ---------------------------------------------------------------------------
  // Infinitely many primes (needed for the termination of nextPrime)

  function Factorial(n: nat): (f: nat)
    ensures f >= 1
  {
    if n == 0 then 1 else n * Factorial(n - 1)
  }

  lemma {:induction false} FactorialDivisible(n: nat, d: int)
    requires 1 <= d <= n
    ensures Factorial(n) % d == 0
  {
    if d == n {
      MulMod(n, Factorial(n - 1));
    } else {
      FactorialDivisible(n - 1, d);
      DividesTrans(d, Factorial(n - 1), Factorial(n)) by {
        assert Factorial(n) == Factorial(n - 1) * n;
        MulMod(Factorial(n - 1), n);
      }
    }
  }

  /** The least divisor of `m` that is at least `k`, given none lies in [2, k). */
  function LeastDivisor(m: nat, k: nat): (d: nat)
    requires 2 <= k <= m
    requires forall j :: 2 <= j < k ==> m % j != 0
    ensures k <= d <= m && m % d == 0
    ensures forall j :: 2 <= j < d ==> m % j != 0
    decreases m - k
  {
    if m % k == 0 then k
    else
      MulMod(m, 1);
      LeastDivisor(m, k + 1)
  }

  lemma LeastDivisorIsPrime(m: nat)
    requires m >= 2
    ensures Prime(LeastDivisor(m, 2))
  {
    var d := LeastDivisor(m, 2);
    forall j | 2 <= j < d
      ensures d % j != 0
    {
      if d % j == 0 {
        DividesTrans(j, d, m);
      }
    }
  }

  /** Euclid: there is a prime above every bound `n`, and one no larger than `n! + 1`. */
  lemma PrimeAbove(n: nat)
    ensures exists p :: Prime(p) && n < p <= Factorial(n) + 1
  {
    var m := Factorial(n) + 1;
    var d := LeastDivisor(m, 2);
    LeastDivisorIsPrime(m);
    forall j | 2 <= j <= n
      ensures m % j != 0
    {
      FactorialDivisible(n, j);
      NeighbourMod(Factorial(n), j);
    }
  }

  // ---------------------------------------------------------------------------
  // nextPrime

  /** Count upwards from `x` until a prime, stopping at the bound `w`. */
  ghost function SearchPrime(x: int, w: int): (r: int)
    ensures r >= x
    decreases w - x
  {
    if x >= w || Prime(x) then x else SearchPrime(x + 1, w)
  }

  /** The smallest prime that is at least `max(2, start)`: the search from
      `max(2, start)` bounded by Euclid's `n! + 1`. */
  ghost function NextPrimeOf(start: int): (p: int)
    ensures p >= SearchStart(start)
  {
    var lo := SearchStart(start);
    SearchPrime(lo, Factorial(lo) + 1)
  }

  /** Searching from `x` finds the least prime from `lo` on, when none lies in
      `[lo, x)` and a prime `p` lies in `[x, w]`. */
  lemma {:induction false} SearchPrimeFinds(lo: int, x: int, w: int, p: int)
    requires 2 <= lo <= x <= p <= w && Prime(p)
    requires forall q :: lo <= q < x ==> !Prime(q)
    ensures var r := SearchPrime(x, w);
            lo <= r <= p && Prime(r) && forall q :: lo <= q < r ==> !Prime(q)
    decreases w - x
  {
    if !Prime(x) {
      SearchPrimeFinds(lo, x + 1, w, p);
    }
  }

  /** `NextPrimeOf` is the smallest prime at least `max(2, start)`. */
  lemma NextPrimeOfSpec(start: int)
    ensures IsNextPrime(start, NextPrimeOf(start))
  {
    var lo := SearchStart(start);
    PrimeAbove(lo);
    var p :| Prime(p) && lo < p <= Factorial(lo) + 1;
    SearchPrimeFinds(lo, lo, Factorial(lo) + 1, p);
  }

  /** The smallest prime at least `max(2, start)` is unique. */
  lemma NextPrimeUnique(start: int, p: int, p': int)
    requires IsNextPrime(start, p) && IsNextPrime(start, p')
    ensures p == p'
  {
  }

  /** `nextPrime` as the source writes it: from `max(2, start)` count upwards
      until trial division reports a prime. */
  method NextPrime(start: int) returns (p: int)
    ensures p == NextPrimeOf(start)
  {
    var x := SearchStart(start);
    PrimeAbove(x);
    ghost var w :| Prime(w) && w > x;
    var isPrime := IsPrime(x);
    while !isPrime
      invariant SearchStart(start) <= x <= w
      invariant isPrime == Prime(x)
      invariant forall q :: SearchStart(start) <= q < x ==> !Prime(q)
      decreases w - x
    {
      x := x + 1;
      isPrime := IsPrime(x);
    }
    p := x;
    NextPrimeOfSpec(start);
    NextPrimeUnique(start, p, NextPrimeOf(start));
  }

  /** The start length of a fresh short code, `nextPrime(n + 1)`, is the
      smallest prime strictly greater than the record count `n`; an empty
      collection starts at length 2. */
  lemma StartLength(n: nat)
    ensures Prime(NextPrimeOf(n + 1)) && NextPrimeOf(n + 1) > n
    ensures forall q :: n < q < NextPrimeOf(n + 1) ==> !Prime(q)
    ensures n == 0 ==> NextPrimeOf(n + 1) == 2
  {
    NextPrimeOfSpec(n + 1);
    if n == 0 {
      assert IsNextPrime(1, 2);
      NextPrimeUnique(1, 2, NextPrimeOf(1));
    }
  }
}
