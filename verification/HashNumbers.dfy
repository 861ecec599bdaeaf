/** The arithmetic of the hash table: the prime search for bucket counts and the string
    hash, on 64-bit size_t. */
module HashNumbers {
  import opened Arithmetic

  const SIZE_RANGE := 0x1_0000_0000_0000_0000   // SIZE_MAX + 1

  // ----- primes -------------------------------------------------------------

  ghost predicate Prime(n: nat) {
    n >= 2 && forall e :: 2 <= e < n ==> n % e != 0
  }

  /** No odd number from 3 up to below d divides n. */
  ghost predicate Sieved(n: nat, d: nat) {
    forall e :: 3 <= e < d && e % 2 == 1 ==> n % e != 0
  }

  lemma Squares(a: nat, b: nat)
    requires a <= b
    ensures a * a <= b * b && a * a <= a * b
  {
  }

  lemma Monotone(a: nat, b: nat)
    requires a * a < b * b
    ensures a < b
  {
    if b <= a {
      Squares(b, a);
    }
  }

  lemma DivisorIs(n: nat, e: nat) returns (q: nat)
    requires 2 <= e < n && n % e == 0
    ensures n == e * q && 2 <= q < n && n % q == 0
  {
    q := n / e;
    assert n == e * q;
    assert q != 0 && q != 1;
    MulMonotone(2, e, q);
    ModZero(q, e, n);
  }

  lemma ModZero(q: nat, e: nat, n: nat)
    requires q > 0 && n == e * q
    ensures n % q == 0
  {
    DivisionIs(n, q, e, 0);
  }

  lemma OddDivisor(n: nat, a: nat)
    requires a > 0 && n % a == 0 && n % 2 == 1
    ensures a % 2 == 1
  {
    assert n == a * (n / a);
    EvenProduct(a, n / a);
  }

  lemma EvenProduct(a: nat, k: nat)
    ensures a % 2 == 0 ==> a * k % 2 == 0
  {
    if a % 2 == 0 {
      var h := a / 2;
      Regroup(h, k);
      DivisionIs(a * k, 2, h * k, 0);
    }
  }

  lemma Regroup(h: nat, k: nat)
    ensures (2 * h) * k == 2 * (h * k) == (h * k) * 2
  {
  }

  /** An odd number without odd divisors up to its root is prime. */
  lemma PrimeByRoot(n: nat, d: nat)
    requires n % 2 == 1 && n >= 3 && Sieved(n, d + 1) && n < (d + 1) * (d + 1)
    ensures Prime(n)
  {
    forall e | 2 <= e < n
      ensures n % e != 0
    {
      if n % e == 0 {
        var q := DivisorIs(n, e);
        var a, b := if e <= q then e else q, if e <= q then q else e;
        assert a * b == n;
        Squares(a, b);
        Monotone(a, d + 1);
        OddDivisor(n, a);
        assert false;
      }
    }
  }

  lemma NotPrime(n: nat, d: nat)
    requires 2 <= d < n && n % d == 0
    ensures !Prime(n)
  {
  }

  const LIMIT := 0x1_0000_0000   // the root of SIZE_RANGE

  // An odd number whose square, taken modulo SIZE_RANGE, is SIZE_RANGE - 7.
  const ROOT := 0x19b4_bb63_9c98_c0b5

  lemma RootSquare()
    ensures ROOT * ROOT % SIZE_RANGE == SIZE_RANGE - 7 && ROOT % 2 == 1
  {
  }

  /** What holds before every turn of the search for divisors; before is the divisor of
      the turn before, if there was one. */
  ghost predicate Searching(n: nat, d: nat, square: nat) {
    && d % 2 == 1 && 3 <= d && square == d * d % SIZE_RANGE && Sieved(n, d)
    && (d > 3 ==> (d - 2) * (d - 2) % SIZE_RANGE < n)
    && (d > LIMIT ==> (LIMIT - 1) * (LIMIT - 1) < n)
  }

  lemma NextSquare(d: nat, square: nat)
    requires square == d * d % SIZE_RANGE
    ensures (square + 4 * (d + 1)) % SIZE_RANGE == (d + 2) * (d + 2) % SIZE_RANGE
  {
    assert (d + 2) * (d + 2) == d * d + 4 * (d + 1);
    AddMod(d * d, 4 * (d + 1), SIZE_RANGE);
  }

  lemma AddMod(a: nat, b: nat, m: nat)
    requires m > 0
    ensures (a % m + b) % m == (a + b) % m
  {
    assert a + b == (a % m + b) + (a / m) * m;
    SameMod(a % m + b, a / m, m);
  }

  lemma SameMod(x: nat, q: nat, m: nat)
    requires m > 0
    ensures (x + q * m) % m == x % m
  {
    Distribute(x / m, q, m);
    DivisionIs(x + q * m, m, x / m + q, x % m);
  }

  lemma Distribute(a: nat, b: nat, m: nat)
    ensures (a + b) * m == a * m + b * m
  {
  }

  lemma SearchStep(n: nat, d: nat, square: nat)
    requires Searching(n, d, square) && square < n && n % d != 0
    ensures Searching(n, d + 2, (square + 4 * (d + 1)) % SIZE_RANGE)
  {
    NextSquare(d, square);
    forall e | 3 <= e < d + 2 && e % 2 == 1
      ensures n % e != 0
    {
      assert e < d || e == d;
    }
    if d == LIMIT - 1 {
      assert square == (LIMIT - 1) * (LIMIT - 1);
    }
  }

  /** The search ends by ROOT: there the square is too large, or n is one of the three
      last odd numbers, which have small divisors. */
  lemma SearchEnds(n: nat, d: nat, square: nat)
    requires n % 2 == 1 && n < SIZE_RANGE && Searching(n, d, square) && d <= ROOT && square < n && n % d != 0
    ensures d + 2 <= ROOT
  {
    RootSquare();
    if n > SIZE_RANGE - 7 {
      assert n == SIZE_RANGE - 1 || n == SIZE_RANGE - 3 || n == SIZE_RANGE - 5;
      assert (SIZE_RANGE - 1) % 3 == 0 && (SIZE_RANGE - 3) % 13 == 0 && (SIZE_RANGE - 5) % 11 == 0;
    }
  }

  /** A divisor found is a proper one. */
  lemma FoundDivisor(n: nat, d: nat, square: nat)
    requires n % 2 == 1 && 11 <= n < SIZE_RANGE && Searching(n, d, square) && d <= ROOT && n % d == 0
    ensures !Prime(n)
  {
    if d > LIMIT {
      assert ROOT < (LIMIT - 1) * (LIMIT - 1);
    } else if d > 3 {
      SquareFits(d - 2);
      if n <= d {
        Squares(n - 2, d - 2);
        assert (n - 2) * (n - 2) < n;
        Quadratic(n);
      }
    }
    NotPrime(n, d);
  }

  lemma SquareFits(x: nat)
    requires x < LIMIT
    ensures x * x % SIZE_RANGE == x * x
  {
    Squares(x, LIMIT - 1);
  }

  lemma Quadratic(n: nat)
    requires n >= 5
    ensures (n - 2) * (n - 2) >= n
  {
    assert (n - 2) * (n - 2) >= 3 * (n - 2);
  }

  lemma NoDivisor(n: nat, d: nat, square: nat)
    requires n % 2 == 1 && 11 <= n < SIZE_RANGE && Searching(n, d, square) && square >= n && n % d != 0
    ensures Prime(n)
  {
    if d < LIMIT {
      SquareFits(d);
      Squares(d, d + 1);
      assert Sieved(n, d + 1);
      assert (d + 1) * (d + 1) == d * d + 2 * d + 1;
      PrimeByRoot(n, d);
    } else {
      assert Sieved(n, LIMIT);
      PrimeByRoot(n, LIMIT - 1);
    }
  }

  /** is_prime is exact for every odd size_t from 11 on, also where the square wraps. */
  method IsPrime(candidate: nat) returns (r: bool)
    requires 11 <= candidate < SIZE_RANGE && candidate % 2 == 1
    ensures r <==> Prime(candidate)
  {
    hide Searching, Prime;
    var divisor := 3;
    var square: nat := divisor * divisor;
    assert Searching(candidate, 3, 9) by { SearchStart(candidate); }
    while square < candidate && candidate % divisor != 0
      invariant 3 <= divisor <= ROOT && Searching(candidate, divisor, square)
      decreases ROOT - divisor
    {
      SearchEnds(candidate, divisor, square);
      SearchStep(candidate, divisor, square);
      divisor := divisor + 1;
      square := (square + 4 * divisor) % SIZE_RANGE;
      divisor := divisor + 1;
    }
    if candidate % divisor == 0 {
      FoundDivisor(candidate, divisor, square);
    } else {
      NoDivisor(candidate, divisor, square);
    }
    r := candidate % divisor != 0;
  }

  lemma SearchStart(n: nat)
    ensures Searching(n, 3, 9)
  {
  }

  /** next_prime: the least prime that is at least 11 and the candidate, or SIZE_MAX. */
  method NextPrime(candidate: nat) returns (r: nat)
    requires candidate < SIZE_RANGE
    ensures r >= 11 && r >= candidate && (Prime(r) || r == SIZE_RANGE - 1)
    ensures forall p :: 11 <= p && candidate <= p < r ==> !Prime(p)
  {
    hide Prime;
    r := if candidate < 10 then 10 else candidate;
    if r % 2 == 0 {
      EvenNotPrime(r);
      r := r + 1;
    }
    while SIZE_RANGE - 1 != r
      invariant 11 <= r < SIZE_RANGE && r % 2 == 1 && r >= candidate
      invariant forall p :: 11 <= p && candidate <= p < r ==> !Prime(p)
      decreases SIZE_RANGE - r
    {
      var prime := IsPrime(r);
      if prime {
        return;
      }
      EvenNotPrime(r + 1);
      r := r + 2;
    }
  }

  lemma EvenNotPrime(n: nat)
    requires n % 2 == 0 && n >= 4
    ensures !Prime(n)
  {
    NotPrime(n, 2);
  }

  // ----- the string hash ----------------------------------------------------

  /** The string as digits of a number with base 31. */
  function Polynomial(s: seq<nat>): nat {
    if s == [] then 0 else 31 * Polynomial(s[..|s| - 1]) + s[|s| - 1]
  }

  /** The sum of 31 times the hash of what precedes and the last byte wraps around at
      the end of size_t before it is reduced. */
  function StringHash(s: seq<nat>, n: nat): (value: nat)
    requires 0 < n
    ensures value < n
  {
    if s == [] then 0 else (31 * StringHash(s[..|s| - 1], n) + s[|s| - 1]) % SIZE_RANGE % n
  }

  method HashString(s: seq<nat>, n: nat) returns (value: nat)
    requires 0 < n < SIZE_RANGE && forall k :: 0 <= k < |s| ==> s[k] < 256
    ensures value == StringHash(s, n)
  {
    value := 0;
    for k := 0 to |s|
      invariant value == StringHash(s[..k], n)
    {
      value := (value * 31 + s[k]) % SIZE_RANGE % n;
      assert s[..k + 1][..k] == s[..k];
    }
    assert s[..|s|] == s;
  }

  /** As long as no step overflows, the hash is the polynomial modulo the number of
      buckets. */
  lemma {:induction false} HashIsPolynomial(s: seq<nat>, n: nat)
    requires n > 0 && 31 * n + 255 <= SIZE_RANGE && forall k :: 0 <= k < |s| ==> s[k] < 256
    ensures StringHash(s, n) == Polynomial(s) % n
  {
    if s == [] {
      assert Polynomial([]) % n == 0 by { EmptyHash(n); }
    } else {
      var k := |s| - 1;
      var value := StringHash(s[..k], n);
      HashIsPolynomial(s[..k], n);
      assert s[..k + 1] == s;
      HashStep(s, k, n, value);
      NoWrap(value, s[k], n);
      hide Polynomial;
    }
  }

  lemma EmptyHash(n: nat)
    requires n > 0
    ensures Polynomial([]) % n == 0
  {
  }

  lemma NoWrap(value: nat, c: nat, n: nat)
    requires value < n && c < 256
    ensures 31 * n + 255 <= SIZE_RANGE ==> (value * 31 + c) % SIZE_RANGE == value * 31 + c
  {
  }

  lemma HashStep(s: seq<nat>, k: nat, n: nat, value: nat)
    requires n > 0 && k < |s| && s[k] < 256
    ensures value == Polynomial(s[..k]) % n ==> (value * 31 + s[k]) % n == Polynomial(s[..k + 1]) % n
  {
    assert s[..k + 1][..k] == s[..k];
    var p := Polynomial(s[..k]);
    var q := p / n;
    assert p == q * n + p % n;
    if value == p % n {
      assert 31 * p + s[k] == (value * 31 + s[k]) + (31 * q) * n;
      SameMod(value * 31 + s[k], 31 * q, n);
    }
  }
}
