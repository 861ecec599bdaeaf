/** Integer properties: the bound on the length of a number in decimal, and the tests
    whether an operation leaves the range of a type. */
module IntProps {
  import opened Arithmetic
  import opened Decimals

  // ----- powers -------------------------------------------------------------

  function Pow(a: nat, n: nat): nat {
    if n == 0 then 1 else a * Pow(a, n - 1)
  }

  lemma {:induction false} PowPositive(a: nat, n: nat)
    requires a > 0
    ensures Pow(a, n) > 0
  {
    if n > 0 {
      PowPositive(a, n - 1);
      Product(a, Pow(a, n - 1));
    }
  }

  lemma Product(a: nat, b: nat)
    requires a > 0 && b > 0
    ensures a * b > 0
  {
  }

  lemma {:induction false} PowAdd(a: nat, m: nat, n: nat)
    ensures Pow(a, m + n) == Pow(a, m) * Pow(a, n)
  {
    if m > 0 {
      PowAdd(a, m - 1, n);
      Associate(a, Pow(a, m - 1), Pow(a, n));
    }
  }

  lemma {:induction false} PowMul(a: nat, m: nat, n: nat)
    ensures Pow(Pow(a, m), n) == Pow(a, m * n)
  {
    if n == 0 {
      assert m * 0 == 0;
    } else {
      PowMul(a, m, n - 1);
      PowAdd(a, m, m * (n - 1));
      assert m + m * (n - 1) == m * n;
    }
  }

  lemma ProductMonotone(a: nat, b: nat, c: nat, d: nat)
    requires a <= b && c <= d
    ensures a * c <= b * d
    ensures a < b && 0 < c ==> a * c < b * d
  {
  }

  lemma {:induction false} PowMonotone(a: nat, b: nat, n: nat)
    requires a <= b
    ensures Pow(a, n) <= Pow(b, n)
    ensures 0 < a < b && n > 0 ==> Pow(a, n) < Pow(b, n)
  {
    if n > 0 {
      PowMonotone(a, b, n - 1);
      if a > 0 {
        PowPositive(a, n - 1);
      }
      ProductMonotone(a, b, Pow(a, n - 1), Pow(b, n - 1));
    }
  }

  lemma {:induction false} PowGrows(a: nat, m: nat, n: nat)
    requires a > 0 && m <= n
    ensures Pow(a, m) <= Pow(a, n)
  {
    PowAdd(a, m, n - m);
    PowPositive(a, m);
    PowPositive(a, n - m);
    ProductMonotone(1, Pow(a, n - m), Pow(a, m), Pow(a, m));
  }

  lemma PowersOfTwo()
    ensures Pow(2, 485) == 99895953610111751404211111353381321783955140565279076827493022708011895642232499843849795298031743077114461795885011932654335221737225129801285632
  {
    assert Pow(2, 5) == 32;
    PowAdd(2, 5, 5);
    assert Pow(2, 10) == 1024;
    PowAdd(2, 10, 10);
    assert Pow(2, 20) == 1048576;
    PowAdd(2, 20, 10);
    assert Pow(2, 30) == 1073741824;
    PowAdd(2, 30, 30);
    assert Pow(2, 60) == 1152921504606846976;
    PowAdd(2, 60, 60);
    assert Pow(2, 120) == 1329227995784915872903807060280344576;
    PowAdd(2, 120, 1);
    assert Pow(2, 121) == 2658455991569831745807614120560689152;
    PowAdd(2, 121, 121);
    assert Pow(2, 242) == 7067388259113537318333190002971674063309935587502475832486424805170479104;
    PowAdd(2, 242, 242);
    assert Pow(2, 484) == 49947976805055875702105555676690660891977570282639538413746511354005947821116249921924897649015871538557230897942505966327167610868612564900642816;
    PowAdd(2, 484, 1);
    assert Pow(2, 485) == 99895953610111751404211111353381321783955140565279076827493022708011895642232499843849795298031743077114461795885011932654335221737225129801285632;
  }

  lemma PowersOfTen()
    ensures Pow(10, 146) == 100000000000000000000000000000000000000000000000000000000000000000000000000000000000000000000000000000000000000000000000000000000000000000000000000
  {
    assert Pow(10, 1) == 10;
    PowAdd(10, 1, 1);
    assert Pow(10, 2) == 100;
    PowAdd(10, 2, 2);
    assert Pow(10, 4) == 10000;
    PowAdd(10, 4, 4);
    assert Pow(10, 8) == 100000000;
    PowAdd(10, 8, 1);
    assert Pow(10, 9) == 1000000000;
    PowAdd(10, 9, 9);
    assert Pow(10, 18) == 1000000000000000000;
    PowAdd(10, 18, 18);
    assert Pow(10, 36) == 1000000000000000000000000000000000000;
    PowAdd(10, 36, 36);
    assert Pow(10, 72) == 1000000000000000000000000000000000000000000000000000000000000000000000000;
    PowAdd(10, 72, 1);
    assert Pow(10, 73) == 10000000000000000000000000000000000000000000000000000000000000000000000000;
    PowAdd(10, 73, 73);
    assert Pow(10, 146) == 100000000000000000000000000000000000000000000000000000000000000000000000000000000000000000000000000000000000000000000000000000000000000000000000000;
  }

  /** log10 (2) is less than 146 / 485. */
  lemma LogBound()
    ensures Pow(2, 485) < Pow(10, 146)
  {
    PowersOfTwo();
    PowersOfTen();
  }

  // ----- the length of a number ---------------------------------------------

  /** INT_BITS_STRLEN_BOUND */
  function BitsStrlenBound(b: nat): nat {
    (b * 146 + 484) / 485
  }

  /** How many decimal digits a number has. */
  function Digits(n: nat): nat {
    if n < 10 then 1 else 1 + Digits(n / 10)
  }

  lemma {:induction false} DigitsAre(n: nat)
    ensures Digits(n) == |Decimal(n)|
  {
    if n >= 10 {
      DigitsAre(n / 10);
    }
  }

  lemma {:induction false} DigitsBound(n: nat, k: nat)
    requires k > 0 && n < Pow(10, k)
    ensures Digits(n) <= k
  {
    if n >= 10 {
      assert Pow(10, 1) == 10 * Pow(10, 0) == 10;
      DigitsBound(n / 10, k - 1);
    }
  }

  /** Two to the b is less than ten to the bound: their 485th powers compare as those of
      2^485 and 10^146 do. */
  lemma PowerBound(b: nat)
    requires b > 0
    ensures Pow(2, b) < Pow(10, BitsStrlenBound(b))
  {
    var k := BitsStrlenBound(b);
    LogBound();
    PowPositive(2, 485);
    PowMonotone(Pow(2, 485), Pow(10, 146), b);
    PowMul(2, 485, b);
    PowMul(10, 146, b);
    PowMul(2, b, 485);
    PowMul(10, k, 485);
    assert 146 * b <= k * 485;
    PowGrows(10, 146 * b, k * 485);
    assert 485 * b == b * 485;
    hide Pow;
    if Pow(10, k) <= Pow(2, b) {
      PowMonotone(Pow(10, k), Pow(2, b), 485);
    }
  }

  /** Every number up to two to the b fits into the bound, for every b. */
  lemma StrlenBound(b: nat, n: nat)
    requires b > 0 && n <= Pow(2, b)
    ensures Digits(n) <= BitsStrlenBound(b)
  {
    PowerBound(b);
    DigitsBound(n, BitsStrlenBound(b));
  }

  /** The length of a number printed with %d. */
  function Printed(n: int): nat {
    if n < 0 then 1 + Digits(-n) else Digits(n)
  }

  /** INT_STRLEN_BOUND for a signed type of b bits. */
  function StrlenBoundSigned(b: nat): nat
    requires b > 0
  {
    BitsStrlenBound(b - 1) + 1
  }

  /** Every value of a signed type fits, the least one included. */
  lemma SignedBound(b: nat, n: int)
    requires b > 1 && 0 - Pow(2, b - 1) <= n < Pow(2, b - 1)
    ensures Printed(n) <= StrlenBoundSigned(b)
  {
    StrlenBound(b - 1, if n < 0 then -n else n);
  }

  /** What is printed for a value of a signed type, a minus sign included, fits. */
  lemma SignedText(b: nat, n: int)
    requires b > 1 && 0 - Pow(2, b - 1) <= n < Pow(2, b - 1)
    ensures |if n < 0 then "-" + Decimal(-n) else Decimal(n)| <= StrlenBoundSigned(b)
  {
    SignedBound(b, n);
    DigitsAre(if n < 0 then -n else n);
    hide Pow, Decimal, Digits;
  }

  // ----- range overflow -----------------------------------------------------

  /** Division in C, which drops the fraction. */
  function Quotient(a: int, b: int): int
    requires b != 0
  {
    var q: int := Abs(a) / Abs(b);
    if (a < 0) == (b < 0) then q else 0 - q
  }

  /** The only quotient whose remainder is smaller than the divisor and has the sign of the
      dividend. */
  lemma QuotientIs(a: int, b: int)
    requires b != 0
    ensures var q := Quotient(a, b); var r := a - q * b;
            && (if b < 0 then b < r < -b else -b < r < b) && (a >= 0 ==> r >= 0) && (a <= 0 ==> r <= 0)
  {
    var m: int, n: int := Abs(a), Abs(b);
    var q: int := m / n;
    Remainder(m, n);
    Negated(q, n);
    var p: int := q * n;
    hide *;
    assert Quotient(a, b) * b == if a < 0 then 0 - p else p by { QuotientTimes(a, b, q, n); }
  }

  lemma Remainder(m: int, n: int)
    requires m >= 0 && n > 0
    ensures 0 <= m - (m / n) * n < n
  {
  }

  lemma QuotientTimes(a: int, b: int, q: int, n: int)
    requires b != 0 && n == Abs(b) && q == Abs(a) / n
    ensures Quotient(a, b) * b == if a < 0 then 0 - q * n else q * n
  {
    Negated(q, n);
    var s: int := if (a < 0) == (b < 0) then q else 0 - q;
    assert Quotient(a, b) == s && b == if b < 0 then 0 - n else n;
  }

  lemma Negated(q: int, n: int)
    ensures (0 - q) * n == 0 - q * n && q * (0 - n) == 0 - q * n && (0 - q) * (0 - n) == q * n
  {
  }

  function Abs(a: int): nat {
    if a < 0 then -a else a
  }

  predicate InRange(x: int, min: int, max: int) {
    min <= x <= max
  }

  /** An unsigned type, or a signed one in two's complement. */
  predicate IsType(min: int, max: int) {
    max > 0 && (min == 0 || min == -max - 1)
  }

  /** INT_ADD_RANGE_OVERFLOW */
  predicate AddOverflow(a: int, b: int, min: int, max: int) {
    if b < 0 then a < min - b else max - b < a
  }

  /** INT_SUBTRACT_RANGE_OVERFLOW */
  predicate SubtractOverflow(a: int, b: int, min: int, max: int) {
    if b < 0 then max + b < a else a < min + b
  }

  /** INT_NEGATE_RANGE_OVERFLOW */
  predicate NegateOverflow(a: int, min: int, max: int) {
    if min < 0 then a < -max else 0 < a
  }

  /** INT_MULTIPLY_RANGE_OVERFLOW */
  predicate MultiplyOverflow(a: int, b: int, min: int, max: int) {
    if b < 0 then
      if a < 0 then a < Quotient(max, b)
      else if b == -1 then false
      else Quotient(min, b) < a
    else if b == 0 then false
    else if a < 0 then a < Quotient(min, b)
    else Quotient(max, b) < a
  }

  /** INT_DIVIDE_RANGE_OVERFLOW */
  predicate DivideOverflow(a: int, b: int, min: int, max: int) {
    min < 0 && b == -1 && a < -max
  }

  /** INT_LEFT_SHIFT_RANGE_OVERFLOW, where >> of a negative number keeps its sign. */
  predicate LeftShiftOverflow(a: int, b: nat, min: int, max: int) {
    PowPositive(2, b);
    if a < 0 then a < min / Pow(2, b) else max / Pow(2, b) < a
  }

  /** The sum test is exact, and what it computes is in range itself. */
  lemma AddExact(a: int, b: int, min: int, max: int)
    requires IsType(min, max) && InRange(a, min, max) && InRange(b, min, max)
    ensures AddOverflow(a, b, min, max) <==> !InRange(a + b, min, max)
    ensures InRange(if b < 0 then min - b else max - b, min, max)
  {
  }

  lemma SubtractExact(a: int, b: int, min: int, max: int)
    requires IsType(min, max) && InRange(a, min, max) && InRange(b, min, max)
    ensures SubtractOverflow(a, b, min, max) <==> !InRange(a - b, min, max)
    ensures InRange(if b < 0 then max + b else min + b, min, max)
  {
  }

  lemma NegateExact(a: int, min: int, max: int)
    requires IsType(min, max) && InRange(a, min, max)
    ensures NegateOverflow(a, min, max) <==> !InRange(-a, min, max)
  {
  }

  /** For non-negative numbers: a product exceeds m exactly if a factor exceeds m
      divided by the other. */
  lemma ProductExceeds(x: nat, y: nat, m: nat)
    requires y > 0
    ensures x * y > m <==> x > m / y
  {
    var q := m / y;
    assert m == q * y + m % y;
    if x > q {
      ProductMonotone(q + 1, x, y, y);
      assert (q + 1) * y == q * y + y;
    } else {
      ProductMonotone(x, q, y, y);
    }
  }

  lemma Signs(a: int, b: int)
    ensures Abs(a) * Abs(b) == if (a < 0) == (b < 0) then a * b else -(a * b)
  {
  }

  /** The product test is exact, although it only divides. */
  lemma MultiplyExact(a: int, b: int, min: int, max: int)
    requires IsType(min, max) && InRange(a, min, max) && InRange(b, min, max)
    ensures MultiplyOverflow(a, b, min, max) <==> !InRange(a * b, min, max)
  {
    Signs(a, b);
    if b != 0 {
      ProductExceeds(Abs(a), Abs(b), max);
      ProductExceeds(Abs(a), Abs(b), -min);
    }
  }

  lemma DivideExact(a: int, b: int, min: int, max: int)
    requires IsType(min, max) && InRange(a, min, max) && InRange(b, min, max) && b != 0
    ensures DivideOverflow(a, b, min, max) <==> !InRange(Quotient(a, b), min, max)
  {
    hide Quotient;
    var q := QuotientParts(a, b);
    DivideIn(a, b, q, min, max);
  }

  lemma QuotientParts(a: int, b: int) returns (q: nat)
    requires b != 0
    ensures q <= Abs(a) && (Abs(b) == 1 ==> q == Abs(a)) && (Abs(b) >= 2 ==> 2 * q <= Abs(a))
    ensures Abs(Quotient(a, b)) == q && (Quotient(a, b) > 0 ==> (a < 0) == (b < 0)) && (Quotient(a, b) < 0 ==> (a < 0) != (b < 0))
  {
    QuotientBound(Abs(a), Abs(b));
    q := Abs(a) / Abs(b);
  }

  lemma DivideIn(a: int, b: int, q: nat, min: int, max: int)
    requires IsType(min, max) && InRange(a, min, max) && InRange(b, min, max) && b != 0
    requires q <= Abs(a) && (Abs(b) == 1 ==> q == Abs(a)) && (Abs(b) >= 2 ==> 2 * q <= Abs(a))
    ensures forall r :: Abs(r) == q && (r > 0 ==> (a < 0) == (b < 0)) && (r < 0 ==> (a < 0) != (b < 0)) ==>
              (DivideOverflow(a, b, min, max) <==> !InRange(r, min, max))
  {
  }

  lemma QuotientBound(x: nat, y: nat)
    requires y > 0
    ensures x / y <= x && (y == 1 ==> x / y == x) && (y >= 2 ==> 2 * (x / y) <= x)
  {
    var q: int := x / y;
    assert x == q * y + x % y;
    ProductMonotone(q, q, 1, y);
    if y >= 2 {
      ProductMonotone(q, q, 2, y);
    }
  }

  /** The shift test is exact for a signed type of w + 1 bits or an unsigned one of w. */
  lemma LeftShiftExact(a: int, b: nat, w: nat, signed: bool)
    requires b <= w && var (min, max) := (if signed then 0 - Pow(2, w) else 0, Pow(2, w) - 1); InRange(a, min, max)
    ensures var (min, max) := (if signed then 0 - Pow(2, w) else 0, Pow(2, w) - 1);
            LeftShiftOverflow(a, b, min, max) <==> !InRange(a * Pow(2, b), min, max)
  {
    var p, r := Pow(2, b), Pow(2, w - b);
    PowAdd(2, b, w - b);
    PowPositive(2, b);
    PowPositive(2, w);
    assert p * r == Pow(2, w);
    hide Pow;
    if a >= 0 {
      ShiftAbove(a, p, p * r - 1);
    } else {
      ShiftBelow(a, p, r);
    }
  }

  lemma ShiftAbove(a: nat, p: nat, m: nat)
    requires p > 0
    ensures (m / p < a <==> a * p > m) && a * p >= 0
  {
    ProductExceeds(a, p, m);
  }

  lemma ShiftBelow(a: int, p: nat, r: nat)
    requires p > 0 && a < 0
    ensures (a < (0 - p * r) / p <==> a * p < 0 - p * r) && a * p < 0
  {
    var low := 0 - r;
    assert 0 - p * r == low * p;
    DivisionIs(low * p, p, low, 0);
    if a < low {
      MulMonotone(a, low, p);
    } else {
      MulMonotone(low, a, p);
    }
    MulMonotone(a, 0, p);
  }
}
