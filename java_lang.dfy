/** Java's fixed-width integers, the `%` operator, the narrowing `(int)` cast,
    the `++` operator on an `int` field, and the decimal rendering that
    `String.format("%d", …)` gives an integral argument. */
module JavaLang {

  const MIN_INT: int := -0x8000_0000
  const MAX_INT: int := 0x7fff_ffff
  const MIN_LONG: int := -0x8000_0000_0000_0000
  const MAX_LONG: int := 0x7fff_ffff_ffff_ffff

  /** Number of distinct `int` values: a narrowing cast keeps a value modulo this. */
  const INT_RANGE: int := 0x1_0000_0000

  /** Java `int` (32-bit two's complement). */
  type Int32 = x: int | MIN_INT <= x <= MAX_INT

  /** Java `long` (64-bit two's complement). */
  type Int64 = x: int | MIN_LONG <= x <= MAX_LONG

  function Abs(x: int): nat
  {
    if x < 0 then -x else x
  }

  /** `a / b` on Java integral operands: the quotient rounded toward zero. */
  function Quot(a: int, b: int): int
    requires b != 0
  {
    if a >= 0 then
      (if b > 0 then a / b else -(a / -b))
    else
      (if b > 0 then -((-a) / b) else (-a) / (-b))
  }

  /** `a % b` on Java integral operands: the remainder of the division that
      rounds toward zero, so that `(a / b) * b + a % b == a`, and whose sign
      follows the dividend `a`. */
  function Rem(a: int, b: int): (r: int)
    requires b != 0
    ensures a == Quot(a, b) * b + r
    ensures Abs(r) < Abs(b)
    ensures a > 0 ==> r >= 0
    ensures a < 0 ==> r <= 0
    ensures a == 0 ==> r == 0
  {
    var m := Abs(b);
    if a >= 0 then
      assert a == (a / m) * m + a % m;
      assert Quot(a, b) * b == (a / m) * m by { NegateFactors(a / m, m); }
      a % m
    else
      assert -a == ((-a) / m) * m + (-a) % m;
      assert Quot(a, b) * b == -(((-a) / m) * m) by { NegateFactors((-a) / m, m); }
      -((-a) % m)
  }

  lemma Distribute(x: int, y: int, z: int)
    ensures (x + y) * z == x * z + y * z
  {
  }

  lemma NegateFactors(q: int, m: int)
    ensures (-q) * (-m) == q * m
    ensures (-q) * m == -(q * m)
    ensures q * (-m) == -(q * m)
  {
  }

  lemma {:induction false} ProductAtLeast(u: int, m: nat)
    requires u >= 1
    ensures u * m >= m
    decreases u
  {
    if u > 1 {
      ProductAtLeast(u - 1, m);
      assert u * m == (u - 1) * m + m;
    }
  }

  /** A multiple of b smaller than |b| in magnitude is zero. */
  lemma SmallMultipleIsZero(t: int, b: int)
    requires b != 0
    requires Abs(t * b) < Abs(b)
    ensures t == 0
  {
    if t != 0 {
      ProductAtLeast(Abs(t), Abs(b));
      NegateFactors(t, b);
    }
  }

  /** The facts in Rem's contract (congruent to the dividend modulo the
      divisor, bounded by it, same sign as the dividend) determine the
      remainder: Rem is the only function with them. */
  lemma RemUnique(a: int, b: int, q: int, r: int)
    requires b != 0
    requires a == q * b + r
    requires Abs(r) < Abs(b)
    requires a > 0 ==> r >= 0
    requires a < 0 ==> r <= 0
    ensures r == Rem(a, b)
  {
    var r' := Rem(a, b);
    var q' := Quot(a, b);
    assert (q - q') * b == r' - r;
    SmallMultipleIsZero(q - q', b);
  }

  /** The narrowing cast `(int) x`: keeps the low 32 bits of the two's
      complement representation. */
  function Narrow(x: int): (r: Int32)
    ensures MIN_INT <= x <= MAX_INT ==> r == x
  {
    (x - MIN_INT) % INT_RANGE + MIN_INT
  }

  /** The cast changes its argument by a multiple of 2^32 only. */
  lemma NarrowCongruent(x: int)
    ensures (x - Narrow(x)) % INT_RANGE == 0
  {
    var k := (x - MIN_INT) / INT_RANGE;
    assert x - MIN_INT == INT_RANGE * k + (Narrow(x) - MIN_INT);
    assert x - Narrow(x) == INT_RANGE * k;
  }

  /** Values 2^32 apart narrow to the same `int`. */
  lemma NarrowPeriodic(x: int)
    ensures Narrow(x + INT_RANGE) == Narrow(x)
  {
    var k := (x - MIN_INT) / INT_RANGE;
    assert x - MIN_INT == INT_RANGE * k + (Narrow(x) - MIN_INT);
    assert x + INT_RANGE - MIN_INT == INT_RANGE * (k + 1) + (Narrow(x) - MIN_INT);
  }

  /** `++i` on an `int` variable: the new value, wrapping from MAX_INT to MIN_INT. */
  function Increment(x: Int32): (r: Int32)
    ensures x < MAX_INT ==> r == x + 1
    ensures x == MAX_INT ==> r == MIN_INT
  {
    if x == MAX_INT then MIN_INT else x + 1
  }

  /** `++` on an `int` is the addition narrowed back to 32 bits. */
  lemma IncrementNarrows(x: Int32)
    ensures Increment(x) == Narrow(x + 1)
  {
    if x == MAX_INT {
      assert (x + 1 - MIN_INT) % INT_RANGE == 0;
    }
  }

  /** The value an `int` counter holds after `++` has been applied n times to 0. */
  function CountAfter(n: nat): (r: Int32)
    ensures n <= MAX_INT ==> r == n
  {
    if n == 0 then 0 else Increment(CountAfter(n - 1))
  }

  /** Counting wraps around: after 2^32 increments the counter is back at 0,
      after 2^31 it is at MIN_INT. */
  lemma {:induction false} CountAfterWraps(n: nat)
    ensures CountAfter(n) == Narrow(n)
  {
    if n > 0 {
      CountAfterWraps(n - 1);
      IncrementNarrows(CountAfter(n - 1));
      var k := (n - 1 - MIN_INT) / INT_RANGE;
      assert n - 1 - MIN_INT == INT_RANGE * k + (Narrow(n - 1) - MIN_INT);
      var j := (Narrow(n - 1) + 1 - MIN_INT) / INT_RANGE;
      assert Narrow(n - 1) + 1 - MIN_INT == INT_RANGE * j + (Narrow(Narrow(n - 1) + 1) - MIN_INT);
      assert n - MIN_INT == INT_RANGE * (k + j) + (Narrow(Narrow(n - 1) + 1) - MIN_INT);
    }
  }

  // ----- decimal rendering, as `%d` does it -----

  predicate IsDigit(c: char)
  {
    '0' <= c <= '9'
  }

  predicate AllDigits(s: string)
  {
    forall i :: 0 <= i < |s| ==> IsDigit(s[i])
  }

  function DigitChar(d: int): (c: char)
    requires 0 <= d < 10
    ensures IsDigit(c)
  {
    (('0' as int) + d) as char
  }

  function DigitValue(c: char): (d: int)
    requires IsDigit(c)
    ensures 0 <= d < 10
  {
    (c as int) - ('0' as int)
  }

  /** The decimal digits of n, most significant first, without leading zeros. */
  function NatDigits(n: nat): (s: string)
    ensures |s| > 0 && AllDigits(s)
    ensures |s| > 1 ==> s[0] != '0'
    decreases n
  {
    if n < 10 then [DigitChar(n)] else NatDigits(n / 10) + [DigitChar(n % 10)]
  }

  /** The number a non-empty string of decimal digits denotes. */
  function DigitsValue(s: string): nat
    requires |s| > 0 && AllDigits(s)
    decreases |s|
  {
    if |s| == 1 then DigitValue(s[0])
    else DigitsValue(s[..|s| - 1]) * 10 + DigitValue(s[|s| - 1])
  }

  /** `String.format("%d", n)`: an optional minus sign, then the digits of |n|. */
  function FormatDecimal(n: int): (s: string)
    ensures |s| > 0
    ensures forall i :: 0 <= i < |s| ==> IsDigit(s[i]) || s[i] == '-'
    ensures s[0] == '-' <==> n < 0
  {
    if n < 0 then "-" + NatDigits(-n) else NatDigits(n)
  }

  /** Text of the shape `%d` produces: digits, optionally after a minus sign. */
  predicate IsDecimalText(s: string)
  {
    |s| > 0 &&
    (s[0] == '-' ==> |s| > 1 && AllDigits(s[1..])) &&
    (s[0] != '-' ==> AllDigits(s))
  }

  /** What a reader of the decimal text recovers. */
  function ParseDecimal(s: string): int
    requires IsDecimalText(s)
  {
    if s[0] == '-' then -(DigitsValue(s[1..]) as int) else DigitsValue(s)
  }

  lemma {:induction false} NatDigitsRoundTrip(n: nat)
    ensures DigitsValue(NatDigits(n)) == n
    decreases n
  {
    if n >= 10 {
      var s := NatDigits(n);
      assert s[..|s| - 1] == NatDigits(n / 10);
      NatDigitsRoundTrip(n / 10);
    }
  }

  /** Reading back the text `%d` writes gives the number that was written. */
  lemma FormatDecimalRoundTrip(n: int)
    ensures IsDecimalText(FormatDecimal(n)) && ParseDecimal(FormatDecimal(n)) == n
  {
    var s := FormatDecimal(n);
    if n < 0 {
      assert s[1..] == NatDigits(-n);
      NatDigitsRoundTrip(-n);
    } else {
      NatDigitsRoundTrip(n);
    }
  }

  /** Distinct numbers are rendered as distinct texts. */
  lemma FormatDecimalInjective(a: int, b: int)
    requires FormatDecimal(a) == FormatDecimal(b)
    ensures a == b
  {
    FormatDecimalRoundTrip(a);
    FormatDecimalRoundTrip(b);
  }
}
