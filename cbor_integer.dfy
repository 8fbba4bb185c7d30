/** CBORInteger: the number interface of a CBOR integer held as a Java `long`.  A long is
    an int in [-2^63, 2^63); the Java operators that wrap around (unary minus) are
    written out.  A value handed back as an Object is a Long or a BigInteger (Number). */
module CborInteger {

  const MinLong: int := -0x8000_0000_0000_0000
  const MaxLong: int := 0x7FFF_FFFF_FFFF_FFFF
  const MinInt: int := -0x8000_0000
  const MaxInt: int := 0x7FFF_FFFF

  type Long = v: int | MinLong <= v <= MaxLong
  type Int32 = v: int | MinInt <= v <= MaxInt

  /** The boxed result of Negate and Abs: a Long, or a BigInteger when the value does
      not fit in a long. */
  datatype Number = Long(v: Long) | Big(n: int)

  function Value(x: Number): int
  {
    match x
    case Long(v) => v
    case Big(n) => n
  }

  /** The absolute value of a long, as a mathematical integer. */
  function Magnitude(v: Long): nat
  {
    if v < 0 then -(v as int) else v
  }

  /** AsInt32's result: the narrowed value, or the ArithmeticException it throws. */
  datatype Narrowed = Ok(value: Int32) | OutOfRange

  /** Two's-complement wrap-around of an integer to 64 bits. */
  function Wrap64(x: int): (r: Long)
    ensures MinLong <= x <= MaxLong ==> r == x
    ensures (r - x) % 0x1_0000_0000_0000_0000 == 0
  {
    (x - MinLong) % 0x1_0000_0000_0000_0000 + MinLong
  }

  /** Java's unary minus on a long: -v, except that -MIN_VALUE wraps to MIN_VALUE. */
  function JavaNeg(v: Long): (r: Long)
    ensures v != MinLong ==> r == -(v as int)
    ensures v == MinLong ==> r == MinLong
  {
    Wrap64(-(v as int))
  }

  /** Java's `(int)` cast of a long: the low 32 bits read as two's complement. */
  function Wrap32(x: int): (r: Int32)
    ensures MinInt <= x <= MaxInt ==> r == x
    ensures (r - x) % 0x1_0000_0000 == 0
  {
    (x - MinInt) % 0x1_0000_0000 + MinInt
  }

  /** The predicates that hold for every integer, and those that hold for none. */
  predicate IsPositiveInfinity(v: Long) { false }
  predicate IsInfinity(v: Long) { false }
  predicate IsNegativeInfinity(v: Long) { false }
  predicate IsNaN(v: Long) { false }
  predicate IsIntegral(v: Long) { true }
  predicate CanFitInInt64(v: Long) { true }
  predicate CanTruncatedIntFitInInt64(v: Long) { true }

  /** A long is an integer, is finite and is a number, and it and its truncation fit
      in 64 bits. */
  lemma ConstantPredicates(v: Long)
    ensures !IsPositiveInfinity(v) && !IsInfinity(v) && !IsNegativeInfinity(v) && !IsNaN(v)
    ensures IsIntegral(v) && (CanFitInInt64(v) <==> MinLong <= v <= MaxLong)
    ensures CanTruncatedIntFitInInt64(v) <==> CanFitInInt64(v)
  {
  }

  /** Sign: -1, 0 or 1 as the value is negative, zero or positive. */
  function Sign(v: Long): (r: int)
    ensures r == 0 <==> v == 0
    ensures r == -1 <==> v < 0
    ensures r == 1 <==> v > 0
  {
    if v == 0 then 0 else if v < 0 then -1 else 1
  }

  function IsZero(v: Long): (r: bool)
    ensures r <==> Sign(v) == 0
  {
    v == 0
  }

  /** CanFitInInt32 and CanTruncatedIntFitInInt32 (the truncation of an integer is
      itself): the value is within the 32-bit range, so a cast to int loses nothing. */
  function CanFitInInt32(v: Long): (r: bool)
    ensures r <==> Wrap32(v) == v
  {
    v >= MinInt && v <= MaxInt
  }

  function CanTruncatedIntFitInInt32(v: Long): (r: bool)
    ensures r <==> CanFitInInt32(v)
  {
    v >= MinInt && v <= MaxInt
  }

  /** AsInt32: the value, narrowed, when it lies in [minValue, maxValue]; otherwise the
      ArithmeticException. */
  function AsInt32(v: Long, minValue: Int32, maxValue: Int32): (r: Narrowed)
    ensures r.Ok? <==> minValue <= v <= maxValue
    ensures r.Ok? ==> r.value == v
  {
    if v >= minValue && v <= maxValue then Ok(Wrap32(v)) else OutOfRange
  }

  /** Narrowing to the whole 32-bit range succeeds exactly when CanFitInInt32 says so. */
  lemma AsInt32FullRange(v: Long)
    ensures AsInt32(v, MinInt, MaxInt).Ok? <==> CanFitInInt32(v)
  {
  }

  /** Negate: the negated value, as a BigInteger exactly when it does not fit a long. */
  function Negate(v: Long): (r: Number)
    ensures Value(r) == -(v as int)
    ensures r.Big? <==> v == MinLong
  {
    if v == MinLong then Big(0x8000_0000_0000_0000) else Long(JavaNeg(v))
  }

  /** Negating twice gives the value back, whenever the first result is a long. */
  lemma NegateTwice(v: Long)
    requires v != MinLong
    ensures Negate(v).Long? && Negate(Negate(v).v) == Long(v)
  {
  }

  /** Negation flips the sign. */
  lemma NegateSign(v: Long)
    requires v != MinLong
    ensures Sign(Negate(v).v) == -Sign(v)
  {
  }

  /** Abs as written: its special case compares with Integer.MIN_VALUE rather than
      Long.MIN_VALUE.  At -2^31 it answers 2^63, and Long.MIN_VALUE falls through to a
      unary minus that wraps back to Long.MIN_VALUE.  Everywhere else it is |v|. */
  function Abs(v: Long): (r: Number)
    ensures v != MinInt && v != MinLong ==> r.Long? && r.v == Magnitude(v)
    ensures v == MinInt ==> r == Big(0x8000_0000_0000_0000)
    ensures v == MinLong ==> r == Long(MinLong)
  {
    if v == MinInt then Big(0x8000_0000_0000_0000) else if v < 0 then Long(JavaNeg(v)) else Long(v)
  }

  /** The two inputs at which the written Abs does not give the absolute value. */
  lemma AbsAsWrittenIsWrong()
    ensures Value(Abs(MinInt)) != Magnitude(MinInt)
    ensures Value(Abs(MinLong)) < 0
  {
  }

  /** Abs with its special case on Long.MIN_VALUE, whose absolute value needs a
      BigInteger: the result is |v| for every long, a long whenever |v| fits in one. */
  function AbsCorrected(v: Long): (r: Number)
    ensures Value(r) >= 0 && Value(r) == Magnitude(v)
    ensures r.Big? <==> v == MinLong
  {
    if v == MinLong then Big(0x8000_0000_0000_0000) else if v < 0 then Long(JavaNeg(v)) else Long(v)
  }

  /** The corrected Abs agrees with Negate on negative values and is the identity on
      the others. */
  lemma AbsCorrectedNegate(v: Long)
    ensures v < 0 ==> AbsCorrected(v) == Negate(v)
    ensures v >= 0 ==> AbsCorrected(v) == Long(v)
  {
  }

  /** m * 2^k, by doubling. */
  function Scaled(m: nat, k: nat): (r: nat)
    ensures r >= m
  {
    if k == 0 then m else 2 * Scaled(m, k - 1)
  }

  function Pow2(k: nat): nat
  {
    Scaled(1, k)
  }

  lemma {:induction false} ScaledAdd(m: nat, a: nat, b: nat)
    ensures Scaled(m, a + b) == Scaled(Scaled(m, a), b)
    decreases b
  {
    if b > 0 {
      ScaledAdd(m, a, b - 1);
    }
  }

  lemma {:induction false} ScaledProduct(m: nat, k: nat)
    ensures Scaled(m, k) == m * Pow2(k)
    decreases k
  {
    if k > 0 {
      ScaledProduct(m, k - 1);
      ScaledProduct(1, k - 1);
    }
  }

  lemma Pow2Add(a: nat, b: nat)
    ensures Pow2(a + b) == Pow2(a) * Pow2(b)
  {
    ScaledAdd(1, a, b);
    ScaledProduct(Pow2(a), b);
  }

  lemma Pow2Of9()
    ensures Pow2(9) == 0x200
  {
  }

  lemma Pow2Of18()
    ensures Pow2(18) == 0x4_0000
  {
    Pow2Of9();
    Pow2Add(9, 9);
  }

  lemma Pow2Of36()
    ensures Pow2(36) == 0x10_0000_0000
  {
    Pow2Of18();
    Pow2Add(18, 18);
  }

  /** The magnitude of Long.MIN_VALUE is 2^63. */
  lemma Pow2Of63()
    ensures Pow2(63) == -MinLong
  {
    Pow2Of9();
    Pow2Of18();
    Pow2Of36();
    Pow2Add(36, 18);
    Pow2Add(54, 9);
  }

  /** `n` is m * 2^k for some m below 2^p: a binary floating-point format with a p-bit
      significand (24 for binary32, 53 for binary64) and a wide enough exponent holds
      it exactly. */
  ghost predicate FitsSignificand(n: nat, p: nat)
  {
    exists m: nat, k: nat :: m < Pow2(p) && n == Scaled(m, k)
  }

  lemma SmallFits(n: nat, p: nat)
    requires n < Pow2(p)
    ensures FitsSignificand(n, p)
  {
    assert n == Scaled(n, 0);
  }

  /** Halving an even number at or above 2^p keeps whether it fits. */
  lemma HalveFits(n: nat, p: nat)
    requires n % 2 == 0 && n >= Pow2(p)
    ensures FitsSignificand(n, p) <==> FitsSignificand(n / 2, p)
  {
    if FitsSignificand(n, p) {
      var m: nat, k: nat :| m < Pow2(p) && n == Scaled(m, k);
      assert k != 0;
      assert n / 2 == Scaled(m, k - 1);
    }
    if FitsSignificand(n / 2, p) {
      var m: nat, k: nat :| m < Pow2(p) && n / 2 == Scaled(m, k);
      assert n == Scaled(m, k + 1);
    }
  }

  /** An odd number at or above 2^p does not fit. */
  lemma OddDoesNotFit(n: nat, p: nat)
    requires n % 2 == 1 && n >= Pow2(p)
    ensures !FitsSignificand(n, p)
  {
  }

  /** The loop shared by CanFitInSingle and CanFitInDouble: Long.MIN_VALUE fits; any
      other value is replaced by its absolute value, halved while it is even and at
      least 2^p, and fits when it ends below 2^p.  On the non-negative values the loop
      sees, `& 1` is `% 2` and `>>= 1` is `/ 2`. */
  method FitsWithPrecision(v: Long, p: nat) returns (r: bool)
    requires p >= 1
    ensures r <==> FitsSignificand(Magnitude(v), p)
  {
    if v == MinLong {
      Pow2Of63();
      Pow2Monotone(1, p);
      assert Magnitude(v) == Scaled(1, 63);
      return true;
    }
    var item: nat := if v < 0 then JavaNeg(v) else v;
    ghost var n0 := item;
    while item >= Pow2(p) && item % 2 == 0
      invariant FitsSignificand(item, p) <==> FitsSignificand(n0, p)
      decreases item
    {
      HalveFits(item, p);
      item := item / 2;
    }
    if item < Pow2(p) {
      SmallFits(item, p);
    } else {
      OddDoesNotFit(item, p);
    }
    r := item < Pow2(p);
  }

  /** CanFitInSingle: the value is exactly representable as a binary32 float. */
  method CanFitInSingle(v: Long) returns (r: bool)
    ensures r <==> FitsSignificand(Magnitude(v), 24)
  {
    r := FitsWithPrecision(v, 24);
  }

  /** CanFitInDouble: the value is exactly representable as a binary64 float. */
  method CanFitInDouble(v: Long) returns (r: bool)
    ensures r <==> FitsSignificand(Magnitude(v), 53)
  {
    r := FitsWithPrecision(v, 53);
  }

  /** A wider significand holds whatever a narrower one does: every long that
      CanFitInSingle accepts, CanFitInDouble accepts too. */
  lemma FitsWider(n: nat, p: nat, q: nat)
    requires p <= q && FitsSignificand(n, p)
    ensures FitsSignificand(n, q)
  {
    var m: nat, k: nat :| m < Pow2(p) && n == Scaled(m, k);
    Pow2Monotone(p, q);
  }

  lemma {:induction false} Pow2Monotone(p: nat, q: nat)
    requires p <= q
    ensures Pow2(p) <= Pow2(q)
    decreases q - p
  {
    if p < q {
      Pow2Monotone(p, q - 1);
    }
  }

  /** Just above 2^p the significand runs out: 2^p + 1 does not fit in p bits, while
      its neighbours 2^p and 2^p + 2 do (for binary32, 16777217 is not representable). */
  lemma ExactUpTo(p: nat)
    requires p >= 2
    ensures !FitsSignificand(Pow2(p) + 1, p)
    ensures FitsSignificand(Pow2(p), p) && FitsSignificand(Pow2(p) + 2, p)
  {
    var h := Pow2(p - 1);
    assert Pow2(p) == 2 * h;
    assert h >= 2 by {
      assert h == 2 * Pow2(p - 2);
    }
    OddDoesNotFit(Pow2(p) + 1, p);
    assert Pow2(p) == Scaled(h, 1);
    assert Pow2(p) + 2 == Scaled(h + 1, 1);
  }
}
