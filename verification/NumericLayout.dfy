/**
  Writing numerics: PostgreSQL's short header from weight, sign and display scale, then base-10000 digits;
  and what the routine `snumToLong3` makes of them, as a real number.
*/
module NumericLayout {
  import opened Machine
  import N = Numeric

  /** Sign, weight of the first digit, digits after the point to display, base-10000 digits. */
  datatype Decimal = Decimal(negative: bool, weight: int, scale: nat, digits: seq<nat>)

  /** Of at most six digits, so that it fits the kernel's field. */
  predicate Valid(d: Decimal) {
    && -64 <= d.weight < 64 && d.scale < 64 && |d.digits| <= 6
    && forall k :: 0 <= k < |d.digits| ==> d.digits[k] < 10000
  }

  /** Ten thousand to the e. */
  function Place(e: int): (r: real)
    ensures r > 0.0
    decreases if e < 0 then -e else e
  {
    if e == 0 then 1.0 else if e > 0 then 10000.0 * Place(e - 1) else Place(e + 1) / 10000.0
  }

  /** The first n digits at their places. */
  function Digits(d: Decimal, n: nat): real
    requires n <= |d.digits|
  {
    if n == 0 then 0.0 else Digits(d, n - 1) + d.digits[n - 1] as real * Place(d.weight - (n - 1))
  }

  /** The number itself. */
  function Value(d: Decimal): real {
    if d.negative then -Digits(d, |d.digits|) else Digits(d, |d.digits|)
  }

  /** A real number of hundredths, fractions cut off toward zero. */
  function Truncated(x: real): int {
    if x < 0.0 then -((-x).Floor) else x.Floor
  }

  /** Header of two bytes, low byte first: 7 bits of weight, 6 of scale, a sign bit, and the mark of the short form. */
  function Stored(d: Decimal): (p: seq<byte>)
    requires Valid(d)
    ensures |p| == 2 + 2 * |d.digits|
  {
    [d.weight % 128 + 128 * (d.scale % 2), 128 + (if d.negative then 32 else 0) + d.scale / 2] + DigitBytes(d.digits,
      |d.digits|)
  }

  function DigitBytes(digits: seq<nat>, n: nat): (p: seq<byte>)
    requires n <= |digits| && forall k :: 0 <= k < |digits| ==> digits[k] < 10000
    ensures |p| == 2 * n
  {
    if n == 0 then [] else DigitBytes(digits, n - 1) + [digits[n - 1] % 256, digits[n - 1] / 256]
  }

  // ----- the bytes read back -----

  lemma {:induction false} DigitBytesAt(digits: seq<nat>, n: nat, k: nat)
    requires k < n <= |digits| && forall k :: 0 <= k < |digits| ==> digits[k] < 10000
    ensures Word16(DigitBytes(digits, n)[2 * k], DigitBytes(digits, n)[2 * k + 1]) == digits[k]
  {
    if k < n - 1 {
      DigitBytesAt(digits, n - 1, k);
    }
  }

  lemma DigitReads(d: Decimal, k: nat)
    requires Valid(d)
    ensures N.DigitCount(Stored(d)) == |d.digits|
    ensures N.Digit(Stored(d), k) == if k < |d.digits| then d.digits[k] else 0
  {
    hide DigitBytes, Word16;
    if k < |d.digits| {
      DigitBytesAt(d.digits, |d.digits|, k);
      var p, q := Stored(d), DigitBytes(d.digits, |d.digits|);
      assert p[2 + 2 * k] == q[2 * k] && p[3 + 2 * k] == q[2 * k + 1];
    }
  }

  lemma HeaderReads(d: Decimal)
    requires Valid(d)
    ensures N.Weight(Stored(d)) == d.weight && N.Negative(Stored(d)) == d.negative
  {
    var p1 := Stored(d)[1];
    assert p1 == 128 + (if d.negative then 32 else 0) + d.scale / 2;
    DivideUnique(p1, 32, if d.negative then 5 else 4, d.scale / 2);
    WeightBits(d.weight, d.scale % 2);
  }

  lemma WeightBits(w: int, bit: int)
    requires -64 <= w < 64 && 0 <= bit < 2
    ensures w % 128 == if w < 0 then w + 128 else w
  {
  }

  lemma {:induction false} SmallDigitsRead(d: Decimal, n: nat)
    requires Valid(d) && n <= |d.digits|
    ensures N.SmallDigits(Stored(d), n)
  {
    hide Stored, N.Digit;
    if n > 0 {
      SmallDigitsRead(d, n - 1);
      DigitReads(d, n - 1);
    }
  }

  /** Every such number is one that the decoder can read. */
  lemma StoredIsWellFormed(d: Decimal)
    requires Valid(d)
    ensures N.WellFormed(Stored(d))
  {
    hide N.SmallDigits, N.Digit, DigitBytes;
    SmallDigitsRead(d, |d.digits|);
    DigitReads(d, 0);
  }

  // ----- the value -----

  lemma {:induction false} PlacePower(e: nat)
    ensures Place(e) == N.Pow10000(e) as real
    ensures Place(0 - e) * N.Pow10000(e) as real == 1.0
  {
    if e > 0 {
      PlacePower(e - 1);
      var q, x := N.Pow10000(e - 1) as real, Place(1 - e);
      assert N.Pow10000(e) as real == 10000.0 * q;
      assert Place(0 - e) == x / 10000.0;
      Cancel(x, q);
    }
  }

  lemma Cancel(x: real, q: real)
    requires x * q == 1.0
    ensures (x / 10000.0) * (10000.0 * q) == 1.0
  {
  }

  lemma PlaceStep(e: int)
    ensures Place(e + 1) == 10000.0 * Place(e)
  {
  }

  lemma MultiplyOut(a: real, b: real, x: real)
    ensures (a * 10000.0 + b) * x == a * (10000.0 * x) + b * x
  {
  }

  /** The digits read as one number, at the place of the last of them. */
  lemma {:induction false} PrefixValue(d: Decimal, n: nat)
    requires Valid(d) && n <= |d.digits|
    ensures Digits(d, n) == N.Prefix(Stored(d), n) as real * Place(d.weight + 1 - n)
  {
    hide Stored, Place, N.Digit, N.DigitCount;
    if n > 0 {
      PrefixValue(d, n - 1);
      DigitReads(d, n - 1);
      var a, b, x := N.Prefix(Stored(d), n - 1), d.digits[n - 1], Place(d.weight + 1 - n);
      PlaceStep(d.weight + 1 - n);
      assert N.Prefix(Stored(d), n) == a * 10000 + b;
      MultiplyOut(a as real, b as real, x);
    }
  }

  lemma {:induction false} RealProduct(a: nat, b: nat)
    ensures (a * b) as real == a as real * b as real
  {
    if a > 0 {
      RealProduct(a - 1, b);
      Distribute(a - 1, 1, b);
      var x, y := (a - 1) as real, b as real;
      assert a as real * y == x * y + y;
    }
  }

  /** A quotient of integers, cut off, is the integer quotient. */
  lemma FloorOfQuotient(a: nat, b: nat, x: real)
    requires b > 0 && x * b as real == a as real
    ensures x.Floor == a / b
  {
    var q, r := a / b, a % b;
    assert a == q * b + r;
    RealProduct(q, b);
    var y := b as real;
    assert (x - q as real) * y == r as real;
    BetweenZeroAndOne(x - q as real, y, r as real);
  }

  lemma BetweenZeroAndOne(t: real, y: real, r: real)
    requires y > 0.0 && t * y == r && 0.0 <= r < y
    ensures 0.0 <= t < 1.0
  {
    if t < 0.0 {
      PositiveTimes(-t, y);
    } else if t > 1.0 {
      PositiveTimes(t - 1.0, y);
    }
  }

  lemma PositiveTimes(t: real, y: real)
    requires t > 0.0 && y > 0.0
    ensures t * y > 0.0 && (-t) * y < 0.0 && (t + 1.0) * y > y
  {
  }

  lemma Regroup(p: real, x: real, b: real)
    requires x * b == 1.0
    ensures (100.0 * (p * x)) * b == 100.0 * p
  {
    assert (100.0 * (p * x)) * b == 100.0 * p * (x * b);
  }

  /** All digits, shifted to their places and cut off to hundredths. */
  lemma MagnitudeOf(d: Decimal)
    requires Valid(d)
    ensures N.Magnitude(Stored(d)) == (100.0 * Digits(d, |d.digits|)).Floor
  {
    hide Stored, Digits, N.Prefix, N.Pow10000, Place, N.Weight, N.Digit, N.DigitCount, Product, Quotient;
    var n, a := |d.digits|, N.Prefix(Stored(d), |d.digits|);
    var e := d.weight + 1 - n;
    HeaderReads(d);
    DigitReads(d, 0);
    PrefixValue(d, n);
    var x := 100.0 * Digits(d, n);
    if e >= 0 {
      PlacePower(e);
      ProductIs(100 * a, N.Pow10000(e));
      RealProduct(100 * a, N.Pow10000(e));
      Associate3(a as real, N.Pow10000(e) as real);
      FloorOfQuotient(100 * a * N.Pow10000(e), 1, x);
    } else {
      PlacePower(-e);
      QuotientIs(100 * a, N.Pow10000(-e));
      Regroup(a as real, Place(e), N.Pow10000(-e) as real);
      FloorOfQuotient(100 * a, N.Pow10000(-e), x);
    }
  }

  lemma Associate3(a: real, b: real)
    ensures 100.0 * (a * b) == (100.0 * a) * b
  {
  }

  lemma {:induction false} DigitsPositive(d: Decimal, n: nat)
    requires n <= |d.digits|
    ensures Digits(d, n) >= 0.0
  {
    if n > 0 {
      DigitsPositive(d, n - 1);
      assert d.digits[n - 1] as real * Place(d.weight - (n - 1)) >= 0.0;
    }
  }

  /** The meaning of the stored bytes is the number, in hundredths and cut off toward zero. */
  lemma HundredthsOf(d: Decimal)
    requires Valid(d)
    ensures N.Hundredths(Stored(d)) == Truncated(100.0 * Value(d))
  {
    hide Stored, N.Magnitude, Digits, N.Negative;
    HeaderReads(d);
    MagnitudeOf(d);
    DigitsPositive(d, |d.digits|);
  }

  /**
    The routine on the stored form of any number. From weight -1 on it returns the number in hundredths. Below,
    where the number is less than a hundredth, it returns the leading digit as if it followed the point.
  */
  method Decode(d: Decimal) returns (r: int)
    requires Valid(d)
    ensures d.weight >= -1 ==> r == Int64(Truncated(100.0 * Value(d)))
    ensures d.weight < -1 ==> Truncated(100.0 * Value(d)) == 0
    ensures d.weight < -1 ==>
              var lead: int := if d.digits == [] then 0 else d.digits[0] / 100;
              r == if d.negative then -lead else lead
  {
    hide Stored, N.Magnitude, N.DigitsRead, N.WellFormed, N.Weight, N.Digit, N.Negative, Value, Truncated, Int64;
    StoredIsWellFormed(d);
    HeaderReads(d);
    DigitReads(d, 0);
    HundredthsOf(d);
    N.DecodingExact(Stored(d));
    if d.weight < -1 {
      N.ReadBelow(Stored(d));
      Int64Exact(N.Decoded(Stored(d)));
    }
    assert Stored(d)[..|Stored(d)|] == Stored(d);
    r := N.SnumToLong3(Stored(d), |Stored(d)|);
  }
}
