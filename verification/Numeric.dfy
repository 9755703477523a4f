/**
  The base-10000 numerics of PostgreSQL in their short on-disk form, and the routine `snumToLong3`
  (shared text in the kernels and in the software emulation) that turns one into hundredths.
  A payload is two header bytes (low seven bits: weight; bit 5 of the second byte: sign) followed by
  little-endian 16-bit digits, most significant first; digit k has place value 10000^(weight - k).
*/
module Numeric {
  import opened Machine

  function DigitCount(p: seq<byte>): nat
    requires |p| >= 2
  {
    (|p| - 2) / 2
  }

  /** Digit k, with 0 for the trailing digits that the stored form leaves out. */
  function Digit(p: seq<byte>, k: nat): nat
    requires |p| >= 2
  {
    if k < DigitCount(p) then Word16(p[2 + 2 * k], p[3 + 2 * k]) else 0
  }

  function Weight(p: seq<byte>): (w: int)
    requires |p| >= 2
    ensures -64 <= w < 64
  {
    var w: int := if p[0] < 128 then p[0] else p[0] - 128;
    if w < 64 then w else w - 128
  }

  predicate Negative(p: seq<byte>)
    requires |p| >= 2
  {
    (p[1] / 32) % 2 == 1
  }

  /** A short-form numeric of at most six digits, so that it fits the kernel's 16-byte field with its length byte. */
  predicate WellFormed(p: seq<byte>) {
    && 2 <= |p| <= 14
    && |p| % 2 == 0
    && 128 <= p[1] < 192
    && SmallDigits(p, DigitCount(p))
  }

  /** The first k digits are base-10000 digits. */
  predicate SmallDigits(p: seq<byte>, k: nat)
    requires |p| >= 2
  {
    k == 0 || (SmallDigits(p, k - 1) && Digit(p, k - 1) < 10000)
  }

  function Pow10000(e: nat): (r: nat)
    ensures r > 0
  {
    if e == 0 then 1 else 10000 * Pow10000(e - 1)
  }

  /** The first k digits read as one base-10000 number. */
  function Prefix(p: seq<byte>, k: nat): nat
    requires |p| >= 2
  {
    if k == 0 then 0 else Prefix(p, k - 1) * 10000 + Digit(p, k - 1)
  }

  /**
    The meaning of a stored numeric, in hundredths and without sign: all the stored digits as one
    integer, shifted by the place value of the last one, times 100, fractions of a hundredth dropped.
  */
  function Magnitude(p: seq<byte>): nat
    requires |p| >= 2
  {
    var n := DigitCount(p);
    var exponent := Weight(p) + 1 - n;
    if exponent >= 0 then Product(100 * Prefix(p, n), Pow10000(exponent))
    else Quotient(100 * Prefix(p, n), Pow10000(-exponent))
  }

  /** The stored value times 100, truncated toward zero. */
  function Hundredths(p: seq<byte>): int
    requires |p| >= 2
  {
    var m: int := Magnitude(p);
    if Negative(p) then -m else m
  }

  /** What the routine's digit loop reads: the digits before the point and the one after it. */
  function DigitsRead(p: seq<byte>): nat
    requires |p| >= 2
  {
    var whole := Max(Weight(p) + 1, 0);
    Prefix(p, whole) * 100 + Digit(p, whole) / 100
  }

  function Decoded(p: seq<byte>): int
    requires |p| >= 2
  {
    var m: int := DigitsRead(p);
    if Negative(p) then -m else m
  }

  lemma DigitAt(fData: seq<byte>, fsz: nat, k: nat)
    requires fsz <= |fData| && WellFormed(fData[..fsz])
    ensures 2 + 2 * k < fsz ==> Digit(fData[..fsz], k) == Int16(Word16(fData[2 + 2 * k], fData[3 + 2 * k]))
    ensures 2 + 2 * k >= fsz ==> Digit(fData[..fsz], k) == 0
  {
    if 2 + 2 * k < fsz {
      SmallDigit(fData[..fsz], k, DigitCount(fData[..fsz]));
    }
  }

  lemma PrefixNone(p: seq<byte>)
    requires |p| >= 2
    ensures Int64(Prefix(p, 0)) == 0
  {
  }

  lemma PrefixNext(p: seq<byte>, k: nat)
    requires |p| >= 2
    ensures Prefix(p, k + 1) == Prefix(p, k) * 10000 + Digit(p, k)
  {
  }

  /** The weight's seven bits: masked out of the first byte, then bit 6 copied to bit 7 of a `char`. */
  method SignExtend(b: byte) returns (weight: int)
    ensures forall p: seq<byte> :: |p| >= 2 && p[0] == b ==> weight == Weight(p)
  {
    weight := b as int % 128;
    if weight >= 64 {
      weight := weight - 128;
    }
  }

  /** The C routine, every assignment to `res` wrapping at 64 bits and `dig` at 16. */
  method SnumToLong3(fData: seq<byte>, fsz: nat) returns (r: int)
    requires fsz <= |fData|
    requires WellFormed(fData[..fsz])
    ensures r == Int64(Decoded(fData[..fsz]))
  {
    hide Int64, Int16, Word16, Digit, Prefix;
    ghost var p := fData[..fsz];
    var bSign := (fData[1] / 32) % 2 == 1;
    var weight := SignExtend(fData[0]);
    PrefixNone(p);
    var res := 0;
    var nWhlDigs := if weight >= 0 then weight + 1 else 0;
    var nDigs := nWhlDigs + 1;
    var fPtr := 2;
    var i := nDigs - 1;
    while i >= 0
      invariant -1 <= i <= nWhlDigs
      invariant fPtr == 2 + 2 * (nWhlDigs - i)
      invariant i >= 0 ==> res == Int64(Prefix(p, nWhlDigs - i))
      invariant i < 0 ==> res == Int64(DigitsRead(p))
    {
      ghost var k := nWhlDigs - i;
      DigitAt(fData, fsz, k);
      PrefixNext(p, k);
      Int64Linear(Prefix(p, k), 10000, Digit(p, k));
      Int64Linear(Prefix(p, k), 100, Digit(p, k) / 100);
      var dig := 0;
      if fPtr < fsz {
        dig := Int16(Word16(fData[fPtr], fData[fPtr + 1]));
      }
      if i == 0 {
        res := Int64(res * 100 + dig / 100);
      } else {
        res := Int64(res * 10000 + dig);
      }
      i := i - 1;
      fPtr := fPtr + 2;
    }
    if bSign {
      Int64Linear(DigitsRead(p), -1, 0);
      r := Int64(-1 * res);
    } else {
      r := res;
    }
  }

  // ----- exactness -----

  /** Digits past the stored ones only shift the prefix. */
  lemma {:induction false} PrefixBeyond(p: seq<byte>, k: nat)
    requires |p| >= 2 && k >= DigitCount(p)
    ensures Prefix(p, k) == Product(Prefix(p, DigitCount(p)), Pow10000(k - DigitCount(p)))
  {
    var n := DigitCount(p);
    if k == n {
      ProductIs(Prefix(p, n), 1);
    } else {
      PrefixBeyond(p, k - 1);
      ShiftProduct(Prefix(p, n), Pow10000(k - 1 - n), 0);
    }
  }

  lemma ShiftProduct(a: nat, q: nat, r: int)
    ensures (Product(a, q) + r) * 10000 == Product(a, 10000 * q) + r * 10000
  {
    ProductIs(a, q);
    ProductIs(a, 10000 * q);
    ShiftOne(a, q, r);
  }

  lemma ShiftOne(a: int, q: int, r: int)
    ensures (a * q + r) * 10000 == a * (10000 * q) + r * 10000
  {
  }

  lemma {:induction false} SmallDigit(p: seq<byte>, k: nat, n: nat)
    requires |p| >= 2 && SmallDigits(p, n) && k < n
    ensures Digit(p, k) < 10000
  {
    if k < n - 1 {
      SmallDigit(p, k, n - 1);
    }
  }

  /** Cutting the digit string after k digits leaves a remainder below one unit of digit k - 1. */
  lemma {:induction false} PrefixCut(p: seq<byte>, k: nat, n: nat) returns (rest: nat)
    requires WellFormed(p) && k <= n <= DigitCount(p)
    ensures rest < Pow10000(n - k)
    ensures Prefix(p, n) == Product(Prefix(p, k), Pow10000(n - k)) + rest
  {
    hide Digit;
    if k == n {
      rest := 0;
      ProductIs(Prefix(p, k), 1);
    } else {
      var r := PrefixCut(p, k, n - 1);
      SmallDigit(p, n - 1, DigitCount(p));
      ShiftProduct(Prefix(p, k), Pow10000(n - 1 - k), r);
      rest := r * 10000 + Digit(p, n - 1);
    }
  }

  /** Only the first hundredth of digit d survives a division that drops d and the digits t below it. */
  lemma DivideLower(a: int, d: nat, b: int, t: nat)
    requires b > 0 && t < b
    ensures 100 * ((a * 10000 + d) * b + t) / (10000 * b) == a * 100 + d / 100
  {
    var q, r := d / 100, d % 100;
    var low := 100 * (r * b + t);
    DivideLowerProduct(a, q, r, b);
    if r < 99 {
      ProductGap(r, 99, b);
    }
    DivideUnique(100 * ((a * 10000 + d) * b + t), 10000 * b, a * 100 + q, low);
  }

  lemma DivideLowerProduct(a: int, q: int, r: int, b: int)
    ensures 100 * ((a * 10000 + (100 * q + r)) * b) == (a * 100 + q) * (10000 * b) + 100 * (r * b)
  {
    Distribute(a * 10000 + 100 * q, r, b);
    assert (a * 10000 + 100 * q) * b == 100 * ((a * 100 + q) * b) by {
      Associate(100, a * 100 + q, b);
    }
    assert (a * 100 + q) * (10000 * b) == 10000 * ((a * 100 + q) * b);
  }

  lemma {:induction false} PowGrows(a: nat, b: nat)
    requires a <= b
    ensures Pow10000(a) <= Pow10000(b)
  {
    if a < b {
      PowGrows(a, b - 1);
    }
  }

  lemma ReadShort(p: seq<byte>, n: nat, whole: nat)
    requires WellFormed(p) && whole < n <= DigitCount(p)
    ensures Quotient(100 * Prefix(p, n), Pow10000(n - whole)) == Prefix(p, whole) * 100 + Digit(p, whole) / 100
  {
    hide Digit, WellFormed, Weight;
    var t := PrefixCut(p, whole + 1, n);
    var high, d, b := Prefix(p, whole), Digit(p, whole), Pow10000(n - whole - 1);
    assert Prefix(p, whole + 1) == high * 10000 + d;
    assert Pow10000(n - whole) == 10000 * b;
    ProductIs(high * 10000 + d, b);
    QuotientIs(100 * Prefix(p, n), 10000 * b);
    DivideLower(high, d, b, t);
  }

  lemma HundredTimes(a: nat, q: nat)
    ensures Product(100 * a, q) == 100 * Product(a, q)
  {
    ProductIs(100 * a, q);
    ProductIs(a, q);
    Associate(100, a, q);
  }

  /** For every weight down to -1 the loop's few digits already give the truncated value. */
  lemma ReadIsMagnitude(p: seq<byte>)
    requires WellFormed(p) && Weight(p) >= -1
    ensures DigitsRead(p) == Magnitude(p)
  {
    var n, whole := DigitCount(p), Weight(p) + 1;
    if whole >= n {
      PrefixBeyond(p, whole);
      HundredTimes(Prefix(p, n), Pow10000(whole - n));
    } else {
      ReadShort(p, n, whole);
    }
  }

  /** Below weight -1 the true value is under a hundredth, but the loop still reads digit 0 as if its weight were -1. */
  lemma ReadBelow(p: seq<byte>)
    requires WellFormed(p) && Weight(p) < -1
    ensures Magnitude(p) == 0 && DigitsRead(p) == Digit(p, 0) / 100
  {
    var n := DigitCount(p);
    var rest := PrefixCut(p, 0, n);
    var m := n - (Weight(p) + 1);
    PowGrows(n + 1, m);
    QuotientIs(100 * Prefix(p, n), Pow10000(m));
    ProductStep(0, Pow10000(n));
    DivideUnique(100 * Prefix(p, n), Pow10000(m), 0, 100 * Prefix(p, n));
  }

  /**
    `snumToLong3` returns the stored value times 100, truncated toward zero, exactly when the weight
    is at least -1 or the leading digit is below 100, and the result fits a signed 64-bit integer.
  */
  lemma DecodingExact(p: seq<byte>)
    requires WellFormed(p)
    ensures Decoded(p) == Hundredths(p) <==> Weight(p) >= -1 || Digit(p, 0) < 100
    ensures Weight(p) >= -1 ==> (Int64(Decoded(p)) == Hundredths(p) <==> FitsInt64(Hundredths(p)))
  {
    if Weight(p) >= -1 {
      ReadIsMagnitude(p);
      Int64Exact(Hundredths(p));
    } else {
      ReadBelow(p);
    }
  }

  lemma {:induction false} PrefixBound(p: seq<byte>, k: nat)
    requires WellFormed(p)
    ensures Prefix(p, k) < Pow10000(k)
  {
    if k > 0 {
      PrefixBound(p, k - 1);
      if k - 1 < DigitCount(p) {
        SmallDigit(p, k - 1, DigitCount(p));
      }
    }
  }

  /** Up to weight 3 (16 digits before the point) nothing leaves the signed 64-bit range. */
  lemma SmallWeightFits(p: seq<byte>)
    requires WellFormed(p) && -1 <= Weight(p) <= 3
    ensures Int64(Decoded(p)) == Hundredths(p)
  {
    var whole := Weight(p) + 1;
    PrefixBound(p, whole);
    PowGrows(whole, 4);
    assert Pow10000(4) == 10000 * (10000 * (10000 * (10000 * Pow10000(0))));
    if whole < DigitCount(p) {
      SmallDigit(p, whole, DigitCount(p));
    }
    DecodingExact(p);
  }

  /**
    A numeric of weight -2 that the routine gets wrong: 0.00005, stored with scale 5 and one digit, is read as 0.50.
  */
  lemma TooSmallIsMisread()
    ensures exists p: seq<byte> :: WellFormed(p) && Weight(p) == -2 && Hundredths(p) == 0 && Decoded(p) == 50
  {
    var p: seq<byte> := [254, 130, 136, 19];
    assert DigitCount(p) == 1 && Digit(p, 0) == 5000;
    assert WellFormed(p) && Weight(p) == -2;
    ReadBelow(p);
    assert Prefix(p, 0) == 0;
  }
}
