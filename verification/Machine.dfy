/** Fixed-width machine arithmetic, written out because Dafny's `int` is unbounded. */
module Machine {

  /** Bytes in a page, of the database and of the kernels. */
  const PAGE_SZ: nat := 8192

  type byte = x: int | 0 <= x < 256

  const TWO16 := 0x1_0000
  const TWO31 := 0x8000_0000
  const TWO32 := 0x1_0000_0000
  const TWO63 := 0x8000_0000_0000_0000
  const TWO64 := 0x1_0000_0000_0000_0000

  /** Two's-complement reading of the low 16 bits (C `short`). */
  function Int16(x: int): (r: int)
    ensures -0x8000 <= r < 0x8000
  {
    var m := x % TWO16;
    if m < 0x8000 then m else m - TWO16
  }

  /** Two's-complement reading of the low 32 bits (C `int`). */
  function Int32(x: int): (r: int)
    ensures -TWO31 <= r < TWO31
  {
    var m := x % TWO32;
    if m < TWO31 then m else m - TWO32
  }

  /** The low 32 bits (C `unsigned int`). */
  function UInt32(x: int): (r: int)
    ensures 0 <= r < TWO32
    ensures 0 <= x < TWO32 ==> r == x
  {
    x % TWO32
  }

  /** Two's-complement reading of the low 64 bits (C `long`). */
  function Int64(x: int): (r: int)
    ensures -TWO63 <= r < TWO63
  {
    var m := x % TWO64;
    if m < TWO63 then m else m - TWO64
  }

  /** The wrapped values are those of the C types, and differ from what they stand for by whole turns. */
  lemma TwosComplement(x: int)
    ensures -32768 <= Int16(x) <= 32767 && (x - Int16(x)) % 65536 == 0
    ensures -2147483648 <= Int32(x) <= 2147483647 && (x - Int32(x)) % 4294967296 == 0
    ensures 0 <= UInt32(x) <= 4294967295 && (x - UInt32(x)) % 4294967296 == 0
    ensures -9223372036854775808 <= Int64(x) <= 9223372036854775807 && (x - Int64(x)) % 18446744073709551616 == 0
  {
  }

  predicate FitsInt64(x: int) {
    -TWO63 <= x < TWO63
  }

  /** Wrapping changes a value by a multiple of 2^64, so wrapping can be postponed to the end of a sum. */
  lemma Int64Add(a: int, b: int)
    ensures Int64(Int64(a) + b) == Int64(a + b)
  {
    var k := (a - Int64(a)) / TWO64;
    assert a == Int64(a) + k * TWO64;
    Int64Shift(Int64(a) + b, k);
  }

  lemma Int64Shift(x: int, k: int)
    ensures Int64(x + k * TWO64) == Int64(x)
  {
    var y := x + k * TWO64;
    assert y == TWO64 * (x / TWO64 + k) + x % TWO64;
    assert y % TWO64 == x % TWO64;
  }

  lemma Int64Linear(a: int, c: int, b: int)
    ensures Int64(Int64(a) * c + b) == Int64(a * c + b)
  {
    var k := (a - Int64(a)) / TWO64;
    assert a == Int64(a) + k * TWO64;
    assert a * c + b == (Int64(a) * c + b) + (k * c) * TWO64;
    Int64Shift(Int64(a) * c + b, k * c);
  }

  /** One step `j = j << 8 | b` in 32 bits. */
  lemma Int32Shift8(a: int, b: int)
    ensures Int32(Int32(a) * 256 + b) == Int32(a * 256 + b)
  {
    var k := (a - Int32(a)) / TWO32;
    assert a == Int32(a) + k * TWO32;
    var x := Int32(a) * 256 + b;
    var y := x + 256 * k * TWO32;
    assert y == TWO32 * (x / TWO32 + 256 * k) + x % TWO32;
    assert y % TWO32 == x % TWO32;
  }

  lemma Int64Exact(a: int)
    ensures Int64(a) == a <==> FitsInt64(a)
  {
  }

  /** Two bytes read little-endian. */
  function Word16(lo: byte, hi: byte): (r: int)
    ensures 0 <= r < TWO16
  {
    lo as int + 256 * (hi as int)
  }

  /** Two bytes, little-endian, as a C `short`: the top bit counts negative. */
  function Short(lo: byte, hi: byte): (r: int) {
    Word16(lo, hi) - (if hi >= 128 then TWO16 else 0)
  }

  /** Four bytes, little-endian, as a C `int`: the top bit counts negative. */
  function Int(b0: byte, b1: byte, b2: byte, b3: byte): (r: int) {
    Word16(b0, b1) + TWO16 * Word16(b2, b3) - (if b3 >= 128 then TWO32 else 0)
  }

  lemma ShortIsWrapped(lo: byte, hi: byte)
    ensures Int16(Word16(lo, hi)) == Short(lo, hi)
  {
  }

  lemma WrapsOnce(x: int)
    requires 0 <= x < TWO32
    ensures Int32(x) == if x < TWO31 then x else x - TWO32
  {
    DivideUnique(x, TWO32, 0, x);
  }

  // ----- steps of non-linear arithmetic, each kept alone -----

  lemma ProductGap(a: int, b: int, d: int)
    requires a < b && d > 0
    ensures a * d + d <= b * d
  {
    var k := b - a - 1;
    assert b == a + 1 + k;
    assert b * d == a * d + d + k * d;
  }

  lemma Distribute(a: int, b: int, d: int)
    ensures (a + b) * d == a * d + b * d
  {
  }

  lemma Associate(a: int, b: int, c: int)
    ensures (a * b) * c == a * (b * c)
  {
  }

  lemma DivideUnique(num: int, den: int, q: int, low: int)
    requires den > 0 && 0 <= low < den && num == q * den + low
    ensures num / den == q && num % den == low
  {
    var q' := num / den;
    var low' := num % den;
    assert num == q' * den + low' && 0 <= low' < den;
    if q' < q {
      ProductGap(q', q, den);
    } else if q < q' {
      ProductGap(q, q', den);
    }
  }

  lemma Whole(a: nat, d: nat)
    requires d > 0 && a % d == 0
    ensures a == (a / d) * d
  {
  }

  // Products and quotients of variables, by recursion, for the contracts in which the solver should not
  // meet `*` and `/` themselves.

  function Quotient(num: nat, den: nat): nat
    requires den > 0
  {
    if num < den then 0 else Quotient(num - den, den) + 1
  }

  lemma {:induction false} QuotientIs(num: nat, den: nat)
    requires den > 0
    ensures Quotient(num, den) == num / den
  {
    if num < den {
      DivideUnique(num, den, 0, num);
    } else {
      QuotientIs(num - den, den);
      var q := (num - den) / den;
      Distribute(q, 1, den);
      DivideUnique(num, den, q + 1, (num - den) % den);
    }
  }

  function Product(a: nat, b: nat): nat {
    if a == 0 then 0 else Product(a - 1, b) + b
  }

  lemma {:induction false} ProductIs(a: nat, b: nat)
    ensures Product(a, b) == a * b
  {
    if a > 0 {
      ProductIs(a - 1, b);
      Distribute(a - 1, 1, b);
    }
  }

  lemma ProductStep(a: nat, b: nat)
    ensures Product(0, b) == 0 && Product(a + 1, b) == Product(a, b) + b
  {
  }

  function Max(a: int, b: int): int {
    if a < b then b else a
  }

  function Min(a: int, b: int): int {
    if a < b then a else b
  }
}
