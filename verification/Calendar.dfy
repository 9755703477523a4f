/**
  The date conversions of the software emulation: `date2j` numbers the days of the proleptic
  Gregorian calendar and `j2date` finds the date of a day number. The calendar itself is given
  separately, by its leap-year rule and its "next day".
*/
module Calendar {
  import opened Machine

  datatype Date = Date(y: int, m: int, d: int)

  predicate IsLeap(y: int) {
    y % 4 == 0 && (y % 100 != 0 || y % 400 == 0)
  }

  function MonthDays(y: int, m: int): int {
    if m == 2 then (if IsLeap(y) then 29 else 28)
    else if m in {4, 6, 9, 11} then 30
    else 31
  }

  predicate ValidDate(t: Date) {
    1 <= t.m <= 12 && 1 <= t.d <= MonthDays(t.y, t.m)
  }

  function NextDay(t: Date): Date {
    if t.d < MonthDays(t.y, t.m) then Date(t.y, t.m, t.d + 1)
    else if t.m < 12 then Date(t.y, t.m + 1, 1)
    else Date(t.y + 1, 1, 1)
  }

  function DaysLater(t: Date, n: nat): Date {
    if n == 0 then t else NextDay(DaysLater(t, n - 1))
  }

  /** Days before 1 March of year y - 4800. */
  function YearStart(y: int): int {
    y * 365 + y / 4 - y / 100 + y / 400
  }

  /** Days before a month, up to a constant; March is month 4 and February month 15. */
  function MonthStart(m: int): int {
    7834 * m / 256
  }

  /** What `date2j` computes, on unbounded integers; years count from March -4800. */
  function DayNumber(t: Date): int {
    if t.m > 2 then YearStart(t.y + 4800) - 32167 + MonthStart(t.m + 1) + t.d
    else YearStart(t.y + 4799) - 32167 + MonthStart(t.m + 13) + t.d
  }

  /** Dates from 1 March -4800 on, where the shifted year is not negative. */
  predicate Covered(t: Date) {
    ValidDate(t) && (t.y > -4800 || (t.y == -4800 && t.m > 2))
  }

  /** The C routine: in range, no step of it leaves 32 bits. */
  method Date2J(y0: int, m0: int, d: int) returns (julian: int)
    requires Covered(Date(y0, m0, d)) && DayNumber(Date(y0, m0, d)) < TWO31
    ensures julian == DayNumber(Date(y0, m0, d))
  {
    var y, m := y0, m0;
    if m > 2 {
      m := m + 1;
      y := y + 4800;
    } else {
      m := m + 13;
      y := y + 4799;
    }
    var century := y / 100;
    assert 0 <= y * 365 < TWO31;
    julian := y * 365 - 32167;
    julian := julian + (y / 4 - century + century / 4);
    assert -TWO31 <= julian < TWO31;
    julian := julian + (7834 * m / 256 + d);
  }

  /** From one March to the next: 365 days, and one more when the February between them is long. */
  lemma YearTurn(y: int)
    ensures YearStart(y + 1) - YearStart(y) == (if IsLeap(y + 1 - 4800) then 366 else 365)
  {
    Turn(y, 4);
    Turn(y, 100);
    Turn(y, 400);
    SameLeap(y + 1);
  }

  lemma Turn(y: int, d: int)
    requires d > 1
    ensures (y + 1) / d - y / d == (if (y + 1) % d == 0 then 1 else 0)
  {
    var q, r := y / d, y % d;
    if r + 1 < d {
      DivideUnique(y + 1, d, q, r + 1);
    } else {
      DivideUnique(y + 1, d, q + 1, 0);
    }
  }

  /** Leap years repeat after 4800 years; divisible by 400 implies by 100, by 100 implies by 4. */
  lemma SameLeap(z: int)
    ensures IsLeap(z - 4800) == (z % 4 == 0 && (z % 100 != 0 || z % 400 == 0))
    ensures (z % 400 == 0 ==> z % 100 == 0) && (z % 100 == 0 ==> z % 4 == 0)
  {
  }

  lemma MonthLengths(m: int)
    requires 4 <= m <= 14
    ensures MonthStart(m + 1) - MonthStart(m) == (if m in {5, 7, 10, 12} then 30 else 31)
    ensures MonthStart(4) == 122 && MonthStart(15) == 459
  {
  }

  /** Day numbers count days: the next calendar day has the next number. */
  lemma NextDayNumber(t: Date)
    requires Covered(t)
    ensures Covered(NextDay(t)) && DayNumber(NextDay(t)) == DayNumber(t) + 1
  {
    MonthLengths(4);
    if t.d == MonthDays(t.y, t.m) {
      if t.m == 2 {
        YearTurn(t.y + 4799);
      } else {
        MonthLengths(if t.m > 2 then t.m + 1 else t.m + 13);
      }
    }
  }

  lemma {:induction false} DaysLaterNumber(t: Date, n: nat)
    requires Covered(t)
    ensures Covered(DaysLater(t, n)) && DayNumber(DaysLater(t, n)) == DayNumber(t) + n
  {
    if n > 0 {
      DaysLaterNumber(t, n - 1);
      NextDayNumber(DaysLater(t, n - 1));
    }
  }

  // ----- day numbers tell dates apart -----

  function MarchYear(t: Date): int {
    if t.m > 2 then t.y + 4800 else t.y + 4799
  }

  lemma InsideYear(t: Date)
    requires Covered(t)
    ensures YearStart(MarchYear(t)) <= DayNumber(t) + 32044 < YearStart(MarchYear(t) + 1)
  {
    MonthLengths(4);
    YearTurn(MarchYear(t));
    var m := if t.m > 2 then t.m + 1 else t.m + 13;
    if m < 15 {
      MonthLengths(m);
    }
  }

  lemma {:induction false} YearsApart(a: int, b: int)
    requires a <= b
    ensures YearStart(a) <= YearStart(b)
    decreases b - a
  {
    if a < b {
      YearTurn(b - 1);
      YearsApart(a, b - 1);
    }
  }

  lemma {:induction false} MonthsApart(a: int, b: int)
    requires 4 <= a < b <= 15
    ensures MonthStart(a + 1) <= MonthStart(b)
    decreases b - a
  {
    if a + 1 < b {
      MonthLengths(b - 1);
      MonthsApart(a, b - 1);
    }
  }

  function MarchMonth(t: Date): int {
    if t.m > 2 then t.m + 1 else t.m + 13
  }

  lemma EarlierMonth(s: Date, t: Date)
    requires Covered(s) && Covered(t) && MarchMonth(s) < MarchMonth(t)
    ensures MonthStart(MarchMonth(s)) + s.d < MonthStart(MarchMonth(t)) + t.d
  {
    MonthLengths(MarchMonth(s));
    MonthsApart(MarchMonth(s), MarchMonth(t));
  }

  lemma EarlierYear(s: Date, t: Date)
    requires Covered(s) && Covered(t) && MarchYear(s) < MarchYear(t)
    ensures DayNumber(s) < DayNumber(t)
  {
    InsideYear(s);
    InsideYear(t);
    YearsApart(MarchYear(s) + 1, MarchYear(t));
  }

  lemma SameNumberSameDate(s: Date, t: Date)
    requires Covered(s) && Covered(t) && DayNumber(s) == DayNumber(t)
    ensures s == t
  {
    if MarchYear(s) < MarchYear(t) {
      EarlierYear(s, t);
    } else if MarchYear(t) < MarchYear(s) {
      EarlierYear(t, s);
    } else if MarchMonth(s) < MarchMonth(t) {
      EarlierMonth(s, t);
    } else if MarchMonth(t) < MarchMonth(s) {
      EarlierMonth(t, s);
    }
  }

  predicate Before(s: Date, t: Date) {
    s.y < t.y || (s.y == t.y && (s.m < t.m || (s.m == t.m && s.d < t.d)))
  }

  /** Day numbers are in calendar order. */
  lemma NumberOrder(s: Date, t: Date)
    requires Covered(s) && Covered(t) && Before(s, t)
    ensures DayNumber(s) < DayNumber(t)
  {
    if MarchYear(s) < MarchYear(t) {
      EarlierYear(s, t);
    } else if MarchMonth(s) < MarchMonth(t) {
      EarlierMonth(s, t);
    }
  }

  /** Day 0 of the database's dates. */
  const EPOCH := Date(2000, 1, 1)

  /** The constant that the sources give for it. */
  lemma EpochNumber()
    ensures DayNumber(EPOCH) == 2451545
  {
  }

  /** Being a date of 1994 is being between two numbers of days before the epoch. */
  lemma YearOf1994(t: Date)
    requires Covered(t)
    ensures t.y == 1994 <==> -2191 <= DayNumber(t) - DayNumber(EPOCH) < -1826
  {
    hide Covered;
    var first, next := Date(1994, 1, 1), Date(1995, 1, 1);
    FirstDays();
    InOrder(t);
    if Before(t, first) {
      NumberOrder(t, first);
    } else if t != first {
      NumberOrder(first, t);
    }
    if Before(t, next) {
      NumberOrder(t, next);
    } else if t != next {
      NumberOrder(next, t);
    }
  }

  lemma FirstDays()
    ensures Covered(Date(1994, 1, 1)) && Covered(Date(1995, 1, 1))
    ensures DayNumber(Date(1994, 1, 1)) - DayNumber(EPOCH) == -2191
        && DayNumber(Date(1995, 1, 1)) - DayNumber(EPOCH) == -1826
  {
  }

  lemma InOrder(t: Date)
    requires Covered(t)
    ensures t.m >= 1 && t.d >= 1
  {
  }

  // ----- from day numbers to dates -----

  /** Days since 1 March -4800, cut into 400-year cycles, centuries and days of a century. */
  lemma Centuries(n: int) returns (a: int, c: int, s: int)
    requires n >= 0
    ensures a == n / 146097 && c == ((n - a * 146097) * 4 + 3) / 146097
    ensures n == 146097 * a + 36524 * c + s
    ensures 0 <= c <= 3 && 0 <= s && s <= (if c == 3 then 36524 else 36523)
    ensures n + 60 + a * 3 + c == 1461 * (100 * a + 25 * c) + (s + 60)
  {
    a := n / 146097;
    var r := n - a * 146097;
    c := (r * 4 + 3) / 146097;
    s := r - 36524 * c;
  }

  /**
    The March-based day of the year, as the routine computes it from a day `rem` of a four-year cycle that starts in
    January.
  */
  function DayOfYear(rem: int): int {
    if rem * 4 / 1461 != 0 then (rem + 305) % 365 else (rem + 306) % 366
  }

  lemma FourYears(rem: int)
    requires 0 <= rem < 1461
    ensures var y := rem * 4 / 1461;
            0 <= y <= 3 &&
            var first := 365 * y + (if y == 0 then 0 else 1);
            var doy := rem - first;
            0 <= doy <= (if y == 0 then 365 else 364) &&
            DayOfYear(rem) == (if y == 0 then (if doy < 60 then doy + 306 else doy - 60)
                               else if doy < 59 then doy + 306 else doy - 59)
  {
  }

  /** Month and day from the March-based day of the year. */
  lemma MonthAndDay(t: int)
    requires 0 <= t <= 365
    ensures var j := t + 123;
            var q := j * 2141 / 65536;
            4 <= q <= 15 && j - MonthStart(q) >= 1 && MonthStart(q) + (j - MonthStart(q)) == j
            && j - MonthStart(q) <= (if q == 15 then 29 else if q in {5, 7, 10, 12} then 30 else 31)
            && (q <= 13 <==> t <= 305)
            && (t == 365 <==> q == 15 && j - MonthStart(q) == 29)
            && (q + 10) % 12 + 1 == (if q <= 13 then q - 1 else q - 13)
  {
    MonthLengths(4);
  }

  lemma YearStartCentury(a: int, c: int, e: int)
    requires 0 <= c <= 3 && 0 <= e <= 99
    ensures YearStart(100 * (4 * a + c) + e) == 146097 * a + 36524 * c + 365 * e + e / 4
  {
    var y := 100 * (4 * a + c) + e;
    assert y / 4 == 100 * a + 25 * c + e / 4;
    assert y / 100 == 4 * a + c;
    assert y / 400 == a;
  }

  /** Day s of a century is day DayOfYear(rem) of its March-based year e; 29 February comes only in leap years. */
  lemma CenturyDay(c: int, s: int, k: int, rem: int)
    requires 0 <= c <= 3 && 0 <= s <= (if c == 3 then 36524 else 36523)
    requires k == (s + 60) / 1461 && rem == (s + 60) % 1461
    ensures var doy, y := DayOfYear(rem), rem * 4 / 1461 + 4 * k;
            var e := y - (if doy >= 306 then 1 else 0);
            0 <= doy <= 365 && 0 <= e <= 99 && s == 365 * e + e / 4 + doy
            && (doy == 365 ==> y % 4 == 0 && 4 <= y <= 100 && (y == 100 ==> c == 3))
  {
    FourYears(rem);
    var r, doy := rem * 4 / 1461, DayOfYear(rem);
    assert s + 60 == 1461 * k + rem;
    assert 0 <= k <= 25;
    assert k == 25 ==> rem <= 59;
    if doy >= 306 {
      if r == 0 {
        assert (4 * k - 1) / 4 == k - 1;
      }
    }
  }

  lemma CenturyLeap(a: int, c: int, y: int)
    requires 0 <= c <= 3 && y % 4 == 0 && 4 <= y <= 100 && (y == 100 ==> c == 3)
    ensures IsLeap(400 * a + 100 * c + y - 4800)
  {
    var z := 400 * a + 100 * c + y - 4800;
    DivideUnique(z, 4, 100 * a + 25 * c + y / 4 - 1200, 0);
    if y == 100 {
      DivideUnique(z, 400, a - 11, 0);
    } else {
      DivideUnique(z, 100, 4 * a + c - 48, y);
    }
  }

  /**
    The date that the routine assembles from a century (a, c), the four-year cycle k in it and the day rem of that
    cycle.
  */
  lemma Assemble(a: int, c: int, s: int, k: int, rem: int) returns (t: Date)
    requires a >= 0 && 0 <= c <= 3 && 0 <= s <= (if c == 3 then 36524 else 36523)
    requires k == (s + 60) / 1461 && rem == (s + 60) % 1461
    ensures var y := rem * 4 / 1461 + 4 * (100 * a + 25 * c + k);
            var j := DayOfYear(rem) + 123;
            var q := j * 2141 / 65536;
            t == Date(y - 4800, (q + 10) % 12 + 1, j - MonthStart(q))
    ensures Covered(t) && DayNumber(t) + 32044 == 146097 * a + 36524 * c + s
  {
    CenturyDay(c, s, k, rem);
    var doy := DayOfYear(rem);
    MonthAndDay(doy);
    var inCentury := rem * 4 / 1461 + 4 * k;
    var e := inCentury - (if doy >= 306 then 1 else 0);
    YearStartCentury(a, c, e);
    if doy == 365 {
      CenturyLeap(a, c, inCentury);
    }
    var y := 400 * a + 100 * c + inCentury;
    var j := doy + 123;
    var q := j * 2141 / 65536;
    t := Date(y - 4800, (q + 10) % 12 + 1, j - MonthStart(q));
    MonthLengths(4);
  }

  /** Days in a calendar in which every fourth year is leap, counted from 1 January -4800. */
  function Corrected(n: int): int {
    n + 60 + (n / 146097) * 3 + ((n - (n / 146097) * 146097) * 4 + 3) / 146097
  }

  function DateOf(cycle: int, rem: int): Date {
    var j := DayOfYear(rem) + 123;
    var q := j * 2141 / 65536;
    Date(rem * 4 / 1461 + cycle * 4 - 4800, (q + 10) % 12 + 1, j - MonthStart(q))
  }

  lemma CorrectedCycle(corrected: int, base: int, s: int)
    requires corrected == 1461 * base + s
    ensures corrected / 1461 == base + s / 1461 && corrected % 1461 == s % 1461
  {
  }

  lemma Located(n: int)
    requires n >= 0
    ensures n + 60 <= Corrected(n) <= n + 63 + (n / 146097) * 3
    ensures var t := DateOf(Corrected(n) / 1461, Corrected(n) % 1461);
            Covered(t) && DayNumber(t) == n - 32044
  {
    hide DayOfYear, MonthStart, DayNumber, Covered;
    var a, c, s := Centuries(n);
    var k, rem := (s + 60) / 1461, (s + 60) % 1461;
    CorrectedCycle(Corrected(n), 100 * a + 25 * c, s + 60);
    var t := Assemble(a, c, s, k, rem);
  }

  /**
    The C routine, on unsigned 32-bit locals: for every int from day -32044 on, no step wraps and the date has number
    jd.
  */
  method J2Date(jd: int) returns (year: int, month: int, day: int)
    requires -32044 <= jd < TWO31
    ensures Covered(Date(year, month, day)) && DayNumber(Date(year, month, day)) == jd
  {
    Located(jd + 32044);
    var julian := UInt32(jd + 32044);
    assert julian == jd + 32044;
    var quad := julian / 146097;
    var extra := (julian - quad * 146097) * 4 + 3;
    julian := UInt32(julian + 60 + quad * 3 + extra / 146097);
    assert julian == Corrected(jd + 32044);
    quad := julian / 1461;
    julian := julian - quad * 1461;
    assert julian == Corrected(jd + 32044) % 1461;
    year, month, day := CycleDate(quad, julian);
  }

  /** The second half of the routine: the date of day `day4` in four-year cycle `cycle`. */
  method CycleDate(cycle: int, day4: int) returns (year: int, month: int, day: int)
    requires 0 <= day4 < 1461
    ensures Date(year, month, day) == DateOf(cycle, day4)
  {
    var y := day4 * 4 / 1461;
    var julian := (if y != 0 then (day4 + 305) % 365 else (day4 + 306) % 366) + 123;
    y := y + cycle * 4;
    year := y - 4800;
    var quad := julian * 2141 / 65536;
    day := julian - 7834 * quad / 256;
    month := (quad + 10) % 12 + 1;
  }

  /** Converting a date to its number and back gives the same date. */
  method RoundTrip(t: Date) returns (u: Date)
    requires Covered(t) && DayNumber(t) < TWO31
    ensures u == t
  {
    InsideYear(t);
    YearsApart(0, MarchYear(t));
    var jd := Date2J(t.y, t.m, t.d);
    var y, m, d := J2Date(jd);
    SameNumberSameDate(t, Date(y, m, d));
    u := Date(y, m, d);
  }
}
