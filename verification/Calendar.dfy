/** Gregorian dates as day numbers: day 1 is 1 January of year 1. */
module Calendar {

  datatype Date = Date(month: int, day: int, year: int) {
    predicate Valid() {
      1 <= year && 1 <= month <= 12 && 1 <= day <= DaysIn(month, year)
    }
  }

  // --- The calendar itself ---

  predicate Leap(year: int) {
    year % 4 == 0 && (year % 100 != 0 || year % 400 == 0)
  }

  function DaysIn(month: int, year: int): int {
    if month == 2 then (if Leap(year) then 29 else 28)
    else if month == 4 || month == 6 || month == 9 || month == 11 then 30
    else 31
  }

  /** The day after, by the lengths of months and years alone. */
  function NextDay(d: Date): Date {
    if d.day < DaysIn(d.month, d.year) then d.(day := d.day + 1)
    else if d.month < 12 then Date(d.month + 1, 1, d.year)
    else Date(1, 1, d.year + 1)
  }

  predicate Before(a: Date, b: Date) {
    a.year < b.year || (a.year == b.year && (a.month < b.month || (a.month == b.month && a.day < b.day)))
  }

  // --- The code's arithmetic ---

  const EPOCH := 1

  /** The remainder C computes: it takes the sign of the dividend. */
  function CRem(a: int, b: int): int
    requires b > 0
  {
    if a >= 0 then a % b else -((-a) % b)
  }

  predicate GregorianLeapYearP(year: int) {
    var tmp := CRem(year, 400);
    CRem(year, 4) == 0 && tmp != 100 && tmp != 200 && tmp != 300
  }

  function FixedFromGregorian(month: int, day: int, year: int): int {
    var base := EPOCH - 1 + 365 * (year - 1) + (year - 1) / 4 - (year - 1) / 100 + (year - 1) / 400
                + (367 * month - 362) / 12;
    var shift := if month <= 2 then 0 else if GregorianLeapYearP(year) then -1 else -2;
    base + shift + day
  }

  function GregorianYearFromFixed(fixedDate: int): int {
    var d0 := fixedDate - EPOCH;
    var n400 := d0 / 146097;
    var d1 := CRem(d0, 146097);
    var n100 := d1 / 36524;
    var d2 := CRem(d1, 36524);
    var n4 := d2 / 1461;
    var d3 := CRem(d2, 1461);
    var n1 := d3 / 365;
    var year := 400 * n400 + 100 * n100 + 4 * n4 + n1;
    if n100 == 4 || n1 == 4 then year else year + 1
  }

  function Fixed(d: Date): int {
    FixedFromGregorian(d.month, d.day, d.year)
  }

  const SECONDS_PER_DAY := 24 * 60 * 60

  /** `month` counts from 0 here. */
  function DateToTimet(year: int, month: int, day: int): int {
    (FixedFromGregorian(month + 1, day, year) - FixedFromGregorian(1, 1, 1970)) * SECONDS_PER_DAY
  }

  // --- What it computes ---

  /**
   The leap test agrees with the calendar's rule exactly for the years whose
   remainder C does not make negative where it matters.
   */
  lemma LeapAgrees(year: int)
    ensures (GregorianLeapYearP(year) <==> Leap(year)) <==> (year >= 0 || year % 100 != 0 || year % 400 == 0)
  {
    var y: nat := if year < 0 then -year else year;
    Hundreds(y);
    if year < 0 {
      Negated(y, 4);
      Negated(y, 100);
      Negated(y, 400);
    }
  }

  /** The year 100 before the era is not a leap year, but passes for one. */
  lemma LeapDisagrees()
    ensures GregorianLeapYearP(-100) && !Leap(-100)
  {
  }

  lemma Negated(y: int, k: int)
    requires k == 4 || k == 100 || k == 400
    ensures (-y) % k == 0 <==> y % k == 0
  {
  }

  lemma Hundreds(y: nat)
    ensures y % 100 == 0 <==> y % 400 == 0 || y % 400 == 100 || y % 400 == 200 || y % 400 == 300
    ensures y % 100 == 0 ==> y % 4 == 0
  {
    assert y % 100 == y % 400 % 100;
    assert y % 4 == y % 100 % 4;
  }

  /** Days before the first day of `year`. */
  function YearStart(year: int): int {
    365 * (year - 1) + (year - 1) / 4 - (year - 1) / 100 + (year - 1) / 400
  }

  function YearDays(year: int): int {
    if Leap(year) then 366 else 365
  }

  lemma YearLength(year: int)
    ensures YearStart(year + 1) == YearStart(year) + YearDays(year)
  {
    Quotient(year, 4);
    Quotient(year, 100);
    Quotient(year, 400);
  }

  lemma Quotient(y: int, k: int)
    requires k == 4 || k == 100 || k == 400
    ensures y / k == (y - 1) / k + if y % k == 0 then 1 else 0
  {
  }

  /** Days of `year` before the first day of `month`. */
  function MonthStart(month: int, leap: bool): int {
    (367 * month - 362) / 12 + if month <= 2 then 0 else if leap then -1 else -2
  }

  lemma MonthLength(month: int, year: int)
    requires 1 <= month <= 12
    ensures MonthStart(1, Leap(year)) == 0
    ensures month < 12 ==> MonthStart(month + 1, Leap(year)) == MonthStart(month, Leap(year)) + DaysIn(month, year)
    ensures month == 12 ==> YearDays(year) == MonthStart(month, Leap(year)) + DaysIn(month, year)
    ensures 0 <= MonthStart(month, Leap(year)) && MonthStart(month, Leap(year)) + DaysIn(month, year) <= YearDays(year)
  {
    hide Leap;
    var m := month;
    assert m == 1 || m == 2 || m == 3 || m == 4 || m == 5 || m == 6 || m == 7 || m == 8 || m == 9 || m == 10 || m == 11
           || m == 12;
  }

  lemma FixedParts(d: Date)
    requires 1 <= d.year
    ensures Fixed(d) == YearStart(d.year) + MonthStart(d.month, Leap(d.year)) + d.day
  {
    LeapAgrees(d.year);
  }

  /** Each calendar day is numbered one after the day before. */
  lemma NextDayIsNext(d: Date)
    requires d.Valid()
    ensures NextDay(d).Valid() && Fixed(NextDay(d)) == Fixed(d) + 1
  {
    hide Fixed, Leap, YearStart, MonthStart, YearDays;
    FixedParts(d);
    FixedParts(NextDay(d));
    MonthLength(d.month, d.year);
    MonthLength(1, d.year + 1);
    YearLength(d.year);
  }

  /** A valid date lies in its year: the day number falls between the year's start and the next year's. */
  lemma InYear(d: Date)
    requires d.Valid()
    ensures YearStart(d.year) < Fixed(d) <= YearStart(d.year + 1)
  {
    hide Fixed, Leap, YearStart, MonthStart, YearDays;
    FixedParts(d);
    MonthLength(d.month, d.year);
    YearLength(d.year);
  }

  /** A year counted from 0 in cycles of 400, 100, 4 and 1. */
  lemma Digits(a: int, b: int, c: int, e: int)
    requires 0 <= a && 0 <= b <= 3 && 0 <= c <= 24 && 0 <= e <= 3
    ensures var y := 400 * a + 100 * b + 4 * c + e;
      && YearStart(y + 1) == 146097 * a + 36524 * b + 1461 * c + 365 * e
      && (Leap(y + 1) <==> e == 3 && (c != 24 || b == 3))
  {
    var y := 400 * a + 100 * b + 4 * c + e;
    assert y / 400 == a && y / 100 == 4 * a + b && y / 4 == 100 * a + 25 * b + c;
    assert (y + 1) % 4 == 0 <==> e == 3;
    assert (y + 1) % 100 == 0 <==> c == 24 && e == 3;
    assert (y + 1) % 400 == 0 <==> b == 3 && c == 24 && e == 3;
  }

  /** Dividing a day number by the cycle lengths finds the cycles, save on the last day of a leap cycle. */
  lemma Undigits(a: int, b: int, c: int, e: int, k: int)
    requires 0 <= a && 0 <= b <= 3 && 0 <= c <= 24 && 0 <= e <= 3
    requires 0 <= k < if e == 3 && (c != 24 || b == 3) then 366 else 365
    ensures GregorianYearFromFixed(146097 * a + 36524 * b + 1461 * c + 365 * e + k + 1)
            == 400 * a + 100 * b + 4 * c + e + 1
  {
    var d3 := 365 * e + k;
    var d2 := 1461 * c + d3;
    var d1 := 36524 * b + d2;
    var d0 := 146097 * a + d1;
    assert d0 / 146097 == a && d0 % 146097 == d1;
    if d2 < 36524 {
      assert d1 / 36524 == b && d1 % 36524 == d2;
      assert d2 / 1461 == c && d2 % 1461 == d3;
      if k < 365 {
        assert d3 / 365 == e;
      }
    }
  }

  /** Every day number of a year is mapped back to that year. */
  lemma YearRecovered(year: int, n: int)
    requires 1 <= year && YearStart(year) < n <= YearStart(year + 1)
    ensures GregorianYearFromFixed(n) == year
  {
    var y := year - 1;
    var a, b, c, e := y / 400, y % 400 / 100, y % 400 % 100 / 4, y % 400 % 100 % 4;
    YearLength(year);
    hide Leap, YearStart, GregorianYearFromFixed;
    Digits(a, b, c, e);
    Undigits(a, b, c, e, n - 1 - YearStart(year));
  }

  /** The year of every valid date is recovered from its day number. */
  lemma YearRoundTrip(d: Date)
    requires d.Valid()
    ensures GregorianYearFromFixed(Fixed(d)) == d.year
  {
    InYear(d);
    YearRecovered(d.year, Fixed(d));
  }

  /** Day numbers are in calendar order. */
  lemma OrderKept(d: Date, f: Date)
    requires d.Valid() && f.Valid()
    ensures Before(d, f) <==> Fixed(d) < Fixed(f)
  {
    if Before(d, f) {
      OrderForward(d, f);
    } else if Before(f, d) {
      OrderForward(f, d);
    }
  }

  lemma OrderForward(d: Date, f: Date)
    requires d.Valid() && f.Valid() && Before(d, f)
    ensures Fixed(d) < Fixed(f)
  {
    hide Fixed, Leap, YearStart, YearDays;
    InYear(d);
    InYear(f);
    if d.year < f.year {
      YearsRise(d.year + 1, f.year);
    } else {
      FixedParts(d);
      FixedParts(f);
      MonthsRise(d.month, f.month, d.year);
    }
  }

  lemma {:induction false} YearsRise(y: int, z: int)
    requires y <= z
    ensures YearStart(y) <= YearStart(z)
    decreases z - y
  {
    if y < z {
      YearLength(z - 1);
      YearsRise(y, z - 1);
    }
  }

  lemma {:induction false} MonthsRise(m: int, n: int, year: int)
    requires 1 <= m <= n <= 12
    ensures m < n ==> MonthStart(m, Leap(year)) + DaysIn(m, year) <= MonthStart(n, Leap(year))
    decreases n - m
  {
    hide MonthStart, Leap;
    if m < n {
      MonthLength(n - 1, year);
      MonthsRise(m, n - 1, year);
    }
  }

  /** The date `n` days after 1 January of year 1. */
  function DateAfter(n: nat): (d: Date)
    ensures d.Valid()
  {
    if n == 0 then Date(1, 1, 1) else NextDay(DateAfter(n - 1))
  }

  /** The numbering is a bijection: every positive number is the number of exactly one valid date. */
  lemma {:induction false} EveryDayNumbered(n: nat, d: Date)
    ensures Fixed(DateAfter(n)) == n + 1
    ensures d.Valid() && Fixed(d) == n + 1 ==> d == DateAfter(n)
    decreases n, 0
  {
    DateAfterFixed(n);
    if d.Valid() && Fixed(d) == n + 1 {
      OrderKept(d, DateAfter(n));
      OrderKept(DateAfter(n), d);
    }
  }

  lemma {:induction false} DateAfterFixed(n: nat)
    ensures Fixed(DateAfter(n)) == n + 1
  {
    if n > 0 {
      DateAfterFixed(n - 1);
      NextDayIsNext(DateAfter(n - 1));
    }
  }

  /** No valid date has a number below 1. */
  lemma FirstDay(d: Date)
    requires d.Valid()
    ensures 1 <= Fixed(d) && (Fixed(d) == 1 <==> d == Date(1, 1, 1))
  {
    InYear(d);
    YearsRise(1, d.year);
    OrderKept(Date(1, 1, 1), d);
    OrderKept(d, Date(1, 1, 1));
  }

  /** The time value is 0 at the start of 1970 and grows by a day's seconds from each day to the next. */
  lemma TimeAdvances(d: Date)
    requires d.Valid()
    ensures DateToTimet(NextDay(d).year, NextDay(d).month - 1, NextDay(d).day)
            == DateToTimet(d.year, d.month - 1, d.day) + SECONDS_PER_DAY
    ensures DateToTimet(1970, 0, 1) == 0
  {
    NextDayIsNext(d);
  }
}
