/** The proleptic Gregorian calendar on integer day numbers: day 0 is
    1970-01-01 (a Thursday), as for JavaScript `Date` values divided into
    whole days. Months are numbered 0..11 as `Date.prototype.getMonth`
    numbers them. */
module Calendar {
  import opened Common

  predicate IsLeapYear(y: int) {
    y % 4 == 0 && (y % 100 != 0 || y % 400 == 0)
  }

  /** `new Date(y, m + 1, 0).getDate()`: the length of month `m` of year `y`. */
  function DaysInMonth(y: int, m: int): (n: int)
    requires 0 <= m < 12
    ensures 28 <= n <= 31
    ensures n == 29 <==> m == 1 && IsLeapYear(y)
    ensures n == 28 <==> m == 1 && !IsLeapYear(y)
  {
    if m == 1 then (if IsLeapYear(y) then 29 else 28)
    else if m == 3 || m == 5 || m == 8 || m == 10 then 30
    else 31
  }

  /** Days of year `y` before the first of month `m`. */
  function DaysBeforeMonth(y: int, m: int): (n: int)
    requires 0 <= m <= 12
    ensures 0 <= n <= 31 * m
    ensures m == 12 ==> n == if IsLeapYear(y) then 366 else 365
  {
    var common := [0, 31, 59, 90, 120, 151, 181, 212, 243, 273, 304, 334, 365][m];
    common + (if m >= 2 && IsLeapYear(y) then 1 else 0)
  }

  /** Each month starts where the one before it ends. */
  lemma MonthStep(y: int, m: int)
    requires 0 <= m < 12
    ensures DaysBeforeMonth(y, m + 1) == DaysBeforeMonth(y, m) + DaysInMonth(y, m)
  {
  }

  /** Day number of 1 January of year `y`; 719162 is the number of days from
      0001-01-01 to 1970-01-01 and 477 the leap days before 1970. */
  function DaysBeforeYear(y: int): int {
    365 * (y - 1970) + (y - 1) / 4 - (y - 1) / 100 + (y - 1) / 400 - 477
  }

  /** Day number of the date `y`-`m`-`d` (month 0-based, day 1-based);
      days outside the month count on from its first day, as `new Date(y, m, d)`
      does. */
  function DayNumber(y: int, m: int, d: int): int
    requires 0 <= m < 12
  {
    DaysBeforeYear(y) + DaysBeforeMonth(y, m) + d - 1
  }

  /** `getDay()`: 0 = Sunday .. 6 = Saturday. */
  function Weekday(n: int): (w: int)
    ensures 0 <= w < 7
  {
    (n + 4) % 7
  }

  lemma Epoch()
    ensures DaysBeforeYear(1970) == 0 && Weekday(0) == 4
  {
  }

  lemma FloorStep(a: int, k: int)
    requires k == 4 || k == 100 || k == 400
    ensures (a + 1) / k - a / k == if (a + 1) % k == 0 then 1 else 0
  {
  }

  /** A year has 366 days when it is a leap year and 365 otherwise. */
  lemma YearLength(y: int)
    ensures DaysBeforeYear(y + 1) - DaysBeforeYear(y) == if IsLeapYear(y) then 366 else 365
  {
    FloorStep(y - 1, 4);
    FloorStep(y - 1, 100);
    FloorStep(y - 1, 400);
    var d4, d100, d400 := y / 4 - (y - 1) / 4, y / 100 - (y - 1) / 100, y / 400 - (y - 1) / 400;
    assert DaysBeforeYear(y + 1) - DaysBeforeYear(y) == 365 + d4 - d100 + d400;
    DivisorsOfCentury(y);
  }

  /** A multiple of 400 is a multiple of 100, and one of 100 a multiple of 4. */
  lemma DivisorsOfCentury(y: int)
    ensures y % 400 == 0 ==> y % 100 == 0
    ensures y % 100 == 0 ==> y % 4 == 0
  {
    var k, j := y / 400, y / 100;
    if y % 400 == 0 {
      assert y == 400 * k;
      assert y == 100 * (4 * k);
    }
    if y % 100 == 0 {
      assert y == 100 * j;
      assert y == 4 * (25 * j);
    }
  }

  /** The last day of a year is followed by the first day of the next. */
  lemma YearEnd(y: int)
    ensures DayNumber(y, 11, 31) + 1 == DayNumber(y + 1, 0, 1)
  {
    YearLength(y);
  }

  lemma {:induction false} DaysBeforeYearMonotone(a: int, b: int)
    requires a <= b
    ensures DaysBeforeYear(a) + 365 * (b - a) <= DaysBeforeYear(b)
    decreases b - a
  {
    if a < b {
      DaysBeforeYearMonotone(a, b - 1);
      YearLength(b - 1);
    }
  }

  lemma CycleStart(q: int)
    ensures DaysBeforeYear(400 * q + 1) == 146097 * q - 719162
  {
    assert (400 * q) / 4 == 100 * q;
    assert (400 * q) / 100 == 4 * q;
    assert (400 * q) / 400 == q;
  }

  /** The year, counting up from `y`, whose days include day `n`. */
  function YearFrom(n: int, y: int): (r: int)
    requires DaysBeforeYear(y) <= n
    ensures r >= y
    ensures DaysBeforeYear(r) <= n < DaysBeforeYear(r + 1)
    decreases n - DaysBeforeYear(y)
  {
    YearLength(y);
    if n < DaysBeforeYear(y + 1) then y else YearFrom(n, y + 1)
  }

  /** `getFullYear()` of day `n`: the one year whose days include `n`. */
  function YearOf(n: int): (y: int)
    ensures DaysBeforeYear(y) <= n < DaysBeforeYear(y + 1)
  {
    var q := (n + 719162) / 146097;
    CycleStart(q);
    YearFrom(n, 400 * q + 1)
  }

  /** Years do not overlap: the year containing a day is unique. */
  lemma YearOfUnique(n: int, y: int)
    requires DaysBeforeYear(y) <= n < DaysBeforeYear(y + 1)
    ensures YearOf(n) == y
  {
    var r := YearOf(n);
    if r < y {
      DaysBeforeYearMonotone(r + 1, y);
    } else if r > y {
      DaysBeforeYearMonotone(y + 1, r);
    }
  }
}
