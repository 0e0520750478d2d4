/** The proleptic Gregorian calendar as Python's `datetime.date` counts it:
    day ordinals with 0001-01-01 as day 1, the conversion from a date to its
    ordinal (`date.toordinal`) and back (`date.fromordinal`). */
module Calendar {

  datatype Date = Date(year: int, month: int, day: int)

  predicate IsLeapYear(y: int) {
    y % 4 == 0 && (y % 100 != 0 || y % 400 == 0)
  }

  function DaysInYear(y: int): int {
    if IsLeapYear(y) then 366 else 365
  }

  function DaysInMonth(y: int, m: int): int
    requires 1 <= m <= 12
  {
    if m == 2 then (if IsLeapYear(y) then 29 else 28)
    else if m == 4 || m == 6 || m == 9 || m == 11 then 30
    else 31
  }

  /** Days of year `y` before the first of month `m`; `m == 13` gives the whole year. */
  function DaysBeforeMonth(y: int, m: int): int
    requires 1 <= m <= 13
  {
    [0, 31, 59, 90, 120, 151, 181, 212, 243, 273, 304, 334, 365][m - 1]
      + (if m > 2 && IsLeapYear(y) then 1 else 0)
  }

  /** Month and day exist in the calendar (any year). */
  predicate IsCalendarDate(d: Date) {
    1 <= d.month <= 12 && 1 <= d.day <= DaysInMonth(d.year, d.month)
  }

  /** A date Python's `date` type can hold: a calendar date in years 1 to 9999. */
  predicate IsValidDate(d: Date) {
    1 <= d.year <= 9999 && IsCalendarDate(d)
  }

  /** Days from 0001-01-01 to the first of January of year `y` (negative before year 1). */
  function DaysBeforeYear(y: int): int {
    var k := y - 1;
    365 * k + k / 4 - k / 100 + k / 400
  }

  /** `date.toordinal()`: 0001-01-01 is day 1. */
  function Ordinal(d: Date): int
    requires IsCalendarDate(d)
  {
    DaysBeforeYear(d.year) + DaysBeforeMonth(d.year, d.month) + d.day
  }

  /** Ordinal of 1970-01-01, the Unix epoch. */
  const EpochOrdinal: int := 719163

  lemma EpochOrdinalIsJanuaryFirst1970()
    ensures IsValidDate(Date(1970, 1, 1)) && Ordinal(Date(1970, 1, 1)) == EpochOrdinal
  {
  }

  lemma DaysBeforeMonthStep(y: int, m: int)
    requires 1 <= m <= 12
    ensures DaysBeforeMonth(y, m + 1) == DaysBeforeMonth(y, m) + DaysInMonth(y, m)
    ensures DaysBeforeMonth(y, 13) == DaysInYear(y)
  {
  }

  lemma DaysBeforeYearStep(y: int)
    ensures DaysBeforeYear(y + 1) == DaysBeforeYear(y) + DaysInYear(y)
  {
    var k := y - 1;
    DivSucc(k);
    MultiplesOf400(y);
  }

  /** `(k + 1) / d` exceeds `k / d` by one exactly when `d` divides `k + 1`. */
  lemma DivSucc(k: int)
    ensures (k + 1) / 4 == k / 4 + (if (k + 1) % 4 == 0 then 1 else 0)
    ensures (k + 1) / 100 == k / 100 + (if (k + 1) % 100 == 0 then 1 else 0)
    ensures (k + 1) / 400 == k / 400 + (if (k + 1) % 400 == 0 then 1 else 0)
  {
  }

  lemma MultiplesOf400(y: int)
    ensures y % 400 == 0 ==> y % 100 == 0
    ensures y % 100 == 0 ==> y % 4 == 0
  {
    var t, u := y / 400, y / 100;
    assert y == 400 * t + y % 400;
    assert y == 100 * u + y % 100;
    if y % 400 == 0 {
      MultipleMod(4 * t, 100);
    }
    if y % 100 == 0 {
      MultipleMod(25 * u, 4);
    }
  }

  lemma MultipleMod(t: int, d: int)
    requires d == 4 || d == 100
    ensures (d * t) % d == 0
  {
  }

  /** Every 400 years the calendar repeats, and they hold 146097 days. */
  lemma DaysBeforeYearCycle(y: int, q: int)
    ensures DaysBeforeYear(y + 400 * q) == DaysBeforeYear(y) + 146097 * q
  {
    var k := y - 1;
    assert (k + 400 * q) / 4 == k / 4 + 100 * q;
    assert (k + 400 * q) / 100 == k / 100 + 4 * q;
    assert (k + 400 * q) / 400 == k / 400 + q;
  }

  lemma {:induction false} DaysBeforeYearMonotone(a: int, b: int)
    requires a <= b
    ensures DaysBeforeYear(a) <= DaysBeforeYear(b)
    decreases b - a
  {
    if a < b {
      DaysBeforeYearStep(a);
      DaysBeforeYearMonotone(a + 1, b);
    }
  }

  /** The year holding ordinal `n`, searched upwards from year `y`. */
  function YearFrom(n: int, y: int): (r: int)
    requires DaysBeforeYear(y) < n
    ensures DaysBeforeYear(r) < n <= DaysBeforeYear(r + 1)
    decreases n - DaysBeforeYear(y)
  {
    DaysBeforeYearStep(y);
    if n <= DaysBeforeYear(y + 1) then y else YearFrom(n, y + 1)
  }

  /** The month of year `y` holding day `doy` of that year, searched upwards from month `m`. */
  function MonthFrom(y: int, doy: int, m: int): (r: int)
    requires 1 <= m <= 12
    requires DaysBeforeMonth(y, m) < doy <= DaysInYear(y)
    ensures m <= r <= 12
    ensures DaysBeforeMonth(y, r) < doy <= DaysBeforeMonth(y, r + 1)
    decreases 12 - m
  {
    DaysBeforeMonthStep(y, m);
    if doy <= DaysBeforeMonth(y, m + 1) then m else MonthFrom(y, doy, m + 1)
  }

  /** The year holding ordinal `n`: whole 400-year cycles first, then the
      year within the cycle. */
  function YearOf(n: int): (y: int)
    ensures DaysBeforeYear(y) < n <= DaysBeforeYear(y + 1)
  {
    var q := (n - 1) / 146097;
    var r := (n - 1) % 146097 + 1;
    var y0 := YearFrom(r, 1);
    DaysBeforeYearCycle(y0, q);
    DaysBeforeYearCycle(y0 + 1, q);
    assert y0 + 400 * q + 1 == (y0 + 1) + 400 * q;
    y0 + 400 * q
  }

  /** `date.fromordinal(n)`, extended to every integer. */
  function FromOrdinal(n: int): (d: Date)
    ensures IsCalendarDate(d) && Ordinal(d) == n
  {
    var y := YearOf(n);
    DaysBeforeYearStep(y);
    var doy := n - DaysBeforeYear(y);
    var m := MonthFrom(y, doy, 1);
    DaysBeforeMonthStep(y, m);
    Date(y, m, doy - DaysBeforeMonth(y, m))
  }

  /** The ordinal of a date falls inside its own year and month. */
  lemma OrdinalInYear(d: Date)
    requires IsCalendarDate(d)
    ensures DaysBeforeYear(d.year) < Ordinal(d) <= DaysBeforeYear(d.year + 1)
    ensures DaysBeforeMonth(d.year, d.month) < Ordinal(d) - DaysBeforeYear(d.year) <= DaysBeforeMonth(d.year, d.month + 1)
  {
    DaysBeforeMonthStep(d.year, d.month);
    DaysBeforeYearStep(d.year);
  }

  /** Distinct calendar dates have distinct ordinals. */
  lemma OrdinalInjective(d1: Date, d2: Date)
    requires IsCalendarDate(d1) && IsCalendarDate(d2)
    requires Ordinal(d1) == Ordinal(d2)
    ensures d1 == d2
  {
    OrdinalSameYear(d1, d2);
    OrdinalInYear(d1);
    OrdinalInYear(d2);
    if d1.month < d2.month {
      DaysBeforeMonthMonotone(d1.year, d1.month + 1, d2.month);
    } else if d2.month < d1.month {
      DaysBeforeMonthMonotone(d1.year, d2.month + 1, d1.month);
    }
  }

  lemma OrdinalSameYear(d1: Date, d2: Date)
    requires IsCalendarDate(d1) && IsCalendarDate(d2)
    requires Ordinal(d1) == Ordinal(d2)
    ensures d1.year == d2.year
  {
    OrdinalInYear(d1);
    OrdinalInYear(d2);
    YearUnique(Ordinal(d1), d1.year, d2.year);
  }

  /** Years do not overlap: one year at most holds a given day number. */
  lemma YearUnique(n: int, y1: int, y2: int)
    requires DaysBeforeYear(y1) < n <= DaysBeforeYear(y1 + 1)
    requires DaysBeforeYear(y2) < n <= DaysBeforeYear(y2 + 1)
    ensures y1 == y2
  {
    if y1 < y2 {
      DaysBeforeYearMonotone(y1 + 1, y2);
    } else if y2 < y1 {
      DaysBeforeYearMonotone(y2 + 1, y1);
    }
  }

  lemma {:induction false} DaysBeforeMonthMonotone(y: int, a: int, b: int)
    requires 1 <= a <= b <= 13
    ensures DaysBeforeMonth(y, a) <= DaysBeforeMonth(y, b)
    decreases b - a
  {
    if a < b {
      DaysBeforeMonthStep(y, a);
      DaysBeforeMonthMonotone(y, a + 1, b);
    }
  }

  /** `fromordinal` inverts `toordinal`, and conversely (FromOrdinal's own contract). */
  lemma FromOrdinalOfOrdinal(d: Date)
    requires IsCalendarDate(d)
    ensures FromOrdinal(Ordinal(d)) == d
  {
    OrdinalInjective(FromOrdinal(Ordinal(d)), d);
  }
}
