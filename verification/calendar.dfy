/** Python `datetime.date` reduced to what the purger needs: validity of a
    (year, month, day) triple and the proleptic Gregorian day number, so that
    `(today - ts).days` is a subtraction of two ordinals. */
module Calendar {

  datatype Date = Date(year: int, month: int, day: int)

  predicate IsLeapYear(y: int) {
    y % 4 == 0 && (y % 100 != 0 || y % 400 == 0)
  }

  function DaysInMonth(y: int, m: int): int
    requires 1 <= m <= 12
  {
    if m == 2 then (if IsLeapYear(y) then 29 else 28)
    else if m == 4 || m == 6 || m == 9 || m == 11 then 30
    else 31
  }

  /** `datetime.date(y, m, d)` accepts exactly these triples (MINYEAR 1, MAXYEAR 9999). */
  predicate IsValidDate(d: Date) {
    1 <= d.year <= 9999 && 1 <= d.month <= 12 && 1 <= d.day <= DaysInMonth(d.year, d.month)
  }

  type ValidDate = d: Date | IsValidDate(d) witness Date(1, 1, 1)

  function DaysBeforeYear(y: int): int
    requires y >= 1
  {
    var x := y - 1;
    365 * x + x / 4 - x / 100 + x / 400
  }

  function DaysBeforeMonth(y: int, m: int): int
    requires 1 <= m <= 12
  {
    var table := [0, 31, 59, 90, 120, 151, 181, 212, 243, 273, 304, 334];
    table[m - 1] + (if m > 2 && IsLeapYear(y) then 1 else 0)
  }

  /** `date.toordinal()`: 0001-01-01 is day 1. */
  function Ordinal(d: ValidDate): int {
    DaysBeforeYear(d.year) + DaysBeforeMonth(d.year, d.month) + d.day
  }

  /** `(later - earlier).days` */
  function DaysBetween(later: ValidDate, earlier: ValidDate): int {
    Ordinal(later) - Ordinal(earlier)
  }

  /** Chronological order on dates. */
  predicate Before(a: Date, b: Date) {
    a.year < b.year
    || (a.year == b.year && a.month < b.month)
    || (a.year == b.year && a.month == b.month && a.day < b.day)
  }

  lemma YearLength(y: int)
    requires y >= 1
    ensures DaysBeforeYear(y + 1) == DaysBeforeYear(y) + (if IsLeapYear(y) then 366 else 365)
  {
    var x := y - 1;
    var i4, i100, i400 := (if y % 4 == 0 then 1 else 0), (if y % 100 == 0 then 1 else 0), (if y % 400 == 0 then 1 else 0);
    DivStep4(x);
    DivStep100(x);
    DivStep400(x);
    LeapIndicators(y);
    YearSum(x, x / 4, y / 4, x / 100, y / 100, x / 400, y / 400, i4, i100, i400);
  }

  /** Each step of the year counts one more multiple of 4 exactly when it reaches one. */
  lemma DivStep4(x: int)
    ensures (x + 1) / 4 == x / 4 + (if (x + 1) % 4 == 0 then 1 else 0)
  {
  }

  lemma DivStep100(x: int)
    ensures (x + 1) / 100 == x / 100 + (if (x + 1) % 100 == 0 then 1 else 0)
  {
  }

  lemma DivStep400(x: int)
    ensures (x + 1) / 400 == x / 400 + (if (x + 1) % 400 == 0 then 1 else 0)
  {
  }

  /** The leap-year rule as a sum of the three divisibility indicators. */
  lemma LeapIndicators(y: int)
    ensures (if y % 4 == 0 then 1 else 0) - (if y % 100 == 0 then 1 else 0) + (if y % 400 == 0 then 1 else 0)
      == (if IsLeapYear(y) then 1 else 0)
  {
  }

  /** The linear bookkeeping behind `YearLength`, with the quotients as plain numbers. */
  lemma YearSum(x: int, a4: int, b4: int, a100: int, b100: int, a400: int, b400: int, i4: int, i100: int, i400: int)
    requires b4 == a4 + i4 && b100 == a100 + i100 && b400 == a400 + i400
    ensures 365 * (x + 1) + b4 - b100 + b400 == (365 * x + a4 - a100 + a400) + 365 + (i4 - i100 + i400)
  {
  }

  lemma {:induction false} DaysBeforeYearGrows(y1: int, y2: int)
    requires 1 <= y1 <= y2
    ensures DaysBeforeYear(y1) + 365 * (y2 - y1) <= DaysBeforeYear(y2)
    decreases y2 - y1
  {
    if y1 < y2 {
      YearLength(y1);
      DaysBeforeYearGrows(y1 + 1, y2);
    }
  }

  lemma MonthLength(y: int, m: int)
    requires 1 <= m < 12
    ensures DaysBeforeMonth(y, m) + DaysInMonth(y, m) == DaysBeforeMonth(y, m + 1)
  {
  }

  lemma {:induction false} DaysBeforeMonthGrows(y: int, m1: int, m2: int)
    requires 1 <= m1 <= m2 <= 12
    ensures DaysBeforeMonth(y, m1) + 28 * (m2 - m1) <= DaysBeforeMonth(y, m2)
    decreases m2 - m1
  {
    if m1 < m2 {
      MonthLength(y, m1);
      DaysBeforeMonthGrows(y, m1 + 1, m2);
    }
  }

  /** A valid date lies within its year: after every earlier year, before the next one. */
  lemma OrdinalWithinYear(d: ValidDate)
    ensures DaysBeforeYear(d.year) < Ordinal(d) <= DaysBeforeYear(d.year + 1)
  {
    YearLength(d.year);
    DaysBeforeMonthGrows(d.year, d.month, 12);
    if d.month < 12 {
      MonthLength(d.year, d.month);
      DaysBeforeMonthGrows(d.year, d.month + 1, 12);
    }
  }

  /** Ages computed from dates respect the calendar: an earlier date has a smaller ordinal,
      so a timestamp strictly before `today` yields a positive age. */
  lemma OrdinalMonotone(a: ValidDate, b: ValidDate)
    requires Before(a, b)
    ensures Ordinal(a) < Ordinal(b)
  {
    if a.year < b.year {
      OrdinalWithinYear(a);
      OrdinalWithinYear(b);
      DaysBeforeYearGrows(a.year + 1, b.year);
    } else if a.month < b.month {
      MonthLength(a.year, a.month);
      DaysBeforeMonthGrows(a.year, a.month + 1, b.month);
    }
  }

  /** Distinct dates have distinct ordinals, so an age of 0 means "today". */
  lemma OrdinalInjective(a: ValidDate, b: ValidDate)
    requires Ordinal(a) == Ordinal(b)
    ensures a == b
  {
    if Before(a, b) {
      OrdinalMonotone(a, b);
    } else if Before(b, a) {
      OrdinalMonotone(b, a);
    }
  }
}
