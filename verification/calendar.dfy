/** The proleptic Gregorian calendar as Python's `datetime` module counts it:
    day ordinals with 0001-01-01 as day 1, years 1 to 9999. */
module Calendar {

  const MinYear := 1
  const MaxYear := 9999

  predicate IsLeap(y: int) {
    y % 4 == 0 && (y % 100 != 0 || y % 400 == 0)
  }

  function DaysInMonth(y: int, m: int): (n: int)
    requires 1 <= m <= 12
    ensures 28 <= n <= 31
  {
    if m == 2 then (if IsLeap(y) then 29 else 28)
    else if m == 4 || m == 6 || m == 9 || m == 11 then 30
    else 31
  }

  function DaysInYear(y: int): int {
    if IsLeap(y) then 366 else 365
  }

  predicate ValidDate(y: int, m: int, d: int) {
    MinYear <= y <= MaxYear && 1 <= m <= 12 && 1 <= d <= DaysInMonth(y, m)
  }

  /** Days in the years before `y`, by the closed form of leap-year counting. */
  function DaysBeforeYear(y: int): int
    requires y >= 1
  {
    var p := y - 1;
    p * 365 + p / 4 - p / 100 + p / 400
  }

  /** Days in the months of year `y` before month `m`, from the cumulative table. */
  function DaysBeforeMonth(y: int, m: int): int
    requires 1 <= m <= 12
  {
    [0, 31, 59, 90, 120, 151, 181, 212, 243, 273, 304, 334][m - 1]
      + (if m > 2 && IsLeap(y) then 1 else 0)
  }

  /** The day ordinal of a date: 0001-01-01 is day 1. */
  function Ordinal(y: int, m: int, d: int): int
    requires ValidDate(y, m, d)
  {
    DaysBeforeYear(y) + DaysBeforeMonth(y, m) + d
  }

  /** The calendar date that follows a date, by the rules of months and years. */
  function NextDate(y: int, m: int, d: int): (r: (int, int, int))
    requires ValidDate(y, m, d) && (y, m, d) != (MaxYear, 12, 31)
    ensures ValidDate(r.0, r.1, r.2)
  {
    if d < DaysInMonth(y, m) then (y, m, d + 1)
    else if m < 12 then (y, m + 1, 1)
    else (y + 1, 1, 1)
  }

  /** Lexicographic order on dates. */
  predicate DateBefore(y1: int, m1: int, d1: int, y2: int, m2: int, d2: int) {
    y1 < y2 || (y1 == y2 && (m1 < m2 || (m1 == m2 && d1 < d2)))
  }

  /** Adding one to a number moves its quotient by 4, 100 or 400 up by one
      exactly when the new number is a multiple of that divisor. */
  lemma QuotientSteps(p: int)
    ensures (p + 1) / 4 == p / 4 + (if (p + 1) % 4 == 0 then 1 else 0)
    ensures (p + 1) / 100 == p / 100 + (if (p + 1) % 100 == 0 then 1 else 0)
    ensures (p + 1) / 400 == p / 400 + (if (p + 1) % 400 == 0 then 1 else 0)
  {
  }

  /** A multiple of 400 is a multiple of 100, which is a multiple of 4. */
  lemma MultipleChain(y: int)
    ensures y % 400 == 0 ==> y % 100 == 0
    ensures y % 100 == 0 ==> y % 4 == 0
  {
    if y % 400 == 0 {
      var q := y / 400;
      assert y == 400 * q;
      assert y / 100 == 4 * q;
    }
    if y % 100 == 0 {
      var q := y / 100;
      assert y == 100 * q;
      assert y / 4 == 25 * q;
    }
  }

  /** The number of leap years among `1..y`, minus those among `1..y-1`,
      is one exactly when `y` is a leap year. */
  lemma LeapCountStep(y: int)
    requires y >= 1
    ensures var p := y - 1;
            (y / 4 - p / 4) - (y / 100 - p / 100) + (y / 400 - p / 400)
              == if IsLeap(y) then 1 else 0
  {
    QuotientSteps(y - 1);
    MultipleChain(y);
  }

  /** Year `y` contributes exactly its own length to the years before `y + 1`. */
  lemma DaysBeforeYearStep(y: int)
    requires y >= 1
    ensures DaysBeforeYear(y + 1) == DaysBeforeYear(y) + DaysInYear(y)
  {
    LeapCountStep(y);
  }

  /** Month `m` contributes exactly its own length to the months before `m + 1`. */
  lemma DaysBeforeMonthStep(y: int, m: int)
    requires 1 <= m < 12
    ensures DaysBeforeMonth(y, m + 1) == DaysBeforeMonth(y, m) + DaysInMonth(y, m)
  {
  }

  /** The last day of the year is day `DaysInYear(y)` of that year. */
  lemma DayOfYearBound(y: int, m: int, d: int)
    requires ValidDate(y, m, d)
    ensures DaysBeforeMonth(y, m) + d <= DaysInYear(y)
  {
  }

  /** The first day of the calendar is day 1. */
  lemma FirstOrdinal()
    ensures Ordinal(MinYear, 1, 1) == 1
  {
  }

  /** Consecutive calendar days have consecutive ordinals: together with
      `FirstOrdinal`, the ordinal counts days from 0001-01-01. */
  lemma {:induction false} OrdinalCountsDays(y: int, m: int, d: int)
    requires ValidDate(y, m, d) && (y, m, d) != (MaxYear, 12, 31)
    ensures var n := NextDate(y, m, d); Ordinal(n.0, n.1, n.2) == Ordinal(y, m, d) + 1
  {
    var n := NextDate(y, m, d);
    if d < DaysInMonth(y, m) {
      assert n == (y, m, d + 1);
    } else if m < 12 {
      assert n == (y, m + 1, 1);
      DaysBeforeMonthStep(y, m);
    } else {
      assert n == (y + 1, 1, 1);
      assert DaysBeforeMonth(y, 12) + 31 == DaysInYear(y);
      DaysBeforeYearStep(y);
    }
  }

  lemma {:induction false} DaysBeforeYearMonotone(y1: int, y2: int)
    requires 1 <= y1 < y2
    ensures DaysBeforeYear(y1) + DaysInYear(y1) <= DaysBeforeYear(y2)
    decreases y2 - y1
  {
    DaysBeforeYearStep(y1);
    if y1 + 1 < y2 {
      DaysBeforeYearMonotone(y1 + 1, y2);
    }
  }

  /** A strictly earlier date has a strictly smaller ordinal, so distinct
      dates never share an ordinal. */
  lemma OrdinalMonotone(y1: int, m1: int, d1: int, y2: int, m2: int, d2: int)
    requires ValidDate(y1, m1, d1) && ValidDate(y2, m2, d2)
    requires DateBefore(y1, m1, d1, y2, m2, d2)
    ensures Ordinal(y1, m1, d1) < Ordinal(y2, m2, d2)
  {
    if y1 < y2 {
      DayOfYearBound(y1, m1, d1);
      DaysBeforeYearMonotone(y1, y2);
    } else if m1 < m2 {
      DaysBeforeMonthMonotone(y1, m1, m2);
    }
  }

  lemma DaysBeforeMonthMonotone(y: int, m1: int, m2: int)
    requires 1 <= m1 < m2 <= 12
    ensures DaysBeforeMonth(y, m1) + DaysInMonth(y, m1) <= DaysBeforeMonth(y, m2)
  {
  }
}
