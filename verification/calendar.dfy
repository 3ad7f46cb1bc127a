/**
 * The proleptic Gregorian calendar as Python's `datetime` module counts it:
 * a date is identified by its ordinal, day 1 being 0001-01-01, and the
 * weekday is derived from the ordinal with Monday numbered 0.
 */
module Calendar {

  datatype Date = Date(year: int, month: int, day: int)

  /** Smallest and largest year a Python `date` may hold. */
  const MinYear := 1
  const MaxYear := 9999

  /** Ordinal of 9999-12-31, the last day Python can represent. */
  const MaxOrdinal := 3652059

  predicate IsLeap(y: int) {
    y % 4 == 0 && (y % 100 != 0 || y % 400 == 0)
  }

  function YearLength(y: int): int {
    if IsLeap(y) then 366 else 365
  }

  function DaysInMonth(y: int, m: int): int
    requires 1 <= m <= 12
  {
    if m == 2 then (if IsLeap(y) then 29 else 28)
    else if m == 4 || m == 6 || m == 9 || m == 11 then 30
    else 31
  }

  /** A date Python's `date` constructor accepts. */
  predicate ValidDate(d: Date) {
    && MinYear <= d.year <= MaxYear
    && 1 <= d.month <= 12
    && 1 <= d.day <= DaysInMonth(d.year, d.month)
  }

  /** Days in the years before `y` (Python's `_days_before_year`); `/` floors for a positive divisor. */
  function DaysBeforeYear(y: int): int {
    var p := y - 1;
    p * 365 + p / 4 - p / 100 + p / 400
  }

  /** Days in the months of year `y` before month `m` (Python's `_days_before_month`). */
  function DaysBeforeMonth(y: int, m: int): int
    requires 1 <= m <= 12
  {
    var table := [0, 0, 31, 59, 90, 120, 151, 181, 212, 243, 273, 304, 334];
    table[m] + (if m > 2 && IsLeap(y) then 1 else 0)
  }

  /** Python's `date.toordinal`. */
  function Ordinal(d: Date): int
    requires 1 <= d.month <= 12
  {
    DaysBeforeYear(d.year) + DaysBeforeMonth(d.year, d.month) + d.day
  }

  /** Python's `date.weekday`: Monday is 0 and Sunday is 6. */
  function Weekday(ordinal: int): (w: int)
    ensures 0 <= w < 7
  {
    (ordinal + 6) % 7
  }

  /** The calendar day after `d`, by the month and leap-year rules alone. */
  function NextDay(d: Date): Date
    requires ValidDate(d)
  {
    if d.day < DaysInMonth(d.year, d.month) then Date(d.year, d.month, d.day + 1)
    else if d.month < 12 then Date(d.year, d.month + 1, 1)
    else Date(d.year + 1, 1, 1)
  }

  /** Strict chronological order of dates: year, then month, then day. */
  predicate DateBefore(a: Date, b: Date) {
    || a.year < b.year
    || (a.year == b.year && a.month < b.month)
    || (a.year == b.year && a.month == b.month && a.day < b.day)
  }

  // ---------------------------------------------------------------------------
  // Facts about the ordinal numbering
  // ---------------------------------------------------------------------------

  /** A nonzero multiple of k is at least k away from zero. */
  lemma {:induction false} MultipleApart(d: int, k: int)
    requires k > 0
    ensures d == 0 || d * k >= k || d * k <= -k
    decreases if d < 0 then -d else d
  {
    if d > 1 {
      MultipleApart(d - 1, k);
    } else if d < -1 {
      MultipleApart(d + 1, k);
    }
  }

  /** Euclidean division is determined by any quotient and in-range remainder. */
  lemma DivUnique(n: int, k: int, q: int, r: int)
    requires k > 0 && 0 <= r < k && n == q * k + r
    ensures n / k == q
  {
    var q', r' := n / k, n % k;
    assert (q - q') * k == r' - r;
    MultipleApart(q - q', k);
  }

  /** Going from p to p + 1 raises the floor quotient by one exactly at multiples of k. */
  lemma FloorStep(p: int, k: int)
    requires k > 0
    ensures (p + 1) / k - p / k == (if (p + 1) % k == 0 then 1 else 0)
  {
    var q, r := p / k, p % k;
    if r + 1 < k {
      DivUnique(p + 1, k, q, r + 1);
      assert (p + 1) % k == r + 1;
    } else {
      assert p + 1 == (q + 1) * k;
      DivUnique(p + 1, k, q + 1, 0);
    }
  }

  /** A year contributes exactly its own length to the ordinal count. */
  lemma YearStep(y: int)
    ensures DaysBeforeYear(y + 1) == DaysBeforeYear(y) + YearLength(y)
  {
    FloorStep(y - 1, 4);
    FloorStep(y - 1, 100);
    FloorStep(y - 1, 400);
  }

  /** Later years start at later ordinals, by at least 365 days per year. */
  lemma {:induction false} YearsApart(a: int, b: int)
    requires a <= b
    ensures DaysBeforeYear(b) - DaysBeforeYear(a) >= 365 * (b - a)
    decreases b - a
  {
    if a < b {
      YearsApart(a, b - 1);
      YearStep(b - 1);
    }
  }

  /** Within a year, a valid date's day-of-year lies in 1 .. year length. */
  lemma DayOfYearBounds(d: Date)
    requires ValidDate(d)
    ensures 1 <= DaysBeforeMonth(d.year, d.month) + d.day <= YearLength(d.year)
  {
  }

  /** Earlier months of the same year end before later months begin. */
  lemma MonthsApart(y: int, m1: int, m2: int)
    requires 1 <= m1 < m2 <= 12
    ensures DaysBeforeMonth(y, m1) + DaysInMonth(y, m1) <= DaysBeforeMonth(y, m2)
  {
  }

  /**
   * The ordinal numbering is faithful to the calendar: for valid dates,
   * one date is earlier than another exactly when its ordinal is smaller.
   */
  lemma OrdinalOrder(a: Date, b: Date)
    requires ValidDate(a) && ValidDate(b)
    ensures DateBefore(a, b) <==> Ordinal(a) < Ordinal(b)
    ensures a == b <==> Ordinal(a) == Ordinal(b)
  {
    DayOfYearBounds(a);
    DayOfYearBounds(b);
    if a.year < b.year {
      YearsApart(a.year + 1, b.year);
      YearStep(a.year);
    } else if b.year < a.year {
      YearsApart(b.year + 1, a.year);
      YearStep(b.year);
    } else if a.month < b.month {
      MonthsApart(a.year, a.month, b.month);
    } else if b.month < a.month {
      MonthsApart(a.year, b.month, a.month);
    }
  }

  /** Consecutive calendar days have consecutive ordinals. */
  lemma OrdinalSuccessor(d: Date)
    requires ValidDate(d)
    ensures Ordinal(NextDay(d)) == Ordinal(d) + 1
  {
    if d.day == DaysInMonth(d.year, d.month) && d.month == 12 {
      YearStep(d.year);
    }
  }

  /** Every valid date has an ordinal in 1 .. MaxOrdinal. */
  lemma OrdinalBounds(d: Date)
    requires ValidDate(d)
    ensures 1 <= Ordinal(d) <= MaxOrdinal
  {
    DayOfYearBounds(d);
    YearStep(d.year);
    YearsApart(MinYear, d.year);
    YearsApart(d.year + 1, MaxYear + 1);
    assert DaysBeforeYear(MinYear) == 0;
    assert DaysBeforeYear(MaxYear + 1) == MaxOrdinal;
  }

  /** The calendar's ends: 0001-01-01 has ordinal 1 and is a Monday; 9999-12-31 has ordinal MaxOrdinal. */
  lemma CalendarEnds()
    ensures Ordinal(Date(MinYear, 1, 1)) == 1 && Weekday(1) == 0
    ensures Ordinal(Date(MaxYear, 12, 31)) == MaxOrdinal
  {
    assert DaysBeforeYear(MinYear) == 0;
    assert DaysBeforeMonth(MinYear, 1) == 0;
    assert DaysBeforeYear(MaxYear) == 3651694;
    assert DaysBeforeMonth(MaxYear, 12) == 334;
  }
}
