/** Python's `datetime.date`, restricted to what the birthday logic uses:
    construction with range checks, comparison, the proleptic Gregorian day
    ordinal (`toordinal`), subtraction in days and `weekday()`. */
module Calendar {
  import opened Wrappers

  const MinYear := 1
  const MaxYear := 9999

  datatype Date = Date(year: int, month: int, day: int)

  predicate IsLeap(y: int) {
    y % 4 == 0 && (y % 100 != 0 || y % 400 == 0)
  }

  function DaysInMonth(y: int, m: int): int
    requires 1 <= m <= 12
  {
    if m == 2 then (if IsLeap(y) then 29 else 28)
    else if m == 4 || m == 6 || m == 9 || m == 11 then 30
    else 31
  }

  /** A date that `date(y, m, d)` accepts. */
  predicate ValidDate(d: Date) {
    MinYear <= d.year <= MaxYear && 1 <= d.month <= 12 && 1 <= d.day <= DaysInMonth(d.year, d.month)
  }

  /** `date(y, m, d)`: raises ValueError for a year, month or day out of range. */
  function MakeDate(y: int, m: int, d: int): (r: Result<Date, Error>)
    ensures r.Ok? <==> ValidDate(Date(y, m, d))
    ensures r.Ok? ==> r.value == Date(y, m, d)
    ensures r.Err? ==> r.error == DateOutOfRange
  {
    if !(MinYear <= y <= MaxYear) then Err(DateOutOfRange)
    else if !(1 <= m <= 12) then Err(DateOutOfRange)
    else if !(1 <= d <= DaysInMonth(y, m)) then Err(DateOutOfRange)
    else Ok(Date(y, m, d))
  }

  /** Python's date comparison `a <= b`: lexicographic on (year, month, day). */
  predicate DateLe(a: Date, b: Date) {
    a.year < b.year ||
    (a.year == b.year && (a.month < b.month || (a.month == b.month && a.day <= b.day)))
  }

  /** `_days_before_year`: days in the years 1 .. y-1. */
  function DaysBeforeYear(y: int): int
    requires y >= 1
  {
    var p := y - 1;
    p * 365 + p / 4 - p / 100 + p / 400
  }

  /** `_days_before_month`: days in the months 1 .. m-1 of year y. */
  function DaysBeforeMonth(y: int, m: int): int
    requires 1 <= m <= 12
  {
    var table := [0, 31, 59, 90, 120, 151, 181, 212, 243, 273, 304, 334];
    table[m - 1] + (if m > 2 && IsLeap(y) then 1 else 0)
  }

  /** `date.toordinal()`: 1 for 1 January of year 1. */
  function Ordinal(d: Date): int
    requires ValidDate(d)
  {
    DaysBeforeYear(d.year) + DaysBeforeMonth(d.year, d.month) + d.day
  }

  /** `date.weekday()`: 0 for Monday through 6 for Sunday. */
  function Weekday(d: Date): (w: int)
    requires ValidDate(d)
    ensures 0 <= w < 7
  {
    (Ordinal(d) + 6) % 7
  }

  function DaysInYear(y: int): int {
    if IsLeap(y) then 366 else 365
  }

  lemma DaysBeforeYearStep(y: int)
    requires y >= 1
    ensures DaysBeforeYear(y + 1) == DaysBeforeYear(y) + DaysInYear(y)
  {
    var p := y - 1;
    assert y / 4 - p / 4 == (if y % 4 == 0 then 1 else 0);
    assert y / 100 - p / 100 == (if y % 100 == 0 then 1 else 0);
    assert y / 400 - p / 400 == (if y % 400 == 0 then 1 else 0);
  }

  lemma {:induction false} DaysBeforeYearMono(x: int, y: int)
    requires 1 <= x <= y
    ensures DaysBeforeYear(x) <= DaysBeforeYear(y)
    decreases y - x
  {
    if x < y {
      DaysBeforeYearStep(x);
      DaysBeforeYearMono(x + 1, y);
    }
  }

  lemma DaysBeforeMonthMono(y: int, m: int, n: int)
    requires 1 <= m < n <= 12
    ensures DaysBeforeMonth(y, m) + DaysInMonth(y, m) <= DaysBeforeMonth(y, n)
  {
  }

  lemma LastDayOfYear(d: Date)
    requires ValidDate(d)
    ensures Ordinal(d) <= DaysBeforeYear(d.year) + DaysInYear(d.year)
  {
  }

  /** The ordinal is strictly increasing in the calendar order. */
  lemma OrdinalStrictMono(a: Date, b: Date)
    requires ValidDate(a) && ValidDate(b)
    requires DateLe(a, b) && a != b
    ensures Ordinal(a) < Ordinal(b)
  {
    if a.year < b.year {
      LastDayOfYear(a);
      DaysBeforeYearStep(a.year);
      DaysBeforeYearMono(a.year + 1, b.year);
    } else if a.month < b.month {
      DaysBeforeMonthMono(a.year, a.month, b.month);
    }
  }

  /** Comparing dates and comparing their ordinals agree, so
      `(b - a).days >= 0` exactly when `a <= b`. */
  lemma DateLeIffOrdinalLe(a: Date, b: Date)
    requires ValidDate(a) && ValidDate(b)
    ensures DateLe(a, b) <==> Ordinal(a) <= Ordinal(b)
  {
    if DateLe(a, b) && a != b {
      OrdinalStrictMono(a, b);
    } else if !DateLe(a, b) {
      OrdinalStrictMono(b, a);
    }
  }

  /** Two valid dates with the same ordinal are the same date. */
  lemma OrdinalInjective(a: Date, b: Date)
    requires ValidDate(a) && ValidDate(b) && Ordinal(a) == Ordinal(b)
    ensures a == b
  {
    DateLeIffOrdinalLe(a, b);
    DateLeIffOrdinalLe(b, a);
  }

  predicate IsLeapDay(born: Date) {
    born.month == 2 && born.day == 29
  }

  /** `Record.get_next_birthday`: this year's anniversary of born if it is
      not before today, else next year's. Either `date(...)` call raises
      ValueError when the anniversary does not exist (29 February of a common
      year, or year 10000); there is no substitution of 1 March. */
  function NextBirthday(born: Date, today: Date): Result<Date, Error> {
    match MakeDate(today.year, born.month, born.day)
    case Err(e) => Err(e)
    case Ok(thisYear) =>
      if DateLe(today, thisYear) then Ok(thisYear)
      else MakeDate(today.year + 1, born.month, born.day)
  }

  /** `Record.days_to_birthday`: the same candidates, then `(next_bd - today).days`. */
  function DaysToBirthday(born: Date, today: Date): Result<int, Error>
    requires ValidDate(today)
  {
    match MakeDate(today.year, born.month, born.day)
    case Err(e) => Err(e)
    case Ok(thisYear) =>
      var nextBd := if DateLe(today, thisYear) then Ok(thisYear)
                    else MakeDate(today.year + 1, born.month, born.day);
      match nextBd
      case Err(e) => Err(e)
      case Ok(n) => Ok(Ordinal(n) - Ordinal(today))
  }

  /** The next birthday is the earliest existing date on or after today that
      has born's month and day, and it falls in today's year or the next. */
  lemma NextBirthdayIsNext(born: Date, today: Date)
    requires ValidDate(today)
    ensures NextBirthday(born, today).Ok? ==>
      var n := NextBirthday(born, today).value;
      ValidDate(n) && n.month == born.month && n.day == born.day &&
      DateLe(today, n) && (n.year == today.year || n.year == today.year + 1) &&
      forall c :: ValidDate(c) && c.month == born.month && c.day == born.day && DateLe(today, c) ==> DateLe(n, c)
  {
  }

  /** When the next birthday exists, and exactly when. A 29 February birthday
      only has one when today is in a leap year and not after 29 February;
      any other valid birthday has one unless today is in year 9999 after
      this year's anniversary. */
  lemma NextBirthdayDefined(born: Date, today: Date)
    requires ValidDate(born) && ValidDate(today)
    ensures NextBirthday(born, today).Ok? <==>
      if IsLeapDay(born) then IsLeap(today.year) && DateLe(today, Date(today.year, 2, 29))
      else today.year < MaxYear || DateLe(today, Date(today.year, born.month, born.day))
  {
    if IsLeapDay(born) && IsLeap(today.year) {
      assert !IsLeap(today.year + 1);
    }
  }

  /** `days_to_birthday` is the day distance from today to `get_next_birthday`,
      so it is never negative; both fail in the same cases. */
  lemma DaysToBirthdayIsDistance(born: Date, today: Date)
    requires ValidDate(today)
    ensures DaysToBirthday(born, today).Err? <==> NextBirthday(born, today).Err?
    ensures DaysToBirthday(born, today).Err? ==> DaysToBirthday(born, today).error == NextBirthday(born, today).error
    ensures DaysToBirthday(born, today).Ok? ==>
      var n := NextBirthday(born, today).value;
      ValidDate(n) && DaysToBirthday(born, today).value == Ordinal(n) - Ordinal(today) &&
      DaysToBirthday(born, today).value >= 0
  {
    if NextBirthday(born, today).Ok? {
      NextBirthdayIsNext(born, today);
      DateLeIffOrdinalLe(today, NextBirthday(born, today).value);
    }
  }

  /** The anchor of the weekday count: 1 January of year 1 is a Monday. */
  lemma WeekdayAnchor()
    ensures MakeDate(1, 1, 1).Ok? && Weekday(MakeDate(1, 1, 1).value) == 0
  {
  }

  /** A November birthday seen from before and from after it. */
  lemma NovemberExamples()
    ensures NextBirthday(Date(1990, 11, 15), Date(2025, 11, 10)) == Ok(Date(2025, 11, 15))
    ensures DaysToBirthday(Date(1990, 11, 15), Date(2025, 11, 10)) == Ok(5)
    ensures NextBirthday(Date(1990, 11, 15), Date(2025, 11, 20)) == Ok(Date(2026, 11, 15))
    ensures Weekday(Date(2025, 11, 15)) == 5
  {
  }

  /** A 29 February birthday seen from 12 November 2025 has no next birthday:
      `date(2025, 2, 29)` raises. */
  lemma LeapDayExample()
    ensures NextBirthday(Date(2000, 2, 29), Date(2025, 11, 12)) == Err(DateOutOfRange)
    ensures DaysToBirthday(Date(2000, 2, 29), Date(2025, 11, 12)) == Err(DateOutOfRange)
  {
  }
}
