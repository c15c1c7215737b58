/** Proleptic Gregorian calendar dates, as Python's `datetime.date` represents them. */
module Dates {
  import opened Errors

  datatype Date = Date(year: int, month: int, day: int)

  /** `datetime.MINYEAR` and `datetime.MAXYEAR`. */
  const MinYear: int := 1
  const MaxYear: int := 9999

  predicate IsLeapYear(y: int)
  {
    y % 4 == 0 && (y % 100 != 0 || y % 400 == 0)
  }

  function DaysInYear(y: int): int
  {
    if IsLeapYear(y) then 366 else 365
  }

  function DaysInMonth(y: int, m: int): int
    requires 1 <= m <= 12
  {
    if m == 2 then (if IsLeapYear(y) then 29 else 28)
    else if m == 4 || m == 6 || m == 9 || m == 11 then 30
    else 31
  }

  /** The dates `datetime.date(year, month, day)` accepts without a `ValueError`. */
  predicate IsValid(d: Date)
  {
    MinYear <= d.year <= MaxYear && 1 <= d.month <= 12 && 1 <= d.day <= DaysInMonth(d.year, d.month)
  }

  type CalendarDate = d: Date | IsValid(d) witness Date(1, 1, 1)

  /** Days in the years before `y`, counted from 1 January of year 1. */
  function DaysBeforeYear(y: int): int
    requires y >= 1
  {
    var p := y - 1;
    p * 365 + p / 4 - p / 100 + p / 400
  }

  /** Days in the months of year `y` before month `m`. */
  function DaysBeforeMonth(y: int, m: int): int
    requires 1 <= m <= 12
  {
    [0, 31, 59, 90, 120, 151, 181, 212, 243, 273, 304, 334][m - 1]
      + (if m > 2 && IsLeapYear(y) then 1 else 0)
  }

  /** `date.toordinal()`: 1 January of year 1 is day 1. */
  function Ordinal(d: Date): (o: int)
    requires IsValid(d)
    ensures o > DaysBeforeYear(d.year)
  {
    DaysBeforeYear(d.year) + DaysBeforeMonth(d.year, d.month) + d.day
  }

  /** `d.replace(year=y)`: the same month and day in year `y`, or a `ValueError` when that date does not exist. */
  function ReplaceYear(d: Date, y: int): (r: Result<CalendarDate>)
    ensures r.Ok? <==> IsValid(Date(y, d.month, d.day))
    ensures r.Ok? ==> r.value == Date(y, d.month, d.day)
    ensures r.Err? ==> r.error == ValueError
  {
    var e := Date(y, d.month, d.day);
    if IsValid(e) then Ok(e) else Err(ValueError)
  }

  /** `a` comes strictly before `b` in the calendar year, comparing month and then day. */
  predicate EarlierInYear(a: Date, b: Date)
  {
    a.month < b.month || (a.month == b.month && a.day < b.day)
  }

  /** Consecutive quotients by a positive literal differ by one exactly at its multiples. */
  lemma QuotientSteps(p: int)
    requires p >= 0
    ensures (p + 1) / 4 - p / 4 == if (p + 1) % 4 == 0 then 1 else 0
    ensures (p + 1) / 100 - p / 100 == if (p + 1) % 100 == 0 then 1 else 0
    ensures (p + 1) / 400 - p / 400 == if (p + 1) % 400 == 0 then 1 else 0
  {
  }

  /** The closed form for the days before a year adds exactly the length of each year. */
  lemma YearLength(y: int)
    requires y >= 1
    ensures DaysBeforeYear(y + 1) == DaysBeforeYear(y) + DaysInYear(y)
  {
    QuotientSteps(y - 1);
    if y % 400 == 0 {
      assert y % 100 == 0 && y % 4 == 0 by {
        assert y == (y / 400) * 400;
        assert y == ((y / 400) * 4) * 100;
        assert y == ((y / 400) * 100) * 4;
      }
    } else if y % 100 == 0 {
      assert y % 4 == 0 by {
        assert y == (y / 100) * 100;
        assert y == ((y / 100) * 25) * 4;
      }
    }
  }

  /** The months of a year partition it. */
  lemma MonthLength(y: int, m: int)
    requires 1 <= m <= 12
    ensures DaysBeforeMonth(y, m) + DaysInMonth(y, m) == if m < 12 then DaysBeforeMonth(y, m + 1) else DaysInYear(y)
  {
  }

  lemma MonthsBefore(y: int, m1: int, m2: int)
    requires 1 <= m1 < m2 <= 12
    ensures DaysBeforeMonth(y, m1) + DaysInMonth(y, m1) <= DaysBeforeMonth(y, m2)
    decreases m2 - m1
  {
    MonthLength(y, m1);
    if m1 + 1 < m2 {
      MonthsBefore(y, m1 + 1, m2);
    }
  }

  /** A date's ordinal falls inside its own year. */
  lemma OrdinalInYear(d: Date)
    requires IsValid(d)
    ensures DaysBeforeYear(d.year) < Ordinal(d) <= DaysBeforeYear(d.year) + DaysInYear(d.year)
  {
    if d.month < 12 {
      MonthsBefore(d.year, d.month, 12);
    }
    MonthLength(d.year, d.month);
    MonthLength(d.year, 12);
  }

  /** Within one year, the ordinal order is the calendar order. */
  lemma OrdinalOrder(a: Date, b: Date)
    requires IsValid(a) && IsValid(b) && a.year == b.year
    ensures Ordinal(a) < Ordinal(b) <==> EarlierInYear(a, b)
    ensures Ordinal(a) == Ordinal(b) <==> a == b
  {
    if a.month < b.month {
      MonthsBefore(a.year, a.month, b.month);
    } else if b.month < a.month {
      MonthsBefore(a.year, b.month, a.month);
    }
  }

  /** Every date of a year comes before every date of a later year. */
  lemma OrdinalAcrossYears(a: Date, b: Date)
    requires IsValid(a) && IsValid(b) && a.year < b.year
    ensures Ordinal(a) < Ordinal(b)
    decreases b.year - a.year
  {
    OrdinalInYear(a);
    YearLength(a.year);
    OrdinalInYear(b);
    if a.year + 1 < b.year {
      var c := Date(a.year + 1, 1, 1);
      OrdinalInYear(c);
      OrdinalAcrossYears(c, b);
    }
  }

  /** The same month and day one year later is 365 or 366 days away, depending on which February 29 lies in between. */
  lemma OrdinalNextYear(a: Date)
    requires IsValid(a) && IsValid(Date(a.year + 1, a.month, a.day))
    ensures Ordinal(Date(a.year + 1, a.month, a.day)) - Ordinal(a)
         == if a.month <= 2 then DaysInYear(a.year) else DaysInYear(a.year + 1)
  {
    YearLength(a.year);
  }
}
