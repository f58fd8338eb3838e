/** The proleptic Gregorian calendar of Python's `datetime`, at minute resolution. A moment is the
    number of minutes since 0001-01-01 00:00; a day is the number of days since 0001-01-01. */
module Calendar {

  const DAY := 1440
  const MAX_YEAR := 9999

  datatype Date = Date(year: nat, month: nat, day: nat)

  predicate IsLeap(year: nat) {
    year % 4 == 0 && (year % 100 != 0 || year % 400 == 0)
  }

  function DaysInMonth(year: nat, month: nat): nat {
    if month == 2 then (if IsLeap(year) then 29 else 28)
    else if month == 4 || month == 6 || month == 9 || month == 11 then 30
    else 31
  }

  /** The months of 31 days are the odd ones up to July and the even ones from August. */
  lemma MonthLengths(year: nat, month: nat)
    requires 1 <= month <= 12 && month != 2
    ensures DaysInMonth(year, month) == if month <= 7 then 30 + month % 2 else 31 - month % 2
    ensures DaysInMonth(year, 2) == if IsLeap(year) then 29 else 28
  {
  }

  predicate ValidDate(d: Date) {
    1 <= d.year && 1 <= d.month <= 12 && 1 <= d.day <= DaysInMonth(d.year, d.month)
  }

  function FirstOfNextMonth(d: Date): Date {
    if d.month == 12 then Date(d.year + 1, 1, 1) else Date(d.year, d.month + 1, 1)
  }

  function Tomorrow(d: Date): Date {
    if d.day < DaysInMonth(d.year, d.month) then d.(day := d.day + 1) else FirstOfNextMonth(d)
  }

  /** The date of a day, counted up from 0001-01-01. */
  function DateOf(day: nat): (d: Date)
    ensures ValidDate(d)
  {
    if day == 0 then Date(1, 1, 1) else Tomorrow(DateOf(day - 1))
  }

  /** Day 0 was a Monday; `weekday()` counts from Monday. */
  function Weekday(day: nat): nat {
    day % 7
  }

  // ----- the closed form behind `datetime(year, month, day)` -----

  function DaysBeforeYear(year: nat): nat
    requires year >= 1
  {
    var y := year - 1;
    y * 365 + y / 4 - y / 100 + y / 400
  }

  function DaysBeforeMonth(year: nat, month: nat): nat
    requires 1 <= month
  {
    if month == 1 then 0 else DaysBeforeMonth(year, month - 1) + DaysInMonth(year, month - 1)
  }

  function DayNumber(d: Date): nat
    requires ValidDate(d)
  {
    DaysBeforeYear(d.year) + DaysBeforeMonth(d.year, d.month) + d.day - 1
  }

  lemma NextMultiple(y: nat, k: nat)
    requires k == 4 || k == 100 || k == 400
    ensures (y + 1) / k == y / k + (if (y + 1) % k == 0 then 1 else 0)
  {
  }

  lemma Centuries(year: nat)
    ensures year % 100 == 0 ==> year % 4 == 0
    ensures year % 400 == 0 ==> year % 100 == 0
  {
    if year % 100 == 0 {
      assert year == 4 * (25 * (year / 100));
    }
    if year % 400 == 0 {
      assert year == 100 * (4 * (year / 400));
    }
  }

  lemma {:induction false} YearLength(year: nat)
    requires year >= 1
    ensures DaysBeforeYear(year + 1) == DaysBeforeYear(year) + (if IsLeap(year) then 366 else 365)
  {
    var y := year - 1;
    NextMultiple(y, 4);
    NextMultiple(y, 100);
    NextMultiple(y, 400);
    Centuries(year);
  }

  lemma MonthsOfYear(year: nat)
    ensures DaysBeforeMonth(year, 12) + DaysInMonth(year, 12) == if IsLeap(year) then 366 else 365
  {
    assert DaysBeforeMonth(year, 2) == 31;
    assert DaysBeforeMonth(year, 3) == (if IsLeap(year) then 60 else 59);
    assert DaysBeforeMonth(year, 5) == DaysBeforeMonth(year, 3) + 61;
    assert DaysBeforeMonth(year, 7) == DaysBeforeMonth(year, 5) + 61;
    assert DaysBeforeMonth(year, 9) == DaysBeforeMonth(year, 7) + 62;
    assert DaysBeforeMonth(year, 11) == DaysBeforeMonth(year, 9) + 61;
  }

  /** The first of the next month comes right after the last day of this one. */
  lemma {:induction false} NextMonthNumber(d: Date)
    requires ValidDate(d)
    ensures ValidDate(FirstOfNextMonth(d))
    ensures DayNumber(FirstOfNextMonth(d)) == DayNumber(d) + (DaysInMonth(d.year, d.month) - d.day) + 1
  {
    if d.month == 12 {
      YearLength(d.year);
      MonthsOfYear(d.year);
    }
  }

  /** The closed form counts the same days: it inverts `DateOf`. */
  lemma {:induction false} DayNumberOfDate(day: nat)
    ensures DayNumber(DateOf(day)) == day
  {
    if day > 0 {
      DayNumberOfDate(day - 1);
      NextMonthNumber(DateOf(day - 1));
    }
  }

  lemma MonthsGrow(year: nat, a: nat, b: nat)
    requires 1 <= a < b <= 13
    ensures DaysBeforeMonth(year, a) + DaysInMonth(year, a) <= DaysBeforeMonth(year, b)
    decreases b
  {
    if a < b - 1 {
      MonthsGrow(year, a, b - 1);
    }
  }

  /** A day number lies within its year. */
  lemma WithinYear(d: Date)
    requires ValidDate(d)
    ensures DaysBeforeYear(d.year) <= DayNumber(d) < DaysBeforeYear(d.year + 1)
  {
    YearLength(d.year);
    MonthsOfYear(d.year);
    MonthsGrow(d.year, d.month, 13);
    hide DaysBeforeYear, DaysInMonth;
  }

  lemma LaterMonthLater(d: Date, e: Date)
    requires ValidDate(d) && ValidDate(e)
    requires d.year < e.year || (d.year == e.year && d.month < e.month)
    ensures DayNumber(d) < DayNumber(e)
  {
    hide DaysBeforeYear, DaysInMonth, DaysBeforeMonth;
    if d.year < e.year {
      WithinYear(d);
      WithinYear(e);
      DaysBeforeYearMonotone(d.year + 1, e.year);
    } else {
      MonthsGrow(d.year, d.month, e.month);
    }
  }

  /** And counting days inverts the closed form. */
  lemma DateOfDayNumber(d: Date)
    requires ValidDate(d)
    ensures DateOf(DayNumber(d)) == d
  {
    hide DateOf, DaysBeforeMonth, DaysBeforeYear, DaysInMonth;
    var e := DateOf(DayNumber(d));
    DayNumberOfDate(DayNumber(d));
    if d.year < e.year || (d.year == e.year && d.month < e.month) {
      LaterMonthLater(d, e);
    } else if e.year < d.year || (d.year == e.year && e.month < d.month) {
      LaterMonthLater(e, d);
    }
  }

  /** Dates run through a month day by day. */
  lemma {:induction false} SameMonth(day: nat, k: nat)
    requires DateOf(day).day + k <= DaysInMonth(DateOf(day).year, DateOf(day).month)
    ensures DateOf(day + k) == DateOf(day).(day := DateOf(day).day + k)
    decreases k
  {
    if k > 0 {
      SameMonth(day, k - 1);
    }
  }

  /** The day that `replace(year=..., month=..., day=1)` reaches from `day`. */
  function NextMonthDay(day: nat): nat {
    var d := DateOf(day);
    NextMonthNumber(d);
    DayNumber(FirstOfNextMonth(d))
  }

  /** It lies ahead, and every day before it is still in the same month. */
  lemma {:induction false} MonthUntilNext(day: nat)
    ensures NextMonthDay(day) > day
    ensures forall later | day <= later < NextMonthDay(day) :: DateOf(later).month == DateOf(day).month
  {
    hide DayNumber, DateOf, DaysInMonth, FirstOfNextMonth;
    var d := DateOf(day);
    DayNumberOfDate(day);
    NextMonthNumber(d);
    forall later | day <= later < NextMonthDay(day)
      ensures DateOf(later).month == d.month
    {
      SameMonth(day, later - day);
    }
  }

  // ----- moments -----

  function Month(t: nat): nat {
    DateOf(t / DAY).month
  }

  function DayOfMonth(t: nat): nat {
    DateOf(t / DAY).day
  }

  function Hour(t: nat): nat {
    t % DAY / 60
  }

  function Minute(t: nat): nat {
    t % 60
  }

  /** 9999-12-31 23:59, the last moment `datetime` can hold. */
  function LastMoment(): nat {
    DaysBeforeYear(MAX_YEAR + 1) * DAY - 1
  }

  lemma DaysBeforeYearMonotone(a: nat, b: nat)
    requires 1 <= a <= b
    ensures DaysBeforeYear(a) <= DaysBeforeYear(b)
  {
    if a < b {
      YearLength(b - 1);
      DaysBeforeYearMonotone(a, b - 1);
    }
  }
}
