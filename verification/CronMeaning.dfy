/** What the schedules of api/croncalc.py mean in calendar terms: dates, clock times and counted days, with
    one known Sunday to count weekdays from. */
module CronMeaning {
  import opened Bytes
  import opened Text
  import opened Calendar
  import opened CronFields
  import opened Cron
  import opened CronBuild

  /** The day number of 2026-06-07, a Sunday. */
  const SUNDAY := 739773

  lemma SundayNumber()
    ensures ValidDate(Date(2026, 6, 7)) && DayNumber(Date(2026, 6, 7)) == SUNDAY
  {
    assert DaysBeforeYear(2026) == 739616;
    assert DaysBeforeMonth(2026, 6) == 151;
  }

  /** Days since that Sunday, within the week. */
  function WeekdayFrom(day: int): int
  {
    (day - SUNDAY) % 7
  }

  lemma Sevens(q: int, r: int)
    requires 0 <= r < 7
    ensures (7 * q + r) % 7 == r
  {
  }

  lemma WeekdayCounted(t: nat)
    ensures CronWeekday(t) == WeekdayFrom(t / 1440)
  {
    var day := t / 1440;
    var q, r := day / 7, day % 7;
    if r < 6 {
      Sevens(q - 105682, r + 1);
      Sevens(q, r + 1);
    } else {
      Sevens(q - 105681, 0);
      Sevens(q + 1, 0);
    }
  }

  /** A minute given by its date and clock time. */
  function MinuteAt(d: Date, hour: nat, minute: nat): nat
    requires ValidDate(d)
  {
    DayNumber(d) * 1440 + hour * 60 + minute
  }

  lemma MinuteParts(d: Date, hour: nat, minute: nat)
    requires ValidDate(d) && hour < 24 && minute < 60
    ensures var t := MinuteAt(d, hour, minute);
            && Month(t) == d.month && DayOfMonth(t) == d.day && Hour(t) == hour && Minute(t) == minute
            && CronWeekday(t) == WeekdayFrom(DayNumber(d))
  {
    var t, day := MinuteAt(d, hour, minute), DayNumber(d);
    DateOfDayNumber(d);
    hide DayNumber, DateOf, CronWeekday, WeekdayFrom;
    Division(day, hour * 60 + minute, 1440);
    assert t / 1440 == day && t % 1440 == hour * 60 + minute;
    WeekdayCounted(t);
    hide MinuteAt;
    MinuteOfDay(t, hour, minute);
  }

  /** When an expression matches a date and a clock time: month, hour and minute are listed; and of the
      two day fields, either one is met if both leave a day out, else both are. */
  lemma MatchesDate(f: Fields, d: Date, hour: nat, minute: nat)
    requires ValidDate(d) && hour < 24 && minute < 60
    ensures var listed := d.day in f.doms;
            var weekday := (DayNumber(d) - DayNumber(Date(2026, 6, 7))) % 7 in f.dows;
            var bothRestricted := (exists k | 1 <= k <= 31 :: k !in f.doms) && (exists k | 0 <= k <= 6 :: k !in f.dows);
            Matches(f, MinuteAt(d, hour, minute))
            <==> && d.month in f.months && hour in f.hours && minute in f.minutes
                 && (if bothRestricted then listed || weekday else listed && weekday)
  {
    SundayNumber();
    MinuteParts(d, hour, minute);
    hide MinuteAt, DayNumber, Month, DayOfMonth, Hour, Minute, CronWeekday;
  }

  // ----- the picker's schedules -----

  /** When a picker setting is meant to fire, in minutes since 0001-01-01 00:00. */
  predicate FiresAt(r: Recurrence, t: nat)
    requires Accepted(r)
  {
    match r
    case Daily(hour, minute) => t % 1440 == hour.value * 60 + minute.value
    case Weekly(hour, minute, weekday) =>
      t % 1440 == hour.value * 60 + minute.value && (t / 1440 - SUNDAY) % 7 == weekday.value
    case EveryMinutes(n) => t % 60 % n.value == 0
    case EveryHours(n) => t % 60 == 0 && t % 1440 / 60 % n.value == 0
  }

  lemma ClockParts(t: nat, hour: nat, minute: nat)
    requires hour < 24 && minute < 60
    ensures Hour(t) == hour && Minute(t) == minute <==> t % 1440 == hour * 60 + minute
  {
    if t % 1440 == hour * 60 + minute {
      MinuteOfDay(t, hour, minute);
    }
    if Hour(t) == hour && Minute(t) == minute {
      MinuteOfDay(t, t % 1440 / 60, t % 1440 % 60);
    }
  }

  lemma {:induction false} IntendedIff(r: Recurrence, t: nat)
    requires Accepted(r)
    ensures Matches(Intended(r), t) <==> FiresAt(r, t)
  {
    hide Matches, Intended, FiresAt;
    match r {
      case Daily(_, _) => DailyIff(r, t);
      case Weekly(_, _, _) => WeeklyIff(r, t);
      case EveryMinutes(_) => MinutesIff(r, t);
      case EveryHours(_) => HoursIff(r, t);
    }
  }

  lemma {:induction false} DailyIff(r: Recurrence, t: nat)
    requires Accepted(r) && r.Daily?
    ensures Matches(Intended(r), t) <==> FiresAt(r, t)
  {
    hide Matches, Hour, Minute, All;
    EveryDay(Intended(r), t);
    ClockParts(t, r.hour.value, r.minute.value);
  }

  lemma {:induction false} WeeklyIff(r: Recurrence, t: nat)
    requires Accepted(r) && r.Weekly?
    ensures Matches(Intended(r), t) <==> FiresAt(r, t)
  {
    hide Matches, Hour, Minute, All;
    OpenDays(Intended(r), t);
    ClockParts(t, r.hour.value, r.minute.value);
  }

  lemma {:induction false} MinutesIff(r: Recurrence, t: nat)
    requires Accepted(r) && r.EveryMinutes?
    ensures Matches(Intended(r), t) <==> FiresAt(r, t)
  {
    hide Matches, All, Multiples, Hour;
    EveryDay(Intended(r), t);
    HourBounds(t);
    InMultiples(Minute(t), 59, r.n.value);
  }

  lemma InMultiples(v: int, hi: int, n: int)
    requires n > 0 && 0 <= v <= hi
    ensures v in Multiples(hi, n) <==> v % n == 0
  {
  }

  lemma {:induction false} HoursIff(r: Recurrence, t: nat)
    requires Accepted(r) && r.EveryHours?
    ensures Matches(Intended(r), t) <==> FiresAt(r, t)
  {
    hide Matches, All, Multiples;
    EveryDay(Intended(r), t);
    HourBounds(t);
    InMultiples(Hour(t), 23, r.n.value);
  }

  /** With all days left open, the clock decides. */
  lemma {:induction false} EveryDay(f: Fields, t: nat)
    requires f.doms == All(1, 31) && f.months == All(1, 12) && f.dows == All(0, 6)
    ensures Matches(f, t) <==> Hour(t) in f.hours && Minute(t) in f.minutes
  {
    OpenDays(f, t);
    hide Matches, DayNumber, Hour, Minute;
  }

  /** With month and day of month left open, the clock and the weekday decide. */
  lemma {:induction false} OpenDays(f: Fields, t: nat)
    requires f.doms == All(1, 31) && f.months == All(1, 12)
    ensures Matches(f, t)
       <==> Hour(t) in f.hours && Minute(t) in f.minutes && (t / 1440 - SUNDAY) % 7 in f.dows
  {
    DayIsUnrestricted(f, t);
    WeekdayCounted(t);
    hide DayMatches, Month, CronWeekday, DayNumber, Hour, Minute, All;
  }

  lemma HourBounds(t: nat)
    ensures Hour(t) in All(0, 23) && 0 <= Hour(t) <= 23 && 0 <= Minute(t) <= 59
    ensures (t / 1440 - SUNDAY) % 7 in All(0, 6)
  {
    hide DayNumber;
  }

  /** Every string the builder makes fires first at the least such minute strictly after `after`. */
  lemma BuiltNextFire(r: Recurrence, after: nat)
    requires Accepted(r) && Representable(Limit(after))
    ensures var fire := NextFireOf(Expression(r), after);
            && fire.FireAt? && fire.minute * 60_000_000 > after && FiresAt(r, fire.minute)
            && forall u: nat | u < fire.minute && u * 60_000_000 > after :: !FiresAt(r, u)
  {
    NextFireWithin(r, after);
    forall t: nat
      ensures Matches(Intended(r), t) <==> FiresAt(r, t)
    {
      IntendedIff(r, t);
    }
    hide Intended, Expression, NextFireOf, FiresAt, Matches, LastMoment;
  }

  /** The weekday of a weekly schedule: whole weeks and `weekday` days from the Sunday. */
  lemma WeeklyFiresOn(hour: int, minute: int, weekday: int, after: nat)
    requires 0 <= hour < 24 && 0 <= minute < 60 && 0 <= weekday < 7 && Representable(Limit(after))
    ensures var fire := NextFireOf(Expression(Weekly(Some(hour), Some(minute), Some(weekday))), after);
            && fire.FireAt?
            && fire.minute / 1440 % 7 == (DayNumber(Date(2026, 6, 7)) + weekday) % 7
            && fire.minute % 1440 == hour * 60 + minute
  {
    hide NextFireOf, Expression, DayNumber, LastMoment;
    var r := Weekly(Some(hour), Some(minute), Some(weekday));
    BuiltNextFire(r, after);
    SundayNumber();
    SameWeekday(NextFireOf(Expression(r), after).minute / 1440, SUNDAY, weekday);
  }

  lemma SameWeekday(day: int, sunday: int, weekday: int)
    requires 0 <= weekday < 7 && (day - sunday) % 7 == weekday
    ensures day % 7 == (sunday + weekday) % 7
  {
    assert day - sunday == (day - sunday) / 7 * 7 + weekday;
  }

  // ----- the texts themselves -----

  predicate Between(v: Option<int>, lo: int, hi: int) {
    v != None && lo <= v.value && v.value <= hi
  }

  /** A setting is built exactly when its mode is known and every number is there and within its bounds. */
  lemma BuiltIff(r: Recurrence)
    ensures BuildCron(r) != None
       <==> || (r.Daily? && Between(r.hour, 0, 23) && Between(r.minute, 0, 59))
            || (r.Weekly? && Between(r.hour, 0, 23) && Between(r.minute, 0, 59) && Between(r.weekday, 0, 6))
            || (r.EveryMinutes? && Between(r.n, 1, 59))
            || (r.EveryHours? && Between(r.n, 1, 23))
  {
    hide Expression;
  }

  /** An expression is good exactly when it has five words that are good fields: minutes 0 to 59, hours 0 to 23,
      days 1 to 31, months 1 to 12, weekdays 0 to 6; their values are then within these bounds, and not none. */
  lemma ExpressionIff(expr: string)
    ensures var w := Words(expr);
            (Meaning(expr) != None
             <==> |w| == 5 && FieldValues(w[0], 0, 59) != None && FieldValues(w[1], 0, 23) != None
                  && FieldValues(w[2], 1, 31) != None && FieldValues(w[3], 1, 12) != None
                  && FieldValues(w[4], 0, 6) != None)
    ensures Meaning(expr) != None ==>
              var w, f := Words(expr), Meaning(expr).value;
              && f == Fields(FieldValues(w[0], 0, 59).value, FieldValues(w[1], 0, 23).value,
                             FieldValues(w[2], 1, 31).value, FieldValues(w[3], 1, 12).value,
                             FieldValues(w[4], 0, 6).value)
              && f.minutes != {} && f.hours != {} && f.doms != {} && f.months != {} && f.dows != {}
  {
    hide FieldValues, Words;
  }

  /** What the builder writes. */
  lemma BuiltTexts()
    ensures BuildCron(Daily(Some(7), Some(5))) == Some("5 7 * * *")
    ensures BuildCron(Weekly(Some(3), Some(0), Some(0))) == Some("0 3 * * 0")
    ensures BuildCron(EveryMinutes(Some(9))) == Some("*/9 * * * *")
    ensures BuildCron(EveryHours(Some(6))) == Some("0 */6 * * *")
  {
    OneDigit(0);
    OneDigit(3);
    OneDigit(5);
    OneDigit(6);
    OneDigit(7);
    OneDigit(9);
    hide Decimal;
    assert "5" + " " + "7" + " " + "*" + " " + "*" + " " + "*" == "5 7 * * *";
    assert "0" + " " + "3" + " " + "*" + " " + "*" + " " + "0" == "0 3 * * 0";
    assert "*/" + "9" + " " + "*" + " " + "*" + " " + "*" + " " + "*" == "*/9 * * * *";
    assert "0" + " " + ("*/" + "6") + " " + "*" + " " + "*" + " " + "*" == "0 */6 * * *";
  }

  lemma OneDigit(n: nat)
    requires n < 10
    ensures Decimal(n) == [(48 + n) as char]
  {
  }
}
