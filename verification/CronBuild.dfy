/** `build_cron` of api/croncalc.py: the four expressions that the dashboard's picker produces,
    what they parse back to, and how long they can wait. */
module CronBuild {
  import opened Bytes
  import opened Text
  import opened Calendar
  import opened CronFields
  import opened Cron

  /** The picker's output. A parameter that is missing or is not an integer is None. */
  datatype Recurrence =
    | Daily(hour: Option<int>, minute: Option<int>)
    | Weekly(hour: Option<int>, minute: Option<int>, weekday: Option<int>)
    | EveryMinutes(n: Option<int>)
    | EveryHours(n: Option<int>)
    | UnknownMode

  /** `_int`: a parameter is accepted exactly between its bounds. */
  predicate Accepts(v: Option<int>, lo: int, hi: int) {
    v.Some? && lo <= v.value <= hi
  }

  predicate Accepted(r: Recurrence) {
    match r
    case Daily(hour, minute) => Accepts(hour, 0, 23) && Accepts(minute, 0, 59)
    case Weekly(hour, minute, weekday) => Accepts(hour, 0, 23) && Accepts(minute, 0, 59) && Accepts(weekday, 0, 6)
    case EveryMinutes(n) => Accepts(n, 1, 59)
    case EveryHours(n) => Accepts(n, 1, 23)
    case UnknownMode => false
  }

  /** The five fields of the string that is built. */
  function Tokens(r: Recurrence): (t: seq<string>)
    requires Accepted(r)
    ensures |t| == 5
  {
    match r
    case Daily(hour, minute) => [Decimal(minute.value), Decimal(hour.value), "*", "*", "*"]
    case Weekly(hour, minute, weekday) => [Decimal(minute.value), Decimal(hour.value), "*", "*", Decimal(weekday.value)]
    case EveryMinutes(n) => ["*/" + Decimal(n.value), "*", "*", "*", "*"]
    case EveryHours(n) => ["0", "*/" + Decimal(n.value), "*", "*", "*"]
  }

  function Expression(r: Recurrence): string
    requires Accepted(r)
  {
    var t := Tokens(r);
    t[0] + " " + t[1] + " " + t[2] + " " + t[3] + " " + t[4]
  }

  /** None stands for InvalidCron. */
  function BuildCron(r: Recurrence): Option<string> {
    if Accepted(r) then Some(Expression(r)) else None
  }

  // ----- what the expressions are meant to say -----

  function All(lo: int, hi: int): (r: set<int>)
    ensures forall v :: v in r <==> lo <= v <= hi
    decreases hi - lo + 1
  {
    if hi < lo then {} else {lo} + All(lo + 1, hi)
  }

  function Multiples(hi: int, n: int): set<int>
    requires n > 0
  {
    set v | 0 <= v <= hi && v % n == 0
  }

  function Intended(r: Recurrence): Fields
    requires Accepted(r)
  {
    match r
    case Daily(hour, minute) => Fields({minute.value}, {hour.value}, All(1, 31), All(1, 12), All(0, 6))
    case Weekly(hour, minute, weekday) =>
      Fields({minute.value}, {hour.value}, All(1, 31), All(1, 12), {weekday.value})
    case EveryMinutes(n) => Fields(Multiples(59, n.value), All(0, 23), All(1, 31), All(1, 12), All(0, 6))
    case EveryHours(n) => Fields({0}, Multiples(23, n.value), All(1, 31), All(1, 12), All(0, 6))
  }

  // ----- parsing one field -----

  lemma OnePart(field: string, lo: int, hi: int, r: Range, values: set<int>)
    requires ',' !in field
    requires ParsePart(field, lo, hi) == Some(r)
    requires lo <= r.first <= r.last <= hi
    requires values == set v | lo <= v <= hi && Covers(r, lo, v)
    requires values != {}
    ensures FieldValues(field, lo, hi) == Some(values)
  {
    hide ParsePart;
    var parts := Split(field, ',');
    assert parts == [field];
    forall v | lo <= v <= hi
      ensures SomePartHas(parts, lo, hi, v) <==> Covers(r, lo, v)
    {
      assert PartHas(parts[0], lo, hi, v) <==> Covers(r, lo, v);
    }
    assert Union(parts, lo, hi) == values;
  }

  lemma StarField(lo: int, hi: int)
    requires lo <= hi
    ensures FieldValues("*", lo, hi) == Some(All(lo, hi))
  {
    StripWhole("*");
    assert lo in All(lo, hi);
    OnePart("*", lo, hi, Range(lo, hi, 1), All(lo, hi));
  }

  lemma NumberPart(n: nat, lo: int, hi: int)
    ensures ParsePart(Decimal(n), lo, hi) == Some(Range(n, n, 1))
  {
    var s := Decimal(n);
    DecimalPlain(n, '*');
    DecimalPlain(n, '/');
    DecimalPlain(n, '-');
    StripWhole(s);
    ParseDecimal(n);
    assert s != "*" by {
      assert s[0] in s;
    }
  }

  lemma NumberField(n: nat, lo: int, hi: int)
    requires lo <= n <= hi
    ensures FieldValues(Decimal(n), lo, hi) == Some({n})
  {
    NumberPart(n, lo, hi);
    DecimalPlain(n, ',');
    var r := Range(n, n, 1);
    assert (set v | lo <= v <= hi && Covers(r, lo, v)) == {n};
    OnePart(Decimal(n), lo, hi, r, {n});
  }

  lemma ZeroField()
    ensures FieldValues("0", 0, 59) == Some({0})
  {
    assert Decimal(0) == "0";
    NumberField(0, 0, 59);
  }

  lemma {:induction false} StepPart(n: nat, lo: int, hi: int)
    requires n > 0
    ensures ParsePart("*/" + Decimal(n), lo, hi) == Some(Range(lo, hi, n))
  {
    var s := "*/" + Decimal(n);
    DecimalPlain(n, ' ');
    assert NoSpace(s);
    StripWhole(s);
    ParseDecimal(n);
    assert s[0] == '*' && s[1] == '/' && s[2..] == Decimal(n) && s[..1] == "*";
    assert IndexOf(s[1..], '/') == 0;
    assert s[1] in s;
  }

  lemma StepField(n: nat, hi: int)
    requires n > 0 && hi >= 0
    ensures FieldValues("*/" + Decimal(n), 0, hi) == Some(Multiples(hi, n))
  {
    var s := "*/" + Decimal(n);
    StepPart(n, 0, hi);
    DecimalPlain(n, ',');
    assert ',' !in s;
    assert 0 in Multiples(hi, n);
    OnePart(s, 0, hi, Range(0, hi, n), Multiples(hi, n));
  }

  // ----- the whole expression -----

  lemma JoinFive(a: string, b: string, c: string, d: string, e: string)
    ensures Join([a, b, c, d, e]) == a + " " + b + " " + c + " " + d + " " + e
  {
    assert [a, b, c, d, e][1..] == [b, c, d, e];
    assert [b, c, d, e][1..] == [c, d, e];
    assert [c, d, e][1..] == [d, e];
    assert [d, e][1..] == [e];
    assert Join([e]) == e;
    assert Join([d, e]) == d + " " + e;
    assert Join([c, d, e]) == c + " " + d + " " + e;
    assert Join([b, c, d, e]) == b + " " + c + " " + d + " " + e;
  }

  lemma FiveWords(a: string, b: string, c: string, d: string, e: string)
    requires forall w | w in [a, b, c, d, e] :: w != "" && NoSpace(w)
    ensures Words(a + " " + b + " " + c + " " + d + " " + e) == [a, b, c, d, e]
  {
    hide Words, Join;
    JoinFive(a, b, c, d, e);
    WordsJoin([a, b, c, d, e]);
  }

  lemma PlainToken(n: nat)
    ensures NoSpace(Decimal(n)) && NoSpace("*/" + Decimal(n))
  {
    DecimalPlain(n, ' ');
  }

  lemma PlainTokens(r: Recurrence)
    requires Accepted(r)
    ensures forall w | w in Tokens(r) :: w != "" && NoSpace(w)
  {
    match r
    case Daily(hour, minute) =>
      PlainToken(hour.value);
      PlainToken(minute.value);
    case Weekly(hour, minute, weekday) =>
      PlainToken(hour.value);
      PlainToken(minute.value);
      PlainToken(weekday.value);
    case EveryMinutes(n) => PlainToken(n.value);
    case EveryHours(n) => PlainToken(n.value);
  }

  lemma ExpressionWords(r: Recurrence)
    requires Accepted(r)
    ensures Words(Expression(r)) == Tokens(r)
  {
    hide Words, NoSpace, Tokens;
    var t := Tokens(r);
    PlainTokens(r);
    assert t == [t[0], t[1], t[2], t[3], t[4]];
    FiveWords(t[0], t[1], t[2], t[3], t[4]);
  }

  lemma FiveFields(expr: string, f: Fields)
    requires |Words(expr)| == 5
    requires var w := Words(expr);
             && FieldValues(w[0], 0, 59) == Some(f.minutes) && FieldValues(w[1], 0, 23) == Some(f.hours)
             && FieldValues(w[2], 1, 31) == Some(f.doms) && FieldValues(w[3], 1, 12) == Some(f.months)
             && FieldValues(w[4], 0, 6) == Some(f.dows)
    ensures Meaning(expr) == Some(f)
  {
    hide FieldValues, Words;
  }

  /** Every string the builder produces parses back to the fields it was meant to express. */
  lemma {:induction false} BuildParses(r: Recurrence)
    requires Accepted(r)
    ensures Meaning(Expression(r)) == Some(Intended(r))
  {
    hide FieldValues, Words, Expression, Meaning, All, Multiples, Decimal;
    ExpressionWords(r);
    StarField(0, 23);
    StarField(1, 31);
    StarField(1, 12);
    StarField(0, 6);
    match r
    case Daily(hour, minute) =>
      NumberField(minute.value, 0, 59);
      NumberField(hour.value, 0, 23);
      FiveFields(Expression(r), Intended(r));
    case Weekly(hour, minute, weekday) =>
      NumberField(minute.value, 0, 59);
      NumberField(hour.value, 0, 23);
      NumberField(weekday.value, 0, 6);
      FiveFields(Expression(r), Intended(r));
    case EveryMinutes(n) =>
      StepField(n.value, 59);
      FiveFields(Expression(r), Intended(r));
    case EveryHours(n) =>
      ZeroField();
      StepField(n.value, 23);
      FiveFields(Expression(r), Intended(r));
  }

  // ----- how long an expression can wait -----

  /** The longest time, in minutes, between two fires. */
  function Wait(r: Recurrence): nat
    requires Accepted(r)
  {
    match r
    case Daily(_, _) => DAY
    case Weekly(_, _, _) => 7 * DAY
    case EveryMinutes(n) => n.value
    case EveryHours(n) => 60 * n.value
  }

  lemma MultipleGrows(d: int, n: nat)
    ensures d >= 1 ==> d * n >= n
    ensures d <= -1 ==> d * n + n <= 0
  {
    if d >= 1 {
      assert d * n == (d - 1) * n + n;
    } else if d <= -1 {
      assert d * n + n == (d + 1) * n;
    }
  }

  lemma {:induction false} MultipleMod(k: int, n: nat)
    requires n > 0
    ensures k * n % n == 0
  {
    var q := k * n / n;
    assert (k - q) * n == k * n % n;
    MultipleGrows(k - q, n);
  }

  /** The least multiple of `n` from `q` on. */
  lemma RoundUp(q: nat, n: nat) returns (m: nat)
    requires n > 0
    ensures q <= m < q + n && m % n == 0
  {
    var a := q + n - 1;
    var k := a / n;
    assert a == k * n + a % n;
    m := k * n;
    MultipleMod(k, n);
  }

  lemma PeriodShift(period: nat, s: nat, m: nat)
    requires period == 60 || period == 24
    ensures m < period ==> (s - s % period + m) % period == m
    ensures (s - s % period + period) % period == 0
  {
    var q := s / period;
    assert s == q * period + s % period;
    assert (q + 1) * period == q * period + period;
    Division(q + 1, 0, period);
    if m < period {
      Division(q, m, period);
    }
  }

  /** Within any `n` consecutive units, wrap-around included, one is a multiple of `n` in its period. */
  lemma MultipleWithin(period: nat, n: nat, s: nat) returns (x: nat)
    requires period == 60 || period == 24
    requires 0 < n < period
    ensures s <= x < s + n
    ensures x % period % n == 0
  {
    var q := s % period;
    var m := RoundUp(q, n);
    PeriodShift(period, s, m);
    x := s - q + (if m < period then m else period);
    assert x % period == if m < period then m else 0;
    hide *;
    ZeroMod(n);
  }

  lemma ZeroMod(n: nat)
    requires n > 0
    ensures 0 % n == 0
  {
  }

  lemma DayIsUnrestricted(f: Fields, t: nat)
    requires f.doms == All(1, 31) && f.months == All(1, 12)
    ensures Month(t) in f.months
    ensures DayMatches(f, t) <==> CronWeekday(t) in f.dows
  {
    DayOfMonthBounds(t);
    assert ValidDate(DateOf(t / DAY));
    assert EveryDayOfMonth(f);
  }

  lemma MinuteOfDay(t: nat, hour: nat, minute: nat)
    requires t % DAY == hour * 60 + minute && minute < 60 && hour < 24
    ensures Hour(t) == hour && Minute(t) == minute
  {
    assert t == (t / DAY * 24 + hour) * 60 + minute;
    Division(t / DAY * 24 + hour, minute, 60);
    Division(hour, minute, 60);
  }

  lemma {:induction false} DailyWithin(r: Recurrence, s: nat) returns (t: nat)
    requires Accepted(r) && r.Daily?
    ensures s <= t < s + Wait(r) && Matches(Intended(r), t)
  {
    hide DayMatches, Month, All, DateOf;
    var target := r.hour.value * 60 + r.minute.value;
    t := NextAt(s, target, DAY);
    MinuteOfDay(t, r.hour.value, r.minute.value);
    DayIsUnrestricted(Intended(r), t);
    DayOfMonthBounds(t);
  }

  lemma {:induction false} WeeklyWithin(r: Recurrence, s: nat) returns (t: nat)
    requires Accepted(r) && r.Weekly?
    ensures s <= t < s + Wait(r) && Matches(Intended(r), t)
  {
    hide DayMatches, Month, All, DateOf, Hour, Minute;
    var day := (r.weekday.value + 6) % 7;
    var minute := r.hour.value * 60 + r.minute.value;
    t := NextAt(s, day * DAY + minute, 7 * DAY);
    WeekPosition(t, day, minute);
    MinuteOfDay(t, r.hour.value, r.minute.value);
    DayIsUnrestricted(Intended(r), t);
    assert CronWeekday(t) == r.weekday.value;
  }

  /** The next moment from `s` on that is `target` into its day or week. */
  lemma NextAt(s: nat, target: nat, d: nat) returns (t: nat)
    requires (d == 1440 || d == 10080) && target < d
    ensures s <= t < s + d && t % d == target
  {
    var q, r := s / d, s % d;
    assert s == q * d + r;
    assert (q + 1) * d == q * d + d;
    if r <= target {
      t := q * d + target;
      Division(q, target, d);
    } else {
      t := (q + 1) * d + target;
      Division(q + 1, target, d);
    }
  }

  lemma WeekPosition(t: nat, day: nat, minute: nat)
    requires t % (7 * DAY) == day * DAY + minute && day < 7 && minute < DAY
    ensures t / DAY % 7 == day && t % DAY == minute
  {
    var w := t / 10080;
    assert t == (w * 7 + day) * 1440 + minute;
    Division(w * 7 + day, minute, 1440);
    Division(w, day, 7);
  }

  lemma {:induction false} MinutesWithin(r: Recurrence, s: nat) returns (t: nat)
    requires Accepted(r) && r.EveryMinutes?
    ensures s <= t < s + Wait(r) && Matches(Intended(r), t)
  {
    hide DayMatches, Month, All, DateOf;
    t := MultipleWithin(60, r.n.value, s);
    DayIsUnrestricted(Intended(r), t);
    DayOfMonthBounds(t);
  }

  lemma {:induction false} HoursWithin(r: Recurrence, s: nat) returns (t: nat)
    requires Accepted(r) && r.EveryHours?
    ensures s <= t < s + Wait(r) && Matches(Intended(r), t)
  {
    hide DayMatches, Month, All, DateOf;
    var first := (s + 59) / 60;
    var x := MultipleWithin(24, r.n.value, first);
    t := 60 * x;
    HourOfQuotient(t);
    DayIsUnrestricted(Intended(r), t);
    DayOfMonthBounds(t);
  }

  /** Any window as long as the wait holds a matching minute. */
  lemma FiresWithin(r: Recurrence, s: nat) returns (t: nat)
    requires Accepted(r)
    ensures s <= t < s + Wait(r) && Matches(Intended(r), t)
  {
    match r
    case Daily(_, _) => t := DailyWithin(r, s);
    case Weekly(_, _, _) => t := WeeklyWithin(r, s);
    case EveryMinutes(_) => t := MinutesWithin(r, s);
    case EveryHours(_) => t := HoursWithin(r, s);
  }

  /** `next_fire` never raises on a built expression (below year 9999) and fires within the wait:
      a day, a week, n minutes or n hours, also counted from the previous fire. */
  lemma {:induction false} NextFireWithin(r: Recurrence, after: nat)
    requires Accepted(r)
    requires Representable(Limit(after))
    ensures var fire := NextFireOf(Expression(r), after);
            && fire.FireAt?
            && IsNextFire(Intended(r), after, fire.minute)
            && Start(after) <= fire.minute < Start(after) + Wait(r)
  {
    hide Intended, Expression, Meaning, Matches, LastMoment;
    BuildParses(r);
    var f := Intended(r);
    var hit := FiresWithin(r, Start(after));
    WaitBelowLimit(r);
    assert !NoMatch(f, Start(after), Limit(after));
    NextFireBefore(f, after, FirstFire(f, after), hit);
  }

  lemma WaitBelowLimit(r: Recurrence)
    requires Accepted(r)
    ensures 0 < Wait(r) <= SEARCH_DAYS * DAY
  {
  }

  lemma NextFireBefore(f: Fields, after: nat, t: nat, u: nat)
    requires IsNextFire(f, after, t)
    requires Matches(f, u) && Start(after) <= u
    ensures Start(after) <= t <= u
  {
    hide Matches;
    assert u * MICROS_PER_MINUTE > after;
  }
}
