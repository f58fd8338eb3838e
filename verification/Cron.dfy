/** `next_fire` of api/croncalc.py: the search for the next matching minute. */
module Cron {
  import opened Bytes
  import opened Calendar
  import opened CronFields

  const MICROS_PER_MINUTE := 60_000_000

  /** The bound of the search: `timedelta(days=365 * 5 + 30)`. */
  const SEARCH_DAYS := 365 * 5 + 30

  // ----- the plain definition -----

  /** Cron counts weekdays from Sunday. */
  function CronWeekday(t: nat): nat {
    (Weekday(t / DAY) + 1) % 7
  }

  ghost predicate EveryDayOfMonth(f: Fields) {
    forall d | 1 <= d <= 31 :: d in f.doms
  }

  ghost predicate EveryWeekday(f: Fields) {
    forall d | 0 <= d <= 6 :: d in f.dows
  }

  /** When both day fields leave something out, either one may match; otherwise both must. */
  ghost predicate DayMatches(f: Fields, t: nat) {
    if !EveryDayOfMonth(f) && !EveryWeekday(f) then DayOfMonth(t) in f.doms || CronWeekday(t) in f.dows
    else DayOfMonth(t) in f.doms && CronWeekday(t) in f.dows
  }

  ghost predicate Matches(f: Fields, t: nat) {
    Month(t) in f.months && DayMatches(f, t) && Hour(t) in f.hours && Minute(t) in f.minutes
  }

  /** `t` is the first matching minute strictly after the moment `after`, in microseconds. */
  ghost predicate IsNextFire(f: Fields, after: nat, t: nat) {
    && t * MICROS_PER_MINUTE > after
    && Matches(f, t)
    && forall u: nat | u < t && u * MICROS_PER_MINUTE > after :: !Matches(f, u)
  }

  ghost predicate NoMatch(f: Fields, from: nat, end: nat) {
    forall u: nat | from <= u < end :: !Matches(f, u)
  }

  /** Where the search starts: the first whole minute strictly after `after`. */
  function Start(after: nat): nat {
    after / MICROS_PER_MINUTE + 1
  }

  function Limit(after: nat): nat {
    Start(after) + SEARCH_DAYS * DAY
  }

  // ----- the test on a day -----

  lemma {:induction false} FullSet(s: set<int>, lo: int, hi: int)
    requires lo <= hi + 1
    requires forall v | v in s :: lo <= v <= hi
    ensures |s| <= hi - lo + 1
    ensures |s| == hi - lo + 1 <==> forall v | lo <= v <= hi :: v in s
    decreases hi - lo + 1
  {
    if lo == hi + 1 {
      assert forall v :: v !in s;
      assert s == {};
    } else {
      var rest := s - {hi};
      FullSet(rest, lo, hi - 1);
      if hi in s {
        assert s == rest + {hi};
      } else {
        assert s == rest;
      }
    }
  }

  lemma Cardinalities(f: Fields)
    requires ValidFields(f)
    ensures |f.doms| < 31 <==> !EveryDayOfMonth(f)
    ensures |f.dows| < 7 <==> !EveryWeekday(f)
  {
    FullSet(f.doms, 1, 31);
    FullSet(f.dows, 0, 6);
  }

  lemma DayOfMonthBounds(t: nat)
    ensures 1 <= DayOfMonth(t) <= 31
    ensures 0 <= CronWeekday(t) <= 6
  {
    assert ValidDate(DateOf(t / DAY));
  }

  /** Lines 106-117: which of the two day fields count. */
  method DayOk(f: Fields, t: nat) returns (ok: bool)
    requires ValidFields(f)
    ensures ok == DayMatches(f, t)
  {
    Cardinalities(f);
    DayOfMonthBounds(t);
    hide DayOfMonth, CronWeekday;
    var domRestricted, dowRestricted := |f.doms| < 31, |f.dows| < 7;
    var domOk, dowOk := DayOfMonth(t) in f.doms, CronWeekday(t) in f.dows;
    if domRestricted && dowRestricted {
      ok := domOk || dowOk;
    } else if domRestricted {
      ok := domOk;
    } else if dowRestricted {
      ok := dowOk;
    } else {
      ok := true;
    }
  }

  // ----- no jump skips a match -----

  lemma MonthJump(f: Fields, t: nat)
    requires Month(t) !in f.months
    ensures NextMonthDay(t / DAY) * DAY > t
    ensures NoMatch(f, t, NextMonthDay(t / DAY) * DAY)
  {
    MonthUntilNext(t / DAY);
    hide NextMonthDay, DateOf;
    forall u: nat | t <= u < NextMonthDay(t / DAY) * DAY
      ensures !Matches(f, u)
    {
      assert t / DAY <= u / DAY < NextMonthDay(t / DAY);
    }
  }

  lemma Division(q: nat, r: nat, d: nat)
    requires (d == 7 || d == 24 || d == 60 || d == 1440 || d == 10080) && r < d
    ensures (q * d + r) / d == q && (q * d + r) % d == r
  {
  }

  /** Truncating after adding a unit: everything before that is still in the unit of `t`. */
  lemma NextUnit(t: nat, d: nat)
    requires d == 60 || d == 1440
    ensures (t + d) / d * d > t
    ensures forall u: nat | t <= u < (t + d) / d * d :: u / d == t / d
  {
    var q, r := t / d, t % d;
    assert t == q * d + r;
    assert (q + 1) * d == q * d + d;
    Division(q + 1, r, d);
    forall u: nat | t <= u < (t + d) / d * d
      ensures u / d == q
    {
      Division(q, u - q * d, d);
    }
  }

  lemma DayJump(f: Fields, t: nat)
    requires !DayMatches(f, t)
    ensures (t + DAY) / DAY * DAY > t
    ensures NoMatch(f, t, (t + DAY) / DAY * DAY)
  {
    hide DateOf;
    NextUnit(t, DAY);
    forall u: nat | t <= u < (t + DAY) / DAY * DAY
      ensures !Matches(f, u)
    {
      assert u / DAY == t / DAY;
      assert DayMatches(f, u) == DayMatches(f, t);
    }
  }

  lemma {:induction false} HourOfQuotient(t: nat)
    ensures Hour(t) == t / 60 % 24
  {
    var day, rest := t / DAY, t % DAY;
    var hour, minute := rest / 60, rest % 60;
    Division(day * 24 + hour, minute, 60);
    Division(day, hour, 24);
  }

  lemma {:induction false} HourJump(f: Fields, t: nat)
    requires Hour(t) !in f.hours
    ensures (t + 60) / 60 * 60 > t
    ensures NoMatch(f, t, (t + 60) / 60 * 60)
  {
    NextUnit(t, 60);
    forall u: nat | t <= u < (t + 60) / 60 * 60
      ensures !Matches(f, u)
    {
      hide DateOf, DayMatches, Month, Minute;
      assert u / 60 == t / 60;
      HourOfQuotient(u);
      HourOfQuotient(t);
    }
  }

  // ----- the search -----

  datatype Fire = FireAt(minute: nat) | Raises

  predicate Representable(t: nat) {
    t <= LastMoment()
  }

  /** A jump past year 9999 raises, and there is nothing left to find before that. */
  lemma PastTheEnd(t: nat)
    requires FirstOfNextMonth(DateOf(t / DAY)).year > MAX_YEAR
    ensures !Representable(NextMonthDay(t / DAY) * DAY)
  {
    var next := FirstOfNextMonth(DateOf(t / DAY));
    NextMonthNumber(DateOf(t / DAY));
    DaysBeforeYearMonotone(MAX_YEAR + 1, next.year);
    assert DayNumber(next) >= DaysBeforeYear(next.year);
  }

  lemma LastDay(t: nat)
    ensures !Representable(t + DAY) ==> (t + DAY) / DAY * DAY > LastMoment()
    ensures !Representable(t + 60) ==> (t + 60) / 60 * 60 > LastMoment()
  {
    var days := DaysBeforeYear(MAX_YEAR + 1);
    hide DaysBeforeYear;
    assert LastMoment() == days * 1440 - 1;
    if !Representable(t + DAY) {
      assert (t + 1440) / 1440 >= days;
    }
    if !Representable(t + 60) {
      assert (t + 60) / 60 >= days * 24;
    }
  }

  /** What the search knows when a jump from `mid` to `end` passes no match. */
  lemma NoMatchOn(f: Fields, from: nat, mid: nat, end: nat, limit: nat)
    requires NoMatch(f, from, mid) && NoMatch(f, mid, end)
    ensures NoMatch(f, from, end)
    ensures limit <= end ==> NoMatch(f, from, limit)
  {
    hide Matches;
  }

  /** The loop of `next_fire`, on parsed fields: the least matching minute after `after`, found
      exactly when one lies below the search limit. */
  method Search(f: Fields, after: nat) returns (r: Fire)
    requires ValidFields(f)
    ensures r.FireAt? ==> IsNextFire(f, after, r.minute) && r.minute < Limit(after)
    ensures r.Raises? ==> !Representable(Limit(after)) || NoMatch(f, Start(after), Limit(after))
    ensures !Representable(Limit(after)) ==> r.Raises?
  {
    hide Matches, LastMoment, NextMonthDay, DateOf, DayMatches, IsNextFire, ValidFields, Hour;
    var start := Start(after);
    var candidate, limit := start, Limit(after);
    if !Representable(candidate) || !Representable(limit) {
      return Raises;
    }
    assert NoMatch(f, start, start);
    hide NoMatch;
    while candidate < limit
      invariant start <= candidate
      invariant NoMatch(f, start, candidate)
      invariant candidate >= limit ==> NoMatch(f, start, limit)
      decreases limit - candidate
    {
      ghost var before := candidate;
      var date := DateOf(candidate / DAY);
      if date.month !in f.months {
        MonthJump(f, candidate);
        NoMatchOn(f, start, before, NextMonthDay(candidate / DAY) * DAY, limit);
        if FirstOfNextMonth(date).year > MAX_YEAR {
          PastTheEnd(candidate);
          return Raises;
        }
        candidate := NextMonthDay(candidate / DAY) * DAY;
        continue;
      }
      var dayOk := DayOk(f, candidate);
      if !dayOk {
        DayJump(f, candidate);
        NoMatchOn(f, start, before, (candidate + DAY) / DAY * DAY, limit);
        if !Representable(candidate + DAY) {
          LastDay(candidate);
          return Raises;
        }
        candidate := (candidate + DAY) / DAY * DAY;
        continue;
      }
      if Hour(candidate) !in f.hours {
        HourJump(f, candidate);
        NoMatchOn(f, start, before, (candidate + 60) / 60 * 60, limit);
        if !Representable(candidate + 60) {
          LastDay(candidate);
          return Raises;
        }
        candidate := (candidate + 60) / 60 * 60;
        continue;
      }
      if Minute(candidate) !in f.minutes {
        MinuteStep(f, candidate);
        NoMatchOn(f, start, before, candidate + 1, limit);
        candidate := candidate + 1;
        continue;
      }
      MatchesAll(f, candidate);
      FirstIsNext(f, after, candidate);
      return FireAt(candidate);
    }
    r := Raises;
  }

  lemma MinuteStep(f: Fields, t: nat)
    requires Minute(t) !in f.minutes
    ensures NoMatch(f, t, t + 1)
  {
  }

  lemma MatchesAll(f: Fields, t: nat)
    requires DateOf(t / DAY).month in f.months && DayMatches(f, t)
    requires Hour(t) in f.hours && Minute(t) in f.minutes
    ensures Matches(f, t)
  {
  }

  lemma FirstIsNext(f: Fields, after: nat, t: nat)
    requires Start(after) <= t && Matches(f, t) && NoMatch(f, Start(after), t)
    ensures IsNextFire(f, after, t)
  {
    assert after < Start(after) * MICROS_PER_MINUTE;
  }

  // ----- the function that `next_fire` computes -----

  lemma {:induction false} FirstMatch(f: Fields, from: nat, end: nat) returns (t: nat)
    requires !NoMatch(f, from, end)
    ensures from <= t < end && Matches(f, t) && NoMatch(f, from, t)
    decreases end
  {
    hide Matches;
    t :| from <= t < end && Matches(f, t);
    if !NoMatch(f, from, t) {
      t := FirstMatch(f, from, t);
    }
  }

  lemma NextFireUnique(f: Fields, after: nat, s: nat, t: nat)
    requires IsNextFire(f, after, s) && IsNextFire(f, after, t)
    ensures s == t
  {
    hide Matches;
  }

  lemma NextFireExists(f: Fields, after: nat)
    requires !NoMatch(f, Start(after), Limit(after))
    ensures exists t: nat :: IsNextFire(f, after, t) && t < Limit(after)
  {
    hide Matches, IsNextFire;
    var t := FirstMatch(f, Start(after), Limit(after));
    FirstIsNext(f, after, t);
  }

  ghost function FirstFire(f: Fields, after: nat): (t: nat)
    requires !NoMatch(f, Start(after), Limit(after))
    ensures IsNextFire(f, after, t) && t < Limit(after)
  {
    NextFireExists(f, after);
    hide IsNextFire, NoMatch;
    var t: nat :| IsNextFire(f, after, t) && t < Limit(after);
    t
  }

  /** The next matching minute, when the expression parses and one lies below the search limit. */
  ghost function NextFireOf(expr: string, after: nat): Fire {
    var f := Meaning(expr);
    if f.None? || !Representable(Limit(after)) || NoMatch(f.value, Start(after), Limit(after)) then Raises
    else FireAt(FirstFire(f.value, after))
  }

  /** `next_fire`. */
  method NextFire(expr: string, after: nat) returns (r: Fire)
    ensures r == NextFireOf(expr, after)
  {
    hide Meaning, IsNextFire, Matches;
    var f := Parse(expr);
    if f.None? {
      return Raises;
    }
    r := Search(f.value, after);
    if r.FireAt? {
      NextFireAt(expr, f.value, after, r.minute);
    }
  }

  /** Whatever minute is the first match below the limit is the one `next_fire` returns. */
  lemma NextFireAt(expr: string, f: Fields, after: nat, t: nat)
    requires Meaning(expr) == Some(f)
    requires Representable(Limit(after))
    requires IsNextFire(f, after, t) && t < Limit(after)
    ensures NextFireOf(expr, after) == FireAt(t)
  {
    hide Meaning, Matches;
    assert !NoMatch(f, Start(after), Limit(after)) by {
      assert Start(after) <= t;
      assert Matches(f, t);
    }
    var r := NextFireOf(expr, after);
    NextFireUnique(f, after, r.minute, t);
  }
}
