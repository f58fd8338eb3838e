/** Times as ISO text: what `datetime.isoformat` prints, and the order in which SQLite compares it. */
module Iso {
  import opened Bytes
  import opened Text
  import opened Calendar
  import opened Cron

  // ----- text order -----

  /** Strictly before, character by character; a proper prefix comes first. */
  predicate Before(a: string, b: string) {
    b != "" && (a == "" || a[0] < b[0] || (a[0] == b[0] && Before(a[1..], b[1..])))
  }

  /** SQLite's `<=` on text. */
  predicate AtMost(a: string, b: string) {
    a == b || Before(a, b)
  }

  lemma {:induction false} BeforeTotal(a: string, b: string)
    ensures Before(a, b) || a == b || Before(b, a)
    ensures !(Before(a, b) && Before(b, a)) && (a == b ==> !Before(a, b))
  {
    if a != "" && b != "" && a[0] == b[0] {
      BeforeTotal(a[1..], b[1..]);
      assert a == [a[0]] + a[1..] && b == [b[0]] + b[1..];
    }
  }

  lemma {:induction false} BeforeTransitive(a: string, b: string, c: string)
    requires Before(a, b) && Before(b, c)
    ensures Before(a, c)
  {
    if a != "" && a[0] == b[0] == c[0] {
      BeforeTransitive(a[1..], b[1..], c[1..]);
    }
  }

  /** A common front does not matter. */
  lemma {:induction false} BeforeAfterFront(p: string, a: string, b: string)
    ensures Before(p + a, p + b) <==> Before(a, b)
    decreases |p|
  {
    if p == "" {
      assert p + a == a && p + b == b;
    } else {
      assert (p + a)[1..] == p[1..] + a && (p + b)[1..] == p[1..] + b;
      BeforeAfterFront(p[1..], a, b);
    }
  }

  /** Fronts of one length decide, whatever follows. */
  lemma {:induction false} BeforeByFront(a: string, b: string, x: string, y: string)
    requires |a| == |b| && Before(a, b)
    ensures Before(a + x, b + y)
    decreases |a|
  {
    assert (a + x)[0] == a[0] && (b + y)[0] == b[0];
    if a[0] == b[0] {
      assert (a + x)[1..] == a[1..] + x && (b + y)[1..] == b[1..] + y;
      BeforeByFront(a[1..], b[1..], x, y);
    }
  }

  // ----- numbers of a fixed width -----

  function Padded(n: nat, k: nat): (s: string)
    ensures |s| == k
  {
    if k == 0 then "" else Padded(n / 10, k - 1) + [Digit(n % 10)]
  }

  lemma {:induction false} PaddedOrder(m: nat, n: nat, k: nat)
    requires m < n < Pow(10, k)
    ensures Before(Padded(m, k), Padded(n, k))
    decreases k
  {
    if m / 10 < n / 10 {
      PaddedOrder(m / 10, n / 10, k - 1);
      BeforeByFront(Padded(m / 10, k - 1), Padded(n / 10, k - 1), [Digit(m % 10)], [Digit(n % 10)]);
    } else {
      BeforeAfterFront(Padded(m / 10, k - 1), [Digit(m % 10)], [Digit(n % 10)]);
    }
  }

  lemma Tens()
    ensures Pow(10, 2) == 100 && Pow(10, 4) == 10000 && Pow(10, 6) == 1000000
  {
    assert Pow(10, 2) == 100;
    assert Pow(10, 4) == 10000;
    assert Pow(10, 6) == 1000000;
  }

  /** Three fields of fixed widths between separators. */
  function Joined(x: string, y: string, z: string, sep: char): string {
    x + ([sep] + (y + ([sep] + z)))
  }

  lemma JoinedOrder(x: string, y: string, z: string, x': string, y': string, z': string, sep: char)
    requires |x| == |x'| && |y| == |y'|
    requires Before(x, x') || (x == x' && (Before(y, y') || (y == y' && Before(z, z'))))
    ensures Before(Joined(x, y, z, sep), Joined(x', y', z', sep))
  {
    var a, a' := y + ([sep] + z), y' + ([sep] + z');
    if Before(x, x') {
      BeforeByFront(x, x', [sep] + a, [sep] + a');
    } else {
      BeforeAfterFront(x, [sep] + a, [sep] + a');
      BeforeAfterFront([sep], a, a');
      if Before(y, y') {
        BeforeByFront(y, y', [sep] + z, [sep] + z');
      } else {
        BeforeAfterFront(y, [sep] + z, [sep] + z');
        BeforeAfterFront([sep], z, z');
      }
    }
  }

  lemma {:induction false} FieldsOrder(w: nat, a: nat, b: nat, c: nat, a': nat, b': nat, c': nat, sep: char)
    requires a' < Pow(10, w) && b' < 100 && c' < 100
    requires a < a' || (a == a' && (b < b' || (b == b' && c < c')))
    ensures Before(Joined(Padded(a, w), Padded(b, 2), Padded(c, 2), sep),
                   Joined(Padded(a', w), Padded(b', 2), Padded(c', 2), sep))
  {
    hide *;
    Tens();
    var x, y, z := Padded(a, w), Padded(b, 2), Padded(c, 2);
    var x', y', z' := Padded(a', w), Padded(b', 2), Padded(c', 2);
    if a < a' {
      PaddedOrder(a, a', w);
    } else if b < b' {
      PaddedOrder(b, b', 2);
    } else {
      PaddedOrder(c, c', 2);
    }
    JoinedOrder(x, y, z, x', y', z', sep);
  }

  // ----- dates -----

  function DateText(d: Date): (s: string)
    ensures |s| == 10
  {
    Joined(Padded(d.year, 4), Padded(d.month, 2), Padded(d.day, 2), '-')
  }

  predicate DateLess(d: Date, e: Date) {
    d.year < e.year || (d.year == e.year && (d.month < e.month || (d.month == e.month && d.day < e.day)))
  }

  lemma {:induction false} DatesGrow(a: nat, b: nat)
    requires a < b
    ensures DateLess(DateOf(a), DateOf(b))
    decreases b
  {
    if a < b - 1 {
      DatesGrow(a, b - 1);
    }
  }

  lemma DateTextOrder(d: Date, e: Date)
    requires ValidDate(d) && ValidDate(e) && e.year <= MAX_YEAR && DateLess(d, e)
    ensures Before(DateText(d), DateText(e))
  {
    Tens();
    hide Padded, Before, Joined, Pow;
    FieldsOrder(4, d.year, d.month, d.day, e.year, e.month, e.day, '-');
  }

  // ----- the time of day -----

  const SECONDS_PER_DAY := 86400
  const MICROS := 1_000_000

  function ClockText(s: nat): (r: string)
    ensures |r| == 8
  {
    Joined(Padded(s / 3600, 2), Padded(s / 60 % 60, 2), Padded(s % 60, 2), ':')
  }

  lemma ClockTextOrder(a: nat, b: nat)
    requires a < b < SECONDS_PER_DAY
    ensures Before(ClockText(a), ClockText(b))
  {
    Tens();
    hide Padded, Before, Joined, Pow;
    ClockParts(a);
    ClockParts(b);
    ClockLess(a / 3600, a / 60 % 60, a % 60, b / 3600, b / 60 % 60, b % 60);
    FieldsOrder(2, a / 3600, a / 60 % 60, a % 60, b / 3600, b / 60 % 60, b % 60, ':');
  }

  lemma ClockParts(s: nat)
    requires s < SECONDS_PER_DAY
    ensures s == s / 3600 * 3600 + s / 60 % 60 * 60 + s % 60 && s / 3600 < 24
  {
  }

  lemma ClockLess(h: nat, m: nat, s: nat, h': nat, m': nat, s': nat)
    requires m < 60 && m' < 60 && s < 60 && s' < 60
    requires h * 3600 + m * 60 + s < h' * 3600 + m' * 60 + s'
    ensures h < h' || (h == h' && (m < m' || (m == m' && s < s')))
  {
  }

  // ----- whole times -----

  function SecondText(s: nat): (r: string)
    ensures |r| == 19
  {
    DateText(DateOf(s / SECONDS_PER_DAY)) + ("T" + ClockText(s % SECONDS_PER_DAY))
  }

  function Fraction(micro: nat): string {
    if micro == 0 then "" else "." + Padded(micro, 6)
  }

  /** `isoformat` of a time whose own clock reads `t`, followed by its zone. */
  function Stamp(t: nat, zone: string): string {
    SecondText(t / MICROS) + (Fraction(t % MICROS) + zone)
  }

  const UTC := "+00:00"

  /** `datetime.isoformat` of a UTC time. */
  function Utc(t: nat): string {
    Stamp(t, UTC)
  }

  /** Moments up to the end of year 9999, in microseconds. */
  predicate InRange(t: nat) {
    Representable(t / MICROS_PER_MINUTE)
  }

  lemma EarlierInRange(t: nat, u: nat)
    requires InRange(t) && u <= t
    ensures InRange(u)
  {
    hide LastMoment;
    assert u / MICROS_PER_MINUTE <= t / MICROS_PER_MINUTE;
  }

  lemma YearInRange(t: nat)
    requires InRange(t)
    ensures DateOf(t / MICROS / SECONDS_PER_DAY).year <= MAX_YEAR
  {
    var day := t / MICROS / SECONDS_PER_DAY;
    SameDay(t);
    var d := DateOf(day);
    DayNumberOfDate(day);
    hide DateOf, DaysBeforeMonth;
    if d.year > MAX_YEAR {
      DaysBeforeYearMonotone(MAX_YEAR + 1, d.year);
    }
  }

  lemma SameDay(t: nat)
    ensures t / MICROS / SECONDS_PER_DAY == t / MICROS_PER_MINUTE / DAY
  {
    var day := t / 86_400_000_000;
    assert t / MICROS / SECONDS_PER_DAY == day;
    assert t / MICROS_PER_MINUTE / DAY == day;
  }

  lemma SecondTextOrder(a: nat, b: nat)
    requires a < b && DateOf(b / SECONDS_PER_DAY).year <= MAX_YEAR
    ensures Before(SecondText(a), SecondText(b))
  {
    hide Before, DateText, ClockText, DateOf;
    var p, q := a / SECONDS_PER_DAY, b / SECONDS_PER_DAY;
    var x, y := "T" + ClockText(a % SECONDS_PER_DAY), "T" + ClockText(b % SECONDS_PER_DAY);
    if p < q {
      DatesGrow(p, q);
      DateTextOrder(DateOf(p), DateOf(q));
      BeforeByFront(DateText(DateOf(p)), DateText(DateOf(q)), x, y);
    } else {
      ClockTextOrder(a % SECONDS_PER_DAY, b % SECONDS_PER_DAY);
      BeforeAfterFront("T", ClockText(a % SECONDS_PER_DAY), ClockText(b % SECONDS_PER_DAY));
      BeforeAfterFront(DateText(DateOf(p)), x, y);
    }
  }

  predicate IsZone(z: string) {
    z != "" && (z[0] == '+' || z[0] == '-')
  }

  lemma FractionOrder(m: nat, n: nat, x: string, y: string)
    requires m < n < MICROS && IsZone(x)
    ensures Before(Fraction(m) + x, Fraction(n) + y)
  {
    Tens();
    hide Padded, Pow;
    if m == 0 {
      assert "" + x == x;
      assert (Fraction(n) + y)[0] == '.';
    } else {
      PaddedOrder(m, n, 6);
      hide Before;
      BeforeByFront(Padded(m, 6), Padded(n, 6), x, y);
      BeforeAfterFront(".", Padded(m, 6) + x, Padded(n, 6) + y);
      assert Fraction(m) + x == "." + (Padded(m, 6) + x) && Fraction(n) + y == "." + (Padded(n, 6) + y);
    }
  }

  lemma ReadingOrder(s: nat, m: nat, s': nat, m': nat, x: string, y: string)
    requires DateOf(s' / SECONDS_PER_DAY).year <= MAX_YEAR && m' < MICROS && IsZone(x)
    requires s < s' || (s == s' && m < m')
    ensures Before(SecondText(s) + (Fraction(m) + x), SecondText(s') + (Fraction(m') + y))
  {
    hide SecondText, Before, DateOf, Fraction, IsZone;
    var p, q := Fraction(m) + x, Fraction(m') + y;
    if s < s' {
      SecondTextOrder(s, s');
      BeforeByFront(SecondText(s), SecondText(s'), p, q);
    } else {
      FractionOrder(m, m', x, y);
      BeforeAfterFront(SecondText(s), p, q);
    }
  }

  /** Readings of the clock decide the order of the texts, whatever their zones say. */
  lemma StampOrder(a: nat, b: nat, x: string, y: string)
    requires a < b && InRange(b) && IsZone(x)
    ensures Before(Stamp(a, x), Stamp(b, y))
  {
    YearInRange(b);
    hide SecondText, Before, DateOf, Fraction, InRange, IsZone;
    ReadingOrder(a / MICROS, a % MICROS, b / MICROS, b % MICROS, x, y);
  }

  /** On UTC times text order is time order. */
  lemma UtcOrder(a: nat, b: nat)
    requires InRange(a) && InRange(b)
    ensures AtMost(Utc(a), Utc(b)) <==> a <= b
    ensures Before(Utc(a), Utc(b)) <==> a < b
  {
    hide Before, Stamp, InRange;
    BeforeTotal(Utc(a), Utc(b));
    if a < b {
      StampOrder(a, b, UTC, UTC);
    } else if b < a {
      StampOrder(b, a, UTC, UTC);
    }
  }

  // ----- which moment a text stands for -----

  /** Compared with UTC times, the text comes due exactly from `t` on. */
  ghost predicate DueFrom(text: string, t: nat) {
    forall now: nat | InRange(now) :: AtMost(text, Utc(now)) <==> t <= now
  }

  /** Two comparisons decide that: with the text of `t` and with that of the microsecond before. */
  lemma DueFromIff(text: string, t: nat)
    requires InRange(t)
    ensures DueFrom(text, t) <==> AtMost(text, Utc(t)) && (t > 0 ==> Before(Utc(t - 1), text))
  {
    hide Before, Utc, Representable;
    if t > 0 {
      EarlierInRange(t, t - 1);
      BeforeTotal(text, Utc(t - 1));
    }
    if AtMost(text, Utc(t)) && (t > 0 ==> Before(Utc(t - 1), text)) {
      forall now: nat | InRange(now)
        ensures AtMost(text, Utc(now)) <==> t <= now
      {
        DueAt(text, t, now);
      }
    }
  }

  lemma DueAt(text: string, t: nat, now: nat)
    requires InRange(t) && InRange(now)
    requires AtMost(text, Utc(t)) && (t > 0 ==> Before(Utc(t - 1), text))
    ensures AtMost(text, Utc(now)) <==> t <= now
  {
    hide Before, Utc, Representable;
    if t <= now {
      UtcOrder(t, now);
      if text != Utc(t) && t < now {
        BeforeTransitive(text, Utc(t), Utc(now));
      }
    } else {
      EarlierInRange(t, t - 1);
      UtcOrder(now, t - 1);
      if now < t - 1 {
        BeforeTransitive(Utc(now), Utc(t - 1), text);
      }
      BeforeTotal(Utc(now), text);
    }
  }

  /** A UTC time is due from its own moment on; so is every time that `next_fire` returns. */
  lemma UtcDueFrom(t: nat)
    requires InRange(t)
    ensures DueFrom(Utc(t), t)
  {
    hide Before, Utc, InRange;
    forall now: nat | InRange(now)
      ensures AtMost(Utc(t), Utc(now)) <==> t <= now
    {
      UtcOrder(t, now);
    }
  }

  // ----- times with an offset -----

  const MINUTE := 60 * MICROS

  /** The zone of a time `offset` minutes ahead of UTC. */
  function Zone(offset: int): (z: string)
    requires -1440 < offset < 1440
    ensures IsZone(z)
  {
    var m: nat := if offset < 0 then -offset else offset;
    (if offset < 0 then "-" else "+") + (Padded(m / 60, 2) + (":" + Padded(m % 60, 2)))
  }

  /** A zone is its sign, hours and minutes. */
  lemma ZoneMeaning(hours: nat, minutes: nat)
    requires hours < 24 && minutes < 60
    ensures Zone(60 * hours + minutes)
         == "+" + (['0' + (hours / 10) as char, '0' + (hours % 10) as char]
                   + (":" + ['0' + (minutes / 10) as char, '0' + (minutes % 10) as char]))
    ensures hours + minutes > 0 ==>
              Zone(-60 * hours - minutes)
              == "-" + (['0' + (hours / 10) as char, '0' + (hours % 10) as char]
                        + (":" + ['0' + (minutes / 10) as char, '0' + (minutes % 10) as char]))
  {
    TwoDigits(hours);
    TwoDigits(minutes);
    hide Padded;
    var m := 60 * hours + minutes;
    assert m / 60 == hours && m % 60 == minutes;
  }

  /** `isoformat` of the moment `t` on a clock `offset` minutes ahead of UTC. */
  function Local(t: nat, offset: int): string
    requires -1440 < offset < 1440 && t + offset * MINUTE >= 0
  {
    Stamp(t + offset * MINUTE, Zone(offset))
  }

  lemma ZeroZone()
    ensures Zone(0) == UTC
  {
    assert Padded(0, 2) == "00";
  }

  lemma ZoneAfterUtc(offset: int)
    requires -1440 < offset < 1440 && offset != 0
    ensures Before(UTC, Zone(offset))
  {
    if offset > 0 {
      ZeroZone();
      Tens();
      var h, m := offset / 60, offset % 60;
      hide Padded, Before, Pow;
      var x, y := Padded(0, 2) + (":" + Padded(0, 2)), Padded(h, 2) + (":" + Padded(m, 2));
      if h > 0 {
        PaddedOrder(0, h, 2);
        BeforeByFront(Padded(0, 2), Padded(h, 2), ":" + Padded(0, 2), ":" + Padded(m, 2));
      } else {
        PaddedOrder(0, m, 2);
        BeforeAfterFront(":", Padded(0, 2), Padded(m, 2));
        BeforeAfterFront(Padded(0, 2), ":" + Padded(0, 2), ":" + Padded(m, 2));
      }
      BeforeAfterFront("+", x, y);
    }
  }

  /** With an offset, the text comes due just after the UTC clock reads what its own clock reads. */
  lemma {:induction false} OffsetReadsLocal(t: nat, offset: int, now: nat)
    requires -1440 < offset < 1440 && offset != 0 && t + offset * MINUTE >= 0
    requires InRange(t + offset * MINUTE) && InRange(now)
    ensures AtMost(Local(t, offset), Utc(now)) <==> t + offset * MINUTE < now
  {
    var local := t + offset * MINUTE;
    hide Before, InRange, Zone;
    BeforeTotal(Local(t, offset), Utc(now));
    if local < now {
      StampOrder(local, now, Zone(offset), UTC);
    } else if now < local {
      StampOrder(now, local, UTC, Zone(offset));
    } else {
      ZoneAfterUtc(offset);
      var front := SecondText(now / MICROS);
      BeforeAfterFront(Fraction(now % MICROS), UTC, Zone(offset));
      BeforeAfterFront(front, Fraction(now % MICROS) + UTC, Fraction(now % MICROS) + Zone(offset));
    }
  }

  /** So text order is time order for exactly the times written in UTC. */
  lemma OffsetIff(t: nat, offset: int)
    requires -1440 < offset < 1440 && t + offset * MINUTE >= 0
    requires InRange(t) && InRange(t + offset * MINUTE)
    ensures DueFrom(Local(t, offset), t) <==> offset == 0
  {
    hide Before, Zone, Stamp, Representable;
    if offset == 0 {
      ZeroZone();
      UtcDueFrom(t);
    } else if offset > 0 {
      OffsetReadsLocal(t, offset, t);
    } else {
      EarlierInRange(t, t - 1);
      OffsetReadsLocal(t, offset, t - 1);
    }
  }

  // ----- one such time -----

  /** 2026-06-01 07:00:00 UTC. */
  function JuneMorning(): nat {
    (DayNumber(Date(2026, 6, 1)) * SECONDS_PER_DAY + 7 * 3600) * MICROS
  }

  lemma {:induction false} JuneReading()
    ensures JuneMorning() == 63_915_894_000 * MICROS
    ensures var local := JuneMorning() + 120 * MINUTE;
            && InRange(local)
            && DateOf(local / MICROS / SECONDS_PER_DAY) == Date(2026, 6, 1)
            && local / MICROS % SECONDS_PER_DAY == 32400 && local % MICROS == 0
  {
    var d := Date(2026, 6, 1);
    JuneDay();
    DateOfDayNumber(d);
    hide DateOf, DayNumber, InRange;
    DaySeconds(739767, 32400, JuneMorning() + 120 * MINUTE);
  }

  lemma {:induction false} JuneMorningText()
    ensures Local(JuneMorning(), 120) == "2026-06-01T09:00:00+02:00"
  {
    JuneReading();
    JuneDate();
    NineOClock();
    hide DateOf, DateText, ClockText, Zone, JuneMorning, InRange;
    var local := JuneMorning() + 120 * MINUTE;
    var s := local / MICROS;
    assert SecondText(s) == "2026-06-01" + ("T" + "09:00:00");
    assert Fraction(local % MICROS) + "+02:00" == "+02:00";
    hide SecondText, Fraction;
    assert Local(JuneMorning(), 120) == "2026-06-01" + ("T" + "09:00:00") + "+02:00";
    hide Local;
    assert "2026-06-01" + ("T" + "09:00:00") + "+02:00" == "2026-06-01T09:00:00+02:00";
  }

  lemma JuneDay()
    ensures DayNumber(Date(2026, 6, 1)) == 739767
  {
    assert DaysBeforeYear(2026) == 739616;
    assert DaysBeforeMonth(2026, 6) == 151;
  }

  /** A moment given by its day and the second of that day. */
  lemma DaySeconds(day: nat, seconds: nat, t: nat)
    requires t == (day * SECONDS_PER_DAY + seconds) * MICROS && seconds < SECONDS_PER_DAY
    ensures t % MICROS == 0
    ensures t / MICROS / SECONDS_PER_DAY == day && t / MICROS % SECONDS_PER_DAY == seconds
    ensures day < 1000000 ==> InRange(t)
  {
    assert t / MICROS == day * SECONDS_PER_DAY + seconds;
    SameDay(t);
    assert DaysBeforeYear(MAX_YEAR + 1) == 3652059;
  }

  lemma {:induction false} TwoDigits(n: nat)
    requires n < 100
    ensures Padded(n, 2) == [Digit(n / 10), Digit(n % 10)]
  {
    var m := n / 10;
    assert m % 10 == m;
    assert Padded(m, 1) == [Digit(m)] by {
      assert Padded(m / 10, 0) == "";
    }
  }

  lemma {:induction false} FourDigits(n: nat)
    requires n < 10000
    ensures Padded(n, 4) == Padded(n / 100, 2) + Padded(n % 100, 2)
  {
    var m := n / 10;
    assert Padded(n, 4) == Padded(m, 3) + [Digit(n % 10)] && Padded(m, 3) == Padded(m / 10, 2) + [Digit(m % 10)];
    hide Padded;
    TwoDigits(n % 100);
    assert m / 10 == n / 100 && m % 10 == n % 100 / 10 && n % 10 == n % 100 % 10;
  }

  lemma JuneDate()
    ensures DateText(Date(2026, 6, 1)) == "2026-06-01"
  {
    hide Padded;
    FourDigits(2026);
    TwoDigits(20);
    TwoDigits(26);
    TwoDigits(6);
    TwoDigits(1);
    assert "20" + "26" == "2026";
    assert Joined("2026", "06", "01", '-') == "2026-06-01";
  }

  lemma NineOClock()
    ensures ClockText(32400) == "09:00:00" && Zone(120) == "+02:00"
  {
    hide Padded;
    TwoDigits(9);
    TwoDigits(0);
    TwoDigits(2);
  }

  /** Meant for seven o'clock UTC, this text is not due half a minute later, and is due only after nine. */
  lemma {:induction false} OffsetStartsLate(now: nat)
    requires InRange(now)
    ensures AtMost("2026-06-01T09:00:00+02:00", Utc(now)) <==> JuneMorning() + 120 * MINUTE < now
    ensures !AtMost("2026-06-01T09:00:00+02:00", Utc(JuneMorning() + 30 * MICROS))
  {
    JuneMorningText();
    JuneReading();
    EarlierInRange(JuneMorning() + 120 * MINUTE, JuneMorning() + 30 * MICROS);
    hide Before, Utc, Local, InRange, JuneMorning;
    OffsetReadsLocal(JuneMorning(), 120, now);
    OffsetReadsLocal(JuneMorning(), 120, JuneMorning() + 30 * MICROS);
  }
}
