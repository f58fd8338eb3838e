/** The background loop of api/scheduler.py: which schedules a tick starts, and where it moves them.
    Moments are microseconds; `next_run_at` is the text that is stored, and is compared as text. */
module Scheduler {
  import opened Bytes
  import opened Calendar
  import opened CronFields
  import opened Cron
  import opened CronBuild
  import opened Iso

  datatype Kind = Once | Recurring(expr: string)

  datatype Schedule = Schedule(id: nat, kind: Kind, enabled: bool, nextRun: Option<string>)

  /** The WHERE clause of `_tick`. */
  predicate Due(s: Schedule, now: nat) {
    s.enabled && s.nextRun.Some? && AtMost(s.nextRun.value, Utc(now))
  }

  ghost predicate Raising(s: Schedule, clock: nat) {
    s.kind.Recurring? && NextFireOf(s.kind.expr, clock).Raises?
  }

  /** `_advance_before_run`, reading the clock once more. */
  ghost function Advance(s: Schedule, clock: nat): Schedule
    requires !Raising(s, clock)
  {
    match s.kind
    case Once => s.(enabled := false)
    case Recurring(expr) => s.(nextRun := Some(Utc(NextFireOf(expr, clock).minute * MICROS_PER_MINUTE)))
  }

  /** What one tick makes of a row. */
  ghost function Ticked(s: Schedule, now: nat, clock: nat): Schedule
    requires Due(s, now) ==> !Raising(s, clock)
  {
    if Due(s, now) then Advance(s, clock) else s
  }

  function DueIds(rows: seq<Schedule>, now: nat): seq<nat> {
    if rows == [] then []
    else
      var rest := DueIds(rows[..|rows| - 1], now);
      var last := rows[|rows| - 1];
      if Due(last, now) then rest + [last.id] else rest
  }

  ghost predicate DistinctIds(rows: seq<Schedule>) {
    forall j, k | 0 <= j < k < |rows| :: rows[j].id != rows[k].id
  }

  /** With distinct ids, a tick starts each due schedule once and no other. */
  lemma {:induction false} DueIdsExact(rows: seq<Schedule>, now: nat, i: nat)
    requires DistinctIds(rows) && i < |rows|
    ensures multiset(DueIds(rows, now))[rows[i].id] == if Due(rows[i], now) then 1 else 0
    decreases |rows|
  {
    hide Due;
    var n := |rows| - 1;
    var front := rows[..n];
    assert rows == front + [rows[n]];
    if i < n {
      DueIdsExact(front, now, i);
    } else {
      OnlyRowIds(front, now, rows[n].id);
    }
  }

  lemma {:induction false} OnlyRowIds(rows: seq<Schedule>, now: nat, id: nat)
    requires forall j | 0 <= j < |rows| :: rows[j].id != id
    ensures multiset(DueIds(rows, now))[id] == 0
    decreases |rows|
  {
    hide Due;
    if rows != [] {
      OnlyRowIds(rows[..|rows| - 1], now, id);
    }
  }

  // ----- the tick -----

  /** One tick: the time in its query, and for each row the later reading that would advance it. */
  datatype Reading = Reading(now: nat, clocks: seq<nat>)

  ghost predicate RowRaises(rows: seq<Schedule>, t: Reading, i: nat)
    requires i < |rows| == |t.clocks|
  {
    Due(rows[i], t.now) && Raising(rows[i], t.clocks[i])
  }

  ghost predicate Quiet(rows: seq<Schedule>, t: Reading) {
    |t.clocks| == |rows| && forall i | 0 <= i < |rows| :: !RowRaises(rows, t, i)
  }

  ghost function TickedAll(rows: seq<Schedule>, t: Reading): (r: seq<Schedule>)
    requires Quiet(rows, t)
    ensures |r| == |rows|
  {
    seq(|rows|, i requires 0 <= i < |rows| =>
      assert !RowRaises(rows, t, i);
      Ticked(rows[i], t.now, t.clocks[i]))
  }

  /** Row `k` raised: the rows before it have been through the tick, the others are as they were. */
  ghost predicate StoppedAt(before: seq<Schedule>, rows: seq<Schedule>, k: nat, t: Reading) {
    && k < |before| == |rows| == |t.clocks|
    && RowRaises(before, t, k)
    && (forall j | 0 <= j < k :: !RowRaises(before, t, j) && rows[j] == Ticked(before[j], t.now, t.clocks[j]))
    && forall j | k <= j < |rows| :: rows[j] == before[j]
  }

  /** `_advance_before_run` of a row; None is the exception of `next_fire`. */
  method AdvanceBeforeRun(s: Schedule, clock: nat) returns (r: Option<Schedule>)
    ensures r.None? <==> Raising(s, clock)
    ensures r.Some? ==> r.value == Advance(s, clock)
  {
    hide NextFireOf, Utc;
    match s.kind
    case Once => r := Some(s.(enabled := false));
    case Recurring(expr) =>
      var fire := NextFire(expr, clock);
      r := if fire.Raises? then None else Some(s.(nextRun := Some(Utc(fire.minute * MICROS_PER_MINUTE))));
  }

  const KINDS := ["build", "llm_ingest", "kiwix_update", "repo_sync", "host_backup", "lfs_update"]

  /** What a schedule is asked to be: a recurrence from the picker, or a text for its one time. */
  datatype Request = Repeat(r: Recurrence) | RunAt(text: string)

  class Table {
    var rows: seq<Schedule>
    var started: seq<nat>

    constructor ()
      ensures rows == [] && started == []
    {
      rows, started := [], [];
    }

    /** `_tick`: advances every due row under the lock, then starts each of them. An exception
        while advancing leaves the rows before it advanced and starts nothing. */
    method Tick(t: Reading) returns (raised: bool)
      requires |t.clocks| == |rows|
      modifies this
      ensures |rows| == |old(rows)|
      ensures raised <==> !Quiet(old(rows), t)
      ensures raised ==> exists k | 0 <= k < |rows| :: StoppedAt(old(rows), rows, k, t)
      ensures !raised ==> rows == TickedAll(old(rows), t)
      ensures started == old(started) + if raised then [] else DueIds(old(rows), t.now)
    {
      hide Advance, Due, Raising;
      var dueIds: seq<nat> := [];
      var i := 0;
      assert rows[..0] == [];
      while i < |rows|
        invariant 0 <= i <= |rows| == |old(rows)|
        invariant forall j | i <= j < |rows| :: rows[j] == old(rows)[j]
        invariant forall j | 0 <= j < i ::
                    !RowRaises(old(rows), t, j) && rows[j] == Ticked(old(rows)[j], t.now, t.clocks[j])
        invariant started == old(started)
        invariant dueIds == DueIds(old(rows)[..i], t.now)
      {
        var s := rows[i];
        assert old(rows)[..i + 1][..i] == old(rows)[..i];
        if Due(s, t.now) {
          dueIds := dueIds + [s.id];
          var advanced := AdvanceBeforeRun(s, t.clocks[i]);
          if advanced.None? {
            assert StoppedAt(old(rows), rows, i, t);
            return true;
          }
          rows := rows[i := advanced.value];
        }
        i := i + 1;
      }
      assert old(rows)[..|rows|] == old(rows);
      started := started + dueIds;
      raised := false;
    }

    /** `create_schedule`; false stands for an exception. `accepts` is what `fromisoformat` accepts; the
        text of a one-off is stored as it was given. */
    method Create(id: nat, kind: string, q: Request, now: nat, accepts: string -> bool) returns (ok: bool)
      modifies this`rows
      ensures ok <==> kind in KINDS && match q
                                       case Repeat(r) => Accepted(r) && Representable(Limit(now))
                                       case RunAt(text) => text != "" && accepts(text)
      ensures !ok ==> rows == old(rows)
      ensures ok ==> |rows| == |old(rows)| + 1 && rows[..|old(rows)|] == old(rows)
      ensures ok ==> var s := rows[|old(rows)|];
                     s.id == id && match q
                                   case Repeat(r) => Armed(s, r, now)
                                   case RunAt(text) => s == Schedule(id, Once, true, Some(text))
    {
      hide NextFireOf, Expression, Intended, LastMoment, Utc;
      if kind !in KINDS {
        return false;
      }
      if q.RunAt? {
        if q.text == "" || !accepts(q.text) {
          return false;
        }
        rows := rows + [Schedule(id, Once, true, Some(q.text))];
        return true;
      }
      var expr := BuildCron(q.r);
      if expr.None? {
        return false;
      }
      var fire := NextFire(expr.value, now);
      if Representable(Limit(now)) {
        NextFireWithin(q.r, now);
      } else {
        NeverPastTheEnd(expr.value, now);
      }
      if fire.Raises? {
        return false;
      }
      rows := rows + [Schedule(id, Recurring(expr.value), true, Some(Utc(fire.minute * MICROS_PER_MINUTE)))];
      ArmedAt(rows[|rows| - 1], q.r, now, fire.minute);
      ok := true;
    }
  }

  lemma NeverPastTheEnd(expr: string, now: nat)
    requires !Representable(Limit(now))
    ensures NextFireOf(expr, now).Raises?
  {
  }

  // ----- the invariant of a recurring row -----

  /** The stored time is that of minute `m`, the first match after `last`. */
  ghost predicate NextAt(s: Schedule, r: Recurrence, last: nat, m: nat)
    requires Accepted(r)
  {
    && s.nextRun == Some(Utc(m * MICROS_PER_MINUTE))
    && Representable(m) && IsNextFire(Intended(r), last, m)
  }

  /** The row was built from `r`, and its next run is the first match after `last`. */
  ghost predicate Armed(s: Schedule, r: Recurrence, last: nat) {
    && Accepted(r)
    && s.kind == Recurring(Expression(r))
    && s.enabled
    && exists m: nat :: NextAt(s, r, last, m)
  }

  lemma ArmedAt(s: Schedule, r: Recurrence, last: nat, m: nat)
    requires Accepted(r) && Representable(Limit(last))
    requires s.kind == Recurring(Expression(r)) && s.enabled && s.nextRun == Some(Utc(m * MICROS_PER_MINUTE))
    requires IsNextFire(Intended(r), last, m) && m < Start(last) + Wait(r)
    ensures Armed(s, r, last)
  {
    hide IsNextFire, Intended, Expression, LastMoment, Utc;
    WaitBelowLimit(r);
    assert NextAt(s, r, last, m);
  }

  lemma MinuteInRange(m: nat)
    requires Representable(m)
    ensures InRange(m * MICROS_PER_MINUTE)
  {
    assert m * MICROS_PER_MINUTE / MICROS_PER_MINUTE == m;
  }

  /** Some matching minute lies in the half-open interval (last, now]. */
  ghost predicate FiredSince(r: Recurrence, last: nat, now: nat)
    requires Accepted(r)
  {
    exists m: nat :: last < m * MICROS_PER_MINUTE <= now && Matches(Intended(r), m)
  }

  /** A row is due exactly when at least one of its fire times has passed since it was last moved: the
      times that are stored for it are UTC texts, and on those text order is time order. */
  lemma DueIffFired(s: Schedule, r: Recurrence, last: nat, now: nat)
    requires Armed(s, r, last) && InRange(now)
    ensures Due(s, now) <==> FiredSince(r, last, now)
  {
    hide Matches, Intended, Expression, Utc, AtMost, InRange;
    var m: nat :| NextAt(s, r, last, m);
    MinuteInRange(m);
    UtcOrder(m * MICROS_PER_MINUTE, now);
    if FiredSince(r, last, now) {
      var u: nat :| last < u * MICROS_PER_MINUTE <= now && Matches(Intended(r), u);
      assert m <= u;
    }
  }

  /** A tick never raises on such a row, and moves it strictly into the future. */
  lemma AdvanceArmed(s: Schedule, r: Recurrence, last: nat, clock: nat)
    requires Armed(s, r, last)
    requires Representable(Limit(clock))
    ensures !Raising(s, clock)
    ensures Armed(Advance(s, clock), r, clock)
    ensures var m := NextFireOf(s.kind.expr, clock).minute * MICROS_PER_MINUTE;
            Advance(s, clock).nextRun == Some(Utc(m)) && clock < m <= clock + Wait(r) * MICROS_PER_MINUTE
  {
    hide Matches, Intended, Expression, NextFireOf, LastMoment, Utc, IsNextFire;
    NextFireWithin(r, clock);
    var m := NextFireOf(s.kind.expr, clock).minute;
    ArmedAt(Advance(s, clock), r, clock, m);
    StrictlyAhead(clock, m, Wait(r));
  }

  lemma StrictlyAhead(clock: nat, m: nat, wait: nat)
    requires Start(clock) <= m < Start(clock) + wait
    ensures clock < m * MICROS_PER_MINUTE <= clock + wait * MICROS_PER_MINUTE
  {
    assert m <= clock / MICROS_PER_MINUTE + wait;
  }

  // ----- one row over any sequence of ticks -----

  /** One tick as a row sees it. */
  datatype Moment = Moment(now: nat, clock: nat)

  /** The loop's readings never go back, and ticks follow one another. */
  ghost predicate Increasing(last: nat, ticks: seq<Moment>)
    decreases |ticks|
  {
    ticks != [] ==>
      && last <= ticks[0].now <= ticks[0].clock
      && Representable(Limit(ticks[0].clock))
      && Increasing(ticks[0].clock, ticks[1..])
  }

  ghost predicate NeverRaises(s: Schedule, ticks: seq<Moment>)
    decreases |ticks|
  {
    ticks != [] ==>
      && (Due(s, ticks[0].now) ==> !Raising(s, ticks[0].clock))
      && NeverRaises(Ticked(s, ticks[0].now, ticks[0].clock), ticks[1..])
  }

  /** For each tick, whether the row was started by it. */
  ghost function Runs(s: Schedule, ticks: seq<Moment>): (r: seq<bool>)
    requires NeverRaises(s, ticks)
    ensures |r| == |ticks|
    decreases |ticks|
  {
    if ticks == [] then []
    else [Due(s, ticks[0].now)] + Runs(Ticked(s, ticks[0].now, ticks[0].clock), ticks[1..])
  }

  /** What the runs of a recurrence should be: at each tick, one run if any fire time has passed
      since the last run (or since the row was armed), however many have passed. */
  ghost function Collapsed(r: Recurrence, last: nat, ticks: seq<Moment>): (c: seq<bool>)
    requires Accepted(r)
    ensures |c| == |ticks|
    decreases |ticks|
  {
    if ticks == [] then []
    else
      var fired := FiredSince(r, last, ticks[0].now);
      [fired] + Collapsed(r, if fired then ticks[0].clock else last, ticks[1..])
  }

  lemma BelowLimitInRange(t: nat, clock: nat)
    requires t <= clock && Representable(Limit(clock))
    ensures InRange(t)
  {
    hide LastMoment;
    assert t / MICROS_PER_MINUTE <= clock / MICROS_PER_MINUTE;
  }

  /** Over any increasing ticks, a built schedule never stops the loop, and it runs exactly once
      at each tick that has missed or met at least one fire time. */
  lemma {:induction false} MissedRunsCollapse(s: Schedule, r: Recurrence, last: nat, from: nat, ticks: seq<Moment>)
    requires Armed(s, r, last)
    requires Increasing(from, ticks)
    ensures NeverRaises(s, ticks)
    ensures Runs(s, ticks) == Collapsed(r, last, ticks)
    decreases |ticks|
  {
    if ticks != [] {
      hide Armed, FiredSince, NextFireOf, LastMoment, Due, Advance, InRange;
      var t := ticks[0];
      BelowLimitInRange(t.now, t.clock);
      DueIffFired(s, r, last, t.now);
      if Due(s, t.now) {
        AdvanceArmed(s, r, last, t.clock);
        MissedRunsCollapse(Advance(s, t.clock), r, t.clock, t.clock, ticks[1..]);
      } else {
        MissedRunsCollapse(s, r, last, t.clock, ticks[1..]);
      }
    }
  }

  // ----- one-offs -----

  /** The first tick that finds the row due, and no other. */
  ghost predicate FirstDue(s: Schedule, ticks: seq<Moment>, i: nat)
    requires i < |ticks|
  {
    Due(s, ticks[i].now) && forall j | 0 <= j < i :: !Due(s, ticks[j].now)
  }

  /** A one-off never stops the loop, and runs at the first tick that finds it due. */
  lemma {:induction false} OneOffRunsOnce(s: Schedule, ticks: seq<Moment>)
    requires s.kind.Once?
    ensures NeverRaises(s, ticks)
    ensures forall i | 0 <= i < |ticks| :: Runs(s, ticks)[i] <==> FirstDue(s, ticks, i)
    decreases |ticks|
  {
    if ticks != [] {
      hide AtMost, Utc;
      var t := ticks[0];
      var s' := Ticked(s, t.now, t.clock);
      OneOffRunsOnce(s', ticks[1..]);
      forall i | 0 < i < |ticks|
        ensures Runs(s, ticks)[i] <==> FirstDue(s, ticks, i)
      {
        assert Runs(s, ticks)[i] == Runs(s', ticks[1..])[i - 1];
        LaterDue(s, ticks, i);
      }
    }
  }

  lemma LaterDue(s: Schedule, ticks: seq<Moment>, i: nat)
    requires s.kind.Once? && 0 < i < |ticks|
    ensures FirstDue(Ticked(s, ticks[0].now, ticks[0].clock), ticks[1..], i - 1) <==> FirstDue(s, ticks, i)
  {
    var rest := ticks[1..];
    hide AtMost, Utc, Raising;
    if Due(s, ticks[0].now) {
      assert !Due(s.(enabled := false), rest[i - 1].now);
    } else {
      hide Due;
      assert rest[i - 1] == ticks[i];
      if FirstDue(s, rest, i - 1) {
        assert forall j | 0 < j < i :: ticks[j] == rest[j - 1];
      }
      if FirstDue(s, ticks, i) {
        assert forall j | 0 <= j < i - 1 :: rest[j] == ticks[j + 1];
      }
    }
  }

  /** Whatever its text says, a one-off runs at most once. */
  lemma {:induction false} OneOffAtMostOnce(s: Schedule, ticks: seq<Moment>, i: nat, j: nat)
    requires s.kind.Once? && NeverRaises(s, ticks)
    requires i < |ticks| && j < |ticks| && Runs(s, ticks)[i] && Runs(s, ticks)[j]
    ensures i == j
  {
    hide Due, Runs;
    OneOffRunsOnce(s, ticks);
    assert FirstDue(s, ticks, i) && FirstDue(s, ticks, j);
  }

  ghost predicate TicksInRange(ticks: seq<Moment>) {
    forall i | 0 <= i < |ticks| :: InRange(ticks[i].now)
  }

  /** In every run the one-off starts at the first tick at or after `t`, and at no other. */
  ghost predicate OnTime(s: Schedule, t: nat)
    requires s.kind.Once?
  {
    forall ticks: seq<Moment>, i: nat | TicksInRange(ticks) && i < |ticks| && NeverRaises(s, ticks) ::
      Runs(s, ticks)[i] <==> t <= ticks[i].now && forall j | 0 <= j < i :: ticks[j].now < t
  }

  /** A one-off meant for `t` is on time exactly when its text stands, among UTC texts, right between
      the microsecond before `t` and `t`. */
  lemma {:induction false} OneOffOnTimeIff(s: Schedule, text: string, t: nat)
    requires s.kind.Once? && s.enabled && s.nextRun == Some(text) && InRange(t)
    ensures OnTime(s, t) <==> AtMost(text, Utc(t)) && (t > 0 ==> Before(Utc(t - 1), text))
  {
    DueFromIff(text, t);
    hide AtMost, Before, Utc, InRange, DueFrom, OnTime;
    if DueFrom(text, t) {
      DueFromOnTime(s, text, t);
    } else {
      NotDueFromNotOnTime(s, text, t);
    }
  }

  lemma {:induction false} DueFromOnTime(s: Schedule, text: string, t: nat)
    requires s.kind.Once? && s.enabled && s.nextRun == Some(text) && DueFrom(text, t)
    ensures OnTime(s, t)
  {
    forall ticks: seq<Moment>, i: nat | TicksInRange(ticks) && i < |ticks| && NeverRaises(s, ticks)
      ensures Runs(s, ticks)[i] <==> t <= ticks[i].now && forall j | 0 <= j < i :: ticks[j].now < t
    {
      hide Runs, NeverRaises, AtMost, Utc, InRange;
      OneOffRunsOnce(s, ticks);
      assert forall j | 0 <= j < |ticks| :: Due(s, ticks[j].now) <==> t <= ticks[j].now;
      hide Due, DueFrom;
      assert Runs(s, ticks)[i] <==> FirstDue(s, ticks, i);
    }
  }

  lemma NotDueFromNotOnTime(s: Schedule, text: string, t: nat)
    requires s.kind.Once? && s.enabled && s.nextRun == Some(text) && !DueFrom(text, t)
    ensures !OnTime(s, t)
  {
    hide Runs, NeverRaises, AtMost, Utc, InRange;
    var now: nat :| InRange(now) && (AtMost(text, Utc(now)) != (t <= now));
    var ticks := [Moment(now, now)];
    OneOffRunsOnce(s, ticks);
    assert ticks[0].now == now && TicksInRange(ticks);
    assert Runs(s, ticks)[0] <==> FirstDue(s, ticks, 0);
  }

  /** Of the texts that `isoformat` prints for the moment `t`, on any clock, exactly the UTC one starts
      on time. */
  lemma OneOffOffsetIff(s: Schedule, t: nat, offset: int)
    requires -1440 < offset < 1440 && t + offset * MINUTE >= 0
    requires InRange(t) && InRange(t + offset * MINUTE)
    requires s.kind.Once? && s.enabled && s.nextRun == Some(Local(t, offset))
    ensures OnTime(s, t) <==> offset == 0
  {
    hide Local, OnTime, AtMost, Before, Utc, InRange;
    OneOffOnTimeIff(s, Local(t, offset), t);
    OffsetIff(t, offset);
    DueFromIff(Local(t, offset), t);
  }

  /** The one-off of 2026-06-01T09:00:00+02:00 is not started by a tick half a minute after its time. */
  lemma {:induction false} OneOffStartsLate(id: nat)
    ensures var s := Schedule(id, Once, true, Some("2026-06-01T09:00:00+02:00"));
            && !Due(s, JuneMorning() + 30 * MICROS)
            && forall now: nat | InRange(now) :: Due(s, now) <==> JuneMorning() + 120 * MINUTE < now
  {
    JuneReading();
    EarlierInRange(JuneMorning() + 120 * MINUTE, JuneMorning());
    hide AtMost, Utc, JuneMorning, InRange;
    forall now: nat | InRange(now)
      ensures AtMost("2026-06-01T09:00:00+02:00", Utc(now)) <==> JuneMorning() + 120 * MINUTE < now
    {
      OffsetStartsLate(now);
    }
    OffsetStartsLate(JuneMorning());
  }

  // ----- the whole table over any sequence of ticks -----

  /** The ticks as row `i` sees them. */
  function View(ticks: seq<Reading>, i: nat): seq<Moment>
    requires forall t | t in ticks :: i < |t.clocks|
  {
    seq(|ticks|, k requires 0 <= k < |ticks| => Moment(ticks[k].now, ticks[k].clocks[i]))
  }

  ghost predicate Sized(n: nat, ticks: seq<Reading>) {
    forall t | t in ticks :: |t.clocks| == n
  }

  ghost predicate NoTickRaises(rows: seq<Schedule>, ticks: seq<Reading>)
    decreases |ticks|
  {
    ticks != [] ==> Quiet(rows, ticks[0]) && NoTickRaises(TickedAll(rows, ticks[0]), ticks[1..])
  }

  /** The ids that each tick starts. */
  ghost function Started(rows: seq<Schedule>, ticks: seq<Reading>): (r: seq<seq<nat>>)
    requires NoTickRaises(rows, ticks)
    ensures |r| == |ticks|
    decreases |ticks|
  {
    if ticks == [] then [] else [DueIds(rows, ticks[0].now)] + Started(TickedAll(rows, ticks[0]), ticks[1..])
  }

  /** What a row is for: a recurrence last moved at some time, or one run. */
  datatype Plan = Repeats(r: Recurrence, last: nat) | RunsOnce

  ghost predicate Follows(s: Schedule, p: Plan) {
    match p
    case Repeats(r, last) => Armed(s, r, last)
    case RunsOnce => s.kind.Once?
  }

  /** Whether the plan of a row has it start at tick `k`. */
  ghost predicate Planned(s: Schedule, p: Plan, ticks: seq<Moment>, k: nat)
    requires Follows(s, p) && k < |ticks|
  {
    match p
    case Repeats(r, last) => Collapsed(r, last, ticks)[k]
    case RunsOnce => FirstDue(s, ticks, k)
  }

  lemma {:induction false} RowFollowsPlan(s: Schedule, p: Plan, from: nat, ticks: seq<Moment>)
    requires Follows(s, p) && Increasing(from, ticks)
    ensures NeverRaises(s, ticks)
    ensures forall k | 0 <= k < |ticks| :: Runs(s, ticks)[k] <==> Planned(s, p, ticks, k)
  {
    hide Armed, Runs, Collapsed, FirstDue, Increasing, NeverRaises;
    match p
    case Repeats(r, last) => MissedRunsCollapse(s, r, last, from, ticks);
    case RunsOnce => OneOffRunsOnce(s, ticks);
  }

  lemma ViewStep(ticks: seq<Reading>, i: nat)
    requires ticks != [] && forall t | t in ticks :: i < |t.clocks|
    ensures View(ticks, i)[0] == Moment(ticks[0].now, ticks[0].clocks[i])
    ensures View(ticks, i)[1..] == View(ticks[1..], i)
  {
  }

  lemma RowStep(rows: seq<Schedule>, ticks: seq<Reading>, i: nat)
    requires ticks != [] && Sized(|rows|, ticks) && i < |rows|
    requires NeverRaises(rows[i], View(ticks, i))
    ensures !RowRaises(rows, ticks[0], i)
    ensures var s' := Ticked(rows[i], ticks[0].now, ticks[0].clocks[i]);
            && NeverRaises(s', View(ticks[1..], i))
            && Runs(rows[i], View(ticks, i)) == [Due(rows[i], ticks[0].now)] + Runs(s', View(ticks[1..], i))
  {
    ViewStep(ticks, i);
    hide Due, Raising, Ticked, View;
    assert ticks[0] in ticks;
  }

  lemma TickKeepsIds(rows: seq<Schedule>, t: Reading)
    requires Quiet(rows, t)
    ensures forall i | 0 <= i < |rows| ::
              !RowRaises(rows, t, i) && TickedAll(rows, t)[i] == Ticked(rows[i], t.now, t.clocks[i])
    ensures forall i | 0 <= i < |rows| :: TickedAll(rows, t)[i].id == rows[i].id
    ensures DistinctIds(rows) ==> DistinctIds(TickedAll(rows, t))
  {
    hide Due, NextFireOf, Utc;
    var after := TickedAll(rows, t);
    forall i | 0 <= i < |rows|
      ensures !RowRaises(rows, t, i) && after[i] == Ticked(rows[i], t.now, t.clocks[i]) && after[i].id == rows[i].id
    {
      assert !RowRaises(rows, t, i);
    }
  }

  /** What one tick adds to the account of a row. */
  ghost predicate Counted(rows: seq<Schedule>, ticks: seq<Reading>, k: nat, i: nat)
    requires Sized(|rows|, ticks) && NoTickRaises(rows, ticks) && k < |ticks| && i < |rows|
    requires NeverRaises(rows[i], View(ticks, i))
  {
    multiset(Started(rows, ticks)[k])[rows[i].id] == if Runs(rows[i], View(ticks, i))[k] then 1 else 0
  }

  lemma {:induction false} CountedNow(rows: seq<Schedule>, ticks: seq<Reading>, i: nat)
    requires DistinctIds(rows) && Sized(|rows|, ticks) && NoTickRaises(rows, ticks) && 0 < |ticks| && i < |rows|
    requires NeverRaises(rows[i], View(ticks, i))
    ensures Counted(rows, ticks, 0, i)
  {
    RowStep(rows, ticks, i);
    hide Due, NeverRaises, Runs, View, Ticked, RowRaises, DueIds, DistinctIds, Quiet;
    DueIdsExact(rows, ticks[0].now, i);
  }

  lemma {:induction false} CountedLater(rows: seq<Schedule>, ticks: seq<Reading>, k: nat, i: nat)
    requires Sized(|rows|, ticks) && NoTickRaises(rows, ticks) && 0 < k < |ticks| && i < |rows|
    requires NeverRaises(rows[i], View(ticks, i)) && Sized(|rows|, ticks[1..])
    requires var after := TickedAll(rows, ticks[0]);
             NeverRaises(after[i], View(ticks[1..], i)) && Counted(after, ticks[1..], k - 1, i)
    ensures Counted(rows, ticks, k, i)
  {
    RowStep(rows, ticks, i);
    TickKeepsIds(rows, ticks[0]);
    hide Due, NeverRaises, Runs, View, Ticked, RowRaises, DueIds, Quiet, TickedAll;
    var after := TickedAll(rows, ticks[0]);
    assert Started(rows, ticks)[k] == Started(after, ticks[1..])[k - 1];
  }

  /** Rows that raise at no tick by themselves raise at none together, and each is started by the ticks
      that find it due. */
  lemma {:induction false} TableIsRows(rows: seq<Schedule>, ticks: seq<Reading>)
    requires DistinctIds(rows) && Sized(|rows|, ticks)
    requires forall i | 0 <= i < |rows| :: NeverRaises(rows[i], View(ticks, i))
    ensures NoTickRaises(rows, ticks)
    ensures forall k, i | 0 <= k < |ticks| && 0 <= i < |rows| :: Counted(rows, ticks, k, i)
    decreases |ticks|
  {
    if ticks != [] {
      hide Due, NeverRaises, Runs, View, Ticked, RowRaises, DistinctIds, Counted, TickedAll;
      var t, rest := ticks[0], ticks[1..];
      assert t in ticks && Sized(|rows|, rest);
      forall i: nat | i < |rows|
        ensures !RowRaises(rows, t, i)
        ensures NeverRaises(Ticked(rows[i], t.now, t.clocks[i]), View(rest, i))
      {
        RowStep(rows, ticks, i);
      }
      var after := TickedAll(rows, t);
      TickKeepsIds(rows, t);
      TableIsRows(after, rest);
      hide Quiet, Sized;
      forall k: nat, i: nat | k < |ticks| && i < |rows|
        ensures Counted(rows, ticks, k, i)
      {
        if k == 0 {
          CountedNow(rows, ticks, i);
        } else {
          CountedLater(rows, ticks, k, i);
        }
      }
    }
  }

  /** A table of built recurrences and one-offs with distinct ids, over any increasing ticks: no tick
      raises, so no row ever stops another, and each tick starts each id once exactly when that row's
      own plan says so: once for any number of missed fire times, and a one-off only the first time
      it is due. */
  lemma TableFollowsPlans(rows: seq<Schedule>, plans: seq<Plan>, from: nat, ticks: seq<Reading>)
    requires DistinctIds(rows) && |plans| == |rows|
    requires forall i | 0 <= i < |rows| :: Follows(rows[i], plans[i])
    requires Sized(|rows|, ticks)
    requires forall i | 0 <= i < |rows| :: Increasing(from, View(ticks, i))
    ensures NoTickRaises(rows, ticks)
    ensures forall k, i | 0 <= k < |ticks| && 0 <= i < |rows| ::
              multiset(Started(rows, ticks)[k])[rows[i].id]
              == if Planned(rows[i], plans[i], View(ticks, i), k) then 1 else 0
  {
    hide Follows, Increasing, NeverRaises, Runs, Planned, DistinctIds, NoTickRaises, Started;
    forall i: nat | i < |rows|
      ensures NeverRaises(rows[i], View(ticks, i))
    {
      RowFollowsPlan(rows[i], plans[i], from, View(ticks, i));
    }
    TableIsRows(rows, ticks);
    forall k: nat, i: nat | k < |ticks| && i < |rows|
      ensures multiset(Started(rows, ticks)[k])[rows[i].id]
           == if Planned(rows[i], plans[i], View(ticks, i), k) then 1 else 0
    {
      RowFollowsPlan(rows[i], plans[i], from, View(ticks, i));
      assert Counted(rows, ticks, k, i);
    }
  }
}
