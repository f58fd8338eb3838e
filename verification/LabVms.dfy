/** The lab-VM broker of api/lab_vm_broker.py: quotas, lifetimes and the reaper, over every interleaving
    of its handlers. Times are in seconds. */
module LabVms {
  import opened Bytes

  datatype Purpose = ProofTarget | ProofProber | Student | LfsBuild

  function MaxLife(p: Purpose): nat {
    match p
    case ProofTarget => 2 * 3600
    case ProofProber => 2 * 3600
    case Student => 4 * 3600
    case LfsBuild => 30 * 24 * 3600
  }

  function IdleLimit(p: Purpose): Option<nat> {
    match p
    case ProofTarget => None
    case ProofProber => None
    case Student => Some(30 * 60)
    case LfsBuild => Some(72 * 3600)
  }

  const MAX_ACTIVE := 6
  const MAX_STUDENT := 2
  const MAX_LFS_BUILD := 1

  datatype Reason = Requested | LifetimeReached | IdleLimitReached

  datatype Deletion = Deletion(at: nat, reason: Reason)

  datatype Vm =
    Vm(purpose: Purpose, created: nat, expires: nat, idle: Option<nat>, touched: nat, deleted: Option<Deletion>)

  predicate Active(vm: Vm) {
    vm.deleted.None?
  }

  function Count(rows: seq<Vm>, p: Vm -> bool): nat {
    if rows == [] then 0 else Count(rows[..|rows| - 1], p) + if p(rows[|rows| - 1]) then 1 else 0
  }

  function ActiveCount(rows: seq<Vm>): nat {
    Count(rows, (vm: Vm) => Active(vm))
  }

  function ActiveOf(rows: seq<Vm>, purpose: Purpose): nat {
    Count(rows, (vm: Vm) => Active(vm) && vm.purpose == purpose)
  }

  /** The quota checks of `create_lab_vm`. */
  predicate Admits(rows: seq<Vm>, purpose: Purpose) {
    && ActiveCount(rows) < MAX_ACTIVE
    && (purpose.Student? ==> ActiveOf(rows, Student) < MAX_STUDENT)
    && (purpose.LfsBuild? ==> ActiveOf(rows, LfsBuild) < MAX_LFS_BUILD)
  }

  /** Why the reaper deletes a VM, if it does. */
  function Verdict(vm: Vm, now: nat): Option<Reason> {
    if now >= vm.expires then Some(LifetimeReached)
    else if vm.idle.Some? && vm.idle.value > 0 && now >= vm.touched + vm.idle.value then Some(IdleLimitReached)
    else None
  }

  // ----- the steps -----

  /** A pass of the reaper: the rows it read at its start, how far it has come, and whether every
      delete has succeeded so far. */
  datatype Pass = Pass(now: nat, start: seq<Vm>, next: nat, clean: bool)

  /** `creating` is the purpose of the create that holds the lock, past its quota checks. */
  datatype State = State(rows: seq<Vm>, creating: Option<Purpose>, pass: Option<Pass>)

  const Initial := State([], None, None)

  datatype Event =
    | Begin(purpose: Purpose)
    | Insert(now: nat)
    | Abandon
    | Touch(i: nat, now: nat)
    | Remove(i: nat, now: nat)
    | ReapStart(now: nat)
    | ReapNext(ok: bool, at: nat)

  predicate Enabled(s: State, e: Event) {
    match e
    case Begin(purpose) => s.creating.None? && Admits(s.rows, purpose)
    case Insert(_) => s.creating.Some?
    case Abandon => s.creating.Some?
    case Touch(i, _) => i < |s.rows|
    case Remove(i, _) => i < |s.rows|
    case ReapStart(_) => s.pass.None? || s.pass.value.next == |s.pass.value.start|
    case ReapNext(_, _) => s.pass.Some? && s.pass.value.next < |s.pass.value.start| <= |s.rows|
  }

  /** `UPDATE ... WHERE id = ? AND deleted_at IS NULL`. */
  function MarkDeleted(rows: seq<Vm>, i: nat, d: Deletion): seq<Vm>
    requires i < |rows|
  {
    if Active(rows[i]) then rows[i := rows[i].(deleted := Some(d))] else rows
  }

  function NewVm(p: Purpose, now: nat): Vm {
    Vm(p, now, now + MaxLife(p), IdleLimit(p), now, None)
  }

  /** What the reaper finds about the row it looks at next. */
  function Finding(p: Pass): Option<Reason>
    requires p.next < |p.start|
  {
    if Active(p.start[p.next]) then Verdict(p.start[p.next], p.now) else None
  }

  function Apply(s: State, e: Event): State
    requires Enabled(s, e)
  {
    match e
    case Begin(purpose) => s.(creating := Some(purpose))
    case Insert(now) => s.(rows := s.rows + [NewVm(s.creating.value, now)], creating := None)
    case Abandon => s.(creating := None)
    case Touch(i, now) => s.(rows := s.rows[i := s.rows[i].(touched := now)])
    case Remove(i, now) => s.(rows := MarkDeleted(s.rows, i, Deletion(now, Requested)))
    case ReapStart(now) => s.(pass := Some(Pass(now, s.rows, 0, true)))
    case ReapNext(ok, at) =>
      var p := s.pass.value;
      var why := Finding(p);
      if why.None? then s.(pass := Some(p.(next := p.next + 1)))
      else if ok then
        s.(rows := MarkDeleted(s.rows, p.next, Deletion(at, why.value)), pass := Some(p.(next := p.next + 1)))
      else s.(pass := Some(p.(next := p.next + 1, clean := false)))
  }

  // ----- counting -----

  lemma {:induction false} CountUpdate(rows: seq<Vm>, i: nat, vm: Vm, p: Vm -> bool)
    requires i < |rows|
    ensures Count(rows[i := vm], p) == Count(rows, p) - (if p(rows[i]) then 1 else 0) + (if p(vm) then 1 else 0)
    decreases |rows|
  {
    var n := |rows| - 1;
    if i < n {
      assert rows[i := vm][..n] == rows[..n][i := vm];
      CountUpdate(rows[..n], i, vm, p);
    } else {
      assert rows[i := vm][..n] == rows[..n];
    }
  }

  lemma CountAppend(rows: seq<Vm>, vm: Vm, p: Vm -> bool)
    ensures Count(rows + [vm], p) == Count(rows, p) + if p(vm) then 1 else 0
  {
    assert (rows + [vm])[..|rows|] == rows;
  }

  // ----- the quotas -----

  ghost predicate WithinQuotas(s: State) {
    && ActiveCount(s.rows) <= MAX_ACTIVE
    && ActiveOf(s.rows, Student) <= MAX_STUDENT
    && ActiveOf(s.rows, LfsBuild) <= MAX_LFS_BUILD
    && (s.creating.Some? ==> Admits(s.rows, s.creating.value))
  }

  /** Changing one row without bringing it back to life, or moving it to another purpose, raises no count. */
  lemma UpdateLowers(rows: seq<Vm>, i: nat, vm: Vm)
    requires i < |rows| && (Active(vm) ==> Active(rows[i])) && vm.purpose == rows[i].purpose
    ensures ActiveCount(rows[i := vm]) <= ActiveCount(rows)
    ensures forall p :: ActiveOf(rows[i := vm], p) <= ActiveOf(rows, p)
  {
    CountUpdate(rows, i, vm, (vm: Vm) => Active(vm));
    forall p
      ensures ActiveOf(rows[i := vm], p) <= ActiveOf(rows, p)
    {
      CountUpdate(rows, i, vm, (vm: Vm) => Active(vm) && vm.purpose == p);
    }
  }

  lemma DeleteLowers(rows: seq<Vm>, i: nat, d: Deletion)
    requires i < |rows|
    ensures ActiveCount(MarkDeleted(rows, i, d)) <= ActiveCount(rows)
    ensures forall p :: ActiveOf(MarkDeleted(rows, i, d), p) <= ActiveOf(rows, p)
  {
    if Active(rows[i]) {
      UpdateLowers(rows, i, rows[i].(deleted := Some(d)));
    }
  }

  lemma InsertCounts(rows: seq<Vm>, vm: Vm)
    requires Active(vm)
    ensures ActiveCount(rows + [vm]) == ActiveCount(rows) + 1
    ensures forall p :: ActiveOf(rows + [vm], p) == ActiveOf(rows, p) + if vm.purpose == p then 1 else 0
  {
    CountAppend(rows, vm, (vm: Vm) => Active(vm));
    forall p
      ensures ActiveOf(rows + [vm], p) == ActiveOf(rows, p) + if vm.purpose == p then 1 else 0
    {
      CountAppend(rows, vm, (vm: Vm) => Active(vm) && vm.purpose == p);
    }
  }

  lemma StepKeepsQuotas(s: State, e: Event)
    requires WithinQuotas(s) && Enabled(s, e)
    ensures WithinQuotas(Apply(s, e))
  {
    hide Count, ActiveCount, ActiveOf;
    match e
    case Insert(now) => InsertCounts(s.rows, NewVm(s.creating.value, now));
    case Touch(i, now) => UpdateLowers(s.rows, i, s.rows[i].(touched := now));
    case Remove(i, now) => DeleteLowers(s.rows, i, Deletion(now, Requested));
    case ReapNext(ok, at) =>
      var p := s.pass.value;
      if Finding(p).Some? {
        DeleteLowers(s.rows, p.next, Deletion(at, Finding(p).value));
      }
    case _ =>
  }

  /** The rows with a property, counted as a set of places. */
  ghost function Places(rows: seq<Vm>, p: Vm -> bool): set<nat> {
    set i: nat | i < |rows| && p(rows[i])
  }

  lemma {:induction false} CountMeaning(rows: seq<Vm>, p: Vm -> bool)
    ensures Count(rows, p) == |Places(rows, p)|
  {
    if rows == [] {
      assert Places(rows, p) == {};
    } else {
      var n := |rows| - 1;
      CountMeaning(rows[..n], p);
      assert Places(rows, p) == Places(rows[..n], p) + if p(rows[n]) then {n} else {};
    }
  }

  /** A create gets past its checks exactly when fewer than six machines are active and, for a student
      or an LFS build, fewer than two or none of its kind. */
  lemma BeginIff(s: State, purpose: Purpose)
    ensures Enabled(s, Begin(purpose))
       <==> && s.creating == None
            && |Places(s.rows, (vm: Vm) => vm.deleted == None)| < 6
            && (purpose == Student ==> |Places(s.rows, (vm: Vm) => vm.deleted == None && vm.purpose == Student)| < 2)
            && (purpose == LfsBuild ==> |Places(s.rows, (vm: Vm) => vm.deleted == None && vm.purpose == LfsBuild)| == 0)
  {
    CountMeaning(s.rows, (vm: Vm) => Active(vm));
    CountMeaning(s.rows, (vm: Vm) => Active(vm) && vm.purpose == Student);
    CountMeaning(s.rows, (vm: Vm) => Active(vm) && vm.purpose == LfsBuild);
    assert Places(s.rows, (vm: Vm) => vm.deleted == None) == Places(s.rows, (vm: Vm) => Active(vm));
    assert Places(s.rows, (vm: Vm) => vm.deleted == None && vm.purpose == Student)
        == Places(s.rows, (vm: Vm) => Active(vm) && vm.purpose == Student);
    assert Places(s.rows, (vm: Vm) => vm.deleted == None && vm.purpose == LfsBuild)
        == Places(s.rows, (vm: Vm) => Active(vm) && vm.purpose == LfsBuild);
    assert ActiveOf(s.rows, Student) == Count(s.rows, (vm: Vm) => Active(vm) && vm.purpose == Student);
    assert ActiveOf(s.rows, LfsBuild) == Count(s.rows, (vm: Vm) => Active(vm) && vm.purpose == LfsBuild);
    hide Places, Count, ActiveOf;
  }

  /** When a machine created at `created` and last touched at `touched` is due, and why: proof machines two
      hours after their creation; student machines after four hours, or half an hour without a touch; LFS
      builds after thirty days, or three days without a touch. */
  lemma DueMeaning(purpose: Purpose, created: nat, touched: nat, now: nat)
    ensures var vm := NewVm(purpose, created).(touched := touched);
            var life := if purpose == Student then 14400 else if purpose == LfsBuild then 2592000 else 7200;
            && Active(vm) && vm.created == created
            && Verdict(vm, now)
               == if now >= created + life then Some(LifetimeReached)
                  else if purpose == Student && now >= touched + 1800 then Some(IdleLimitReached)
                  else if purpose == LfsBuild && now >= touched + 259200 then Some(IdleLimitReached)
                  else None
    ensures NewVm(purpose, created).touched == created
  {
  }

  // ----- what never changes about a row -----

  /** Rows are never lost; a row keeps its purpose and its deadlines; a deletion is final. */
  ghost predicate Ages(before: seq<Vm>, after: seq<Vm>) {
    && |before| <= |after|
    && forall i | 0 <= i < |before| ::
         && after[i].purpose == before[i].purpose && after[i].created == before[i].created
         && after[i].expires == before[i].expires && after[i].idle == before[i].idle
         && (before[i].deleted.Some? ==> after[i].deleted == before[i].deleted)
  }

  lemma StepAges(s: State, e: Event)
    requires Enabled(s, e)
    ensures Ages(s.rows, Apply(s, e).rows)
  {
  }

  // ----- the reaper -----

  ghost predicate PassInv(s: State) {
    s.pass.Some? ==>
      var p := s.pass.value;
      && p.next <= |p.start|
      && Ages(p.start, s.rows)
      && (p.clean ==> forall i | 0 <= i < p.next ::
                        Active(p.start[i]) && Verdict(p.start[i], p.now).Some? ==> s.rows[i].deleted.Some?)
  }

  lemma StepKeepsPass(s: State, e: Event)
    requires PassInv(s) && Enabled(s, e)
    ensures PassInv(Apply(s, e))
  {
    StepAges(s, e);
    hide Verdict, Admits;
  }

  // ----- runs -----

  predicate Legal(s: State, es: seq<Event>)
    decreases |es|
  {
    es == [] || (Enabled(s, es[0]) && Legal(Apply(s, es[0]), es[1..]))
  }

  function After(s: State, es: seq<Event>): State
    requires Legal(s, es)
    decreases |es|
  {
    if es == [] then s else After(Apply(s, es[0]), es[1..])
  }

  lemma {:induction false} RunKeeps(s: State, es: seq<Event>)
    requires WithinQuotas(s) && PassInv(s) && Legal(s, es)
    ensures WithinQuotas(After(s, es)) && PassInv(After(s, es))
    ensures Ages(s.rows, After(s, es).rows)
    decreases |es|
  {
    if es != [] {
      StepAges(s, es[0]);
      StepKeepsQuotas(s, es[0]);
      StepKeepsPass(s, es[0]);
      hide WithinQuotas, PassInv, Apply, Enabled;
      RunKeeps(Apply(s, es[0]), es[1..]);
    }
  }

  /** In every reachable state there are at most six active lab VMs, two of them student machines and
      one of them an LFS build. */
  lemma QuotasHold(es: seq<Event>)
    requires Legal(Initial, es)
    ensures var rows := After(Initial, es).rows;
            && ActiveCount(rows) <= MAX_ACTIVE
            && ActiveOf(rows, Student) <= MAX_STUDENT
            && ActiveOf(rows, LfsBuild) <= MAX_LFS_BUILD
  {
    RunKeeps(Initial, es);
  }

  /** Whatever happens after a state is reached, a deletion keeps its time and reason, and no touch
      moves a deadline. */
  lemma DeletionIsFinal(es: seq<Event>, later: seq<Event>)
    requires Legal(Initial, es) && Legal(After(Initial, es), later)
    ensures Ages(After(Initial, es).rows, After(After(Initial, es), later).rows)
  {
    RunKeeps(Initial, es);
    RunKeeps(After(Initial, es), later);
  }

  /** When a pass has come to its end and all its deletes succeeded, no VM that was active at its
      start and past its lifetime or idle limit then is still active, whatever ran in between. */
  lemma PassReapsAll(es: seq<Event>, i: nat)
    requires Legal(Initial, es)
    requires var s := After(Initial, es);
             && s.pass.Some? && s.pass.value.clean && s.pass.value.next == |s.pass.value.start|
             && i < |s.pass.value.start| && Active(s.pass.value.start[i])
             && Verdict(s.pass.value.start[i], s.pass.value.now).Some?
    ensures i < |After(Initial, es).rows| && !Active(After(Initial, es).rows[i])
  {
    RunKeeps(Initial, es);
  }

  /** The reaper deletes nothing else: a step of it that deletes a row found that row active and due
      when the pass began. */
  lemma ReapsOnlyDue(es: seq<Event>, e: Event, i: nat)
    requires Legal(Initial, es) && Enabled(After(Initial, es), e) && e.ReapNext?
    requires var s := After(Initial, es);
             i < |s.rows| && Active(s.rows[i]) && !Active(Apply(s, e).rows[i])
    ensures var s := After(Initial, es);
            var p := s.pass.value;
            && i == p.next && Active(p.start[i]) && p.start[i].expires == s.rows[i].expires
            && Verdict(p.start[i], p.now) == Some(Apply(s, e).rows[i].deleted.value.reason)
            && (Verdict(p.start[i], p.now) == Some(LifetimeReached) <==> p.now >= s.rows[i].expires)
  {
    RunKeeps(Initial, es);
  }

  /** One row of a pass: a row that was not active or not due when the pass began is passed over; a delete
      that fails leaves it as it is and is remembered; one that works marks it, unless it is deleted already.
      No other row changes, and the pass moves on. */
  lemma ReapStep(s: State, ok: bool, at: nat)
    requires Enabled(s, ReapNext(ok, at))
    ensures var p, s' := s.pass.value, Apply(s, ReapNext(ok, at));
            var i := p.next;
            var why := Verdict(p.start[i], p.now);
            var due := p.start[i].deleted == None && why != None;
            && s'.pass == Some(Pass(p.now, p.start, i + 1, p.clean && (ok || !due)))
            && s'.rows == (if due && ok && s.rows[i].deleted == None
                           then s.rows[i := s.rows[i].(deleted := Some(Deletion(at, why.value)))] else s.rows)
            && s'.creating == s.creating
  {
    hide Verdict;
  }

  /** A row after an undisturbed pass at `now`. */
  function Reaped(vm: Vm, now: nat): Vm {
    var why := Verdict(vm, now);
    if vm.deleted == None && why != None then vm.(deleted := Some(Deletion(now, why.value))) else vm
  }

  lemma {:induction false} RestOfPass(s: State) returns (es: seq<Event>)
    requires s.pass.Some? && s.pass.value.next <= |s.pass.value.start| == |s.rows|
    requires forall i | s.pass.value.next <= i < |s.rows| :: s.rows[i] == s.pass.value.start[i]
    ensures Legal(s, es)
    ensures var p := s.pass.value;
            && After(s, es).pass == Some(p.(next := |p.start|))
            && |After(s, es).rows| == |s.rows|
            && forall i | 0 <= i < |s.rows| ::
                 After(s, es).rows[i] == if i < p.next then s.rows[i] else Reaped(p.start[i], p.now)
    decreases |s.rows| - s.pass.value.next
  {
    var p := s.pass.value;
    es := [];
    if p.next < |p.start| {
      var e := ReapNext(true, p.now);
      ReapStep(s, true, p.now);
      var s' := Apply(s, e);
      hide Apply, Verdict;
      var rest := RestOfPass(s');
      hide Enabled, Legal, After;
      assert Enabled(s, e);
      Cons(s, e, rest);
      es := [e] + rest;
    }
  }

  /** In any state without a pass under way one can be run to its end, and when it is not disturbed and its
      deletes work, it deletes every row that is active and due, with its reason, and changes no other. */
  lemma WholePass(s: State, now: nat) returns (es: seq<Event>)
    requires s.pass.None? || s.pass.value.next == |s.pass.value.start|
    ensures Legal(s, es)
    ensures After(s, es).pass == Some(Pass(now, s.rows, |s.rows|, true))
    ensures |After(s, es).rows| == |s.rows|
    ensures forall i | 0 <= i < |s.rows| :: After(s, es).rows[i] == Reaped(s.rows[i], now)
  {
    var e := ReapStart(now);
    var s' := Apply(s, e);
    var rest := RestOfPass(s');
    hide Apply, Legal, After;
    Cons(s, e, rest);
    es := [e] + rest;
  }

  // ----- a row touched while the pass is under way -----

  /** The clock does not go back. A pass takes its time before it reads the rows, so only what comes
      after it is later. */
  ghost predicate Ordered(last: nat, es: seq<Event>)
    decreases |es|
  {
    es != [] ==>
      match es[0]
      case Insert(now) => last <= now && Ordered(now, es[1..])
      case Touch(_, now) => last <= now && Ordered(now, es[1..])
      case Remove(_, now) => last <= now && Ordered(now, es[1..])
      case ReapNext(_, at) => last <= at && Ordered(at, es[1..])
      case ReapStart(now) => Ordered(if last < now then now else last, es[1..])
      case _ => Ordered(last, es[1..])
  }

  /** A row has been touched since the pass read it, or not at all. */
  ghost predicate TouchInv(s: State, last: nat) {
    s.pass.Some? ==>
      var p := s.pass.value;
      && p.now <= last && |p.start| <= |s.rows|
      && forall i | 0 <= i < |p.start| :: s.rows[i].touched == p.start[i].touched || s.rows[i].touched >= p.now
  }

  lemma {:induction false} RunKeepsTouch(s: State, es: seq<Event>, last: nat) returns (end: nat)
    requires TouchInv(s, last) && Legal(s, es) && Ordered(last, es)
    ensures TouchInv(After(s, es), end)
    decreases |es|
  {
    end := last;
    if es != [] {
      var next := StepKeepsTouch(s, es, last);
      hide Apply, Enabled, TouchInv, Ordered;
      end := RunKeepsTouch(Apply(s, es[0]), es[1..], next);
    }
  }

  lemma StepKeepsTouch(s: State, es: seq<Event>, last: nat) returns (next: nat)
    requires es != [] && TouchInv(s, last) && Enabled(s, es[0]) && Ordered(last, es)
    ensures TouchInv(Apply(s, es[0]), next) && Ordered(next, es[1..])
  {
    hide Verdict, Admits;
    match es[0]
    case Insert(now) => next := now;
    case Touch(_, now) => next := now;
    case Remove(_, now) => next := now;
    case ReapNext(_, at) => next := at;
    case ReapStart(now) => next := if last < now then now else last;
    case _ => next := last;
  }

  /** The reaper decides by what it read at the start of its pass. So a row that it deletes is no longer
      due by the time of the pass exactly when it has been touched since and its lifetime is not over;
      by the time of the deletion, exactly when it was touched since, within its idle limit. */
  lemma ReapedNotDueIff(es: seq<Event>, e: Event, i: nat)
    requires Legal(Initial, es) && Ordered(0, es) && Enabled(After(Initial, es), e) && e.ReapNext?
    requires var s := After(Initial, es);
             i < |s.rows| && Active(s.rows[i]) && !Active(Apply(s, e).rows[i])
    ensures var row, p := After(Initial, es).rows[i], After(Initial, es).pass.value;
            && i < |p.start|
            && (Verdict(row, p.now).None? <==> row.touched != p.start[i].touched && p.now < row.expires)
            && (p.now <= e.at ==>
                  (Verdict(row, e.at).None? <==>
                     row.touched != p.start[i].touched && e.at < row.expires
                     && row.idle.Some? && e.at < row.touched + row.idle.value))
  {
    ReapsOnlyDue(es, e, i);
    RunKeeps(Initial, es);
    var end := RunKeepsTouch(Initial, es, 0);
    hide After, Legal, Apply, Enabled, WithinQuotas;
  }

  /** A student machine idle since its creation is touched just after the pass has read it, and deleted
      for being idle a second later. */
  lemma TouchedButReaped()
    ensures var es := [Begin(Student), Insert(0), ReapStart(1800), Touch(0, 1800)];
            && Legal(Initial, es) && Ordered(0, es) && Enabled(After(Initial, es), ReapNext(true, 1801))
            && var s := After(Initial, es);
               && |s.rows| == 1 && Verdict(s.rows[0], 1801).None?
               && Apply(s, ReapNext(true, 1801)).rows[0].deleted == Some(Deletion(1801, IdleLimitReached))
  {
    var a, b, c, d := Begin(Student), Insert(0), ReapStart(1800), Touch(0, 1800);
    var s1, s2, s3, s4 := TouchedStates();
    assert Enabled(s4, ReapNext(true, 1801));
    assert Apply(s4, ReapNext(true, 1801)).rows[0].deleted == Some(Deletion(1801, IdleLimitReached));
    assert Verdict(s4.rows[0], 1801).None?;
    assert Legal(s4, []) && After(s4, []) == s4;
    hide Apply, Enabled, Legal, After, Ordered, Verdict;
    Cons(s3, d, []);
    assert [d] + [] == [d];
    Cons(s2, c, [d]);
    assert [c] + [d] == [c, d];
    Cons(s1, b, [c, d]);
    assert [b] + [c, d] == [b, c, d];
    Cons(Initial, a, [b, c, d]);
    assert [a] + [b, c, d] == [a, b, c, d];
    InOrder();
  }

  lemma Cons(s: State, e: Event, es: seq<Event>)
    requires Enabled(s, e) && Legal(Apply(s, e), es)
    ensures Legal(s, [e] + es) && After(s, [e] + es) == After(Apply(s, e), es)
  {
    hide Apply, Enabled;
    assert ([e] + es)[1..] == es;
  }

  lemma InOrder()
    ensures Ordered(0, [Begin(Student), Insert(0), ReapStart(1800), Touch(0, 1800)])
  {
    var a, b, c, d := Begin(Student), Insert(0), ReapStart(1800), Touch(0, 1800);
    assert [a, b, c, d][1..] == [b, c, d] && [b, c, d][1..] == [c, d] && [c, d][1..] == [d] && [d][1..] == [];
    assert Ordered(1800, []);
    assert Ordered(1800, [d]);
    assert Ordered(0, [c, d]);
    assert Ordered(0, [b, c, d]);
  }

  lemma TouchedStates() returns (s1: State, s2: State, s3: State, s4: State)
    ensures Enabled(Initial, Begin(Student)) && s1 == Apply(Initial, Begin(Student))
    ensures Enabled(s1, Insert(0)) && s2 == Apply(s1, Insert(0))
    ensures Enabled(s2, ReapStart(1800)) && s3 == Apply(s2, ReapStart(1800))
    ensures Enabled(s3, Touch(0, 1800)) && s4 == Apply(s3, Touch(0, 1800))
    ensures var vm := Vm(Student, 0, 14400, Some(1800), 0, None);
            s4 == State([vm.(touched := 1800)], None, Some(Pass(1800, [vm], 0, true)))
  {
    var vm := Vm(Student, 0, 14400, Some(1800), 0, None);
    s1 := Apply(Initial, Begin(Student));
    s2 := Apply(s1, Insert(0));
    assert s2 == State([vm], None, None);
    s3 := Apply(s2, ReapStart(1800));
    s4 := Apply(s3, Touch(0, 1800));
    assert s4 == State([vm.(touched := 1800)], None, Some(Pass(1800, [vm], 0, true)));
  }

  // ----- the broker's calls -----

  class Broker {
    var rows: seq<Vm>

    ghost predicate Valid()
      reads this
    {
      WithinQuotas(State(rows, None, None))
    }

    constructor ()
      ensures Valid() && rows == []
    {
      rows := [];
    }

    /** `create_lab_vm`; `granted` is whether a host with capacity accepted the instance. */
    method Create(purpose: Purpose, granted: bool, now: nat) returns (ok: bool)
      requires Valid()
      modifies this
      ensures Valid()
      ensures ok == (old(Admits(rows, purpose)) && granted)
      ensures rows == if ok then old(rows) + [NewVm(purpose, now)] else old(rows)
    {
      if !Admits(rows, purpose) || !granted {
        return false;
      }
      StepKeepsQuotas(State(rows, Some(purpose), None), Insert(now));
      rows := rows + [NewVm(purpose, now)];
      ok := true;
    }

    /** `reap_once`, undisturbed; `works` says which instance deletions succeed. */
    method ReapOnce(now: nat, works: seq<bool>) returns (reaped: seq<nat>)
      requires Valid() && |works| == |rows|
      modifies this
      ensures |rows| == |old(rows)|
      ensures forall i | 0 <= i < |rows| ::
                var why := Verdict(old(rows)[i], now);
                rows[i] == if Active(old(rows)[i]) && why.Some? && works[i]
                           then old(rows)[i].(deleted := Some(Deletion(now, why.value))) else old(rows)[i]
      ensures forall i: nat :: i in reaped <==> i < |rows| && Active(old(rows)[i]) && !Active(rows[i])
      ensures Valid()
    {
      hide Verdict;
      var start := rows;
      reaped := [];
      for i := 0 to |start|
        invariant |rows| == |start| && Valid()
        invariant forall j | i <= j < |start| :: rows[j] == start[j]
        invariant forall j | 0 <= j < i ::
                    var why := Verdict(start[j], now);
                    rows[j] == if Active(start[j]) && why.Some? && works[j]
                               then start[j].(deleted := Some(Deletion(now, why.value))) else start[j]
        invariant forall j: nat :: j in reaped <==> j < i && Active(start[j]) && !Active(rows[j])
      {
        var why := Verdict(start[i], now);
        if Active(start[i]) && why.Some? && works[i] {
          DeleteLowers(rows, i, Deletion(now, why.value));
          rows := MarkDeleted(rows, i, Deletion(now, why.value));
          reaped := reaped + [i];
        }
      }
    }
  }
}
