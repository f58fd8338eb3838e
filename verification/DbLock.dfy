/** The process-wide writer lock of api/db.py, as a system of steps. Every thread has at most one open
    connection; each call on a connection is cut where another thread can run in between. */
module DbLock {

  /** Where a connection stands in the call it is in, if any. */
  datatype Phase =
    | Idle
    | Waiting    // in `_acquire`, for the lock
    | Running    // the statement is with SQLite
    | Settling   // the statement returned, before `_release_if_idle`
    | Ending     // in `commit` or `rollback`
    | Unwinding  // before `_release_unconditionally`

  /** `raised` is history: the last call on the connection raised and left its transaction open. */
  datatype Conn = Conn(thread: nat, open: bool, holding: bool, inTxn: bool, raised: bool, phase: Phase)

  datatype State = State(locked: bool, conns: map<nat, Conn>)

  const Initial := State(false, map[])

  datatype Event =
    | Open(thread: nat, c: nat)
    | Call(c: nat)
    | Acquire(c: nat)
    | Succeed(c: nat, txn: bool)
    | Fail(c: nat, txn: bool)
    | Settle(c: nat)
    | End(c: nat)
    | EndOk(c: nat)
    | EndFail(c: nat, txn: bool)
    | Unwind(c: nat)
    | Close(c: nat)

  predicate At(s: State, c: nat, phase: Phase) {
    c in s.conns && s.conns[c].open && s.conns[c].phase == phase
  }

  predicate Enabled(s: State, e: Event) {
    match e
    case Open(t, c) => c !in s.conns && forall d | d in s.conns :: s.conns[d].open ==> s.conns[d].thread != t
    case Call(c) => At(s, c, Idle)
    case Acquire(c) => At(s, c, Waiting) && !s.locked
    case Succeed(c, _) => At(s, c, Running)
    case Fail(c, _) => At(s, c, Running)
    case Settle(c) => At(s, c, Settling)
    case End(c) => At(s, c, Idle)
    case EndOk(c) => At(s, c, Ending)
    // a commit that fails may leave its transaction open, but opens none
    case EndFail(c, txn) => At(s, c, Ending) && (txn ==> s.conns[c].inTxn)
    case Unwind(c) => At(s, c, Unwinding)
    case Close(c) => At(s, c, Idle)
  }

  /** What a step makes of the lock and of the connection it is about. */
  datatype Effect = Effect(locked: bool, conn: Conn)

  /** Clears the flag and releases the lock, if the connection has the flag. */
  function Release(locked: bool, conn: Conn): Effect {
    if conn.holding then Effect(false, conn.(holding := false)) else Effect(locked, conn)
  }

  function EffectOf(locked: bool, conn: Conn, e: Event): Effect {
    match e
    case Open(t, _) => Effect(locked, Conn(t, true, false, false, false, Idle))
    case Call(_) => Effect(locked, conn.(phase := if conn.holding then Running else Waiting))
    case Acquire(_) => Effect(true, conn.(holding := true, phase := Running))
    case Succeed(_, txn) => Effect(locked, conn.(inTxn := txn, raised := false, phase := Settling))
    case Fail(_, txn) => Effect(locked, conn.(inTxn := txn, raised := txn, phase := Unwinding))
    case Settle(_) =>
      var idle := conn.(phase := Idle);
      if idle.inTxn then Effect(locked, idle) else Release(locked, idle)
    case End(_) => Effect(locked, conn.(phase := Ending))
    case EndOk(_) => Effect(locked, conn.(inTxn := false, raised := false, phase := Unwinding))
    case EndFail(_, txn) => Effect(locked, conn.(inTxn := txn, raised := txn, phase := Unwinding))
    case Unwind(_) => Release(locked, conn.(phase := Idle))
    // SQLite rolls back; neither the flag nor the lock is touched.
    case Close(_) => Effect(locked, conn.(open := false, inTxn := false, raised := false))
  }

  /** The connection before the step; a step that opens one starts from nothing. */
  function Before(s: State, e: Event): Conn
    requires Enabled(s, e)
  {
    if e.Open? then Conn(e.thread, false, false, false, false, Idle) else s.conns[e.c]
  }

  function Apply(s: State, e: Event): State
    requires Enabled(s, e)
  {
    var effect := EffectOf(s.locked, Before(s, e), e);
    State(effect.locked, s.conns[e.c := effect.conn])
  }

  // ----- runs -----

  predicate Legal(s: State, es: seq<Event>)
    decreases |es|
  {
    es == [] || (Enabled(s, es[0]) && Legal(Apply(s, es[0]), es[1..]))
  }

  function After(s: State, es: seq<Event>): State
    requires Legal(s, es)
    decreases |es|
  {
    if es == [] then s else After(Apply(s, es[0]), es[1..])
  }

  // ----- what every step keeps -----

  /** The flag says who has the lock: it is held exactly when one connection has the flag. */
  ghost predicate OneOwner(s: State) {
    && (s.locked <==> exists c :: c in s.conns && s.conns[c].holding)
    && (forall c, d | c in s.conns && d in s.conns :: s.conns[c].holding && s.conns[d].holding ==> c == d)
  }

  ghost predicate ConnOk(conn: Conn) {
    && (conn.phase.Waiting? ==> !conn.holding)
    && (conn.phase.Running? || conn.phase.Settling? ==> conn.holding)
    && (conn.inTxn && !conn.raised ==> conn.holding)
    && (conn.raised ==> conn.inTxn)
    && (conn.phase.Settling? ==> !conn.raised)
    && (conn.phase.Unwinding? && conn.inTxn ==> conn.raised)
    && (conn.open && conn.phase.Idle? && conn.holding ==> conn.inTxn && !conn.raised)
    && (!conn.open ==> conn.phase.Idle? && !conn.inTxn)
  }

  ghost predicate OnePerThread(s: State) {
    forall c, d | c in s.conns && d in s.conns && s.conns[c].open && s.conns[d].open ::
      s.conns[c].thread == s.conns[d].thread ==> c == d
  }

  ghost predicate Inv(s: State) {
    && OneOwner(s)
    && OnePerThread(s)
    && forall c | c in s.conns :: ConnOk(s.conns[c])
  }

  /** A step leaves the lock and its flag alone, takes a free lock, or gives up a lock it has. */
  predicate LockUse(locked: bool, conn: Conn, effect: Effect) {
    || (effect.locked == locked && effect.conn.holding == conn.holding)
    || (!locked && effect.locked && effect.conn.holding)
    || (conn.holding && !effect.locked && !effect.conn.holding)
  }

  lemma BeforeOk(s: State, e: Event)
    requires Inv(s) && Enabled(s, e)
    ensures ConnOk(Before(s, e))
    ensures e.c in s.conns ==> Before(s, e) == s.conns[e.c]
    ensures e.c !in s.conns ==> e.Open?
    ensures e.Open? ==> !Before(s, e).holding
    ensures e.EndFail? && e.txn ==> Before(s, e).inTxn
    ensures e.Acquire? ==> !s.locked
    ensures match e
            case Open(_, _) => true
            case Call(_) => Before(s, e).phase.Idle?
            case Acquire(_) => Before(s, e).phase.Waiting?
            case Succeed(_, _) => Before(s, e).phase.Running?
            case Fail(_, _) => Before(s, e).phase.Running?
            case Settle(_) => Before(s, e).phase.Settling?
            case End(_) => Before(s, e).phase.Idle?
            case EndOk(_) => Before(s, e).phase.Ending?
            case EndFail(_, _) => Before(s, e).phase.Ending?
            case Unwind(_) => Before(s, e).phase.Unwinding?
            case Close(_) => Before(s, e).phase.Idle?
    ensures !e.Open? ==> Before(s, e).open
  {
    hide OneOwner, OnePerThread;
  }

  lemma EffectOk(s: State, e: Event)
    requires Inv(s) && Enabled(s, e)
    ensures var effect := EffectOf(s.locked, Before(s, e), e);
            && ConnOk(effect.conn)
            && LockUse(s.locked, Before(s, e), effect)
  {
    BeforeOk(s, e);
    hide Enabled, Before, Inv;
  }

  lemma StepKeepsOwner(s: State, e: Event)
    requires Inv(s) && Enabled(s, e)
    ensures OneOwner(Apply(s, e))
  {
    BeforeOk(s, e);
    EffectOk(s, e);
    var effect := EffectOf(s.locked, Before(s, e), e);
    assert Apply(s, e) == State(effect.locked, s.conns[e.c := effect.conn]);
    var before := Before(s, e);
    hide Enabled, EffectOf, ConnOk, OnePerThread, Apply, Before;
    OwnerMoves(s, e.c, before, effect);
  }

  lemma OwnerMoves(s: State, c: nat, before: Conn, effect: Effect)
    requires OneOwner(s) && LockUse(s.locked, before, effect)
    requires if c in s.conns then before == s.conns[c] else !before.holding
    ensures OneOwner(State(effect.locked, s.conns[c := effect.conn]))
  {
    var s' := State(effect.locked, s.conns[c := effect.conn]);
    if s'.locked && !effect.conn.holding {
      var d :| d in s.conns && s.conns[d].holding;
      assert d in s'.conns && s'.conns[d].holding;
    }
    if effect.conn.holding {
      assert c in s'.conns && s'.conns[c].holding;
    }
  }

  lemma OthersUntouched(s: State, e: Event)
    requires Enabled(s, e)
    ensures Apply(s, e).conns.Keys == s.conns.Keys + {e.c}
    ensures forall d | d in s.conns && d != e.c :: Apply(s, e).conns[d] == s.conns[d]
  {
    hide EffectOf, Enabled, Before;
  }

  lemma SameThread(s: State, e: Event)
    requires Enabled(s, e)
    ensures var conn := EffectOf(s.locked, Before(s, e), e).conn;
            && conn.thread == Before(s, e).thread
            && (conn.open && !e.Open? ==> Before(s, e).open)
  {
  }

  lemma StepKeepsThreads(s: State, e: Event)
    requires Inv(s) && Enabled(s, e)
    ensures OnePerThread(Apply(s, e))
  {
    SameThread(s, e);
    BeforeOk(s, e);
    OthersUntouched(s, e);
    var conn := EffectOf(s.locked, Before(s, e), e).conn;
    assert Apply(s, e).conns[e.c] == conn;
    hide OneOwner, ConnOk, EffectOf, Apply;
    forall d | d in s.conns && d != e.c && s.conns[d].open && conn.open
      ensures s.conns[d].thread != conn.thread
    {
      if !e.Open? {
        hide Enabled;
        assert Before(s, e) == s.conns[e.c];
      }
    }
  }

  lemma StepKeepsRest(s: State, e: Event)
    requires Inv(s) && Enabled(s, e)
    ensures OnePerThread(Apply(s, e))
    ensures forall c | c in Apply(s, e).conns :: ConnOk(Apply(s, e).conns[c])
  {
    StepKeepsThreads(s, e);
    EffectOk(s, e);
    OthersUntouched(s, e);
    hide OneOwner, OnePerThread, ConnOk, EffectOf, Enabled, Before;
  }

  lemma {:induction false} RunKeepsInv(s: State, es: seq<Event>)
    requires Inv(s) && Legal(s, es)
    ensures Inv(After(s, es))
    decreases |es|
  {
    if es != [] {
      hide Inv, Apply, Enabled;
      StepKeepsInv(s, es[0]);
      RunKeepsInv(Apply(s, es[0]), es[1..]);
    }
  }

  lemma StepKeepsInv(s: State, e: Event)
    requires Inv(s) && Enabled(s, e)
    ensures Inv(Apply(s, e))
  {
    StepKeepsOwner(s, e);
    StepKeepsRest(s, e);
    hide Apply, Enabled, OneOwner, OnePerThread;
  }

  // ----- one writer at a time -----

  ghost predicate OneWriter(s: State) {
    && (forall c | c in s.conns :: s.conns[c].inTxn ==> s.conns[c].holding)
    && (forall c, d | c in s.conns && d in s.conns :: s.conns[c].inTxn && s.conns[d].inTxn ==> c == d)
  }

  /** Giving up the lock with the transaction still open, after a call that raised. */
  predicate Abandons(s: State, e: Event) {
    e.Unwind? && e.c in s.conns && s.conns[e.c].inTxn
  }

  predicate AbandonsIn(s: State, es: seq<Event>)
    requires Legal(s, es)
    decreases |es|
  {
    es != [] && (Abandons(s, es[0]) || AbandonsIn(Apply(s, es[0]), es[1..]))
  }

  /** `OneWriter` in every state that the run goes through, its first and last included. */
  ghost predicate OneWriterThroughout(s: State, es: seq<Event>)
    requires Legal(s, es)
    decreases |es|
  {
    OneWriter(s) && (es != [] ==> OneWriterThroughout(Apply(s, es[0]), es[1..]))
  }

  /** Such a release is exactly what breaks the exclusion. */
  lemma StepKeepsWriter(s: State, e: Event)
    requires Inv(s) && OneWriter(s) && Enabled(s, e)
    ensures OneWriter(Apply(s, e)) <==> !Abandons(s, e)
  {
    StepKeepsInv(s, e);
    OthersUntouched(s, e);
    var s' := Apply(s, e);
    WriterFollowsOwner(s');
    TouchedHolds(s, e);
    hide Apply, Enabled, Inv, Abandons;
    if s'.conns[e.c].inTxn ==> s'.conns[e.c].holding {
      forall c | c in s'.conns && s'.conns[c].inTxn
        ensures s'.conns[c].holding
      {
        if c != e.c {
          assert s'.conns[c] == s.conns[c];
        }
      }
    }
  }

  lemma TouchedHolds(s: State, e: Event)
    requires Inv(s) && OneWriter(s) && Enabled(s, e)
    ensures e.c in Apply(s, e).conns
    ensures (Apply(s, e).conns[e.c].inTxn ==> Apply(s, e).conns[e.c].holding) <==> !Abandons(s, e)
  {
    BeforeOk(s, e);
    assert Before(s, e).inTxn ==> Before(s, e).holding;
    hide Inv, OneWriter, Enabled, Before;
  }

  /** At most one connection has the flag, so holding it in every transaction is enough. */
  lemma WriterFollowsOwner(s: State)
    requires Inv(s)
    ensures OneWriter(s) <==> forall c | c in s.conns :: s.conns[c].inTxn ==> s.conns[c].holding
  {
  }

  lemma {:induction false} ThroughoutIff(s: State, es: seq<Event>)
    requires Inv(s) && OneWriter(s) && Legal(s, es)
    ensures OneWriterThroughout(s, es) <==> !AbandonsIn(s, es)
    decreases |es|
  {
    if es != [] {
      StepKeepsInv(s, es[0]);
      StepKeepsWriter(s, es[0]);
      hide Inv, OneWriter, Abandons, Apply, Enabled;
      if !Abandons(s, es[0]) {
        ThroughoutIff(Apply(s, es[0]), es[1..]);
      } else {
        assert !OneWriterThroughout(Apply(s, es[0]), es[1..]);
      }
    }
  }

  /** A run keeps at most one connection inside a transaction, with the lock in its hands, from
      beginning to end exactly when no call gives the lock up with its transaction open. */
  lemma ExclusionIff(es: seq<Event>)
    requires Legal(Initial, es)
    ensures OneWriterThroughout(Initial, es) <==> !AbandonsIn(Initial, es)
  {
    ThroughoutIff(Initial, es);
  }

  /** No call of the run raises with a transaction open. */
  predicate NoOpenFailures(es: seq<Event>) {
    forall e | e in es :: (e.Fail? || e.EndFail?) ==> !e.txn
  }

  ghost predicate NoneRaised(s: State) {
    forall c | c in s.conns :: !s.conns[c].raised
  }

  lemma NotRaisedHere(s: State, e: Event)
    requires Enabled(s, e) && NoneRaised(s) && (e.Fail? || e.EndFail? ==> !e.txn)
    ensures e.c in Apply(s, e).conns && !Apply(s, e).conns[e.c].raised
  {
  }

  lemma {:induction false} NoneRaisedStays(s: State, es: seq<Event>)
    requires Inv(s) && NoneRaised(s) && Legal(s, es) && NoOpenFailures(es)
    ensures NoneRaised(After(s, es))
    decreases |es|
  {
    if es != [] {
      assert es[0] in es;
      StepKeepsInv(s, es[0]);
      OthersUntouched(s, es[0]);
      NotRaisedHere(s, es[0]);
      hide Inv, Apply, Enabled;
      NoneRaisedStays(Apply(s, es[0]), es[1..]);
    }
  }

  /** In every run whose failing calls leave no transaction open: at most one connection is inside a
      transaction, it holds the lock, and the lock is held exactly by the connection with the flag. */
  lemma WritersExclude(es: seq<Event>)
    requires Legal(Initial, es) && NoOpenFailures(es)
    ensures OneWriter(After(Initial, es)) && OneOwner(After(Initial, es))
  {
    RunKeepsInv(Initial, es);
    NoneRaisedStays(Initial, es);
    hide After, Legal;
  }

  /** The failing case: a statement raises inside its transaction, and the call gives the lock up. */
  lemma FailedStatementBreaksExclusion(t: nat, c: nat)
    ensures var es := [Open(t, c), Call(c), Acquire(c), Fail(c, true), Unwind(c)];
            && Legal(Initial, es)
            && After(Initial, es) == State(false, map[c := Conn(t, true, false, true, true, Idle)])
            && !OneWriter(After(Initial, es)) && !OneWriterThroughout(Initial, es)
  {
    var a, b := [Open(t, c), Call(c), Acquire(c)], [Fail(c, true), Unwind(c)];
    ThreeSteps(Initial, a[0], a[1], a[2]);
    TwoSteps(After(Initial, a), b[0], b[1]);
    LegalAppend(Initial, a, b);
    var es := [Open(t, c), Call(c), Acquire(c), Fail(c, true), Unwind(c)];
    assert a + b == es;
    assert After(Initial, es) == State(false, map[c := Conn(t, true, false, true, true, Idle)]);
    assert !OneWriter(After(Initial, es));
    hide Legal, After;
    ThroughoutEnds(Initial, es);
  }

  lemma {:induction false} ThroughoutEnds(s: State, es: seq<Event>)
    requires Legal(s, es)
    ensures OneWriterThroughout(s, es) ==> OneWriter(After(s, es))
    decreases |es|
  {
    hide Apply, Enabled, OneWriter;
    if es != [] {
      ThroughoutEnds(Apply(s, es[0]), es[1..]);
    }
  }

  /** With any failing calls: of the transactions whose last call did not raise, there is at most one,
      and it holds the lock. */
  lemma UnraisedWritersExclude(es: seq<Event>, c: nat, d: nat)
    requires Legal(Initial, es)
    requires var s := After(Initial, es);
             && c in s.conns && s.conns[c].inTxn && !s.conns[c].raised
             && d in s.conns && s.conns[d].inTxn && !s.conns[d].raised
    ensures c == d && After(Initial, es).conns[c].holding
  {
    RunKeepsInv(Initial, es);
    var s := After(Initial, es);
    assert ConnOk(s.conns[c]) && ConnOk(s.conns[d]);
  }

  /** In every run, failing calls included: between two calls a connection holds the lock exactly when
      it is inside a transaction whose last call did not raise. */
  lemma HeldIffUnraised(es: seq<Event>, c: nat)
    requires Legal(Initial, es)
    requires At(After(Initial, es), c, Idle)
    ensures var conn := After(Initial, es).conns[c];
            conn.holding <==> conn.inTxn && !conn.raised
  {
    RunKeepsInv(Initial, es);
    assert ConnOk(After(Initial, es).conns[c]);
  }

  // ----- closing -----

  /** A closed connection still has the lock's flag: nothing will ever clear it. */
  ghost predicate Leaked(s: State) {
    exists c :: c in s.conns && !s.conns[c].open && s.conns[c].holding
  }

  /** Closing in the middle of a transaction whose last call did not raise. */
  predicate Careless(s: State, e: Event) {
    e.Close? && e.c in s.conns && s.conns[e.c].inTxn && !s.conns[e.c].raised
  }

  predicate CarelessRun(s: State, es: seq<Event>)
    requires Legal(s, es)
    decreases |es|
  {
    es != [] && (Careless(s, es[0]) || CarelessRun(Apply(s, es[0]), es[1..]))
  }

  lemma StepLeaks(s: State, e: Event)
    requires Inv(s) && Enabled(s, e)
    ensures Leaked(Apply(s, e)) <==> Leaked(s) || Careless(s, e)
  {
    var s' := Apply(s, e);
    OthersUntouched(s, e);
    BeforeOk(s, e);
    hide Inv;
    if Careless(s, e) {
      assert !s'.conns[e.c].open && s'.conns[e.c].holding;
    }
    if Leaked(s') {
      var d :| d in s'.conns && !s'.conns[d].open && s'.conns[d].holding;
      assert d != e.c ==> s'.conns[d] == s.conns[d];
    }
  }

  lemma {:induction false} LeakedIff(s: State, es: seq<Event>)
    requires Inv(s) && Legal(s, es)
    ensures Leaked(After(s, es)) <==> Leaked(s) || CarelessRun(s, es)
    decreases |es|
  {
    if es != [] {
      hide Inv, Leaked, Careless, Apply, Enabled;
      StepKeepsInv(s, es[0]);
      StepLeaks(s, es[0]);
      LeakedIff(Apply(s, es[0]), es[1..]);
    }
  }

  /** The lock is lost for good exactly in the runs that close a connection carelessly. */
  lemma LockLostIff(es: seq<Event>)
    requires Legal(Initial, es)
    ensures Leaked(After(Initial, es)) <==> CarelessRun(Initial, es)
  {
    LeakedIff(Initial, es);
  }

  /** Without such a close, even when statements fail: the lock is free whenever no connection is in
      the middle of a call or of a transaction that has not raised. */
  lemma FreeWhenQuiet(es: seq<Event>)
    requires Legal(Initial, es) && !CarelessRun(Initial, es)
    requires var s := After(Initial, es);
             forall c | c in s.conns && s.conns[c].open ::
               s.conns[c].phase.Idle? && (s.conns[c].inTxn ==> s.conns[c].raised)
    ensures !After(Initial, es).locked
  {
    RunKeepsInv(Initial, es);
    LeakedIff(Initial, es);
    var s := After(Initial, es);
    hide After, Legal, CarelessRun;
    assert forall c | c in s.conns :: ConnOk(s.conns[c]);
  }

  /** Without such a close no thread waits for the lock while one of its connections has it. */
  lemma NeverWaitsForItself(es: seq<Event>, c: nat, d: nat)
    requires Legal(Initial, es) && !CarelessRun(Initial, es)
    requires var s := After(Initial, es);
             c in s.conns && d in s.conns && s.conns[c].phase.Waiting? && s.conns[d].holding
    ensures After(Initial, es).conns[c].thread != After(Initial, es).conns[d].thread
  {
    RunKeepsInv(Initial, es);
    LeakedIff(Initial, es);
    var s := After(Initial, es);
    hide After, Legal, CarelessRun;
    assert ConnOk(s.conns[c]) && ConnOk(s.conns[d]);
  }

  /** Without such a close the owner can always make its way to a state where the lock is free. */
  lemma OwnerCanRelease(s: State, c: nat) returns (es: seq<Event>)
    requires Inv(s) && !Leaked(s)
    requires c in s.conns && s.conns[c].holding
    ensures forall e | e in es :: !e.Open? && e.c == c
    ensures Legal(s, es) && !After(s, es).locked
  {
    var conn := s.conns[c];
    assert ConnOk(conn) && conn.open;
    hide Legal, After, Apply, Inv, Leaked;
    match conn.phase
    case Idle =>
      es := [End(c), EndOk(c), Unwind(c)];
      FinishFrees(s, c);
    case Running =>
      es := [Fail(c, false), Unwind(c)];
      FailFrees(s, c);
    case Settling =>
      es := SettlingFrees(s, c);
    case Ending =>
      es := [EndOk(c), Unwind(c)];
      EndingFrees(s, c);
    case Unwinding =>
      es := [Unwind(c)];
      UnwindFrees(s, c);
  }

  lemma FinishFrees(s: State, c: nat)
    requires At(s, c, Idle) && s.conns[c].holding
    ensures Legal(s, [End(c), EndOk(c), Unwind(c)]) && !After(s, [End(c), EndOk(c), Unwind(c)]).locked
  {
    ThreeSteps(s, End(c), EndOk(c), Unwind(c));
    hide Legal, After;
  }

  lemma FailFrees(s: State, c: nat)
    requires At(s, c, Running) && s.conns[c].holding
    ensures Legal(s, [Fail(c, false), Unwind(c)]) && !After(s, [Fail(c, false), Unwind(c)]).locked
  {
    TwoSteps(s, Fail(c, false), Unwind(c));
    hide Legal, After;
  }

  lemma SettlingFrees(s: State, c: nat) returns (es: seq<Event>)
    requires At(s, c, Settling) && s.conns[c].holding
    ensures forall e | e in es :: !e.Open? && e.c == c
    ensures Legal(s, es) && !After(s, es).locked
  {
    if s.conns[c].inTxn {
      es := [Settle(c)] + [End(c), EndOk(c), Unwind(c)];
      assert es[1..] == [End(c), EndOk(c), Unwind(c)];
      FinishFrees(Apply(s, Settle(c)), c);
    } else {
      es := [Settle(c)];
      assert es[1..] == [];
    }
  }

  lemma UnwindFrees(s: State, c: nat)
    requires At(s, c, Unwinding) && s.conns[c].holding
    ensures Legal(s, [Unwind(c)]) && !After(s, [Unwind(c)]).locked
  {
    assert [Unwind(c)][1..] == [];
  }

  lemma EndingFrees(s: State, c: nat)
    requires At(s, c, Ending) && s.conns[c].holding
    ensures Legal(s, [EndOk(c), Unwind(c)]) && !After(s, [EndOk(c), Unwind(c)]).locked
  {
    TwoSteps(s, EndOk(c), Unwind(c));
    hide Legal, After;
  }

  lemma TwoSteps(s: State, a: Event, b: Event)
    requires Enabled(s, a) && Enabled(Apply(s, a), b)
    ensures Legal(s, [a, b]) && After(s, [a, b]) == Apply(Apply(s, a), b)
  {
    hide Enabled, Apply;
    var s' := Apply(s, a);
    assert [a, b][1..] == [b] && [b][1..] == [];
    assert Legal(Apply(s', b), []);
    assert Legal(s', [b]) && After(s', [b]) == Apply(s', b);
  }

  lemma ThreeSteps(s: State, a: Event, b: Event, c: Event)
    requires Enabled(s, a) && Enabled(Apply(s, a), b) && Enabled(Apply(Apply(s, a), b), c)
    ensures Legal(s, [a, b, c]) && After(s, [a, b, c]) == Apply(Apply(Apply(s, a), b), c)
  {
    hide Enabled, Apply;
    TwoSteps(Apply(s, a), b, c);
    assert [a, b, c][1..] == [b, c];
  }

  // ----- what a careless close does -----

  lemma WaiterWaits(s: State, e: Event, c: nat)
    requires s.locked && Enabled(s, e)
    requires c in s.conns && s.conns[c].phase.Waiting?
    ensures !e.Acquire? && c in Apply(s, e).conns && Apply(s, e).conns[c].phase.Waiting?
  {
    OthersUntouched(s, e);
    assert e.c != c;
    hide Apply, Enabled;
  }

  /** After a leak no one ever acquires the lock again, in any continuation. */
  lemma {:induction false} BlockedForever(s: State, es: seq<Event>)
    requires Inv(s) && Leaked(s) && Legal(s, es)
    ensures After(s, es).locked && Leaked(After(s, es))
    ensures forall e | e in es :: !e.Acquire?
    ensures forall c | c in s.conns && s.conns[c].phase.Waiting? ::
              c in After(s, es).conns && After(s, es).conns[c].phase.Waiting?
    decreases |es|
  {
    assert s.locked;
    if es != [] {
      var s' := Apply(s, es[0]);
      StepKeepsInv(s, es[0]);
      StepLeaks(s, es[0]);
      assert !es[0].Acquire?;
      hide Inv, Leaked, Apply, Enabled;
      forall c | c in s.conns && s.conns[c].phase.Waiting?
        ensures c in s'.conns && s'.conns[c].phase.Waiting?
      {
        WaiterWaits(s, es[0], c);
      }
      BlockedForever(s', es[1..]);
      assert es == [es[0]] + es[1..];
    }
  }

  /** Such a run exists: a thread opens a connection, writes, and the request ends without a commit,
      as in the heartbeat handler of api/lfs_build.py when no row matches. */
  lemma CarelessRunExists(t: nat, c: nat) returns (es: seq<Event>)
    ensures Legal(Initial, es) && CarelessRun(Initial, es) && Leaked(After(Initial, es))
  {
    var a, b := [Open(t, c), Call(c), Acquire(c)], [Succeed(c, true), Settle(c), Close(c)];
    es := a + b;
    ThreeSteps(Initial, a[0], a[1], a[2]);
    var s := After(Initial, a);
    ThreeSteps(s, b[0], b[1], b[2]);
    LegalAppend(Initial, a, b);
    assert Inv(Initial);
    LeakedIff(Initial, es);
  }

  lemma {:induction false} LegalAppend(s: State, xs: seq<Event>, ys: seq<Event>)
    requires Legal(s, xs) && Legal(After(s, xs), ys)
    ensures Legal(s, xs + ys) && After(s, xs + ys) == After(After(s, xs), ys)
    decreases |xs|
  {
    hide Enabled, Apply;
    if xs == [] {
      assert xs + ys == ys;
    } else {
      assert (xs + ys)[1..] == xs[1..] + ys;
      LegalAppend(Apply(s, xs[0]), xs[1..], ys);
    }
  }
}
