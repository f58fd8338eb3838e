/** `_SerializedConnection` of api/db.py, call by call, and the steps of the lock model that each
    call is made of when no other thread runs in between. */
module DbConnection {
  import opened DbLock

  class Lock {
    var held: bool

    constructor ()
      ensures !held
    {
      held := false;
    }
  }

  /** How SQLite answers a call: it returns or raises, and leaves a transaction open or not. */
  datatype Answer = Returns(txn: bool) | RaisesError(txn: bool)

  /** How far a call got: it waits for the lock of another connection, or SQLite has answered. */
  datatype Progress = Waits | Done(ok: bool)

  class SerializedConnection {
    const lock: Lock
    const thread: nat
    const id: nat
    var holding: bool
    var waiting: bool
    var inTxn: bool
    ghost var raised: bool

    ghost function Phase(): Phase
      reads this
    {
      if waiting then Waiting else Idle
    }

    /** This connection as the lock model sees it between two calls, or while it waits. */
    ghost function Value(): Conn
      reads this
    {
      Conn(thread, true, holding, inTxn, raised, Phase())
    }

    ghost predicate Valid()
      reads this, lock
    {
      (holding ==> lock.held) && ConnOk(Value())
    }

    ghost function View(): State
      reads this, lock
    {
      Alone(lock.held, id, Value())
    }

    constructor (lock: Lock, thread: nat, id: nat)
      ensures this.lock == lock && this.thread == thread && this.id == id
      ensures Valid() && !holding && !waiting && !inTxn && !raised
    {
      this.lock, this.thread, this.id := lock, thread, id;
      holding, waiting, inTxn, raised := false, false, false, false;
    }

    /** `_acquire`. When another connection has the lock the caller is left waiting for it. */
    method Acquire()
      requires Valid()
      modifies this`holding, this`waiting, lock
      ensures lock.held
      ensures waiting == (!old(holding) && old(lock.held))
      ensures holding == !waiting
    {
      waiting := !holding && lock.held;
      if !holding && !waiting {
        lock.held := true;
        holding := true;
      }
    }

    method ReleaseIfIdle()
      requires holding ==> lock.held
      modifies this`holding, lock
      ensures holding == (old(holding) && inTxn)
      ensures lock.held == (old(lock.held) && (old(holding) ==> inTxn))
    {
      if holding && !inTxn {
        holding := false;
        lock.held := false;
      }
    }

    method ReleaseUnconditionally()
      modifies this`holding, lock
      ensures !holding
      ensures lock.held == (old(lock.held) && !old(holding))
    {
      if holding {
        holding := false;
        lock.held := false;
      }
    }

    /** The steps of one `execute`, `executemany` or `executescript`, as far as it can go: all of them
        when the lock is free or this connection's own, else only the first. */
    ghost function CallSteps(a: Answer): seq<Event>
      reads this, lock
    {
      if holding then [Call(id)] + AnswerSteps(id, a)
      else if lock.held then [Call(id)]
      else [Call(id), Event.Acquire(id)] + AnswerSteps(id, a)
    }

    /** `execute`, or as much of it as comes before it has to wait. */
    method Execute(a: Answer) returns (r: Progress)
      requires Valid() && !waiting
      modifies this, lock
      ensures Valid()
      ensures r == if old(holding) || !old(lock.held) then Done(a.Returns?) else Waits
      ensures waiting == r.Waits?
      ensures Legal(old(View()), old(CallSteps(a))) && View() == After(old(View()), old(CallSteps(a)))
    {
      if holding || !lock.held {
        CallAlone(lock.held, id, Value(), a);
      } else {
        WaitAlone(id, Value());
      }
      hide Legal, After, Alone, AnswerSteps, ConnOk;
      Acquire();
      if waiting {
        return Waits;
      }
      Answered(a);
      r := Done(a.Returns?);
    }

    /** The rest of a waiting call, once the lock has come free. */
    method Resume(a: Answer) returns (ok: bool)
      requires Valid() && waiting && !lock.held
      modifies this, lock
      ensures Valid() && !waiting
      ensures ok == a.Returns?
      ensures var steps := [Event.Acquire(id)] + AnswerSteps(id, a);
              Legal(old(View()), steps) && View() == After(old(View()), steps)
    {
      ResumeAlone(id, Value(), a);
      hide Legal, After, Alone, AnswerSteps, ConnOk;
      Acquire();
      Answered(a);
      ok := a.Returns?;
    }

    /** What follows the lock in every call: SQLite's answer, and the release that it decides on. */
    method Answered(a: Answer)
      requires holding && lock.held
      modifies this`holding, this`inTxn, this`raised, lock
      ensures inTxn == a.txn && raised == (a.RaisesError? && a.txn)
      ensures holding == (a.Returns? && a.txn) && lock.held == holding
    {
      inTxn := a.txn;
      raised := a.RaisesError? && a.txn;
      if a.Returns? {
        ReleaseIfIdle();
      } else {
        ReleaseUnconditionally();
      }
    }

    /** `commit` or `rollback`: the lock is given up whatever SQLite says. */
    method Finish(a: Answer) returns (ok: bool)
      requires Valid() && !waiting
      requires a.txn ==> a.RaisesError? && inTxn
      modifies this, lock
      ensures ok == a.Returns?
      ensures Valid() && !holding && !waiting
      ensures Legal(old(View()), FinishSteps(id, a)) && View() == After(old(View()), FinishSteps(id, a))
    {
      FinishAlone(lock.held, id, Value(), a);
      hide Legal, After, Alone, FinishSteps, ConnOk;
      inTxn := a.txn;
      raised := a.RaisesError? && a.txn;
      ReleaseUnconditionally();
      ok := a.Returns?;
    }
  }

  function AnswerSteps(id: nat, a: Answer): seq<Event> {
    if a.Returns? then [Succeed(id, a.txn), Settle(id)] else [Fail(id, a.txn), Unwind(id)]
  }

  function FinishSteps(id: nat, a: Answer): seq<Event> {
    [End(id), if a.Returns? then EndOk(id) else EndFail(id, a.txn), Unwind(id)]
  }

  /** A connection after SQLite's answer, back between two calls. */
  function Left(conn: Conn, a: Answer, holding: bool): Conn {
    conn.(holding := holding, inTxn := a.txn, raised := a.RaisesError? && a.txn, phase := Idle)
  }

  /** The steps of a commit or rollback, from any state where the connection is idle. */
  lemma FinishRun(s: State, id: nat, a: Answer)
    requires At(s, id, Idle)
    requires a.txn ==> a.RaisesError? && s.conns[id].inTxn
    ensures Legal(s, FinishSteps(id, a))
    ensures After(s, FinishSteps(id, a))
         == State(s.locked && !s.conns[id].holding, s.conns[id := Left(s.conns[id], a, false)])
  {
    var conn := s.conns[id];
    var end := if a.Returns? then EndOk(id) else EndFail(id, a.txn);
    EndStep(s, id);
    var s1 := Apply(s, End(id));
    EndAnswer(s1, id, a);
    var s2 := Apply(s1, end);
    UnwindStep(s2, id);
    hide Apply, Enabled;
    ThreeSteps(s, End(id), end, Unwind(id));
  }

  lemma EndStep(s: State, id: nat)
    requires At(s, id, Idle)
    ensures Enabled(s, End(id)) && Apply(s, End(id)) == s.(conns := s.conns[id := s.conns[id].(phase := Ending)])
  {
  }

  lemma EndAnswer(s: State, id: nat, a: Answer)
    requires At(s, id, Ending)
    requires a.txn ==> a.RaisesError? && s.conns[id].inTxn
    ensures var end := if a.Returns? then EndOk(id) else EndFail(id, a.txn);
            var conn := s.conns[id];
            && Enabled(s, end)
            && Apply(s, end) == s.(conns := s.conns[id := Left(conn, a, conn.holding).(phase := Unwinding)])
  {
  }

  lemma UnwindStep(s: State, id: nat)
    requires At(s, id, Unwinding)
    ensures Enabled(s, Unwind(id))
    ensures var conn := s.conns[id];
            Apply(s, Unwind(id))
            == State(s.locked && !conn.holding, s.conns[id := conn.(holding := false, phase := Idle)])
  {
  }

  lemma StartRun(s: State, id: nat)
    requires At(s, id, Idle) && (s.conns[id].holding || !s.locked)
    ensures var conn := s.conns[id];
            var first := [Call(id)] + (if conn.holding then [] else [Acquire(id)]);
            && Legal(s, first)
            && After(s, first)
               == State(s.locked || !conn.holding, s.conns[id := conn.(holding := true, phase := Running)])
  {
    if s.conns[id].holding {
      assert ([Call(id)] + [])[1..] == [];
    } else {
      assert [Call(id)] + [Acquire(id)] == [Call(id), Acquire(id)];
      TwoSteps(s, Call(id), Acquire(id));
    }
  }

  lemma AnswerRun(s: State, id: nat, a: Answer)
    requires At(s, id, Running) && s.conns[id].holding
    ensures Legal(s, AnswerSteps(id, a))
    ensures After(s, AnswerSteps(id, a))
         == State(s.locked && a.Returns? && a.txn, s.conns[id := Left(s.conns[id], a, a.Returns? && a.txn)])
  {
    AnswerStep(s, id, a);
    var answer := if a.Returns? then Succeed(id, a.txn) else Fail(id, a.txn);
    var s' := Apply(s, answer);
    if a.Returns? {
      SettleStep(s', id);
      hide Apply, Enabled;
      TwoSteps(s, answer, Settle(id));
    } else {
      UnwindStep(s', id);
      hide Apply, Enabled;
      TwoSteps(s, answer, Unwind(id));
    }
  }

  lemma AnswerStep(s: State, id: nat, a: Answer)
    requires At(s, id, Running)
    ensures var answer := if a.Returns? then Succeed(id, a.txn) else Fail(id, a.txn);
            var conn := s.conns[id];
            && Enabled(s, answer)
            && Apply(s, answer)
               == s.(conns := s.conns[id := Left(conn, a, conn.holding)
                                            .(phase := if a.Returns? then Settling else Unwinding)])
  {
  }

  lemma SettleStep(s: State, id: nat)
    requires At(s, id, Settling) && s.conns[id].holding
    ensures Enabled(s, Settle(id))
    ensures var conn := s.conns[id];
            Apply(s, Settle(id))
            == State(s.locked && conn.inTxn, s.conns[id := conn.(holding := conn.inTxn, phase := Idle)])
  {
  }

  /** A call that finds the lock with another connection stops after its first step. */
  lemma WaitRun(s: State, id: nat)
    requires At(s, id, Idle) && !s.conns[id].holding
    ensures Legal(s, [Call(id)])
    ensures After(s, [Call(id)]) == s.(conns := s.conns[id := s.conns[id].(phase := Waiting)])
  {
    assert [Call(id)][1..] == [];
  }

  /** The rest of a waiting call, from any state where the lock is free. */
  lemma ResumeRun(s: State, id: nat, a: Answer)
    requires At(s, id, Waiting) && !s.locked
    ensures Legal(s, [Acquire(id)] + AnswerSteps(id, a))
    ensures After(s, [Acquire(id)] + AnswerSteps(id, a))
         == State(a.Returns? && a.txn, s.conns[id := Left(s.conns[id], a, a.Returns? && a.txn)])
  {
    AcquireStep(s, id);
    var s' := Apply(s, Acquire(id));
    AnswerRun(s', id, a);
    hide Apply, AnswerSteps, Enabled;
    assert ([Acquire(id)] + AnswerSteps(id, a))[1..] == AnswerSteps(id, a);
  }

  lemma AcquireStep(s: State, id: nat)
    requires At(s, id, Waiting) && !s.locked
    ensures Enabled(s, Acquire(id))
    ensures Apply(s, Acquire(id)) == State(true, s.conns[id := s.conns[id].(holding := true, phase := Running)])
  {
  }

  /** The steps of a call that need not wait, played on any state where the connection is idle. */
  lemma CallRun(s: State, id: nat, a: Answer)
    requires At(s, id, Idle) && (s.conns[id].holding || !s.locked)
    ensures var steps := [Call(id)] + (if s.conns[id].holding then [] else [Acquire(id)]) + AnswerSteps(id, a);
            && steps == (if s.conns[id].holding then [Call(id)] else [Call(id), Acquire(id)]) + AnswerSteps(id, a)
            && Legal(s, steps)
            && After(s, steps)
               == State((s.locked || !s.conns[id].holding) && a.Returns? && a.txn,
                        s.conns[id := Left(s.conns[id], a, a.Returns? && a.txn)])
  {
    hide Legal, After, Enabled, Apply, AnswerSteps;
    var first := [Call(id)] + (if s.conns[id].holding then [] else [Acquire(id)]);
    StartRun(s, id);
    AnswerRun(After(s, first), id, a);
    LegalAppend(s, first, AnswerSteps(id, a));
  }

  // ----- a connection by itself -----

  function Alone(locked: bool, id: nat, conn: Conn): State {
    State(locked, map[id := conn])
  }

  lemma LeftOk(conn: Conn, a: Answer)
    requires conn.open
    ensures ConnOk(Left(conn, a, a.Returns? && a.txn))
    ensures (a.txn ==> a.RaisesError?) ==> ConnOk(Left(conn, a, false))
  {
  }

  lemma CallAlone(locked: bool, id: nat, conn: Conn, a: Answer)
    requires conn.open && conn.phase.Idle? && (conn.holding <==> locked)
    ensures var steps := (if conn.holding then [Call(id)] else [Call(id), Acquire(id)]) + AnswerSteps(id, a);
            var left := Left(conn, a, a.Returns? && a.txn);
            && Legal(Alone(locked, id, conn), steps)
            && After(Alone(locked, id, conn), steps) == Alone(left.holding, id, left)
            && ConnOk(left)
  {
    LeftOk(conn, a);
    CallRun(Alone(locked, id, conn), id, a);
    hide Legal, After, AnswerSteps;
  }

  lemma WaitAlone(id: nat, conn: Conn)
    requires conn.open && conn.phase.Idle? && !conn.holding && ConnOk(conn)
    ensures var waiting := conn.(phase := Waiting);
            && Legal(Alone(true, id, conn), [Call(id)])
            && After(Alone(true, id, conn), [Call(id)]) == Alone(true, id, waiting)
            && ConnOk(waiting)
  {
    WaitRun(Alone(true, id, conn), id);
    hide Legal, After;
  }

  lemma ResumeAlone(id: nat, conn: Conn, a: Answer)
    requires conn.open && conn.phase.Waiting?
    ensures var steps := [Acquire(id)] + AnswerSteps(id, a);
            var left := Left(conn, a, a.Returns? && a.txn);
            && Legal(Alone(false, id, conn), steps)
            && After(Alone(false, id, conn), steps) == Alone(left.holding, id, left)
            && ConnOk(left)
  {
    LeftOk(conn, a);
    ResumeRun(Alone(false, id, conn), id, a);
    hide Legal, After, AnswerSteps;
  }

  lemma FinishAlone(locked: bool, id: nat, conn: Conn, a: Answer)
    requires conn.open && conn.phase.Idle? && (a.txn ==> a.RaisesError? && conn.inTxn)
    ensures var left := Left(conn, a, false);
            && Legal(Alone(locked, id, conn), FinishSteps(id, a))
            && After(Alone(locked, id, conn), FinishSteps(id, a)) == Alone(locked && !conn.holding, id, left)
            && ConnOk(left)
  {
    LeftOk(conn, a);
    FinishRun(Alone(locked, id, conn), id, a);
    hide Legal, After, FinishSteps;
  }
}
