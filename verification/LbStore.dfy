/** The load-balancer handlers of api/server.py as they work: a row is read into an object, the object's
    lists are changed in place, and it is written back unless the handler answered with a problem; and
    how such a request plays in the model of concurrent handlers. */
module LbStore {
  import opened Bytes
  import opened Text
  import opened Lb
  import opened LbHandlers

  class LoadBalancer {
    const name: string
    var backends: seq<Backend>
    var listeners: seq<Listener>
    var groups: seq<Group>

    ghost function Value(): Balancer
      reads this
    {
      Balancer(name, backends, listeners, groups)
    }

    constructor (b: Balancer)
      ensures Value() == b
    {
      name, backends, listeners, groups := b.name, b.backends, b.listeners, b.groups;
    }

    method AddListener(l: Listener, portGiven: bool) returns (ok: bool)
      modifies this
      ensures ok == Handle(Handler.AddListener(l, portGiven), old(Value())).Some?
      ensures Value() == Ran(Handler.AddListener(l, portGiven), old(Value()))
    {
      if !portGiven || l.port < 1 || l.port > 65535 || !KnownProtocol(l.protocol) {
        return false;
      }
      for i := 0 to |listeners|
        invariant forall j | 0 <= j < i :: listeners[j].port != l.port
        invariant Value() == old(Value())
      {
        if listeners[i].port == l.port {
          return false;
        }
      }
      listeners := listeners + [l];
      ok := true;
    }

    /** `next(...)`, then the new fields are assigned in the dictionary that was found. */
    method UpdateListener(h: Handler) returns (ok: bool)
      requires h.UpdateListener?
      modifies this
      ensures ok == Handle(h, old(Value())).Some?
      ensures Value() == Ran(h, old(Value()))
    {
      var i := 0;
      while i < |listeners| && listeners[i].id != h.id
        invariant 0 <= i <= |listeners|
        invariant forall j | 0 <= j < i :: listeners[j].id != h.id
      {
        i := i + 1;
      }
      if i == |listeners| {
        return false;
      }
      RetargetAt(listeners, i, h);
      var l := listeners[i];
      l := l.(target := Or(h.target, l.target));
      l := l.(rules := if h.rules != [] then h.rules else l.rules);
      l := l.(action := Or(h.action, l.action));
      listeners := listeners[i := l];
      ok := true;
    }

    method RemoveListener(id: string) returns (ok: bool)
      modifies this
      ensures ok == Handle(Handler.RemoveListener(id), old(Value())).Some?
      ensures Value() == Ran(Handler.RemoveListener(id), old(Value()))
    {
      if forall i | 0 <= i < |listeners| :: listeners[i].id != id {
        return false;
      }
      listeners := Filter(listeners, OtherListener(id));
      ok := true;
    }

    method CreateGroup(id: string, body: GroupBody) returns (ok: bool)
      modifies this
      ensures ok == Handle(Handler.CreateGroup(id, body), old(Value())).Some?
      ensures Value() == Ran(Handler.CreateGroup(id, body), old(Value()))
    {
      hide Strip, Lower, OrCheck;
      var groupName := Strip(Or(body.name, ""));
      if groupName == "" || body.port.None? || body.port.value == 0 {
        return false;
      }
      for i := 0 to |groups|
        invariant forall j | 0 <= j < i :: groups[j].name != groupName
        invariant Value() == old(Value())
      {
        if groups[i].name == groupName {
          return false;
        }
      }
      var check := OrCheck(Or(body.check, EMPTY_CHECK), DEFAULT_CHECK);
      var g := Group(id, groupName, body.port.value, Lower(Or(body.protocol, "http")), Or(body.targets, []), check);
      groups := groups + [g];
      ok := true;
    }

    method UpdateGroup(id: string, body: GroupBody) returns (ok: bool)
      modifies this
      ensures ok == Handle(Handler.UpdateGroup(id, body), old(Value())).Some?
      ensures Value() == Ran(Handler.UpdateGroup(id, body), old(Value()))
    {
      var i := 0;
      while i < |groups| && groups[i].id != id
        invariant 0 <= i <= |groups|
        invariant forall j | 0 <= j < i :: groups[j].id != id
      {
        i := i + 1;
      }
      if i == |groups| {
        return false;
      }
      RegroupAt(groups, id, body, i);
      var g := groups[i];
      g := g.(name := Or(body.name, g.name), port := Or(body.port, g.port));
      g := g.(protocol := Or(body.protocol, g.protocol), targets := Or(body.targets, g.targets));
      if body.check.Some? {
        g := g.(check := OrCheck(OrCheck(body.check.value, g.check), DEFAULT_CHECK));
      }
      hide Regroup, OrCheck;
      groups := groups[i := g];
      ok := true;
    }

    /** Refused while a listener or one of its rules still points at the group. */
    method DeleteGroup(id: string) returns (ok: bool)
      modifies this
      ensures ok == Handle(Handler.DeleteGroup(id), old(Value())).Some?
      ensures Value() == Ran(Handler.DeleteGroup(id), old(Value()))
    {
      if (forall i | 0 <= i < |groups| :: groups[i].id != id) || InUse(listeners, id) {
        return false;
      }
      groups := Filter(groups, OtherGroup(id));
      ok := true;
    }

    method AddBackend(backend: Option<Backend>) returns (ok: bool)
      modifies this
      ensures ok == Handle(Handler.AddBackend(backend), old(Value())).Some?
      ensures Value() == Ran(Handler.AddBackend(backend), old(Value()))
    {
      if backend.None? {
        return false;
      }
      backends := backends + [backend.value];
      ok := true;
    }

    method RemoveBackend(backend: string) returns (ok: bool)
      modifies this
      ensures ok && Handle(Handler.RemoveBackend(backend), old(Value())).Some?
      ensures Value() == Ran(Handler.RemoveBackend(backend), old(Value()))
    {
      backends := Filter(backends, OtherBackend(backend));
      ok := true;
    }
  }

  /** A list comprehension with a condition. */
  method Filter<T>(xs: seq<T>, p: T -> bool) returns (kept: seq<T>)
    ensures kept == Keep(xs, p)
  {
    assert Keep([], p) == [];
    hide Keep;
    kept := [];
    var i := 0;
    assert xs[0..] == xs && [] + Keep(xs, p) == Keep(xs, p);
    while i < |xs|
      invariant 0 <= i <= |xs|
      invariant kept + Keep(xs[i..], p) == Keep(xs, p)
    {
      KeepStep(xs, i, p);
      if p(xs[i]) {
        ConcatAssociative(kept, [xs[i]], Keep(xs[i + 1..], p));
        kept := kept + [xs[i]];
      }
      i := i + 1;
    }
    assert xs[|xs|..] == [] && kept + [] == kept;
  }

  // ----- a request in the model of concurrent handlers -----

  /** What a thread does from taking the lock to giving it back. */
  function ServeSteps(t: nat): seq<Event> {
    [Lock(t), Read(t), Write(t), Unlock(t)]
  }

  /** In any state where the lock is free and the thread has not begun, those steps can be taken, and
      they change the stored balancer as the handler by itself does; no other thread is touched. */
  lemma ServeRun(s: State, t: nat, handlers: map<nat, Handler>)
    requires t in handlers && t in s.phases && s.phases[t].Before? && s.owner.None?
    ensures Legal(s, ServeSteps(t), handlers)
    ensures After(s, ServeSteps(t), handlers)
         == State(Ran(handlers[t], s.stored), None, s.phases[t := Finished], s.order + [t])
  {
    hide Handle;
    var s1 := Apply(s, Lock(t), handlers);
    assert s1 == State(s.stored, Some(t), s.phases[t := Inside], s.order);
    var s2 := Apply(s1, Read(t), handlers);
    assert s2 == State(s.stored, Some(t), s.phases[t := Copied(s.stored)], s.order);
    var s3 := Apply(s2, Write(t), handlers);
    assert s3 == State(Ran(handlers[t], s.stored), Some(t), s.phases[t := Written], s.order + [t]);
    var s4 := Apply(s3, Unlock(t), handlers);
    assert s4 == State(Ran(handlers[t], s.stored), None, s.phases[t := Finished], s.order + [t]);
    hide Apply, Enabled, Ran;
    FourSteps(s, Lock(t), Read(t), Write(t), Unlock(t), handlers);
  }

  lemma FourSteps(s: State, a: Event, b: Event, c: Event, d: Event, handlers: map<nat, Handler>)
    requires a.t in handlers && b.t in handlers && c.t in handlers && d.t in handlers
    requires Enabled(s, a)
    requires var s1 := Apply(s, a, handlers);
             Enabled(s1, b) && var s2 := Apply(s1, b, handlers);
                               Enabled(s2, c) && Enabled(Apply(s2, c, handlers), d)
    ensures Legal(s, [a, b, c, d], handlers)
    ensures After(s, [a, b, c, d], handlers)
         == Apply(Apply(Apply(Apply(s, a, handlers), b, handlers), c, handlers), d, handlers)
  {
    hide Apply, Enabled;
    assert [a, b, c, d][1..] == [b, c, d] && [b, c, d][1..] == [c, d] && [c, d][1..] == [d] && [d][1..] == [];
    var s1 := Apply(s, a, handlers);
    var s2 := Apply(s1, b, handlers);
    var s3 := Apply(s2, c, handlers);
    assert Legal(Apply(s3, d, handlers), [], handlers);
    assert Legal(s3, [d], handlers) && After(s3, [d], handlers) == Apply(s3, d, handlers);
    assert Legal(s2, [c, d], handlers) && After(s2, [c, d], handlers) == Apply(s3, d, handlers);
    assert Legal(s1, [b, c, d], handlers) && After(s1, [b, c, d], handlers) == Apply(s3, d, handlers);
  }

  // ----- the stored rows -----

  /** The handler that a request is for. */
  method Dispatch(lb: LoadBalancer, h: Handler) returns (ok: bool)
    modifies lb
    ensures ok == Handle(h, old(lb.Value())).Some?
    ensures lb.Value() == Ran(h, old(lb.Value()))
  {
    hide Handle, Ran;
    match h {
      case AddBackend(backend) => ok := lb.AddBackend(backend);
      case RemoveBackend(name) => ok := lb.RemoveBackend(name);
      case AddListener(l, portGiven) => ok := lb.AddListener(l, portGiven);
      case UpdateListener(_, _, _, _) => ok := lb.UpdateListener(h);
      case RemoveListener(lid) => ok := lb.RemoveListener(lid);
      case CreateGroup(gid, body) => ok := lb.CreateGroup(gid, body);
      case UpdateGroup(gid, body) => ok := lb.UpdateGroup(gid, body);
      case DeleteGroup(gid) => ok := lb.DeleteGroup(gid);
    }
  }

  /** What every stored balancer has: distinct listener ports and health checks that HAProxy accepts. */
  ghost predicate Sound(b: Balancer) {
    PortsDistinct(b.listeners) && ChecksUsable(b.groups)
  }

  /** `load_balancers`, by id. */
  class Table {
    var rows: map<string, Balancer>

    ghost predicate Valid()
      reads this
    {
      forall id | id in rows :: Sound(rows[id])
    }

    constructor (rows: map<string, Balancer>)
      requires forall id | id in rows :: Sound(rows[id])
      ensures Valid() && this.rows == rows
    {
      this.rows := rows;
    }

    /** One request from the moment its handler has the balancer's lock: `get_lb`, the handler's own
        work on the object, `put_lb`. It is one thread's pass through the model of concurrent handlers,
        changes no other row, and keeps every row sound. */
    method Serve(id: string, h: Handler) returns (ok: bool)
      requires Valid()
      modifies this
      ensures Valid()
      ensures ok == (id in old(rows) && Handle(h, old(rows)[id]).Some?)
      ensures !ok ==> rows == old(rows)
      ensures ok ==> var threads := map[0 := h];
                     var start := Start(old(rows)[id], threads);
                     && Legal(start, ServeSteps(0), threads)
                     && rows == old(rows)[id := After(start, ServeSteps(0), threads).stored]
    {
      if id !in rows {
        return false;
      }
      ghost var before, threads := rows[id], map[0 := h];
      ServeRun(Start(before, threads), 0, threads);
      HandlerKeepsPorts(h, before);
      HandlerKeepsChecks(h, before);
      hide Handle, Ran, Legal, After, ServeSteps, PortsDistinct, ChecksUsable;
      var lb := new LoadBalancer(rows[id]);
      ok := Dispatch(lb, h);
      if ok {
        rows := rows[id := Balancer(lb.name, lb.backends, lb.listeners, lb.groups)];
      }
    }
  }
}
