/** The request handlers of api/server.py that change one load balancer, and their serialisation by the
    per-balancer lock of api/store.py. */
module LbHandlers {
  import opened Bytes
  import opened Text
  import opened Lb

  /** What a request may say about a target group; None is a key that is absent. In a health check an
      empty path and a zero stand for fields that are absent or falsy. */
  datatype GroupBody = GroupBody(name: Option<string>, port: Option<int>, protocol: Option<string>,
                                 targets: Option<seq<Target>>, check: Option<HealthCheck>)

  /** A request, with the id its handler would mint. */
  datatype Handler =
    | AddBackend(backend: Option<Backend>)
    | RemoveBackend(name: string)
    | AddListener(listener: Listener, portGiven: bool)
    | UpdateListener(id: string, target: Option<string>, rules: seq<Rule>, action: Option<string>)
    | RemoveListener(id: string)
    | CreateGroup(id: string, body: GroupBody)
    | UpdateGroup(id: string, body: GroupBody)
    | DeleteGroup(id: string)

  function Or<T>(given: Option<T>, otherwise: T): T {
    if given.Some? then given.value else otherwise
  }

  // ----- health checks -----

  const EMPTY_CHECK := HealthCheck("", 0, 0, 0)
  const DEFAULT_CHECK := HealthCheck("/", 30, 2, 2)

  /** Python's `or`, field by field. */
  function OrCheck(c: HealthCheck, d: HealthCheck): HealthCheck {
    HealthCheck(if c.path != "" then c.path else d.path,
                if c.interval != 0 then c.interval else d.interval,
                if c.healthy != 0 then c.healthy else d.healthy,
                if c.unhealthy != 0 then c.unhealthy else d.unhealthy)
  }

  // ----- lists -----

  function OtherListener(id: string): Listener -> bool {
    (l: Listener) => l.id != id
  }

  function OtherGroup(id: string): Group -> bool {
    (g: Group) => g.id != id
  }

  function OtherBackend(name: string): Backend -> bool {
    (b: Backend) => b.name != name
  }

  /** A listener after an update; its id, port and protocol stay. */
  function Retargeted(l: Listener, h: Handler): Listener
    requires h.UpdateListener?
  {
    l.(target := Or(h.target, l.target),
       rules := if h.rules != [] then h.rules else l.rules,
       action := Or(h.action, l.action))
  }

  /** A target group after an update. */
  function Regrouped(g: Group, body: GroupBody): Group {
    Group(g.id, Or(body.name, g.name), Or(body.port, g.port), Or(body.protocol, g.protocol),
          Or(body.targets, g.targets),
          if body.check.Some? then OrCheck(OrCheck(body.check.value, g.check), DEFAULT_CHECK) else g.check)
  }

  /** The first listener with the id is updated. */
  function Retarget(ls: seq<Listener>, h: Handler): seq<Listener>
    requires h.UpdateListener?
  {
    if ls == [] then []
    else if ls[0].id == h.id then [Retargeted(ls[0], h)] + ls[1..]
    else [ls[0]] + Retarget(ls[1..], h)
  }

  function Regroup(gs: seq<Group>, id: string, body: GroupBody): seq<Group> {
    if gs == [] then []
    else if gs[0].id == id then [Regrouped(gs[0], body)] + gs[1..]
    else [gs[0]] + Regroup(gs[1..], id, body)
  }

  predicate InUse(ls: seq<Listener>, id: string) {
    exists i | 0 <= i < |ls| :: ls[i].target == id || exists j | 0 <= j < |ls[i].rules| :: ls[i].rules[j].target == id
  }

  predicate KnownProtocol(p: string) {
    Lower(p) in ["http", "https", "tcp"]
  }

  function NewGroup(id: string, body: GroupBody): Group {
    Group(id, Strip(Or(body.name, "")), Or(body.port, 0), Lower(Or(body.protocol, "http")), Or(body.targets, []),
          OrCheck(Or(body.check, EMPTY_CHECK), DEFAULT_CHECK))
  }

  // ----- the handlers -----

  /** What a handler writes back; None when it answers with a problem and writes nothing. */
  function Handle(h: Handler, b: Balancer): Option<Balancer> {
    match h
    case AddBackend(backend) =>
      if backend.None? then None else Some(b.(backends := b.backends + [backend.value]))
    case RemoveBackend(name) => Some(b.(backends := Keep(b.backends, OtherBackend(name))))
    case AddListener(l, portGiven) =>
      if !portGiven || l.port < 1 || l.port > 65535 || !KnownProtocol(l.protocol) then None
      else if exists i | 0 <= i < |b.listeners| :: b.listeners[i].port == l.port then None
      else Some(b.(listeners := b.listeners + [l]))
    case UpdateListener(id, _, _, _) =>
      if forall i | 0 <= i < |b.listeners| :: b.listeners[i].id != id then None
      else Some(b.(listeners := Retarget(b.listeners, h)))
    case RemoveListener(id) =>
      if forall i | 0 <= i < |b.listeners| :: b.listeners[i].id != id then None
      else Some(b.(listeners := Keep(b.listeners, OtherListener(id))))
    case CreateGroup(id, body) =>
      var g := NewGroup(id, body);
      if g.name == "" || g.port == 0 || exists i | 0 <= i < |b.groups| :: b.groups[i].name == g.name then None
      else Some(b.(groups := b.groups + [g]))
    case UpdateGroup(id, body) =>
      if forall i | 0 <= i < |b.groups| :: b.groups[i].id != id then None
      else Some(b.(groups := Regroup(b.groups, id, body)))
    case DeleteGroup(id) =>
      if forall i | 0 <= i < |b.groups| :: b.groups[i].id != id then None
      else if InUse(b.listeners, id) then None
      else Some(b.(groups := Keep(b.groups, OtherGroup(id))))
  }

  /** The stored balancer after a handler has run by itself. */
  function Ran(h: Handler, b: Balancer): Balancer {
    var r := Handle(h, b);
    if r.Some? then r.value else b
  }

  function RunAll(hs: seq<Handler>, b: Balancer): Balancer {
    if hs == [] then b else Ran(hs[|hs| - 1], RunAll(hs[..|hs| - 1], b))
  }

  // ----- concurrent handlers -----

  /** Where a thread stands: before the lock, inside it, with its own copy, or past its write. */
  datatype Phase = Before | Inside | Copied(copy: Balancer) | Written | Finished

  /** `order` is history: the handlers in the order in which they took the lock and finished reading
      and writing. */
  datatype State = State(stored: Balancer, owner: Option<nat>, phases: map<nat, Phase>, order: seq<nat>)

  datatype Event = Lock(t: nat) | Read(t: nat) | Write(t: nat) | Unlock(t: nat)

  predicate Enabled(s: State, e: Event) {
    && e.t in s.phases
    && match e
       case Lock(t) => s.phases[t].Before? && s.owner.None?
       case Read(t) => s.phases[t].Inside?
       case Write(t) => s.phases[t].Copied?
       case Unlock(t) => s.phases[t].Written?
  }

  /** `handlers` says which request each thread serves. */
  function Apply(s: State, e: Event, handlers: map<nat, Handler>): State
    requires Enabled(s, e) && e.t in handlers
  {
    var t := e.t;
    match e
    case Lock(_) => s.(owner := Some(t), phases := s.phases[t := Inside])
    case Read(_) => s.(phases := s.phases[t := Copied(s.stored)])
    case Write(_) =>
      var r := Handle(handlers[t], s.phases[t].copy);
      s.(stored := if r.Some? then r.value else s.stored, phases := s.phases[t := Written], order := s.order + [t])
    case Unlock(_) => s.(owner := None, phases := s.phases[t := Finished])
  }

  predicate Legal(s: State, es: seq<Event>, handlers: map<nat, Handler>)
    decreases |es|
  {
    es == [] || (Enabled(s, es[0]) && es[0].t in handlers && Legal(Apply(s, es[0], handlers), es[1..], handlers))
  }

  function After(s: State, es: seq<Event>, handlers: map<nat, Handler>): State
    requires Legal(s, es, handlers)
    decreases |es|
  {
    if es == [] then s else After(Apply(s, es[0], handlers), es[1..], handlers)
  }

  function Start(b: Balancer, handlers: map<nat, Handler>): State {
    State(b, None, map t | t in handlers :: Before, [])
  }

  ghost function Served(order: seq<nat>, handlers: map<nat, Handler>): seq<Handler>
    requires forall t | t in order :: t in handlers
  {
    seq(|order|, i requires 0 <= i < |order| => handlers[order[i]])
  }

  /** Inside the lock a copy is the stored balancer. */
  ghost predicate PhasesOk(s: State) {
    && (forall t | t in s.phases :: !s.phases[t].Before? && !s.phases[t].Finished? ==> s.owner == Some(t))
    && (forall t | t in s.phases :: s.phases[t].Copied? ==> s.phases[t].copy == s.stored)
  }

  /** The order lists the threads that have written, each once. */
  ghost predicate OrderOk(s: State) {
    && NoRepeats(s.order)
    && (forall t | t in s.order :: t in s.phases)
    && (forall t | t in s.phases :: t in s.order <==> s.phases[t].Written? || s.phases[t].Finished?)
  }

  /** And what is stored is the result of running the finished handlers one at a time. */
  ghost predicate Inv(s: State, first: Balancer, handlers: map<nat, Handler>) {
    && s.phases.Keys == handlers.Keys
    && PhasesOk(s)
    && OrderOk(s)
    && s.stored == RunAll(Served(s.order, handlers), first)
  }

  lemma ServedMore(order: seq<nat>, t: nat, first: Balancer, handlers: map<nat, Handler>)
    requires t in handlers && forall u | u in order :: u in handlers
    ensures forall u | u in order + [t] :: u in handlers
    ensures RunAll(Served(order + [t], handlers), first) == Ran(handlers[t], RunAll(Served(order, handlers), first))
  {
    hide Ran;
    var before, after := Served(order, handlers), Served(order + [t], handlers);
    assert after[..|after| - 1] == before;
    assert after[|after| - 1] == handlers[t];
  }

  lemma StepKeepsPhases(s: State, e: Event, handlers: map<nat, Handler>)
    requires PhasesOk(s) && Enabled(s, e) && e.t in handlers
    ensures PhasesOk(Apply(s, e, handlers))
  {
    hide Handle;
  }

  lemma StepKeepsOrder(s: State, e: Event, handlers: map<nat, Handler>)
    requires OrderOk(s) && Enabled(s, e) && e.t in handlers
    ensures OrderOk(Apply(s, e, handlers))
  {
    hide Handle;
    if e.Write? {
      assert e.t !in s.order;
      assert forall u :: u in s.order + [e.t] <==> u in s.order || u == e.t;
    }
  }

  lemma StepKeepsInv(s: State, e: Event, first: Balancer, handlers: map<nat, Handler>)
    requires Inv(s, first, handlers) && Enabled(s, e) && e.t in handlers
    ensures Inv(Apply(s, e, handlers), first, handlers)
  {
    StepKeepsPhases(s, e, handlers);
    StepKeepsOrder(s, e, handlers);
    hide Handle, RunAll, Served;
    if e.Write? {
      assert s.phases[e.t].copy == s.stored;
      ServedMore(s.order, e.t, first, handlers);
    }
    hide PhasesOk, OrderOk;
  }

  lemma {:induction false} RunKeepsInv(s: State, es: seq<Event>, first: Balancer, handlers: map<nat, Handler>)
    requires Inv(s, first, handlers) && Legal(s, es, handlers)
    ensures Inv(After(s, es, handlers), first, handlers)
    decreases |es|
  {
    if es != [] {
      hide Inv, Apply, Enabled;
      StepKeepsInv(s, es[0], first, handlers);
      RunKeepsInv(Apply(s, es[0], handlers), es[1..], first, handlers);
    }
  }

  // ----- the order of the lock -----

  /** The threads in the order in which they take the lock. */
  function Lockers(es: seq<Event>): seq<nat> {
    if es == [] then [] else (if es[0].Lock? then [es[0].t] else []) + Lockers(es[1..])
  }

  /** The owner of the lock, as long as it has not written. */
  function Unwritten(s: State): seq<nat> {
    if s.owner.Some? && s.owner.value in s.phases
       && (s.phases[s.owner.value].Inside? || s.phases[s.owner.value].Copied?) then [s.owner.value] else []
  }

  lemma StepOrder(s: State, e: Event, first: Balancer, handlers: map<nat, Handler>)
    requires Inv(s, first, handlers) && Enabled(s, e) && e.t in handlers
    ensures var s' := Apply(s, e, handlers);
            s'.order + Unwritten(s') == s.order + Unwritten(s) + if e.Lock? then [e.t] else []
  {
    hide Handle, RunAll;
    var t := e.t;
    assert !e.Lock? ==> s.owner == Some(t);
    match e
    case Lock(_) => assert Unwritten(s) == [];
    case Read(_) =>
    case Write(_) => assert s.order + [t] + [] == s.order + [t];
    case Unlock(_) =>
  }

  lemma {:induction false} OrderFollowsLock(s: State, es: seq<Event>, first: Balancer, handlers: map<nat, Handler>)
    requires Inv(s, first, handlers) && Legal(s, es, handlers)
    ensures var s' := After(s, es, handlers);
            s'.order + Unwritten(s') == s.order + Unwritten(s) + Lockers(es)
    decreases |es|
  {
    if es != [] {
      hide Inv, Apply, Enabled, Unwritten;
      StepKeepsInv(s, es[0], first, handlers);
      StepOrder(s, es[0], first, handlers);
      OrderFollowsLock(Apply(s, es[0], handlers), es[1..], first, handlers);
      ConcatAssociative(s.order + Unwritten(s), if es[0].Lock? then [es[0].t] else [], Lockers(es[1..]));
    }
  }

  /** Every interleaving leaves the stored balancer as if the handlers that have written had run one
      at a time, each once, in the order in which they took the lock: the threads of the `Lock` events,
      less the last one while it holds the lock and has not written. */
  lemma Serialised(b: Balancer, handlers: map<nat, Handler>, es: seq<Event>)
    requires Legal(Start(b, handlers), es, handlers)
    ensures var s := After(Start(b, handlers), es, handlers);
            && (forall t | t in s.order :: t in handlers)
            && NoRepeats(s.order)
            && s.stored == RunAll(Served(s.order, handlers), b)
            && (forall t | t in s.phases && s.phases[t].Finished? :: t in s.order)
            && Lockers(es) == s.order + Unwritten(s)
  {
    var s := Start(b, handlers);
    StartOk(b, handlers);
    hide Legal, After, Start, Served, RunAll, Unwritten;
    RunKeepsInv(s, es, b, handlers);
    OrderFollowsLock(s, es, b, handlers);
    assert [] + [] + Lockers(es) == Lockers(es);
  }

  lemma StartOk(b: Balancer, handlers: map<nat, Handler>)
    ensures Inv(Start(b, handlers), b, handlers)
    ensures Start(b, handlers).order == [] && Unwritten(Start(b, handlers)) == []
  {
    assert Served([], handlers) == [];
  }

  // ----- what serial runs keep -----

  ghost predicate PortsDistinct(ls: seq<Listener>) {
    forall i, j | 0 <= i < j < |ls| :: ls[i].port != ls[j].port
  }

  lemma {:induction false} RetargetMeaning(ls: seq<Listener>, h: Handler)
    requires h.UpdateListener?
    ensures var r := Retarget(ls, h);
            && |r| == |ls|
            && forall i | 0 <= i < |ls| :: r[i].id == ls[i].id && r[i].port == ls[i].port
  {
    if ls != [] {
      RetargetMeaning(ls[1..], h);
    }
  }

  lemma {:induction false} RetargetAt(ls: seq<Listener>, i: nat, h: Handler)
    requires h.UpdateListener?
    requires i < |ls| && ls[i].id == h.id && forall j | 0 <= j < i :: ls[j].id != h.id
    ensures Retarget(ls, h) == ls[i := Retargeted(ls[i], h)]
    decreases |ls|
  {
    hide Retargeted;
    if i > 0 {
      RetargetAt(ls[1..], i - 1, h);
      assert ls == [ls[0]] + ls[1..];
    }
  }

  lemma HandlerKeepsPorts(h: Handler, b: Balancer)
    requires PortsDistinct(b.listeners)
    ensures PortsDistinct(Ran(h, b).listeners)
  {
    match h
    case UpdateListener(_, _, _, _) =>
      RetargetMeaning(b.listeners, h);
      hide Retarget;
    case RemoveListener(id) =>
      var apart := (l: Listener, m: Listener) => l.port != m.port;
      assert Pairwise(b.listeners, apart);
      KeepPairwise(b.listeners, OtherListener(id), apart);
      hide Keep;
    case _ =>
  }

  lemma {:induction false} RunAllKeepsPorts(hs: seq<Handler>, b: Balancer)
    requires PortsDistinct(b.listeners)
    ensures PortsDistinct(RunAll(hs, b).listeners)
    decreases |hs|
  {
    if hs != [] {
      hide Handle, PortsDistinct, Ran;
      RunAllKeepsPorts(hs[..|hs| - 1], b);
      HandlerKeepsPorts(hs[|hs| - 1], RunAll(hs[..|hs| - 1], b));
    }
  }

  /** Listener ports stay pairwise distinct in every state of every interleaving. */
  lemma PortsStayDistinct(b: Balancer, handlers: map<nat, Handler>, es: seq<Event>)
    requires Legal(Start(b, handlers), es, handlers)
    requires PortsDistinct(b.listeners)
    ensures PortsDistinct(After(Start(b, handlers), es, handlers).stored.listeners)
  {
    hide Legal, After, PortsDistinct, RunAll;
    Serialised(b, handlers, es);
    RunAllKeepsPorts(Served(After(Start(b, handlers), es, handlers).order, handlers), b);
  }

  // ----- target groups -----

  /** Where an update finds its group: the first one with the id. */
  ghost predicate FirstGroup(gs: seq<Group>, id: string, i: nat) {
    i < |gs| && gs[i].id == id && forall j | 0 <= j < i :: gs[j].id != id
  }

  lemma {:induction false} RegroupAt(gs: seq<Group>, id: string, body: GroupBody, i: nat)
    requires FirstGroup(gs, id, i)
    ensures Regroup(gs, id, body) == gs[i := Regrouped(gs[i], body)]
    decreases |gs|
  {
    hide Regrouped;
    if i > 0 {
      assert FirstGroup(gs[1..], id, i - 1);
      RegroupAt(gs[1..], id, body, i - 1);
      assert gs == [gs[0]] + gs[1..];
    }
  }

  lemma {:induction false} FindGroup(gs: seq<Group>, id: string) returns (i: nat)
    requires exists j | 0 <= j < |gs| :: gs[j].id == id
    ensures FirstGroup(gs, id, i)
    decreases |gs|
  {
    if gs[0].id == id {
      i := 0;
    } else {
      var j :| 0 <= j < |gs| && gs[j].id == id;
      assert gs[1..][j - 1].id == id;
      var k := FindGroup(gs[1..], id);
      i := k + 1;
      assert forall m | 0 < m < i :: gs[m] == gs[1..][m - 1];
    }
  }

  ghost predicate GroupNamesUnique(gs: seq<Group>) {
    forall i, j | 0 <= i < j < |gs| :: gs[i].name != gs[j].name
  }

  /** Whether a handler renames a group to the name that another one has. */
  ghost predicate TakesName(h: Handler, b: Balancer) {
    h.UpdateGroup? && h.body.name.Some?
    && exists i, j | 0 <= i < |b.groups| && 0 <= j < |b.groups| ::
         FirstGroup(b.groups, h.id, i) && i != j && b.groups[j].name == h.body.name.value
  }

  lemma RenamedUniqueIff(gs: seq<Group>, i: nat, g: Group)
    requires GroupNamesUnique(gs) && i < |gs|
    ensures GroupNamesUnique(gs[i := g]) <==> forall j | 0 <= j < |gs| :: j != i ==> gs[j].name != g.name
  {
    var r := gs[i := g];
    if GroupNamesUnique(r) {
      forall j | 0 <= j < |gs| && j != i
        ensures gs[j].name != g.name
      {
        assert r[j] == gs[j] && r[i] == g;
      }
    }
  }

  lemma UpdateKeepsNamesIff(h: Handler, b: Balancer)
    requires GroupNamesUnique(b.groups) && h.UpdateGroup? && Handle(h, b).Some?
    ensures GroupNamesUnique(Ran(h, b).groups) <==> !TakesName(h, b)
  {
    var i := FindGroup(b.groups, h.id);
    RegroupAt(b.groups, h.id, h.body, i);
    var g := Regrouped(b.groups[i], h.body);
    assert Ran(h, b).groups == b.groups[i := g];
    hide Handle, Regroup;
    RenamedUniqueIff(b.groups, i, g);
    assert forall k: nat | FirstGroup(b.groups, h.id, k) :: k == i;
  }

  /** Names of target groups stay unique through every handler but a rename to a taken name, which the
      code does not check and which does break it. */
  lemma HandlerKeepsNamesIff(h: Handler, b: Balancer)
    requires GroupNamesUnique(b.groups)
    ensures GroupNamesUnique(Ran(h, b).groups) <==> !TakesName(h, b)
  {
    match h
    case UpdateGroup(_, _) =>
      if Handle(h, b).Some? {
        hide Handle, TakesName, GroupNamesUnique, Ran;
        UpdateKeepsNamesIff(h, b);
      }
    case DeleteGroup(id) =>
      var apart := (g: Group, h: Group) => g.name != h.name;
      assert Pairwise(b.groups, apart);
      KeepPairwise(b.groups, OtherGroup(id), apart);
      hide Keep;
    case _ =>
  }

  /** Such a rename: the second of two groups takes the name of the first. */
  lemma RenameClash(check: HealthCheck)
    ensures var one, two := Group("1", "web", 80, "http", [], check), Group("2", "api", 80, "http", [], check);
            var h := UpdateGroup("2", GroupBody(Some("web"), None, None, None, None));
            var b := Balancer("lb", [], [], [one, two]);
            GroupNamesUnique(b.groups) && !GroupNamesUnique(Ran(h, b).groups)
  {
    var one, two := Group("1", "web", 80, "http", [], check), Group("2", "api", 80, "http", [], check);
    var h := UpdateGroup("2", GroupBody(Some("web"), None, None, None, None));
    var b := Balancer("lb", [], [], [one, two]);
    assert b.groups[0] == one && b.groups[1] == two;
    assert one.id[0] != two.id[0] && one.name[0] != two.name[0];
    assert FirstGroup(b.groups, "2", 1);
    assert TakesName(h, b);
    assert Handle(h, b).Some?;
    hide Handle, TakesName, Ran;
    HandlerKeepsNamesIff(h, b);
  }

  /** Zeros and an empty path, which HAProxy refuses. */
  predicate UsableCheck(c: HealthCheck) {
    c.path != "" && c.interval != 0 && c.healthy != 0 && c.unhealthy != 0
  }

  ghost predicate ChecksUsable(gs: seq<Group>) {
    forall g | g in gs :: UsableCheck(g.check)
  }

  /** No handler stores a health check that HAProxy would refuse. */
  lemma HandlerKeepsChecks(h: Handler, b: Balancer)
    requires ChecksUsable(b.groups)
    ensures ChecksUsable(Ran(h, b).groups)
  {
    match h
    case UpdateGroup(id, body) =>
      if Handle(h, b).Some? {
        var i := FindGroup(b.groups, id);
        RegroupAt(b.groups, id, body, i);
        hide Regroup;
        assert UsableCheck(b.groups[i].check);
      }
    case DeleteGroup(id) => KeepMembers(b.groups, OtherGroup(id));
    case _ =>
  }

  /** An update that mentions the health check repairs a group that has a zero stored. */
  lemma UpdateRepairsCheck(h: Handler, b: Balancer, i: nat)
    requires h.UpdateGroup? && h.body.check.Some? && FirstGroup(b.groups, h.id, i)
    ensures Handle(h, b).Some? && i < |Ran(h, b).groups| && UsableCheck(Ran(h, b).groups[i].check)
  {
    RegroupAt(b.groups, h.id, h.body, i);
    hide Regroup;
  }

  // ----- no addition is lost -----

  ghost predicate HasListener(b: Balancer, id: string, port: int) {
    exists i :: 0 <= i < |b.listeners| && b.listeners[i].id == id && b.listeners[i].port == port
  }

  ghost predicate HasGroup(b: Balancer, id: string) {
    exists i :: 0 <= i < |b.groups| && b.groups[i].id == id
  }

  lemma {:induction false} RegroupMeaning(gs: seq<Group>, id: string, body: GroupBody)
    ensures |Regroup(gs, id, body)| == |gs|
    ensures forall i | 0 <= i < |gs| :: Regroup(gs, id, body)[i].id == gs[i].id
  {
    if gs != [] {
      RegroupMeaning(gs[1..], id, body);
    }
  }

  /** Only its own removal takes a listener away. */
  lemma HandlerKeepsListener(h: Handler, b: Balancer, id: string, port: int)
    requires HasListener(b, id, port) && h != RemoveListener(id)
    ensures HasListener(Ran(h, b), id, port)
  {
    var i :| 0 <= i < |b.listeners| && b.listeners[i].id == id && b.listeners[i].port == port;
    var r := Ran(h, b);
    match h
    case UpdateListener(_, _, _, _) =>
      RetargetMeaning(b.listeners, h);
      assert r.listeners[i].id == id && r.listeners[i].port == port;
    case RemoveListener(other) =>
      KeepMembers(b.listeners, OtherListener(other));
      assert b.listeners[i] in b.listeners;
      assert b.listeners[i] in r.listeners;
    case _ =>
      assert r.listeners[i] == b.listeners[i];
  }

  lemma HandlerKeepsGroup(h: Handler, b: Balancer, id: string)
    requires HasGroup(b, id) && h != DeleteGroup(id)
    ensures HasGroup(Ran(h, b), id)
  {
    var i :| 0 <= i < |b.groups| && b.groups[i].id == id;
    var r := Ran(h, b);
    match h
    case UpdateGroup(other, body) =>
      RegroupMeaning(b.groups, other, body);
      assert r.groups[i].id == id;
    case DeleteGroup(other) =>
      KeepMembers(b.groups, OtherGroup(other));
      assert b.groups[i] in b.groups;
      assert b.groups[i] in r.groups;
    case _ =>
      assert r.groups[i] == b.groups[i];
  }

  lemma {:induction false} ListenerSurvives(hs: seq<Handler>, b: Balancer, k: nat)
    requires k < |hs| && hs[k].AddListener? && Handle(hs[k], RunAll(hs[..k], b)).Some?
    requires forall i | k < i < |hs| :: hs[i] != RemoveListener(hs[k].listener.id)
    ensures HasListener(RunAll(hs, b), hs[k].listener.id, hs[k].listener.port)
    decreases |hs|
  {
    hide Handle, Ran, HasListener;
    var n := |hs| - 1;
    var front, l := hs[..n], hs[k].listener;
    if k == n {
      AddedHere(hs[n], RunAll(front, b));
    } else {
      assert front[..k] == hs[..k] && front[k] == hs[k];
      ListenerSurvives(front, b, k);
      HandlerKeepsListener(hs[n], RunAll(front, b), l.id, l.port);
    }
  }

  lemma {:induction false} GroupSurvives(hs: seq<Handler>, b: Balancer, k: nat)
    requires k < |hs| && hs[k].CreateGroup? && Handle(hs[k], RunAll(hs[..k], b)).Some?
    requires forall i | k < i < |hs| :: hs[i] != DeleteGroup(hs[k].id)
    ensures HasGroup(RunAll(hs, b), hs[k].id)
    decreases |hs|
  {
    hide Handle, Ran, HasGroup;
    var n := |hs| - 1;
    var front := hs[..n];
    if k == n {
      AddedHere(hs[n], RunAll(front, b));
    } else {
      assert front[..k] == hs[..k] && front[k] == hs[k];
      GroupSurvives(front, b, k);
      HandlerKeepsGroup(hs[n], RunAll(front, b), hs[k].id);
    }
  }

  /** A handler at position `k` of the serial order that added a listener or a group leaves it there
      for good, unless a later handler removes exactly that one. */
  lemma AdditionsSurvive(hs: seq<Handler>, b: Balancer, k: nat)
    requires k < |hs|
    requires Handle(hs[k], RunAll(hs[..k], b)).Some?
    ensures hs[k].AddListener? && (forall i | k < i < |hs| :: hs[i] != RemoveListener(hs[k].listener.id)) ==>
              HasListener(RunAll(hs, b), hs[k].listener.id, hs[k].listener.port)
    ensures hs[k].CreateGroup? && (forall i | k < i < |hs| :: hs[i] != DeleteGroup(hs[k].id)) ==>
              HasGroup(RunAll(hs, b), hs[k].id)
  {
    hide Handle, RunAll, HasListener, HasGroup;
    if hs[k].AddListener? && forall i | k < i < |hs| :: hs[i] != RemoveListener(hs[k].listener.id) {
      ListenerSurvives(hs, b, k);
    }
    if hs[k].CreateGroup? && forall i | k < i < |hs| :: hs[i] != DeleteGroup(hs[k].id) {
      GroupSurvives(hs, b, k);
    }
  }

  /** No interleaving loses an addition: a listener or group whose handler wrote is in the stored
      balancer, unless a handler that wrote removes exactly that one. */
  lemma AdditionsNotLost(b: Balancer, handlers: map<nat, Handler>, es: seq<Event>, k: nat)
    requires Legal(Start(b, handlers), es, handlers)
    requires var s := After(Start(b, handlers), es, handlers);
             && k < |s.order|
             && (forall t | t in s.order :: t in handlers)
             && Handle(handlers[s.order[k]], RunAll(Served(s.order, handlers)[..k], b)).Some?
    ensures var s := After(Start(b, handlers), es, handlers);
            var h := handlers[s.order[k]];
            && (h.AddListener? && RemoveListener(h.listener.id) !in handlers.Values ==>
                  HasListener(s.stored, h.listener.id, h.listener.port))
            && (h.CreateGroup? && DeleteGroup(h.id) !in handlers.Values ==> HasGroup(s.stored, h.id))
  {
    Serialised(b, handlers, es);
    var s := After(Start(b, handlers), es, handlers);
    hide *;
    var hs := Served(s.order, handlers);
    ServedAt(s.order, handlers);
    AdditionsSurvive(hs, b, k);
  }

  lemma ServedAt(order: seq<nat>, handlers: map<nat, Handler>)
    requires forall t | t in order :: t in handlers
    ensures |Served(order, handlers)| == |order|
    ensures forall i | 0 <= i < |order| :: Served(order, handlers)[i] == handlers[order[i]]
    ensures forall i | 0 <= i < |order| :: Served(order, handlers)[i] in handlers.Values
  {
  }

  lemma AddedHere(h: Handler, b: Balancer)
    requires Handle(h, b).Some?
    ensures h.AddListener? ==> HasListener(Ran(h, b), h.listener.id, h.listener.port)
    ensures h.CreateGroup? ==> HasGroup(Ran(h, b), h.id)
  {
    var r := Ran(h, b);
    if h.AddListener? {
      assert r.listeners[|b.listeners|] == h.listener;
    } else if h.CreateGroup? {
      assert r.groups[|b.groups|].id == h.id;
    }
  }
}
