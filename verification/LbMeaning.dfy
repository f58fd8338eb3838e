/** When the load-balancer handlers of api/server.py refuse, and what they write when they do not, said of
    the stored lists themselves. */
module LbMeaning {
  import opened Bytes
  import opened Text
  import opened Lb
  import opened LbHandlers

  // ----- deleting a target group -----

  /** A listener, or one of its rules, sends requests to the group. */
  ghost predicate NamesGroup(l: Listener, id: string) {
    l.target == id || exists r | r in l.rules :: r.target == id
  }

  /** A delete is refused exactly when there is no such group, or some listener names it, itself or in one
      of its rules. */
  lemma DeleteGroupIff(b: Balancer, id: string)
    ensures Handle(DeleteGroup(id), b).None?
       <==> (forall g | g in b.groups :: g.id != id) || exists l | l in b.listeners :: NamesGroup(l, id)
  {
    if g :| g in b.groups && g.id == id {
      var k :| 0 <= k < |b.groups| && b.groups[k] == g;
    }
    forall i | 0 <= i < |b.listeners|
      ensures NamesGroup(b.listeners[i], id)
         <==> b.listeners[i].target == id
              || exists j | 0 <= j < |b.listeners[i].rules| :: b.listeners[i].rules[j].target == id
    {
    }
    if l :| l in b.listeners && NamesGroup(l, id) {
      var i :| 0 <= i < |b.listeners| && b.listeners[i] == l;
    }
    hide NamesGroup;
  }

  /** A successful delete takes away the groups of that id and no other, and leaves nothing that names it. */
  lemma DeletedGroup(b: Balancer, id: string)
    requires Handle(DeleteGroup(id), b).Some?
    ensures var r := Handle(DeleteGroup(id), b).value;
            && r == b.(groups := r.groups)
            && (forall g :: g in r.groups <==> g in b.groups && g.id != id)
            && forall l | l in r.listeners :: !NamesGroup(l, id)
  {
    KeepMembers(b.groups, OtherGroup(id));
    hide Keep;
  }

  /** No handler takes away a group that a listener still names: a target that could be found before it
      and is still named after it can still be found. */
  lemma TargetsStayFound(h: Handler, b: Balancer, id: string)
    requires HasGroup(b, id)
    requires exists l | l in Ran(h, b).listeners :: NamesGroup(l, id)
    ensures HasGroup(Ran(h, b), id)
  {
    hide NamesGroup, HasGroup;
    if h == DeleteGroup(id) {
      if Handle(h, b).Some? {
        DeletedGroup(b, id);
        assert false;
      }
      hide Handle;
    } else {
      HandlerKeepsGroup(h, b, id);
    }
  }

  // ----- listeners -----

  /** A listener is added exactly when its port is given, in range and free and its protocol known. */
  lemma AddListenerIff(b: Balancer, l: Listener, portGiven: bool)
    ensures Handle(AddListener(l, portGiven), b).Some?
       <==> && portGiven && 1 <= l.port <= 65535
            && (Lower(l.protocol) == "http" || Lower(l.protocol) == "https" || Lower(l.protocol) == "tcp")
            && forall m | m in b.listeners :: m.port != l.port
    ensures Handle(AddListener(l, portGiven), b).Some? ==>
              Handle(AddListener(l, portGiven), b).value == b.(listeners := b.listeners + [l])
  {
    hide Lower;
    if m :| m in b.listeners && m.port == l.port {
      var i :| 0 <= i < |b.listeners| && b.listeners[i] == m;
    }
  }

  /** What an update makes of a listener. */
  function UpdatedListener(l: Listener, target: Option<string>, rules: seq<Rule>, action: Option<string>): Listener {
    Listener(l.id, l.port, l.protocol, if target == None then l.target else target.value,
             if |rules| == 0 then l.rules else rules, if action == None then l.action else action.value)
  }

  /** Where an update finds its listener: the first one with the id. */
  ghost predicate FirstListener(ls: seq<Listener>, id: string, i: nat) {
    i < |ls| && ls[i].id == id && forall j | 0 <= j < i :: ls[j].id != id
  }

  lemma RetargetedMeaning(l: Listener, h: Handler)
    requires h.UpdateListener?
    ensures Retargeted(l, h) == UpdatedListener(l, h.target, h.rules, h.action)
  {
  }

  /** An update changes the first listener of that id and nothing else: a target or default action that is
      given, and rules when any are given; the id, port and protocol stay. */
  lemma UpdateListenerMeaning(b: Balancer, h: Handler, i: nat)
    requires h.UpdateListener? && FirstListener(b.listeners, h.id, i)
    ensures Handle(h, b)
         == Some(b.(listeners := b.listeners[i := UpdatedListener(b.listeners[i], h.target, h.rules, h.action)]))
  {
    hide Retarget, Retargeted, UpdatedListener;
    RetargetAt(b.listeners, i, h);
    RetargetedMeaning(b.listeners[i], h);
  }

  /** Without such a listener it is refused. */
  lemma UpdateListenerRefusedIff(b: Balancer, h: Handler)
    requires h.UpdateListener?
    ensures Handle(h, b).None? <==> forall l | l in b.listeners :: l.id != h.id
  {
    hide Retarget;
    if l :| l in b.listeners && l.id == h.id {
      var i :| 0 <= i < |b.listeners| && b.listeners[i] == l;
    }
  }

  /** Removal takes away every listener of that id and no other, and is refused when there is none. */
  lemma RemoveListenerMeaning(b: Balancer, id: string)
    ensures Handle(RemoveListener(id), b).None? <==> forall l | l in b.listeners :: l.id != id
    ensures var r := Ran(RemoveListener(id), b);
            && r == b.(listeners := r.listeners)
            && forall l :: l in r.listeners <==> l in b.listeners && l.id != id
  {
    KeepMembers(b.listeners, OtherListener(id));
    hide Keep;
    if l :| l in b.listeners && l.id == id {
      var i :| 0 <= i < |b.listeners| && b.listeners[i] == l;
    }
  }

  /** The same of backends by name, which is never refused; an addition is refused only without a backend. */
  lemma BackendMeaning(b: Balancer, name: string, backend: Option<Backend>)
    ensures var r := Handle(RemoveBackend(name), b);
            && r.Some? && r.value == b.(backends := r.value.backends)
            && forall x :: x in r.value.backends <==> x in b.backends && x.name != name
    ensures Ran(AddBackend(backend), b)
         == if backend == None then b else b.(backends := b.backends + [backend.value])
    ensures Handle(AddBackend(backend), b).None? <==> backend == None
  {
    KeepMembers(b.backends, OtherBackend(name));
    hide Keep;
  }

  // ----- target groups -----

  /** The first of three texts that is not empty, or of three numbers that is not zero. */
  function FirstText(a: string, b: string, c: string): string {
    if |a| > 0 then a else if |b| > 0 then b else c
  }

  function FirstNumber(a: int, b: int, c: int): int {
    if a != 0 then a else if b != 0 then b else c
  }

  /** A group is made exactly when its name is not blank, its port not zero and the stripped name free, and
      it is put at the end with the defaults for whatever is not said. */
  lemma CreateGroupMeaning(b: Balancer, id: string, body: GroupBody)
    ensures var name := Strip(if body.name == None then "" else body.name.value);
            var r := Handle(CreateGroup(id, body), b);
            && (r.Some? <==> && |name| > 0 && body.port != None && body.port.value != 0
                             && forall g | g in b.groups :: g.name != name)
            && (r.Some? ==>
                  var c := if body.check == None then HealthCheck("", 0, 0, 0) else body.check.value;
                  r.value == b.(groups := b.groups + [Group(
                    id, name, body.port.value, Lower(if body.protocol == None then "http" else body.protocol.value),
                    if body.targets == None then [] else body.targets.value,
                    HealthCheck(FirstText(c.path, "/", ""), FirstNumber(c.interval, 30, 0),
                                FirstNumber(c.healthy, 2, 0), FirstNumber(c.unhealthy, 2, 0)))]))
  {
    hide Lower, Strip;
    var name := Strip(if body.name == None then "" else body.name.value);
    if g :| g in b.groups && g.name == name {
      var i :| 0 <= i < |b.groups| && b.groups[i] == g;
    }
  }

  /** What an update makes of a group. */
  function UpdatedGroup(g: Group, body: GroupBody): Group {
    var check :=
      if body.check == None then g.check
      else
        var c := body.check.value;
        HealthCheck(FirstText(c.path, g.check.path, "/"), FirstNumber(c.interval, g.check.interval, 30),
                    FirstNumber(c.healthy, g.check.healthy, 2), FirstNumber(c.unhealthy, g.check.unhealthy, 2));
    Group(g.id, if body.name == None then g.name else body.name.value,
          if body.port == None then g.port else body.port.value,
          if body.protocol == None then g.protocol else body.protocol.value,
          if body.targets == None then g.targets else body.targets.value, check)
  }

  lemma RegroupedMeaning(g: Group, body: GroupBody)
    ensures Regrouped(g, body) == UpdatedGroup(g, body)
  {
  }

  /** An update changes the first group of that id and nothing else: each field that is given, and in a
      health check the first usable one of the given, the stored and the default value. */
  lemma UpdateGroupMeaning(b: Balancer, id: string, body: GroupBody, i: nat)
    requires FirstGroup(b.groups, id, i)
    ensures Handle(UpdateGroup(id, body), b)
         == Some(b.(groups := b.groups[i := UpdatedGroup(b.groups[i], body)]))
  {
    hide Regroup, Regrouped, UpdatedGroup;
    RegroupAt(b.groups, id, body, i);
    RegroupedMeaning(b.groups[i], body);
  }

  /** Without such a group it is refused. */
  lemma UpdateGroupRefusedIff(b: Balancer, id: string, body: GroupBody)
    ensures Handle(UpdateGroup(id, body), b).None? <==> forall g | g in b.groups :: g.id != id
  {
    hide Regroup;
    if g :| g in b.groups && g.id == id {
      var i :| 0 <= i < |b.groups| && b.groups[i] == g;
    }
  }
}
