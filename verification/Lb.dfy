/** What a load balancer stores: the parts of `LoadBalancer` that api/server.py changes and api/lb.py
    compiles. */
module Lb {

  /** A routing rule; an absent condition or target is the empty string. */
  datatype Rule = Rule(priority: int, path: string, host: string, target: string)

  datatype Listener =
    Listener(id: string, port: int, protocol: string, target: string, rules: seq<Rule>, action: string)

  datatype Target = Target(instanceId: string, port: int)

  datatype HealthCheck = HealthCheck(path: string, interval: int, healthy: int, unhealthy: int)

  /** A target group. */
  datatype Group =
    Group(id: string, name: string, port: int, protocol: string, targets: seq<Target>, check: HealthCheck)

  datatype Backend = Backend(name: string, address: string, port: int)

  datatype Balancer = Balancer(name: string, backends: seq<Backend>, listeners: seq<Listener>, groups: seq<Group>)

  /** The ids of the target groups, in order. */
  function Ids(b: Balancer): (r: seq<string>)
    ensures |r| == |b.groups|
  {
    seq(|b.groups|, i requires 0 <= i < |b.groups| => b.groups[i].id)
  }
}
