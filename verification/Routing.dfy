/** The routing part of `_write_config` in api/lb.py: rules of a listener compiled into HAProxy ACLs
    and `use_backend` lines, and the backend sections that are written out. */
module Routing {
  import opened Bytes
  import opened Text
  import opened Sorting
  import opened Lb

  datatype Request = Request(path: string, host: string)

  // ----- HAProxy's side -----

  datatype Test = PathBegins(prefix: string) | PathIs(path: string) | HostIs(host: string)

  datatype Acl = Acl(name: string, test: Test)

  datatype Use = Use(backend: string, acls: seq<string>)

  datatype Frontend = Frontend(acls: seq<Acl>, uses: seq<Use>, otherwise: string)

  predicate Holds(t: Test, r: Request) {
    match t
    case PathBegins(prefix) => prefix <= r.path
    case PathIs(path) => path == r.path
    case HostIs(host) => Lower(host) == Lower(r.host)
  }

  /** ACL lines of one name are alternatives. */
  predicate Named(acls: seq<Acl>, name: string, r: Request) {
    exists i | 0 <= i < |acls| :: acls[i].name == name && Holds(acls[i].test, r)
  }

  /** A `use_backend` line applies when all the ACLs it lists hold. */
  predicate Applies(acls: seq<Acl>, u: Use, r: Request) {
    forall i | 0 <= i < |u.acls| :: Named(acls, u.acls[i], r)
  }

  function FirstUse(acls: seq<Acl>, uses: seq<Use>, r: Request): Option<string> {
    if uses == [] then None
    else if Applies(acls, uses[0], r) then Some(uses[0].backend)
    else FirstUse(acls, uses[1..], r)
  }

  function Pick(f: Frontend, r: Request): string {
    var u := FirstUse(f.acls, f.uses, r);
    if u.Some? then u.value else f.otherwise
  }

  // ----- the compiler -----

  function BackName(id: string): string {
    "tg-" + (if |id| < 8 then id else id[..8]) + "-back"
  }

  function DefaultName(b: Balancer): string {
    b.name + "-back"
  }

  function AclName(idx: nat, kind: char): string {
    "r" + Decimal(idx) + [kind]
  }

  predicate Known(rule: Rule, groups: seq<string>) {
    rule.target != "" && rule.target in groups
  }

  function PathTest(path: string): Test
    requires path != ""
  {
    if path[|path| - 1] == '*' then PathBegins(path[..|path| - 1]) else PathIs(path)
  }

  function AclsOf(rule: Rule, idx: nat): seq<Acl> {
    (if rule.path != "" then [Acl(AclName(idx, 'p'), PathTest(rule.path))] else [])
    + (if rule.host != "" then [Acl(AclName(idx, 'h'), HostIs(rule.host))] else [])
  }

  function NamesOf(rule: Rule, idx: nat): seq<string> {
    (if rule.path != "" then [AclName(idx, 'p')] else []) + (if rule.host != "" then [AclName(idx, 'h')] else [])
  }

  function CompiledAcls(rules: seq<Rule>, groups: seq<string>): seq<Acl> {
    if rules == [] then []
    else
      var n := |rules| - 1;
      CompiledAcls(rules[..n], groups) + if Known(rules[n], groups) then AclsOf(rules[n], n) else []
  }

  predicate Usable(rule: Rule, groups: seq<string>) {
    Known(rule, groups) && (rule.path != "" || rule.host != "")
  }

  function CompiledUses(rules: seq<Rule>, groups: seq<string>): seq<Use> {
    if rules == [] then []
    else
      var n := |rules| - 1;
      CompiledUses(rules[..n], groups)
      + if Usable(rules[n], groups) then [Use(BackName(rules[n].target), NamesOf(rules[n], n))] else []
  }

  function Otherwise(b: Balancer, l: Listener): string {
    if l.target != "" && l.target in Ids(b) then BackName(l.target) else DefaultName(b)
  }

  function Sorted(l: Listener): seq<Rule> {
    StableSort(l.rules, (r: Rule) => r.priority)
  }

  function Compiled(b: Balancer, l: Listener): Frontend {
    Frontend(CompiledAcls(Sorted(l), Ids(b)), CompiledUses(Sorted(l), Ids(b)), Otherwise(b, l))
  }

  /** The target groups whose sections the listener's frontend refers to. */
  function Referenced(b: Balancer, l: Listener): set<string> {
    (set r | r in l.rules && Usable(r, Ids(b)) :: r.target)
    + (if l.target != "" && l.target in Ids(b) then {l.target} else {})
  }

  lemma ReferencedBySorted(b: Balancer, l: Listener)
    ensures Referenced(b, l) == (set r | r in Sorted(l) && Usable(r, Ids(b)) :: r.target)
                                + (if l.target != "" && l.target in Ids(b) then {l.target} else {})
  {
    var key := (r: Rule) => r.priority;
    SortSame(l.rules, key);
    SameElements(StableSort(l.rules, key), l.rules);
    assert forall r :: r in Sorted(l) <==> r in l.rules;
  }

  /** The ACL lines of one rule, and the names its `use_backend` line lists (lines 221-232). */
  method CompileRule(rule: Rule, idx: nat) returns (acls: seq<Acl>, names: seq<string>)
    ensures acls == AclsOf(rule, idx) && names == NamesOf(rule, idx)
  {
    hide AclName;
    acls, names := [], [];
    if rule.path != "" {
      var front, last := rule.path[..|rule.path| - 1], rule.path[|rule.path| - 1];
      acls := acls + [Acl(AclName(idx, 'p'), if last == '*' then PathBegins(front) else PathIs(rule.path))];
      names := names + [AclName(idx, 'p')];
    }
    if rule.host != "" {
      acls := acls + [Acl(AclName(idx, 'h'), HostIs(rule.host))];
      names := names + [AclName(idx, 'h')];
    }
  }

  lemma CompiledStep(rules: seq<Rule>, idx: nat, groups: seq<string>)
    requires idx < |rules|
    ensures CompiledAcls(rules[..idx + 1], groups)
         == CompiledAcls(rules[..idx], groups) + if Known(rules[idx], groups) then AclsOf(rules[idx], idx) else []
    ensures CompiledUses(rules[..idx + 1], groups)
         == CompiledUses(rules[..idx], groups)
            + if Usable(rules[idx], groups) then [Use(BackName(rules[idx].target), NamesOf(rules[idx], idx))] else []
  {
    assert rules[..idx + 1][..idx] == rules[..idx];
  }

  /** The loop over a listener's rules, and its default (lines 203-240). */
  method CompileListener(b: Balancer, l: Listener) returns (f: Frontend, referenced: set<string>)
    ensures f == Compiled(b, l)
    ensures referenced == Referenced(b, l)
  {
    hide StableSort, BackName, AclsOf, CompiledAcls, CompiledUses;
    var rules := StableSort(l.rules, (r: Rule) => r.priority);
    var acls: seq<Acl>, uses: seq<Use> := [], [];
    referenced := {};
    NothingCompiled(Ids(b));
    assert rules[..0] == [];
    for idx := 0 to |rules|
      invariant acls == CompiledAcls(rules[..idx], Ids(b))
      invariant uses == CompiledUses(rules[..idx], Ids(b))
      invariant referenced == set r | r in rules[..idx] && Usable(r, Ids(b)) :: r.target
    {
      var rule := rules[idx];
      CompiledStep(rules, idx, Ids(b));
      assert rules[..idx + 1] == rules[..idx] + [rule];
      if rule.target != "" && rule.target in Ids(b) {
        var more, names := CompileRule(rule, idx);
        acls := acls + more;
        if names != [] {
          uses := uses + [Use(BackName(rule.target), names)];
          referenced := referenced + {rule.target};
        }
      }
    }
    assert rules[..|rules|] == rules;
    ReferencedBySorted(b, l);
    var otherwise := DefaultName(b);
    if l.target != "" && l.target in Ids(b) {
      otherwise := BackName(l.target);
      referenced := referenced + {l.target};
    }
    f := Frontend(acls, uses, otherwise);
  }

  lemma NothingCompiled(groups: seq<string>)
    ensures CompiledAcls([], groups) == [] && CompiledUses([], groups) == []
  {
  }
}
