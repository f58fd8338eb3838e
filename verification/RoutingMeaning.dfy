/** The compiled configuration of api/lb.py routes every request as the rules say, and every backend it
    names is written out. */
module RoutingMeaning {
  import opened Bytes
  import opened Text
  import opened Sorting
  import opened Lb
  import opened Routing

  // ----- what the rules say -----

  /** A pattern that ends in a star stands for everything that begins like it. */
  predicate PathMatches(pattern: string, path: string) {
    if pattern != "" && pattern[|pattern| - 1] == '*' then pattern[..|pattern| - 1] <= path else pattern == path
  }

  predicate RuleMatches(rule: Rule, r: Request) {
    (rule.path != "" ==> PathMatches(rule.path, r.path)) && (rule.host != "" ==> Lower(rule.host) == Lower(r.host))
  }

  predicate Serves(rule: Rule, groups: seq<string>, r: Request) {
    Usable(rule, groups) && RuleMatches(rule, r)
  }

  // ----- names do not clash -----

  lemma AclNameInjective(i: nat, j: nat, c: char, d: char)
    requires AclName(i, c) == AclName(j, d)
    ensures i == j && c == d
  {
    var a, b := AclName(i, c), AclName(j, d);
    assert a[|a| - 1] == c && b[|b| - 1] == d;
    assert a[1..|a| - 1] == Decimal(i) && b[1..|b| - 1] == Decimal(j);
    DecimalInjective(i, j);
  }

  lemma OtherNames(i: nat, j: nat, c: char)
    requires i != j
    ensures forall d :: AclName(i, d) != AclName(j, c)
  {
    forall d
      ensures AclName(i, d) != AclName(j, c)
    {
      if AclName(i, d) == AclName(j, c) {
        AclNameInjective(i, j, d, c);
      }
    }
  }

  lemma {:induction false} NamesBelow(rules: seq<Rule>, groups: seq<string>, k: nat, c: char)
    requires k >= |rules|
    ensures forall i | 0 <= i < |CompiledAcls(rules, groups)| :: CompiledAcls(rules, groups)[i].name != AclName(k, c)
    decreases |rules|
  {
    if rules != [] {
      var n := |rules| - 1;
      NamesBelow(rules[..n], groups, k, c);
      OtherNames(n, k, c);
      hide AclName, Decimal;
    }
  }

  lemma NamedAppend(xs: seq<Acl>, ys: seq<Acl>, name: string, r: Request)
    ensures Named(xs + ys, name, r) <==> Named(xs, name, r) || Named(ys, name, r)
  {
    var zs := xs + ys;
    if Named(xs, name, r) {
      var i :| 0 <= i < |xs| && xs[i].name == name && Holds(xs[i].test, r);
      assert zs[i] == xs[i];
    }
    if Named(ys, name, r) {
      var i :| 0 <= i < |ys| && ys[i].name == name && Holds(ys[i].test, r);
      assert zs[|xs| + i] == ys[i];
    }
  }

  /** Within the ACLs of one rule, each of its names stands for its own condition. */
  lemma OwnAcls(rule: Rule, idx: nat, r: Request)
    ensures Named(AclsOf(rule, idx), AclName(idx, 'p'), r) <==> rule.path != "" && PathMatches(rule.path, r.path)
    ensures Named(AclsOf(rule, idx), AclName(idx, 'h'), r) <==> rule.host != "" && Lower(rule.host) == Lower(r.host)
  {
    assert AclName(idx, 'p') != AclName(idx, 'h') by {
      if AclName(idx, 'p') == AclName(idx, 'h') {
        AclNameInjective(idx, idx, 'p', 'h');
      }
    }
    hide AclName, Lower;
    var acls := AclsOf(rule, idx);
    if rule.path != "" {
      assert acls[0].name == AclName(idx, 'p') && (Holds(acls[0].test, r) <==> PathMatches(rule.path, r.path));
    }
    if rule.host != "" {
      var last := acls[|acls| - 1];
      assert last.name == AclName(idx, 'h') && (Holds(last.test, r) <==> Lower(rule.host) == Lower(r.host));
    }
  }

  /** In the whole list of ACLs, a rule's names stand for its own conditions. */
  lemma {:induction false} AclMeaning(rules: seq<Rule>, groups: seq<string>, k: nat, c: char, r: Request)
    requires k < |rules|
    ensures Named(CompiledAcls(rules, groups), AclName(k, c), r)
       <==> Known(rules[k], groups) && Named(AclsOf(rules[k], k), AclName(k, c), r)
    decreases |rules|
  {
    hide Holds, Decimal, AclsOf, AclName, Known;
    var n := |rules| - 1;
    var front := CompiledAcls(rules[..n], groups);
    var last := if Known(rules[n], groups) then AclsOf(rules[n], n) else [];
    assert CompiledAcls(rules, groups) == front + last;
    hide CompiledAcls;
    NamedAppend(front, last, AclName(k, c), r);
    if k == n {
      NamesBelow(rules[..n], groups, k, c);
      assert !Named(front, AclName(k, c), r);
    } else {
      AclMeaning(rules[..n], groups, k, c, r);
      NotNamedByOthers(rules[n], n, k, c, r);
    }
  }

  lemma NotNamedByOthers(rule: Rule, n: nat, k: nat, c: char, r: Request)
    requires n != k
    ensures !Named(AclsOf(rule, n), AclName(k, c), r)
  {
    OtherNames(n, k, c);
    hide AclName, Holds;
  }

  /** A rule's `use_backend` line applies exactly when the rule matches. */
  lemma UseMeaning(rules: seq<Rule>, groups: seq<string>, k: nat, r: Request)
    requires k < |rules| && Usable(rules[k], groups)
    ensures Applies(CompiledAcls(rules, groups), Use(BackName(rules[k].target), NamesOf(rules[k], k)), r)
       <==> RuleMatches(rules[k], r)
  {
    hide Lower, AclName, CompiledAcls, BackName, PathMatches, Named;
    AclMeaning(rules, groups, k, 'p', r);
    AclMeaning(rules, groups, k, 'h', r);
    OwnAcls(rules[k], k, r);
    var acls, names := CompiledAcls(rules, groups), NamesOf(rules[k], k);
    if rules[k].path != "" {
      assert names[0] == AclName(k, 'p');
    }
    if rules[k].host != "" {
      assert names[|names| - 1] == AclName(k, 'h');
    }
  }

  lemma {:induction false} FirstUseAppend(acls: seq<Acl>, xs: seq<Use>, ys: seq<Use>, r: Request)
    ensures FirstUse(acls, xs + ys, r)
         == if FirstUse(acls, xs, r).Some? then FirstUse(acls, xs, r) else FirstUse(acls, ys, r)
  {
    if xs == [] {
      assert xs + ys == ys;
    } else {
      hide Applies;
      assert (xs + ys)[1..] == xs[1..] + ys;
      FirstUseAppend(acls, xs[1..], ys, r);
    }
  }

  lemma FirstUseOne(acls: seq<Acl>, u: Use, r: Request)
    ensures FirstUse(acls, [u], r) == if Applies(acls, u, r) then Some(u.backend) else None
  {
    hide Applies;
    assert [u][1..] == [];
    assert FirstUse(acls, [], r) == None;
  }

  lemma {:induction false} FirstSnoc<T>(xs: seq<T>, y: T, p: T -> bool)
    ensures First(xs + [y], p) == if First(xs, p).Some? then First(xs, p) else if p(y) then Some(y) else None
  {
    if xs == [] {
      assert xs + [y] == [y] && [y][1..] == [];
      assert First<T>([], p) == None;
    } else {
      assert (xs + [y])[1..] == xs[1..] + [y];
      FirstSnoc(xs[1..], y, p);
    }
  }

  /** The `use_backend` lines pick the first rule, in their order, that serves the request. */
  lemma {:induction false} UsesPickFirst(rules: seq<Rule>, groups: seq<string>, n: nat, r: Request)
    requires n <= |rules|
    ensures var p := (rule: Rule) => Serves(rule, groups, r);
            var first := First(rules[..n], p);
            FirstUse(CompiledAcls(rules, groups), CompiledUses(rules[..n], groups), r)
            == if first.Some? then Some(BackName(first.value.target)) else None
    decreases n
  {
    hide CompiledAcls, BackName, RuleMatches, Applies;
    if n > 0 {
      var p := (rule: Rule) => Serves(rule, groups, r);
      var acls, rule := CompiledAcls(rules, groups), rules[n - 1];
      UsesPickFirst(rules, groups, n - 1, r);
      assert rules[..n] == rules[..n - 1] + [rule];
      assert rules[..n][..n - 1] == rules[..n - 1];
      FirstSnoc(rules[..n - 1], rule, p);
      var last := if Usable(rule, groups) then [Use(BackName(rule.target), NamesOf(rule, n - 1))] else [];
      FirstUseAppend(acls, CompiledUses(rules[..n - 1], groups), last, r);
      if Usable(rule, groups) {
        UseMeaning(rules, groups, n - 1, r);
        FirstUseOne(acls, last[0], r);
      } else {
        assert FirstUse(acls, [], r) == None;
      }
    } else {
      assert rules[..0] == [];
    }
  }

  /** For every listener and every request: the compiled frontend picks the backend of the usable
      matching rule with the lowest priority number, the earliest one among equals, and the
      listener's default when no usable rule matches. */
  lemma CompilationPreservesRouting(b: Balancer, l: Listener, r: Request)
    ensures var p := (rule: Rule) => Serves(rule, Ids(b), r);
            var key := (rule: Rule) => rule.priority;
            && (forall i: nat | IsBest(l.rules, key, p, i) :: Pick(Compiled(b, l), r) == BackName(l.rules[i].target))
            && ((forall rule | rule in l.rules :: !Serves(rule, Ids(b), r)) ==>
                  Pick(Compiled(b, l), r) == Otherwise(b, l))
            && ((exists rule :: rule in l.rules && Serves(rule, Ids(b), r)) ==>
                  exists i: nat :: IsBest(l.rules, key, p, i))
  {
    var p := (rule: Rule) => Serves(rule, Ids(b), r);
    var key := (rule: Rule) => rule.priority;
    var rules := Sorted(l);
    assert rules == StableSort(l.rules, key);
    UsesPickFirst(rules, Ids(b), |rules|, r);
    assert rules[..|rules|] == rules;
    FirstOfSorted(l.rules, key, p);
    hide BackName, CompiledAcls, CompiledUses, FirstUse, StableSort, Serves;
    var first := First(rules, p);
    if first.Some? {
      var k: nat :| IsBest(l.rules, key, p, k) && l.rules[k] == first.value;
      forall i: nat | IsBest(l.rules, key, p, i)
        ensures i == k
      {
        BestUnique(l.rules, key, p, i, k);
      }
    } else {
      assert forall i: nat | i < |l.rules| :: l.rules[i] in l.rules;
    }
  }

  lemma BestUnique<T(!new)>(xs: seq<T>, key: T -> int, p: T -> bool, i: nat, j: nat)
    requires IsBest(xs, key, p, i) && IsBest(xs, key, p, j)
    ensures i == j
  {
  }

  // ----- the same of the balancer itself -----

  ghost predicate GroupExists(b: Balancer, id: string) {
    exists g | g in b.groups :: g.id == id
  }

  lemma IdsMeaning(b: Balancer, id: string)
    ensures id in Ids(b) <==> GroupExists(b, id)
  {
    if GroupExists(b, id) {
      var g :| g in b.groups && g.id == id;
      var i :| 0 <= i < |b.groups| && b.groups[i] == g;
      assert Ids(b)[i] == id;
    }
  }

  /** A pattern is a beginning followed by a star, or a whole path. */
  ghost predicate PatternTakes(pattern: string, path: string) {
    if exists front: string :: pattern == front + "*"
    then exists front: string :: pattern == front + "*" && front <= path
    else pattern == path
  }

  /** The rule sends this request to its group: the group exists, the rule has a condition, and every
      condition it has is met. */
  ghost predicate Takes(b: Balancer, rule: Rule, r: Request) {
    && rule.target != "" && GroupExists(b, rule.target)
    && (rule.path != "" || rule.host != "")
    && (rule.path == "" || PatternTakes(rule.path, r.path))
    && (rule.host == "" || Lower(rule.host) == Lower(r.host))
  }

  lemma TakesMeaning(b: Balancer, rule: Rule, r: Request)
    ensures Takes(b, rule, r) <==> Serves(rule, Ids(b), r)
  {
    IdsMeaning(b, rule.target);
    hide Ids, Lower, GroupExists;
    if rule.path != "" && rule.path[|rule.path| - 1] == '*' {
      assert rule.path == rule.path[..|rule.path| - 1] + "*";
      assert forall front: string | rule.path == front + "*" :: front == rule.path[..|rule.path| - 1];
    }
  }

  /** The name of a target group's section. */
  function SectionName(id: string): string {
    "tg-" + Prefix(id) + "-back"
  }

  /** A request goes to the group of the rule that takes it and comes before every other rule that does:
      by its priority, and among equals by its place. */
  lemma RequestGoesTo(b: Balancer, l: Listener, r: Request, i: nat)
    requires i < |l.rules| && Takes(b, l.rules[i], r)
    requires forall j | 0 <= j < |l.rules| && j != i && Takes(b, l.rules[j], r) ::
               l.rules[i].priority < l.rules[j].priority || (l.rules[i].priority == l.rules[j].priority && i < j)
    ensures Pick(Compiled(b, l), r) == SectionName(l.rules[i].target)
  {
    forall j | 0 <= j < |l.rules|
      ensures Takes(b, l.rules[j], r) <==> Serves(l.rules[j], Ids(b), r)
    {
      TakesMeaning(b, l.rules[j], r);
    }
    hide Takes, Serves, Compiled, Pick;
    var p := (rule: Rule) => Serves(rule, Ids(b), r);
    var key := (rule: Rule) => rule.priority;
    assert IsBest(l.rules, key, p, i);
    CompilationPreservesRouting(b, l, r);
  }

  /** When no rule takes it, it goes to the listener's own group, and without one to the backends of the
      balancer. */
  lemma RequestFallsThrough(b: Balancer, l: Listener, r: Request)
    requires forall rule | rule in l.rules :: !Takes(b, rule, r)
    ensures Pick(Compiled(b, l), r)
         == if l.target != "" && GroupExists(b, l.target) then SectionName(l.target) else b.name + "-back"
  {
    forall rule | rule in l.rules
      ensures !Serves(rule, Ids(b), r)
    {
      TakesMeaning(b, rule, r);
    }
    IdsMeaning(b, l.target);
    hide Takes, Serves, Compiled, Pick, Ids;
    CompilationPreservesRouting(b, l, r);
  }

  /** A section is written exactly for the groups that a listener has as its own, or that a rule with a
      condition names. */
  lemma SectionIff(b: Balancer, t: string)
    ensures t in Owners(b)
       <==> && t != "" && GroupExists(b, t)
            && exists l | l in b.listeners ::
                 || l.target == t
                 || exists rule | rule in l.rules :: rule.target == t && (rule.path != "" || rule.host != "")
  {
    OwnersMeaning(b);
    IdsMeaning(b, t);
    hide Owners, Ids, GroupExists;
    if t in AllReferenced(b) {
      var l :| l in b.listeners && t in Referenced(b, l);
    }
    forall l | l in b.listeners && t in Referenced(b, l)
      ensures t in AllReferenced(b)
    {
    }
  }

  // ----- the backend sections -----

  /** The keys of `tg_sections`, in the order a dict keeps them. */
  function Keys(ids: seq<string>): seq<string> {
    if ids == [] then []
    else
      var front := Keys(ids[..|ids| - 1]);
      if ids[|ids| - 1] in front then front else front + [ids[|ids| - 1]]
  }

  function Among(wanted: set<string>): string -> bool {
    (id: string) => id in wanted
  }

  function AllReferenced(b: Balancer): set<string> {
    set l, t | l in b.listeners && t in Referenced(b, l) :: t
  }

  /** The target groups whose sections are written out (lines 304-306). */
  function Owners(b: Balancer): seq<string> {
    Keep(Keys(Ids(b)), Among(AllReferenced(b)))
  }

  /** The names of all backend sections in the file, the default one first. */
  function SectionNames(b: Balancer): seq<string> {
    [DefaultName(b)] + seq(|Owners(b)|, i requires 0 <= i < |Owners(b)| => BackName(Owners(b)[i]))
  }

  lemma {:induction false} KeysMeaning(ids: seq<string>)
    ensures NoRepeats(Keys(ids))
    ensures forall x :: x in Keys(ids) <==> x in ids
    decreases |ids|
  {
    if ids != [] {
      var front, last := ids[..|ids| - 1], ids[|ids| - 1];
      KeysMeaning(front);
      assert ids == front + [last];
    }
  }

  lemma KeepMeaning(ids: seq<string>, wanted: set<string>)
    requires NoRepeats(ids)
    ensures NoRepeats(Keep(ids, Among(wanted)))
    ensures forall x :: x in Keep(ids, Among(wanted)) <==> x in ids && x in wanted
  {
    var apart := (x: string, y: string) => x != y;
    assert Pairwise(ids, apart);
    KeepPairwise(ids, Among(wanted), apart);
    KeepMembers(ids, Among(wanted));
    hide Keep;
  }

  /** Exactly the referenced target groups get a section, one each. */
  lemma OwnersMeaning(b: Balancer)
    ensures NoRepeats(Owners(b))
    ensures forall t :: t in Owners(b) <==> t in AllReferenced(b)
  {
    KeysMeaning(Ids(b));
    KeepMeaning(Keys(Ids(b)), AllReferenced(b));
    hide Usable;
    forall t | t in AllReferenced(b)
      ensures t in Ids(b)
    {
      ReferencedKnown(b, t);
    }
  }

  lemma ReferencedKnown(b: Balancer, t: string)
    requires t in AllReferenced(b)
    ensures t in Ids(b)
  {
  }

  lemma SectionOf(b: Balancer, t: string)
    requires t in AllReferenced(b)
    ensures BackName(t) in SectionNames(b)
  {
    OwnersMeaning(b);
    hide BackName, Owners;
    var i :| 0 <= i < |Owners(b)| && Owners(b)[i] == t;
    assert SectionNames(b)[i + 1] == BackName(t);
  }

  lemma {:induction false} UseNamesReferenced(rules: seq<Rule>, groups: seq<string>, u: Use)
    requires u in CompiledUses(rules, groups)
    ensures exists rule :: rule in rules && Usable(rule, groups) && u.backend == BackName(rule.target)
    decreases |rules|
  {
    hide BackName, Usable, NamesOf;
    var n := |rules| - 1;
    assert rules == rules[..n] + [rules[n]];
    if u in CompiledUses(rules[..n], groups) {
      UseNamesReferenced(rules[..n], groups, u);
      var rule :| rule in rules[..n] && Usable(rule, groups) && u.backend == BackName(rule.target);
      assert rule in rules;
    } else {
      assert rules[n] in rules && Usable(rules[n], groups);
    }
  }

  /** Every backend that a frontend names has a section in the file. */
  lemma NamedBackendsWritten(b: Balancer, l: Listener)
    requires l in b.listeners
    ensures Compiled(b, l).otherwise in SectionNames(b)
    ensures forall u | u in Compiled(b, l).uses :: u.backend in SectionNames(b)
  {
    hide BackName, Owners, CompiledUses, CompiledAcls, StableSort;
    assert DefaultName(b) == SectionNames(b)[0];
    if l.target != "" && l.target in Ids(b) {
      assert l.target in Referenced(b, l);
      assert l.target in AllReferenced(b);
      SectionOf(b, l.target);
    }
    ReferencedBySorted(b, l);
    forall u | u in Compiled(b, l).uses
      ensures u.backend in SectionNames(b)
    {
      UseNamesReferenced(Sorted(l), Ids(b), u);
      var rule :| rule in Sorted(l) && Usable(rule, Ids(b)) && u.backend == BackName(rule.target);
      assert rule.target in Referenced(b, l);
      SectionOf(b, rule.target);
    }
  }

  function Prefix(id: string): string {
    if |id| < 8 then id else id[..8]
  }

  lemma BackNameInjective(s: string, t: string)
    ensures BackName(s) == BackName(t) <==> Prefix(s) == Prefix(t)
  {
    var a, b := BackName(s), BackName(t);
    assert a[3..|a| - 5] == Prefix(s) && b[3..|b| - 5] == Prefix(t);
  }

  lemma NamesUniqueIff(first: string, names: seq<string>)
    ensures NoRepeats([first] + names) <==> NoRepeats(names) && first !in names
  {
    var all := [first] + names;
    if NoRepeats(all) {
      forall i | 0 <= i < |names|
        ensures names[i] != first && forall j | i < j < |names| :: names[i] != names[j]
      {
        assert all[0] != all[i + 1];
        assert forall j | i < j < |names| :: all[i + 1] != all[j + 1] && all[j + 1] == names[j];
      }
    } else {
      assert forall i | 0 <= i < |names| :: all[i + 1] == names[i];
    }
  }

  ghost predicate NamesTellApart(ids: set<string>) {
    forall s, t | s in ids && t in ids :: BackName(s) == BackName(t) ==> s == t
  }

  /** The ids differ in their first eight characters. */
  ghost predicate PrefixesTellApart(ids: set<string>) {
    forall s, t | s in ids && t in ids :: Prefix(s) == Prefix(t) ==> s == t
  }

  ghost predicate NoneIsDefault(b: Balancer, ids: set<string>) {
    forall t | t in ids :: BackName(t) != DefaultName(b)
  }

  lemma MappedUniqueIff(owners: seq<string>, ids: set<string>, names: seq<string>)
    requires NoRepeats(owners) && |names| == |owners|
    requires forall t :: t in owners <==> t in ids
    requires forall i | 0 <= i < |owners| :: names[i] == BackName(owners[i])
    ensures NoRepeats(names) <==> NamesTellApart(ids)
    ensures forall t | t in ids :: BackName(t) in names
    ensures forall n | n in names :: exists t :: t in ids && BackName(t) == n
  {
    hide BackName;
    forall t | t in ids
      ensures BackName(t) in names
    {
      var i :| 0 <= i < |owners| && owners[i] == t;
      assert names[i] == BackName(t);
    }
    forall n | n in names
      ensures exists t :: t in ids && BackName(t) == n
    {
      var i :| 0 <= i < |names| && names[i] == n;
      assert owners[i] in owners;
    }
    if NoRepeats(names) {
      forall s, t | s in ids && t in ids && BackName(s) == BackName(t)
        ensures s == t
      {
        var i :| 0 <= i < |owners| && owners[i] == s;
        var j :| 0 <= j < |owners| && owners[j] == t;
        assert names[i] == names[j];
      }
    }
    if NamesTellApart(ids) {
      forall i, j | 0 <= i < j < |names|
        ensures names[i] != names[j]
      {
        assert owners[i] in owners && owners[j] in owners;
      }
    }
  }

  lemma SectionsUniqueByName(b: Balancer)
    ensures NoRepeats(SectionNames(b))
       <==> NamesTellApart(AllReferenced(b)) && NoneIsDefault(b, AllReferenced(b))
  {
    OwnersMeaning(b);
    var owners := Owners(b);
    var names := seq(|owners|, i requires 0 <= i < |owners| => BackName(owners[i]));
    assert SectionNames(b) == [DefaultName(b)] + names;
    NamesUniqueIff(DefaultName(b), names);
    hide Owners, AllReferenced, DefaultName, BackName, NoRepeats, SectionNames, NamesTellApart;
    MappedUniqueIff(owners, AllReferenced(b), names);
  }

  lemma TellApartIff(ids: set<string>)
    ensures NamesTellApart(ids) <==> PrefixesTellApart(ids)
  {
    forall s, t | s in ids && t in ids
      ensures BackName(s) == BackName(t) <==> Prefix(s) == Prefix(t)
    {
      BackNameInjective(s, t);
    }
    hide BackName, Prefix;
  }

  /** No two sections share a name exactly when the referenced target groups differ in the first
      eight characters of their ids and none of them takes the default backend's name. */
  lemma SectionsUniqueIff(b: Balancer)
    ensures NoRepeats(SectionNames(b))
       <==> PrefixesTellApart(AllReferenced(b)) && NoneIsDefault(b, AllReferenced(b))
  {
    hide *;
    SectionsUniqueByName(b);
    TellApartIff(AllReferenced(b));
  }

  /** Two groups whose ids agree in eight characters, both referred to by one listener. */
  lemma TwinSections()
    ensures var check := HealthCheck("/", 30, 2, 2);
            var one := Group("aaaaaaaa-1", "one", 80, "http", [], check);
            var two := Group("aaaaaaaa-2", "two", 80, "http", [], check);
            var l := Listener("l", 80, "http", "aaaaaaaa-1", [Rule(1, "/two", "", "aaaaaaaa-2")], "forward");
            !NoRepeats(SectionNames(Balancer("web", [], [l], [one, two])))
  {
    var check := HealthCheck("/", 30, 2, 2);
    var one := Group("aaaaaaaa-1", "one", 80, "http", [], check);
    var two := Group("aaaaaaaa-2", "two", 80, "http", [], check);
    var l := Listener("l", 80, "http", "aaaaaaaa-1", [Rule(1, "/two", "", "aaaaaaaa-2")], "forward");
    var b := Balancer("web", [], [l], [one, two]);
    assert Ids(b)[0] == one.id && Ids(b)[1] == two.id;
    assert l.rules[0] in l.rules && Usable(l.rules[0], Ids(b));
    assert one.id in Referenced(b, l) && two.id in Referenced(b, l);
    assert l in b.listeners;
    assert one.id in AllReferenced(b) && two.id in AllReferenced(b);
    assert Prefix(one.id) == "aaaaaaaa" == Prefix(two.id);
    assert !PrefixesTellApart(AllReferenced(b));
    hide SectionNames, AllReferenced;
    SectionsUniqueIff(b);
  }

  /** The outer loop of `_write_config`: one frontend a listener, then the sections referred to. */
  method WriteConfig(b: Balancer) returns (frontends: seq<Frontend>, sections: seq<string>)
    ensures |frontends| == |b.listeners|
    ensures forall i | 0 <= i < |frontends| :: frontends[i] == Compiled(b, b.listeners[i])
    ensures sections == SectionNames(b)
  {
    hide Compiled, Referenced, Keep, Keys, BackName;
    frontends := [];
    var referenced: set<string> := {};
    for i := 0 to |b.listeners|
      invariant |frontends| == i
      invariant forall j | 0 <= j < i :: frontends[j] == Compiled(b, b.listeners[j])
      invariant referenced == set l, t | l in b.listeners[..i] && t in Referenced(b, l) :: t
    {
      var f, more := CompileListener(b, b.listeners[i]);
      assert b.listeners[..i + 1] == b.listeners[..i] + [b.listeners[i]];
      frontends, referenced := frontends + [f], referenced + more;
    }
    assert b.listeners[..|b.listeners|] == b.listeners;
    var owners := Keep(Keys(Ids(b)), Among(referenced));
    sections := [DefaultName(b)];
    for i := 0 to |owners|
      invariant sections == [DefaultName(b)] + seq(i, j requires 0 <= j < i => BackName(owners[j]))
    {
      sections := sections + [BackName(owners[i])];
    }
  }
}
