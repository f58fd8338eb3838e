/** What a pull of api/sync-package-repo.py does to the files, said of the files, the index and the options
    themselves. */
module PullMeaning {
  import opened Bytes
  import opened Text
  import opened Sorting
  import opened Download
  import opened Mirror
  import opened Pull
  import opened InStep

  // ----- paths -----

  lemma {:induction false} RealPartsMeaning(parts: seq<string>)
    ensures RealParts(parts) == Keep(parts, (c: string) => c != "" && c != ".")
  {
    if parts != [] {
      RealPartsMeaning(parts[1..]);
    }
  }

  /** Only an empty first component before others makes a leading slash. */
  lemma RootedIff(components: seq<string>)
    requires components != [] && forall i | 0 <= i < |components| :: '/' !in components[i]
    ensures var rel := Glue(components, '/');
            (|rel| > 0 && rel[0] == '/') <==> (components[0] == "" && |components| > 1)
  {
    if components[0] != "" {
      assert Glue(components, '/')[0] == components[0][0];
      assert components[0][0] in components[0];
    }
  }

  /** A path of components joined by slashes is accepted exactly when it is relative, none of them is "..",
      and the first one that is neither empty nor a single dot names a served directory. */
  lemma InsideIff(components: seq<string>)
    requires components != [] && forall i | 0 <= i < |components| :: '/' !in components[i]
    ensures var named := Keep(components, (c: string) => c != "" && c != ".");
            Inside(Glue(components, '/'))
            <==> && (components[0] == "" ==> |components| == 1)
                 && ".." !in components
                 && named != [] && named[0] in {"apt-repo", "artifacts"}
  {
    var rel := Glue(components, '/');
    SplitGlue(components, '/');
    RealPartsMeaning(components);
    KeepMembers(components, (c: string) => c != "" && c != ".");
    RootedIff(components);
    hide Glue, Split, RealParts, Keep;
  }

  /** The first entry outside ends the pull before anything is touched: with exit code 2, or, for a path that
      has no component at all, with an uncaught error. */
  lemma {:induction false} FirstOutside(files: Files, cache: Cache, index: Index, o: Options, world: World,
                                        hash: Hash, i: nat)
    requires i < |index| && !Inside(index[i].rel) && forall j | 0 <= j < i :: Inside(index[j].rel)
    ensures PullAll(files, cache, index, o, world, hash)
         == Result(if Nameless(index[i].rel) then 1 else 2, files, cache)
  {
    hide Inside, Nameless, Check, FetchAll, Need, BySize;
    GateAt(index, i);
  }

  lemma {:induction false} GateAt(index: Index, i: nat)
    requires i < |index| && !Inside(index[i].rel) && forall j | 0 <= j < i :: Inside(index[j].rel)
    ensures Gate(index) == if Nameless(index[i].rel) then 1 else 2
    decreases i
  {
    hide Inside, Nameless;
    if i > 0 {
      GateAt(index[1..], i - 1);
    }
  }

  lemma NamelessIff(components: seq<string>)
    requires components != [] && forall i | 0 <= i < |components| :: '/' !in components[i]
    ensures Nameless(Glue(components, '/'))
       <==> && (components[0] == "" ==> |components| == 1)
            && forall c | c in components :: c == "" || c == "."
  {
    SplitGlue(components, '/');
    RealPartsMeaning(components);
    KeepMembers(components, (c: string) => c != "" && c != ".");
    RootedIff(components);
    var named := Keep(components, (c: string) => c != "" && c != ".");
    hide Glue, Split, RealParts, Keep;
    assert named != [] ==> named[0] in components;
  }

  /** Such a path, a single dot, in an index of one entry: it is not refused, it raises. */
  lemma DotRaises(files: Files, cache: Cache, meta: Meta, o: Options, world: World, hash: Hash)
    ensures PullAll(files, cache, [Entry(".", meta)], o, world, hash) == Result(1, files, cache)
  {
    NamelessIff(["."]);
    InsideIff(["."]);
    assert Glue(["."], '/') == ".";
    assert Keep(["."], (c: string) => c != "" && c != ".") == [] by {
      KeepMembers(["."], (c: string) => c != "" && c != ".");
      hide Keep;
    }
    hide Inside, Nameless, PullAll, Keep;
    FirstOutside(files, cache, [Entry(".", meta)], o, world, hash, 0);
  }

  // ----- when nothing is touched -----

  /** A dry run, a refused index and a full disk leave every file as it was, for every index, cache, world
      and hash. */
  lemma NothingTouched(files: Files, cache: Cache, index: Index, o: Options, world: World, hash: Hash)
    ensures o.dryRun ==> PullAll(files, cache, index, o, world, hash).files == files
    ensures PullAll(files, cache, index, o, world, hash).code in {2, 3} ==>
              PullAll(files, cache, index, o, world, hash).files == files
  {
    hide Check, FetchAll, Need, BySize, Inside, Nameless;
    GateCodes(index);
  }

  lemma {:induction false} GateCodes(index: Index)
    ensures Gate(index) <= 2
  {
    if index != [] {
      hide Inside, Nameless;
      GateCodes(index[1..]);
    }
  }

  /** The sum of the numbers in a list. */
  function Sum(xs: seq<int>): int {
    if xs == [] then 0 else xs[0] + Sum(xs[1..])
  }

  /** What the files of the list take, and what their part files already hold. */
  function Sizes(todo: seq<Entry>): seq<int> {
    seq(|todo|, i requires 0 <= i < |todo| => todo[i].meta.size)
  }

  function PartSizes(files: Files, todo: seq<Entry>): seq<int> {
    seq(|todo|, i requires 0 <= i < |todo| =>
      if todo[i].rel + ".part" in files then |files[todo[i].rel + ".part"].content| else 0)
  }

  lemma {:induction false} NeedMeaning(files: Files, todo: seq<Entry>)
    ensures Need(files, todo) == Sum(Sizes(todo)) - Sum(PartSizes(files, todo))
  {
    if todo != [] {
      NeedMeaning(files, todo[1..]);
      assert Sizes(todo)[1..] == Sizes(todo[1..]);
      assert PartSizes(files, todo)[1..] == PartSizes(files, todo[1..]);
    }
  }

  /** With every path inside, the exit code is 3 exactly when the missing bytes and twenty gigabytes more
      exceed the free space; otherwise a dry run answers 0. */
  lemma SpaceIff(files: Files, cache: Cache, index: Index, o: Options, world: World, hash: Hash)
    requires forall e | e in index :: Inside(e.rel)
    ensures var todo := Check(files, cache, index, hash).todo;
            var full := Sum(Sizes(todo)) - Sum(PartSizes(files, todo)) + 21474836480 > o.free;
            && (PullAll(files, cache, index, o, world, hash).code == 3 <==> full)
            && (!full && o.dryRun ==> PullAll(files, cache, index, o, world, hash).code == 0)
  {
    GateOpen(index);
    NeedMeaning(files, Check(files, cache, index, hash).todo);
    hide Check, FetchAll, Need, BySize, Gate, Inside, Sum, Sizes, PartSizes;
  }

  // ----- which entries are fetched -----

  /** The entry's file is there with the indexed size, and the hash on record for a file of this size and
      time, or else the file's own, is the indexed one. */
  predicate Verified(files: Files, cache: Cache, e: Entry, hash: Hash) {
    && e.rel in files && |files[e.rel].content| == e.meta.size
    && (if e.rel in cache && cache[e.rel].size == e.meta.size && cache[e.rel].mtime == files[e.rel].mtime
        then cache[e.rel].sha == e.meta.sha
        else hash(files[e.rel].content) == e.meta.sha)
  }

  function Unverified(files: Files, cache: Cache, hash: Hash): Entry -> bool {
    (e: Entry) => !Verified(files, cache, e, hash)
  }

  lemma CheckOneMeaning(files: Files, cache: Cache, e: Entry, hash: Hash)
    ensures CheckOne(files, cache, e, hash).todo == if Verified(files, cache, e, hash) then [] else [e]
    ensures forall p | p != e.rel ::
              && (p in CheckOne(files, cache, e, hash).cache <==> p in cache)
              && (p in cache ==> CheckOne(files, cache, e, hash).cache[p] == cache[p])
  {
  }

  lemma {:induction false} KeepSnoc<T>(xs: seq<T>, p: T -> bool)
    requires xs != []
    ensures var front, last := xs[..|xs| - 1], xs[|xs| - 1];
            Keep(xs, p) == Keep(front, p) + if p(last) then [last] else []
  {
    if |xs| > 1 {
      KeepSnoc(xs[1..], p);
      var front := xs[..|xs| - 1];
      assert front[1..] == xs[1..][..|xs| - 2] && front[0] == xs[0];
    } else {
      assert xs[1..] == [] && xs[..0] == [];
    }
  }

  /** Checking fetches, in the index's order, exactly the entries that the cache and the files from before
      the pull do not verify. */
  lemma {:induction false} CheckFilters(files: Files, cache: Cache, index: Index, hash: Hash)
    requires Distinct(index)
    ensures Check(files, cache, index, hash).todo == Keep(index, Unverified(files, cache, hash))
    decreases |index|
  {
    if index != [] {
      var front, last := index[..|index| - 1], index[|index| - 1];
      var before := Check(files, cache, front, hash);
      DistinctFront(index);
      CheckFilters(files, cache, front, hash);
      CheckOther(files, cache, front, hash, last.rel);
      CheckOneMeaning(files, before.cache, last, hash);
      KeepSnoc(index, Unverified(files, cache, hash));
      assert last.rel !in Rels(front);
      assert Verified(files, before.cache, last, hash) == Verified(files, cache, last, hash);
    }
  }

  // ----- the order of the downloads -----

  /** Small files first, every one of them and no other. */
  lemma SmallFirst(todo: seq<Entry>)
    ensures multiset(BySize(todo)) == multiset(todo)
    ensures forall i, j | 0 <= i < j < |BySize(todo)| ::
              BySize(todo)[i].meta.size <= BySize(todo)[j].meta.size
  {
    var key := (e: Entry) => e.meta.size;
    SortSame(todo, key);
    SortSorted(todo, key);
  }

  /** One download after the other. What fits is put in place and entered in the cache; a failure is
      noted and the next download still runs; only an uncaught error stops the rest. */
  lemma FetchStep(p: Progress, e: Entry, rest: seq<Entry>, world: World, hash: Hash)
    requires !p.crashed
    ensures var r := Fetch(p.files, e.rel, e.meta, world.stamp(e.rel), world.net(e.rel), hash);
            var line := CacheEntry(e.meta.size, world.stamp(e.rel), e.meta.sha);
            FetchAll(p, [e] + rest, world, hash)
            == if r.outcome.Crashed? then Progress(r.files, p.cache, p.failed, true)
               else if r.outcome.Done? then
                 FetchAll(Progress(r.files, p.cache[e.rel := line], p.failed, false), rest, world, hash)
               else FetchAll(Progress(r.files, p.cache, p.failed + [e.rel], false), rest, world, hash)
  {
    assert ([e] + rest)[1..] == rest;
    AnyServer(p.files, e.rel, e.meta, world.stamp(e.rel), world.net(e.rel), hash);
    DoneStamp(p.files, e.rel, e.meta, world.stamp(e.rel), world.net(e.rel), hash);
    hide Fetch;
    var q := FetchOne(p, e, world, hash);
    assert FetchAll(p, [e] + rest, world, hash) == FetchAll(q, rest, world, hash);
    FailedGrows(q, rest, world, hash);
    hide FetchAll;
  }

  lemma DoneStamp(files: Files, rel: string, m: Meta, stamp: nat, net: Network, hash: Hash)
    ensures var r := Fetch(files, rel, m, stamp, net, hash);
            r.outcome.Done? ==> rel in r.files && r.files[rel].mtime == stamp
  {
    hide Attempts;
  }

  // ----- files that the index does not list -----

  ghost predicate EndsInPart(p: string) {
    exists stem: string :: p == stem + ".part"
  }

  lemma PartEnding(p: string)
    ensures IsPart(p) <==> EndsInPart(p)
  {
    if IsPart(p) {
      assert p == p[..|p| - 5] + ".part";
    }
  }

  lemma {:induction false} FetchAllOther(p: Progress, todo: seq<Entry>, world: World, hash: Hash, path: string)
    requires forall e | e in todo :: path != e.rel && path != PartOf(e.rel)
    ensures var q := FetchAll(p, todo, world, hash);
            (path in q.files <==> path in p.files) && (path in p.files ==> q.files[path] == p.files[path])
    decreases |todo|
  {
    if todo != [] && !p.crashed {
      var e := todo[0];
      hide Fetch, PartOf;
      AnyServer(p.files, e.rel, e.meta, world.stamp(e.rel), world.net(e.rel), hash);
      var q := FetchOne(p, e, world, hash);
      assert (path in q.files <==> path in p.files) && (path in p.files ==> q.files[path] == p.files[path]);
      hide FetchOne;
      FetchAllOther(q, todo[1..], world, hash, path);
    }
  }

  lemma {:induction false} CheckedFromIndex(files: Files, cache: Cache, index: Index, hash: Hash)
    ensures forall e | e in Check(files, cache, index, hash).todo :: e in index
    decreases |index|
  {
    if index != [] {
      var front, last := index[..|index| - 1], index[|index| - 1];
      var before := Check(files, cache, front, hash);
      CheckedFromIndex(files, cache, front, hash);
      CheckOneMeaning(files, before.cache, last, hash);
      hide CheckOne, Verified;
    }
  }

  /** A file that the index does not list and that is no part of a listed one is deleted exactly when the
      pull prunes, comes to its end, and the file is not itself named like a part; otherwise it stays as
      it was, and no such file appears. */
  lemma Unlisted(files: Files, cache: Cache, index: Index, o: Options, world: World, hash: Hash, path: string)
    requires forall e | e in index :: path != e.rel && path != e.rel + ".part"
    ensures var r := PullAll(files, cache, index, o, world, hash);
            var checked := Check(files, cache, index, hash);
            var p := FetchAll(Progress(files, checked.cache, [], false), BySize(checked.todo), world, hash);
            && (path in r.files ==> path in files && r.files[path] == files[path])
            && (path in files && path !in r.files <==>
                path in files && o.prune && !o.dryRun && r.code <= 1 && Gate(index) == 0 && !p.crashed
                && !EndsInPart(path))
  {
    var checked := Check(files, cache, index, hash);
    var todo := BySize(checked.todo);
    SortedTodo(checked.todo);
    CheckedFromIndex(files, cache, index, hash);
    FetchAllOther(Progress(files, checked.cache, [], false), todo, world, hash, path);
    PartEnding(path);
    var extras := Served(files) - Rels(index);
    assert path in extras <==> path in files && !EndsInPart(path);
    hide FetchAll, Check, Gate, Need, BySize, IsPart, EndsInPart, Served, Rels;
  }

  lemma {:induction false} CheckOther(files: Files, cache: Cache, index: Index, hash: Hash, path: string)
    requires path !in Rels(index)
    ensures var c := Check(files, cache, index, hash).cache;
            (path in c <==> path in cache) && (path in cache ==> c[path] == cache[path])
    decreases |index|
  {
    if index != [] {
      var front, last := index[..|index| - 1], index[|index| - 1];
      assert last.rel in Rels(index) && Rels(front) <= Rels(index);
      CheckOther(files, cache, front, hash, path);
      CheckOneMeaning(files, Check(files, cache, front, hash).cache, last, hash);
      hide CheckOne, Verified;
    }
  }

  lemma {:induction false} FetchAllOtherCache(p: Progress, todo: seq<Entry>, world: World, hash: Hash, path: string)
    requires forall e | e in todo :: path != e.rel
    ensures var c := FetchAll(p, todo, world, hash).cache;
            (path in c <==> path in p.cache) && (path in p.cache ==> c[path] == p.cache[path])
    decreases |todo|
  {
    if todo != [] && !p.crashed {
      hide Fetch;
      var q := FetchOne(p, todo[0], world, hash);
      assert (path in q.cache <==> path in p.cache) && (path in p.cache ==> q.cache[path] == p.cache[path]);
      hide FetchOne;
      FetchAllOtherCache(q, todo[1..], world, hash, path);
    }
  }

  /** And what the cache says of such a file is forgotten exactly when the file is deleted. */
  lemma UnlistedCache(files: Files, cache: Cache, index: Index, o: Options, world: World, hash: Hash, path: string)
    requires forall e | e in index :: path != e.rel && path != e.rel + ".part"
    requires path in files
    ensures var r := PullAll(files, cache, index, o, world, hash);
            && (path in r.cache <==> path in cache && path in r.files)
            && (path in r.cache ==> r.cache[path] == cache[path])
  {
    var checked := Check(files, cache, index, hash);
    var todo := BySize(checked.todo);
    SortedTodo(checked.todo);
    CheckedFromIndex(files, cache, index, hash);
    CheckOther(files, cache, index, hash, path);
    var start := Progress(files, checked.cache, [], false);
    FetchAllOther(start, todo, world, hash, path);
    FetchAllOtherCache(start, todo, world, hash, path);
    Unlisted(files, cache, index, o, world, hash, path);
    var extras := Served(files) - Rels(index);
    assert path in extras <==> !IsPart(path);
    hide FetchAll, Check, Gate, Need, BySize, IsPart, Served, Rels, EndsInPart;
  }

  // ----- an honest source -----

  /** The source serves what the index says, connections may break, and for each path one of the six
      carries the file to its end. */
  ghost predicate HonestSource(index: Index, world: World, source: string -> seq<byte>) {
    forall e | e in index ::
      && HonestNetwork(source(e.rel), world.net(e.rel))
      && exists k: nat | k <= MAX_RETRIES :: Completes(source(e.rel), world.net(e.rel), k)
  }

  /** What earlier pulls left behind of each entry is a beginning of its file. */
  ghost predicate PartsHonest(files: Files, todo: seq<Entry>, source: string -> seq<byte>) {
    forall e | e in todo :: Kept(files, e.rel, e.meta.size) <= source(e.rel)
  }

  lemma HonestFetch(p: Progress, e: Entry, world: World, hash: Hash, source: string -> seq<byte>)
    requires Fits(e.meta, source(e.rel), hash)
    requires HonestNetwork(source(e.rel), world.net(e.rel))
    requires exists k: nat | k <= MAX_RETRIES :: Completes(source(e.rel), world.net(e.rel), k)
    requires Kept(p.files, e.rel, e.meta.size) <= source(e.rel)
    ensures var q := FetchOne(p, e, world, hash);
            && q.failed == p.failed && q.crashed == p.crashed
            && e.rel in q.files && q.files[e.rel].content == source(e.rel)
            && PartOf(e.rel) !in q.files
            && forall path | path != e.rel && path != PartOf(e.rel) ::
                 (path in q.files <==> path in p.files) && (path in p.files ==> q.files[path] == p.files[path])
  {
    var k: nat :| k <= MAX_RETRIES && Completes(source(e.rel), world.net(e.rel), k);
    var stamp, net := world.stamp(e.rel), world.net(e.rel);
    HonestServer(p.files, e.rel, e.meta, stamp, net, hash, source(e.rel));
    HonestCompletes(p.files, e.rel, e.meta, stamp, net, hash, source(e.rel), k);
    AnyServer(p.files, e.rel, e.meta, stamp, net, hash);
    hide Fetch, HonestNetwork, Completes, Kept, PartOf, Fits;
  }

  lemma PartOfInjective(a: string, b: string)
    requires PartOf(a) == PartOf(b)
    ensures a == b
  {
    assert PartOf(a)[..|a|] == a && PartOf(b)[..|b|] == b;
  }

  /** Fetching one entry leaves the parts of the others as they were. */
  lemma PartsStayHonest(before: Files, after: Files, x: Entry, todo: seq<Entry>, source: string -> seq<byte>)
    requires PartsHonest(before, todo, source)
    requires forall e | e in todo :: PartOf(e.rel) != x.rel
    requires PartOf(x.rel) !in after
    requires forall p | p != x.rel && p != PartOf(x.rel) ::
               (p in after <==> p in before) && (p in before ==> after[p] == before[p])
    ensures PartsHonest(after, todo, source)
  {
    forall e | e in todo
      ensures Kept(after, e.rel, e.meta.size) <= source(e.rel)
    {
      assert Kept(before, e.rel, e.meta.size) <= source(e.rel);
      if PartOf(e.rel) == PartOf(x.rel) {
        PartOfInjective(e.rel, x.rel);
      }
      hide PartOf;
    }
  }

  lemma {:induction false} HonestFetches(p: Progress, index: Index, todo: seq<Entry>, world: World, hash: Hash,
                                         source: string -> seq<byte>)
    requires !p.crashed
    requires forall e | e in todo :: e in index
    requires forall e | e in index :: Fits(e.meta, source(e.rel), hash) && !IsPart(e.rel)
    requires HonestSource(index, world, source)
    requires PartsHonest(p.files, todo, source)
    ensures var q := FetchAll(p, todo, world, hash); q.failed == p.failed && !q.crashed
    decreases |todo|
  {
    if todo != [] {
      var x := todo[0];
      HonestFetch(p, x, world, hash, source);
      var q := FetchOne(p, x, world, hash);
      forall e | e in todo
        ensures PartOf(e.rel) != x.rel
      {
        PartIsPart(e.rel);
      }
      PartsStayHonest(p.files, q.files, x, todo, source);
      hide FetchOne, HonestSource, Fits, IsPart, PartOf, Kept;
      assert forall e | e in todo[1..] :: e in todo;
      HonestFetches(q, index, todo[1..], world, hash, source);
    }
  }

  /** Against an honest source a pull with enough space succeeds: it exits with 0 and leaves every listed
      path with content of the listed size and hash, however its connections broke. */
  lemma HonestPull(files: Files, cache: Cache, index: Index, o: Options, world: World, hash: Hash,
                   source: string -> seq<byte>)
    requires Distinct(index) && CacheSound(files, cache, hash, Relevant(files, index))
    requires forall e | e in index :: Inside(e.rel) && !IsPart(e.rel) && Fits(e.meta, source(e.rel), hash)
    requires HonestSource(index, world, source)
    requires PartsHonest(files, index, source)
    requires !o.dryRun
    requires Need(files, Check(files, cache, index, hash).todo) + HEADROOM <= o.free
    ensures var r := PullAll(files, cache, index, o, world, hash);
            r.code == 0 && AllPresent(r.files, index, hash)
  {
    var checked := Check(files, cache, index, hash);
    var todo := BySize(checked.todo);
    GateOpen(index);
    SortedTodo(checked.todo);
    CheckedFromIndex(files, cache, index, hash);
    assert PartsHonest(files, todo, source);
    NoPartsNoHazard(index, hash);
    hide Fits, IsPart, Inside, Gate, Check, FetchAll, Need, BySize, Distinct, CacheSound, Hazard, HonestSource,
      PartsHonest, AllPresent;
    HonestFetches(Progress(files, checked.cache, [], false), index, todo, world, hash, source);
    PullInStep(files, cache, index, o, world, hash);
  }
}
