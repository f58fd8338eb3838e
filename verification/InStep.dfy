/** When a successful pull of api/sync-package-repo.py really leaves the repository in step with the
    index, and when it does not. */
module InStep {
  import opened Bytes
  import opened Sorting
  import opened Download
  import opened Mirror
  import opened Pull

  ghost predicate HasEntry(files: Files, e: Entry, hash: Hash) {
    e.rel in files && Fits(e.meta, files[e.rel].content, hash)
  }

  /** Every indexed path holds content of the indexed size and hash. */
  ghost predicate AllPresent(files: Files, index: Index, hash: Hash) {
    forall e | e in index :: HasEntry(files, e, hash)
  }

  ghost predicate Distinct(index: Index) {
    forall i, j | 0 <= i < j < |index| :: index[i].rel != index[j].rel
  }

  /** Every cache entry for one of `paths` whose size and time still match holds the true hash. */
  ghost predicate CacheSound(files: Files, cache: Cache, hash: Hash, paths: set<string>) {
    forall p | p in paths && p in files && p in cache ::
      cache[p].size == |files[p].content| && cache[p].mtime == files[p].mtime ==> cache[p].sha == hash(files[p].content)
  }

  /** The paths whose cache entries a pull may consult now or that a later one may. */
  ghost function Relevant(files: Files, index: Index): set<string> {
    Served(files) + Rels(index)
  }

  // ----- the hazard -----

  /** Downloading `x` destroys `d`, because `d` sits where the part file of `x` goes: it is either too
      long to be a part of `x`, or `x` can be completed from it. */
  ghost predicate Clobbers(x: Entry, d: Entry, hash: Hash) {
    && d.rel == PartOf(x.rel)
    && (d.meta.size > x.meta.size
        || exists c: seq<byte>, more: seq<byte> :: Fits(d.meta, c, hash) && Fits(x.meta, c + more, hash))
  }

  ghost predicate Hazard(index: Index, hash: Hash) {
    exists x, d | x in index && d in index :: Clobbers(x, d, hash)
  }

  /** The simplest case: a one-byte file and a two-byte file in the place of its part. */
  lemma HazardExample(hash: Hash)
    ensures Hazard([Entry("artifacts/x", Meta(1, hash([7]))), Entry("artifacts/x.part", Meta(2, hash([7, 7])))], hash)
  {
    var x, d := Entry("artifacts/x", Meta(1, hash([7]))), Entry("artifacts/x.part", Meta(2, hash([7, 7])));
    assert PartOf(x.rel) == d.rel;
    assert Clobbers(x, d, hash);
  }

  // ----- checking -----

  lemma {:induction false} CheckSound(files: Files, cache: Cache, index: Index, hash: Hash, paths: set<string>)
    requires CacheSound(files, cache, hash, paths)
    requires forall e | e in index :: e.rel in paths
    ensures var c := Check(files, cache, index, hash);
            && CacheSound(files, c.cache, hash, paths)
            && (forall e | e in c.todo :: e in index)
            && (forall e | e in index :: e in c.todo || HasEntry(files, e, hash))
    decreases |index|
  {
    if index != [] {
      var front, last := index[..|index| - 1], index[|index| - 1];
      assert last in index;
      CheckSound(files, cache, front, hash, paths);
    }
  }

  // ----- fetching -----

  lemma FetchedFits(p: Progress, e: Entry, world: World, hash: Hash)
    requires FetchOne(p, e, world, hash).failed == p.failed && !FetchOne(p, e, world, hash).crashed
    ensures HasEntry(FetchOne(p, e, world, hash).files, e, hash)
    ensures forall q | q != e.rel && q != PartOf(e.rel) ::
              && (q in FetchOne(p, e, world, hash).files <==> q in p.files)
              && (q in p.files ==> FetchOne(p, e, world, hash).files[q] == p.files[q])
  {
    hide Fetch;
    AnyServer(p.files, e.rel, e.meta, world.stamp(e.rel), world.net(e.rel), hash);
    assert |p.failed + [e.rel]| == |p.failed| + 1;
  }

  /** A download that succeeds from an indexed file in the part's place completes that file's content. */
  lemma FetchedFromPart(p: Progress, x: Entry, d: Entry, world: World, hash: Hash)
    requires FetchOne(p, x, world, hash).failed == p.failed && !FetchOne(p, x, world, hash).crashed
    requires d.rel == PartOf(x.rel) && HasEntry(p.files, d, hash)
    ensures Clobbers(x, d, hash)
  {
    if d.meta.size <= x.meta.size {
      var c := p.files[d.rel].content;
      assert Kept(p.files, x.rel, x.meta.size) == c;
      AttemptsGrow(c, x.meta.size, 0, world.net(x.rel));
      var t := Attempts(c, x.meta.size, 0, world.net(x.rel));
      hide Attempts;
      assert |p.failed + [x.rel]| == |p.failed| + 1;
      assert Fits(x.meta, t.part, hash);
      assert t.part == c + t.part[|c|..];
      assert Fits(d.meta, c, hash) && Fits(x.meta, c + t.part[|c|..], hash);
    }
  }

  /** Every indexed entry is still to be fetched or already holds what it should. */
  ghost predicate OnTrack(files: Files, index: Index, todo: seq<Entry>, hash: Hash) {
    forall e | e in index :: e in todo || HasEntry(files, e, hash)
  }

  lemma OneMore(p: Progress, index: Index, todo: seq<Entry>, world: World, hash: Hash)
    requires todo != [] && todo[0] in index
    requires Distinct(index) && !Hazard(index, hash)
    requires OnTrack(p.files, index, todo, hash)
    requires FetchOne(p, todo[0], world, hash).failed == p.failed && !FetchOne(p, todo[0], world, hash).crashed
    ensures OnTrack(FetchOne(p, todo[0], world, hash).files, index, todo[1..], hash)
  {
    hide FetchOne, Clobbers;
    var x := todo[0];
    FetchedFits(p, x, world, hash);
    forall e | e in index
      ensures e in todo[1..] || HasEntry(FetchOne(p, x, world, hash).files, e, hash)
    {
      if e.rel == x.rel {
        assert e == x;
      } else if e !in todo[1..] {
        assert todo == [x] + todo[1..];
        assert HasEntry(p.files, e, hash);
        if e.rel == PartOf(x.rel) {
          FetchedFromPart(p, x, e, world, hash);
          assert false;
        }
      }
    }
  }

  lemma {:induction false} FailedGrows(p: Progress, todo: seq<Entry>, world: World, hash: Hash)
    ensures |FetchAll(p, todo, world, hash).failed| >= |p.failed|
    ensures p.crashed ==> FetchAll(p, todo, world, hash) == p
    ensures p.crashed ==> FetchAll(p, todo, world, hash).crashed
    decreases |todo|
  {
    if todo != [] && !p.crashed {
      hide Fetch;
      FailedGrows(FetchOne(p, todo[0], world, hash), todo[1..], world, hash);
    }
  }

  lemma {:induction false} FetchAllPresent(p: Progress, index: Index, todo: seq<Entry>, world: World, hash: Hash)
    requires forall e | e in todo :: e in index
    requires Distinct(index) && !Hazard(index, hash)
    requires OnTrack(p.files, index, todo, hash)
    requires |FetchAll(p, todo, world, hash).failed| == |p.failed| && !FetchAll(p, todo, world, hash).crashed
    ensures AllPresent(FetchAll(p, todo, world, hash).files, index, hash)
    decreases |todo|
  {
    if todo != [] {
      hide Fetch, Hazard, OnTrack;
      var q := FetchOne(p, todo[0], world, hash);
      FailedGrows(p, todo, world, hash);
      FailedGrows(q, todo[1..], world, hash);
      OneMore(p, index, todo, world, hash);
      FetchAllPresent(q, index, todo[1..], world, hash);
    }
  }

  // ----- the cache -----

  lemma PartIsPart(rel: string)
    ensures IsPart(PartOf(rel))
  {
  }

  /** The cache stays true of every path that is not a part file. */
  ghost predicate ServedCacheSound(files: Files, cache: Cache, hash: Hash) {
    CacheSound(files, cache, hash, Served(files))
  }

  lemma FetchOneCache(p: Progress, e: Entry, world: World, hash: Hash)
    requires ServedCacheSound(p.files, p.cache, hash)
    ensures ServedCacheSound(FetchOne(p, e, world, hash).files, FetchOne(p, e, world, hash).cache, hash)
  {
    hide Fetch;
    PartIsPart(e.rel);
    AnyServer(p.files, e.rel, e.meta, world.stamp(e.rel), world.net(e.rel), hash);
  }

  lemma {:induction false} FetchAllCache(p: Progress, todo: seq<Entry>, world: World, hash: Hash)
    requires ServedCacheSound(p.files, p.cache, hash)
    ensures ServedCacheSound(FetchAll(p, todo, world, hash).files, FetchAll(p, todo, world, hash).cache, hash)
    decreases |todo|
  {
    if todo != [] && !p.crashed {
      hide FetchOne, ServedCacheSound;
      FetchOneCache(p, todo[0], world, hash);
      FetchAllCache(FetchOne(p, todo[0], world, hash), todo[1..], world, hash);
    }
  }

  // ----- pruning -----

  lemma {:induction false} FetchAllServed(p: Progress, todo: seq<Entry>, world: World, hash: Hash)
    ensures Served(FetchAll(p, todo, world, hash).files) <= Served(p.files) + Rels(todo)
    decreases |todo|
  {
    if todo != [] && !p.crashed {
      var e := todo[0];
      var q := FetchOne(p, e, world, hash);
      assert Served(q.files) <= Served(p.files) + {e.rel} by {
        hide Fetch;
        PartIsPart(e.rel);
        AnyServer(p.files, e.rel, e.meta, world.stamp(e.rel), world.net(e.rel), hash);
      }
      hide FetchOne;
      FetchAllServed(q, todo[1..], world, hash);
      assert e.rel in Rels(todo);
      assert Rels(todo[1..]) <= Rels(todo);
    }
  }

  // ----- the theorem -----

  lemma SortedTodo(todo: seq<Entry>)
    ensures forall e :: e in BySize(todo) <==> e in todo
  {
    var key := (e: Entry) => e.meta.size;
    SortSame(todo, key);
    SameElements(StableSort(todo, key), todo);
  }

  /** The cache invariant survives every pull, whatever the server, the index and the outcome. */
  lemma PullKeepsCache(files: Files, cache: Cache, index: Index, o: Options, world: World, hash: Hash)
    requires CacheSound(files, cache, hash, Relevant(files, index))
    ensures var r := PullAll(files, cache, index, o, world, hash);
            ServedCacheSound(r.files, r.cache, hash)
  {
    hide FetchAll, Check, Gate, Need, BySize;
    var checked := Check(files, cache, index, hash);
    assert forall e | e in index :: e.rel in Rels(index);
    CheckSound(files, cache, index, hash, Relevant(files, index));
    FetchAllCache(Progress(files, checked.cache, [], false), BySize(checked.todo), world, hash);
  }

  /** Without a hazard in the index, exit code 0 means what it says, and pruning leaves exactly the
      index's served paths. */
  lemma PullInStep(files: Files, cache: Cache, index: Index, o: Options, world: World, hash: Hash)
    requires CacheSound(files, cache, hash, Relevant(files, index))
    requires Distinct(index) && !Hazard(index, hash)
    requires !o.dryRun && PullAll(files, cache, index, o, world, hash).code == 0
    ensures var r := PullAll(files, cache, index, o, world, hash);
            && AllPresent(r.files, index, hash)
            && (o.prune ==> Served(r.files) == set p | p in Rels(index) && !IsPart(p))
  {
    hide FetchAll, Check, Gate, Need, BySize, Hazard, Distinct;
    var checked := Check(files, cache, index, hash);
    assert forall e | e in index :: e.rel in Rels(index);
    CheckSound(files, cache, index, hash, Relevant(files, index));
    var todo := BySize(checked.todo);
    SortedTodo(checked.todo);
    var start := Progress(files, checked.cache, [], false);
    var p := FetchAll(start, todo, world, hash);
    FetchAllPresent(start, index, todo, world, hash);
    FetchAllServed(start, todo, world, hash);
    Pruned(files, p.files, index, todo, o.prune, hash);
  }

  lemma Pruned(files: Files, fetched: Files, index: Index, todo: seq<Entry>, prune: bool, hash: Hash)
    requires AllPresent(fetched, index, hash)
    requires forall e | e in todo :: e in index
    requires Served(fetched) <= Served(files) + Rels(todo)
    ensures var extras := Served(files) - Rels(index);
            var left := if prune then fetched - extras else fetched;
            && AllPresent(left, index, hash)
            && (prune ==> Served(left) == set p | p in Rels(index) && !IsPart(p))
  {
    var extras := Served(files) - Rels(index);
    var left := if prune then fetched - extras else fetched;
    forall e | e in index
      ensures HasEntry(left, e, hash)
    {
      assert e.rel in Rels(index);
      assert HasEntry(fetched, e, hash);
    }
    if prune {
      forall p
        ensures p in Served(left) <==> p in Rels(index) && !IsPart(p)
      {
        if p in Served(left) {
          assert p in Served(fetched);
          if p in Rels(todo) {
            var e :| e in todo && e.rel == p;
            assert e in index;
          }
        }
      }
    }
  }

  // ----- the hazard is real -----

  lemma CheckOnePresent(files: Files, cache: Cache, e: Entry, hash: Hash, paths: set<string>)
    requires CacheSound(files, cache, hash, paths) && e.rel in paths
    requires HasEntry(files, e, hash)
    ensures CheckOne(files, cache, e, hash).todo == []
  {
  }

  lemma SortOne(x: Entry)
    ensures BySize([x]) == [x]
  {
    var key := (e: Entry) => e.meta.size;
    assert [x][1..] == [];
    assert StableSort([x], key) == Insert(x, [], key);
  }

  lemma CheckSnoc(files: Files, cache: Cache, index: Index, hash: Hash)
    requires index != []
    ensures var before := Check(files, cache, index[..|index| - 1], hash);
            Check(files, cache, index, hash).todo
            == before.todo + CheckOne(files, before.cache, index[|index| - 1], hash).todo
  {
    hide CheckOne;
  }

  lemma CheckOneMissing(files: Files, cache: Cache, e: Entry, hash: Hash)
    requires e.rel !in files
    ensures CheckOne(files, cache, e, hash).todo == [e]
  {
  }

  lemma DistinctFront(index: Index)
    requires Distinct(index) && index != []
    ensures Distinct(index[..|index| - 1])
    ensures index[|index| - 1] !in index[..|index| - 1]
    ensures forall e :: e in index <==> e in index[..|index| - 1] || e == index[|index| - 1]
  {
    assert index == index[..|index| - 1] + [index[|index| - 1]];
  }

  lemma {:induction false} CheckFindsOne(files: Files, cache: Cache, index: Index, hash: Hash, x: Entry,
                                         paths: set<string>)
    requires CacheSound(files, cache, hash, paths)
    requires forall e | e in index :: e.rel in paths
    requires x.rel !in files
    requires Distinct(index)
    requires forall e | e in index :: e == x || HasEntry(files, e, hash)
    ensures Check(files, cache, index, hash).todo == if x in index then [x] else []
    decreases |index|
  {
    if index != [] {
      var front, last := index[..|index| - 1], index[|index| - 1];
      DistinctFront(index);
      CheckSnoc(files, cache, index, hash);
      hide CacheSound, HasEntry, Check, CheckOne, Distinct;
      CheckSound(files, cache, front, hash, paths);
      CheckFindsOne(files, cache, front, hash, x, paths);
      var before := Check(files, cache, front, hash);
      if last == x {
        CheckOneMissing(files, before.cache, x, hash);
      } else {
        CheckOnePresent(files, before.cache, last, hash, paths);
      }
    } else {
      assert Check(files, cache, [], hash).todo == [];
    }
  }

  /** A server that sends `more`, whatever it is asked. */
  function Always(more: seq<byte>): World {
    World(rel => (attempts: nat, have: nat) => Stream(206, [more], Closed), rel => 0)
  }

  lemma FetchCompletes(files: Files, x: Entry, more: seq<byte>, hash: Hash)
    requires Fits(x.meta, Kept(files, x.rel, x.meta.size) + more, hash)
    ensures Fetch(files, x.rel, x.meta, 0, Always(more).net(x.rel), hash).outcome.Done?
  {
    var kept := Kept(files, x.rel, x.meta.size);
    assert Flat([more]) == more;
    if |kept| >= x.meta.size {
      assert kept + more == kept;
    }
  }

  lemma {:induction false} GateOpen(index: Index)
    ensures Gate(index) == 0 <==> forall e | e in index :: Inside(e.rel)
  {
    hide Inside, Nameless;
    if index != [] {
      GateOpen(index[1..]);
      assert index == [index[0]] + index[1..];
    }
  }

  /** With everything in place but `x`, and an indexed `d` where the part of `x` goes. */
  lemma PullClobbers(files: Files, index: Index, x: Entry, d: Entry, more: seq<byte>, hash: Hash)
    requires Distinct(index) && x in index && d in index && d.rel == PartOf(x.rel)
    requires forall e | e in index :: Inside(e.rel)
    requires x.rel !in files
    requires forall e | e in index :: e == x || HasEntry(files, e, hash)
    requires Fits(x.meta, Kept(files, x.rel, x.meta.size) + more, hash)
    ensures exists free: int ::
              var r := PullAll(files, map[], index, Options(false, false, free), Always(more), hash);
              r.code == 0 && d.rel !in r.files
  {
    GateOpen(index);
    hide Check, Fetch, Gate, Inside, Always, BySize;
    assert forall e | e in index :: e.rel in Rels(index);
    CheckFindsOne(files, map[], index, hash, x, Rels(index));
    FetchCompletes(files, x, more, hash);
    assert Always(more).stamp(x.rel) == 0 by {
      AlwaysStamp(more, x.rel);
    }
    AnyServer(files, x.rel, x.meta, 0, Always(more).net(x.rel), hash);
    var checked := Check(files, map[], index, hash);
    assert checked.todo == [x];
    SortOne(x);
    assert [x][1..] == [];
    var start := Progress(files, checked.cache, [], false);
    assert FetchAll(start, [x], Always(more), hash) == FetchOne(start, x, Always(more), hash);
    var o := Options(false, false, Need(files, [x]) + HEADROOM);
    var r := PullAll(files, map[], index, o, Always(more), hash);
    assert r.code == 0 && d.rel !in r.files;
  }

  lemma AlwaysStamp(more: seq<byte>, rel: string)
    ensures Always(more).stamp(rel) == 0
  {
  }

  /** Exit code 0 always means in step, from every state and against every server. */
  ghost predicate TrustworthyIndex(index: Index, hash: Hash) {
    forall files: Files, cache: Cache, o: Options, world: World ::
      CacheSound(files, cache, hash, Relevant(files, index)) && !o.dryRun
      && PullAll(files, cache, index, o, world, hash).code == 0
      ==> AllPresent(PullAll(files, cache, index, o, world, hash).files, index, hash)
  }

  /** For an index of real files, exit code 0 can be trusted exactly when no entry sits where the
      part file of another goes and would be destroyed by it. */
  lemma {:induction false} TrustworthyIff(index: Index, hash: Hash, source: string -> seq<byte>)
    requires Distinct(index)
    requires forall e | e in index :: Inside(e.rel) && Fits(e.meta, source(e.rel), hash)
    ensures TrustworthyIndex(index, hash) <==> !Hazard(index, hash)
  {
    hide PullAll, CacheSound, Inside, TrustworthyIndex;
    if Hazard(index, hash) {
      var x, d :| x in index && d in index && Clobbers(x, d, hash);
      HazardBreaks(index, hash, source, x, d);
    } else {
      NoHazardTrustworthy(index, hash);
    }
  }

  lemma NoPartsNoHazard(index: Index, hash: Hash)
    requires forall e | e in index :: !IsPart(e.rel)
    ensures !Hazard(index, hash)
  {
    forall x, d | x in index && d in index
      ensures !Clobbers(x, d, hash)
    {
      PartIsPart(x.rel);
    }
  }

  /** An index that lists no part files, as `checksums` writes it (it lists what is served, and part
      files are not), can always be trusted. */
  lemma ServedIndexTrustworthy(index: Index, hash: Hash, files: Files)
    requires Distinct(index)
    requires forall e | e in index :: e.rel in Served(files)
    ensures TrustworthyIndex(index, hash)
  {
    NoPartsNoHazard(index, hash);
    hide Hazard, PullAll, CacheSound, Served;
    NoHazardTrustworthy(index, hash);
  }

  lemma NoHazardTrustworthy(index: Index, hash: Hash)
    requires Distinct(index) && !Hazard(index, hash)
    ensures TrustworthyIndex(index, hash)
  {
    hide PullAll, CacheSound, Hazard, AllPresent, Distinct;
    forall files: Files, cache: Cache, o: Options, world: World |
      CacheSound(files, cache, hash, Relevant(files, index)) && !o.dryRun
      && PullAll(files, cache, index, o, world, hash).code == 0
      ensures AllPresent(PullAll(files, cache, index, o, world, hash).files, index, hash)
    {
      PullInStep(files, cache, index, o, world, hash);
    }
  }

  /** The content to put in the place of `d`, and what completes `x` from it. */
  lemma Completion(x: Entry, d: Entry, hash: Hash, source: string -> seq<byte>) returns (c: seq<byte>, more: seq<byte>)
    requires Clobbers(x, d, hash)
    requires Fits(x.meta, source(x.rel), hash) && Fits(d.meta, source(d.rel), hash)
    ensures Fits(d.meta, c, hash)
    ensures Fits(x.meta, (if |c| <= x.meta.size then c else []) + more, hash)
  {
    if d.meta.size > x.meta.size {
      c, more := source(d.rel), source(x.rel);
      assert [] + more == more;
    } else {
      c, more :| Fits(d.meta, c, hash) && Fits(x.meta, c + more, hash);
    }
  }

  /** The files at the start: everything in place but `x`, with `c` where the part of `x` goes. */
  function AllBut(index: Index, x: string, d: string, c: seq<byte>, source: string -> seq<byte>): Files {
    map rel | rel in Rels(index) && rel != x :: File(if rel == d then c else source(rel), 0)
  }

  lemma AllButPresent(index: Index, hash: Hash, source: string -> seq<byte>, x: Entry, d: Entry, c: seq<byte>)
    requires Distinct(index) && x in index && d in index && x.rel != d.rel && Fits(d.meta, c, hash)
    requires forall e | e in index :: Fits(e.meta, source(e.rel), hash)
    ensures var files := AllBut(index, x.rel, d.rel, c, source);
            && x.rel !in files
            && d.rel in files && files[d.rel].content == c
            && forall e | e in index :: e == x || HasEntry(files, e, hash)
  {
    var files := AllBut(index, x.rel, d.rel, c, source);
    assert d.rel in Rels(index);
    forall e | e in index
      ensures e == x || HasEntry(files, e, hash)
    {
      assert e.rel in Rels(index);
      SameEntry(index, e, x);
      SameEntry(index, e, d);
    }
  }

  lemma SameEntry(index: Index, e: Entry, f: Entry)
    requires Distinct(index) && e in index && f in index
    ensures e.rel == f.rel ==> e == f
  {
  }

  /** One pull from a true cache that returns 0 without `d` is enough. */
  lemma NotTrustworthy(files: Files, index: Index, o: Options, world: World, hash: Hash, d: Entry)
    requires d in index && !o.dryRun
    requires var r := PullAll(files, map[], index, o, world, hash); r.code == 0 && d.rel !in r.files
    ensures !TrustworthyIndex(index, hash)
  {
    hide PullAll, Served;
    assert CacheSound(files, map[], hash, Relevant(files, index));
    assert !HasEntry(PullAll(files, map[], index, o, world, hash).files, d, hash);
  }

  lemma HazardBreaks(index: Index, hash: Hash, source: string -> seq<byte>, x: Entry, d: Entry)
    requires Distinct(index) && x in index && d in index && Clobbers(x, d, hash)
    requires forall e | e in index :: Inside(e.rel) && Fits(e.meta, source(e.rel), hash)
    ensures !TrustworthyIndex(index, hash)
  {
    var c, more := Completion(x, d, hash, source);
    PartIsAnother(x.rel);
    assert d.rel == PartOf(x.rel);
    hide PullAll, Inside, Clobbers, Always, AllBut, HasEntry, Distinct, TrustworthyIndex;
    var files := AllBut(index, x.rel, d.rel, c, source);
    AllButPresent(index, hash, source, x, d, c);
    PullClobbers(files, index, x, d, more, hash);
    var free: int :| var r := PullAll(files, map[], index, Options(false, false, free), Always(more), hash);
                     r.code == 0 && d.rel !in r.files;
    NotTrustworthy(files, index, Options(false, false, free), Always(more), hash, d);
  }
}
