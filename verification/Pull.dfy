/** `cmd_pull` of api/sync-package-repo.py: bring the local repository in step with an index. */
module Pull {
  import opened Bytes
  import opened Text
  import opened Sorting
  import opened Download

  datatype Entry = Entry(rel: string, meta: Meta)

  /** The index, its entries sorted by path as `checksums` writes them. */
  type Index = seq<Entry>

  /** What fetching the index comes to: one of the errors that is reported, another one (an HTTP error
      that is not caught, or an answer without a list of files), or the index. */
  datatype IndexRead = Unreadable | Uncaught | Indexed(index: Index)

  datatype CacheEntry = CacheEntry(size: nat, mtime: nat, sha: string)

  type Cache = map<string, CacheEntry>

  datatype Options = Options(dryRun: bool, prune: bool, free: int)

  /** What the outside decides: each path's connections and the time stamp of its download. */
  datatype World = World(net: string -> Network, stamp: string -> nat)

  const HEADROOM := 20 * 1024 * 1024 * 1024

  datatype Result = Result(code: nat, files: Files, cache: Cache)

  // ----- paths -----

  /** `Path(rel).parts`: the components, without empty ones and single dots. */
  function Parts(rel: string): seq<string> {
    RealParts(Split(rel, '/'))
  }

  function RealParts(parts: seq<string>): seq<string> {
    if parts == [] then []
    else if parts[0] == "" || parts[0] == "." then RealParts(parts[1..])
    else [parts[0]] + RealParts(parts[1..])
  }

  /** A path of the served directories. */
  predicate Inside(rel: string) {
    var parts := Parts(rel);
    && !(|rel| > 0 && rel[0] == '/') && ".." !in parts && parts != []
    && (parts[0] == "apt-repo" || parts[0] == "artifacts")
  }

  /** A path without any component, whose first one the program looks at all the same. */
  predicate Nameless(rel: string) {
    !(|rel| > 0 && rel[0] == '/') && Parts(rel) == []
  }

  /** The first entry that is not inside decides: it is refused with exit code 2, or it raises an uncaught
      `IndexError`, which makes the interpreter exit with 1. 0 when there is none. */
  function Gate(index: Index): nat {
    if index == [] then 0
    else if Inside(index[0].rel) then Gate(index[1..])
    else if Nameless(index[0].rel) then 1
    else 2
  }

  predicate IsPart(rel: string) {
    |rel| >= 5 && rel[|rel| - 5..] == ".part"
  }

  /** `served_files`: everything but part files. */
  function Served(files: Files): set<string> {
    set p | p in files && !IsPart(p)
  }

  function Rels(index: Index): set<string> {
    set e | e in index :: e.rel
  }

  // ----- checking what is here -----

  datatype Digested = Digested(sha: string, cache: Cache)

  /** `cached_sha`: the cached hash when size and time still match, else a fresh one. */
  function CachedSha(files: Files, rel: string, cache: Cache, hash: Hash): Digested
    requires rel in files
  {
    var f := files[rel];
    if rel in cache && cache[rel].size == |f.content| && cache[rel].mtime == f.mtime then
      Digested(cache[rel].sha, cache)
    else Digested(hash(f.content), cache[rel := CacheEntry(|f.content|, f.mtime, hash(f.content))])
  }

  datatype Checked = Checked(todo: seq<Entry>, cache: Cache)

  function CheckOne(files: Files, cache: Cache, e: Entry, hash: Hash): Checked {
    if e.rel in files && |files[e.rel].content| == e.meta.size then
      var d := CachedSha(files, e.rel, cache, hash);
      Checked(if d.sha == e.meta.sha then [] else [e], d.cache)
    else Checked([e], cache)
  }

  function Check(files: Files, cache: Cache, index: Index, hash: Hash): Checked {
    if index == [] then Checked([], cache)
    else
      var before := Check(files, cache, index[..|index| - 1], hash);
      var last := CheckOne(files, before.cache, index[|index| - 1], hash);
      Checked(before.todo + last.todo, last.cache)
  }

  function Need(files: Files, todo: seq<Entry>): int {
    if todo == [] then 0
    else
      var part := PartOf(todo[0].rel);
      todo[0].meta.size - (if part in files then |files[part].content| else 0) + Need(files, todo[1..])
  }

  // ----- fetching -----

  /** `crashed` says that an error went past every handler and ended the program. */
  datatype Progress = Progress(files: Files, cache: Cache, failed: seq<string>, crashed: bool)

  function FetchOne(p: Progress, e: Entry, world: World, hash: Hash): Progress {
    var r := Fetch(p.files, e.rel, e.meta, world.stamp(e.rel), world.net(e.rel), hash);
    if r.outcome.Done? && e.rel in r.files then
      Progress(r.files,
               p.cache[e.rel := CacheEntry(|r.files[e.rel].content|, r.files[e.rel].mtime, e.meta.sha)],
               p.failed, p.crashed)
    else if r.outcome.Crashed? then Progress(r.files, p.cache, p.failed, true)
    else Progress(r.files, p.cache, p.failed + [e.rel], p.crashed)
  }

  function FetchAll(p: Progress, todo: seq<Entry>, world: World, hash: Hash): Progress
    decreases |todo|
  {
    if todo == [] || p.crashed then p else FetchAll(FetchOne(p, todo[0], world, hash), todo[1..], world, hash)
  }

  function BySize(todo: seq<Entry>): seq<Entry> {
    StableSort(todo, (e: Entry) => e.meta.size)
  }

  // ----- the command -----

  /** `cmd_pull`, once the index has been read. */
  function PullAll(files: Files, cache: Cache, index: Index, o: Options, world: World, hash: Hash): Result {
    var gate := Gate(index);
    if gate != 0 then Result(gate, files, cache)
    else
      var checked := Check(files, cache, index, hash);
      if Need(files, checked.todo) + HEADROOM > o.free then Result(3, files, checked.cache)
      else if o.dryRun then Result(0, files, checked.cache)
      else
        var extras := Served(files) - Rels(index);
        var p := FetchAll(Progress(files, checked.cache, [], false), BySize(checked.todo), world, hash);
        Result(if p.failed == [] && !p.crashed then 0 else 1,
               if o.prune && !p.crashed then p.files - extras else p.files,
               if o.prune && !p.crashed then p.cache - extras else p.cache)
  }

  class Repository {
    const store: Store
    var cache: Cache

    constructor (store: Store, cache: Cache)
      ensures this.store == store && this.cache == cache
    {
      this.store, this.cache := store, cache;
    }

    /** The loop over the paths, before anything is touched. */
    method CheckPaths(index: Index) returns (code: nat)
      ensures code == Gate(index)
    {
      hide Inside, Nameless;
      for i := 0 to |index|
        invariant Gate(index) == Gate(index[i..])
      {
        var rel := index[i].rel;
        assert index[i..][0].rel == rel && index[i..][1..] == index[i + 1..];
        if !Inside(rel) {
          return if Nameless(rel) then 1 else 2;
        }
      }
      code := 0;
    }

    /** The loop that checks what is here. */
    method CheckFiles(index: Index, hash: Hash) returns (todo: seq<Entry>)
      modifies this`cache
      ensures Checked(todo, cache) == Check(store.files, old(cache), index, hash)
    {
      todo := [];
      for i := 0 to |index|
        invariant Checked(todo, cache) == Check(store.files, old(cache), index[..i], hash)
      {
        assert index[..i + 1][..i] == index[..i];
        var e := index[i];
        var ok := false;
        if e.rel in store.files && |store.files[e.rel].content| == e.meta.size {
          var d := CachedSha(store.files, e.rel, cache, hash);
          cache := d.cache;
          ok := d.sha == e.meta.sha;
        }
        if !ok {
          todo := todo + [e];
        }
      }
      assert index[..|index|] == index;
    }

    /** The second loop: downloads one by one, recording each verified file in the cache. */
    method FetchFiles(todo: seq<Entry>, world: World, hash: Hash) returns (failed: seq<string>, crashed: bool)
      modifies this`cache, store
      ensures Progress(store.files, cache, failed, crashed)
           == FetchAll(Progress(old(store.files), old(cache), [], false), todo, world, hash)
    {
      hide Fetch;
      failed, crashed := [], false;
      var i := 0;
      while i < |todo| && !crashed
        invariant 0 <= i <= |todo|
        invariant FetchAll(Progress(old(store.files), old(cache), [], false), todo, world, hash)
               == FetchAll(Progress(store.files, cache, failed, crashed), todo[i..], world, hash)
      {
        var e := todo[i];
        assert todo[i..][0] == e && todo[i..][1..] == todo[i + 1..];
        var outcome, _ := store.Download(e.rel, e.meta, world.stamp(e.rel), world.net(e.rel), hash);
        if outcome.Done? && e.rel in store.files {
          var f := store.files[e.rel];
          cache := cache[e.rel := CacheEntry(|f.content|, f.mtime, e.meta.sha)];
        } else if outcome.Crashed? {
          crashed := true;
        } else {
          failed := failed + [e.rel];
        }
        i := i + 1;
      }
    }

    /** `cmd_pull`. An uncaught error makes the interpreter exit with 1. */
    method Run(fetched: IndexRead, o: Options, world: World, hash: Hash) returns (code: nat)
      modifies this`cache, store
      ensures Result(code, store.files, cache)
           == match fetched
              case Unreadable => Result(2, old(store.files), old(cache))
              case Uncaught => Result(1, old(store.files), old(cache))
              case Indexed(index) => PullAll(old(store.files), old(cache), index, o, world, hash)
    {
      hide Check, FetchAll, Gate, Need;
      if fetched.Unreadable? {
        return 2;
      }
      if fetched.Uncaught? {
        return 1;
      }
      var index := fetched.index;
      code := CheckPaths(index);
      if code != 0 {
        return;
      }
      var todo := CheckFiles(index, hash);
      if Need(store.files, todo) + HEADROOM > o.free {
        return 3;
      }
      if o.dryRun {
        return 0;
      }
      var extras := Served(store.files) - Rels(index);
      var failed, crashed := FetchFiles(BySize(todo), world, hash);
      if crashed {
        return 1;
      }
      if o.prune {
        store.files := store.files - extras;
        cache := cache - extras;
      }
      code := if failed == [] then 0 else 1;
    }
  }
}
