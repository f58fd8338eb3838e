/** `download` of api/sync-package-repo.py: a resumable transfer into `<dest>.part`, verified before
    it replaces `dest`. Connections may fail or break anywhere; a write to the part file either
    completes or does nothing. */
module Download {
  import opened Bytes
  import opened HttpRange

  datatype File = File(content: seq<byte>, mtime: nat)

  type Files = map<string, File>

  /** The size and hash that the source's index promises for a path. */
  datatype Meta = Meta(size: nat, sha: string)

  /** A hash function, as it is used here: any function of the content. */
  type Hash = seq<byte> -> string

  predicate Fits(m: Meta, content: seq<byte>, hash: Hash) {
    |content| == m.size && hash(content) == m.sha
  }

  function PartOf(rel: string): string {
    rel + ".part"
  }

  // ----- one connection -----

  /** How a stream ends: closed or broken in a way that the client's handler takes for an error of the
      transfer, or by an `http.client.HTTPException`, which nothing in the client catches. */
  datatype StreamEnd = Closed | HttpError

  /** What one connection brings: an error before any body (a refused request included), an uncaught
      HTTP error in its place, or a status and the chunks read before the stream ended. */
  datatype Connection = Failed | BadResponse | Stream(status: nat, chunks: seq<seq<byte>>, end: StreamEnd)

  /** The network: what the connection brings that follows `attempts` unfinished ones, asked for
      the bytes from `have` on. */
  type Network = (nat, nat) -> Connection

  /** The client reads the stream only if it is asked from the start or the server honours the range. */
  predicate Reads(c: Connection, have: nat) {
    c.Stream? && (have == 0 || c.status == 206)
  }

  /** The bytes appended to the part file by one connection. */
  function Received(c: Connection, have: nat): seq<byte> {
    if Reads(c, have) then Flat(c.chunks) else []
  }

  /** Whether the connection ends the program. */
  predicate Crashes(c: Connection, have: nat) {
    c.BadResponse? || (Reads(c, have) && c.end.HttpError?)
  }

  const MAX_RETRIES := 5

  datatype TransferEnd = Enough | RetriesUsed | Uncaught

  datatype Transfer = Transfer(part: seq<byte>, connections: nat, end: TransferEnd)

  /** Connections until the part is long enough, the retries are used up, or one ends the program. */
  function Attempts(part: seq<byte>, size: nat, attempts: nat, net: Network): Transfer
    requires attempts <= MAX_RETRIES
    decreases MAX_RETRIES - attempts
  {
    if |part| >= size then Transfer(part, attempts, Enough)
    else
      var c := net(attempts, |part|);
      var longer := part + Received(c, |part|);
      if Crashes(c, |part|) then Transfer(longer, attempts + 1, Uncaught)
      else if |longer| >= size then Transfer(longer, attempts + 1, Enough)
      else if attempts == MAX_RETRIES then Transfer(longer, attempts + 1, RetriesUsed)
      else Attempts(longer, size, attempts + 1, net)
  }

  datatype Outcome = Done | GaveUp | Mismatch | Crashed

  datatype Fetched = Fetched(files: Files, outcome: Outcome)

  /** What is kept of an earlier part file: all of it, unless it is already too long. */
  function Kept(files: Files, rel: string, size: nat): seq<byte> {
    var part := PartOf(rel);
    if part in files && |files[part].content| <= size then files[part].content else []
  }

  /** The files after `download`; `stamp` is the modification time of what it wrote. */
  function Fetch(files: Files, rel: string, m: Meta, stamp: nat, net: Network, hash: Hash): Fetched {
    var part := PartOf(rel);
    var t := Attempts(Kept(files, rel, m.size), m.size, 0, net);
    if !t.end.Enough? then
      Fetched(files[part := File(t.part, stamp)], if t.end.Uncaught? then Crashed else GaveUp)
    else if !Fits(m, t.part, hash) then Fetched(files - {part}, Mismatch)
    else Fetched((files - {part})[rel := File(t.part, stamp)], Done)
  }

  lemma PartReplaced(files: Files, part: string, f: File)
    ensures files[part := f] - {part} == files - {part}
    ensures (files - {part})[part := f] == files[part := f]
  {
  }

  class Store {
    var files: Files

    constructor (files: Files)
      ensures this.files == files
    {
      this.files := files;
    }

    /** The body of one connection: each chunk goes to the part file, the hash and `have` together. */
    method Append(part: string, have: nat, hashed: seq<byte>, c: Connection, stamp: nat)
        returns (have': nat, hashed': seq<byte>, crashed: bool)
      requires part in files && files[part] == File(hashed, stamp) && have == |hashed|
      modifies this
      ensures hashed' == hashed + Received(c, have) && have' == |hashed'|
      ensures crashed == Crashes(c, have)
      ensures files == old(files)[part := File(hashed', stamp)]
    {
      have', hashed', crashed := have, hashed, c.BadResponse?;
      if !c.Stream? || (have > 0 && c.status != 206) {
        return;
      }
      var i := 0;
      while i < |c.chunks|
        invariant 0 <= i <= |c.chunks|
        invariant hashed' == hashed + Flat(c.chunks[..i]) && have' == |hashed'|
        invariant files == old(files)[part := File(hashed', stamp)]
      {
        FlatSnoc(c.chunks[..i], c.chunks[i]);
        assert c.chunks[..i] + [c.chunks[i]] == c.chunks[..i + 1];
        assert hashed' + c.chunks[i] == hashed + (Flat(c.chunks[..i]) + c.chunks[i]);
        files := files[part := File(files[part].content + c.chunks[i], stamp)];
        hashed' := hashed' + c.chunks[i];
        have' := have' + |c.chunks[i]|;
        i := i + 1;
      }
      assert c.chunks[..|c.chunks|] == c.chunks;
      crashed := c.end.HttpError?;
    }

    /** The retry loop of `download`, from a part file that `have` and the hash agree with. */
    method Transmit(part: string, start: seq<byte>, size: nat, stamp: nat, net: Network)
        returns (hashed: seq<byte>, connections: nat, end: TransferEnd)
      requires part in files && files[part] == File(start, stamp)
      modifies this
      ensures Attempts(start, size, 0, net) == Transfer(hashed, connections, end)
      ensures connections <= MAX_RETRIES + 1
      ensures files == old(files)[part := File(hashed, stamp)]
    {
      hide Received, Crashes;
      hashed, connections, end := start, 0, Enough;
      var have, attempts := |start|, 0;
      while have < size
        invariant files == old(files)[part := File(hashed, stamp)]
        invariant have == |hashed| && end == Enough
        invariant attempts <= MAX_RETRIES && connections <= MAX_RETRIES + 1
        invariant have < size ==> connections == attempts
        invariant have < size ==> Attempts(start, size, 0, net) == Attempts(hashed, size, attempts, net)
        invariant have >= size ==> Attempts(start, size, 0, net) == Transfer(hashed, connections, Enough)
        decreases size - have, MAX_RETRIES - attempts
      {
        var crashed;
        have, hashed, crashed := Append(part, have, hashed, net(attempts, have), stamp);
        connections := connections + 1;
        if crashed {
          end := Uncaught;
          return;
        }
        if have < size {
          if attempts == MAX_RETRIES {
            end := RetriesUsed;
            return;
          }
          attempts := attempts + 1;
        }
      }
    }

    /** What `download` does before its first connection: a part that is too long is thrown away, and
        the part file is touched. */
    method Prepare(rel: string, size: nat, stamp: nat) returns (start: seq<byte>)
      modifies this
      ensures start == Kept(old(files), rel, size)
      ensures files == old(files)[PartOf(rel) := File(start, stamp)]
    {
      var part := PartOf(rel);
      var have := if part in files then |files[part].content| else 0;
      if have > size {
        files := files - {part};
        have := 0;
      }
      start := if have > 0 then files[part].content else [];
      PartReplaced(old(files), part, File(start, stamp));
      files := files[part := File(start, stamp)];
    }

    /** `download`. */
    method Download(rel: string, m: Meta, stamp: nat, net: Network, hash: Hash)
        returns (outcome: Outcome, connections: nat)
      modifies this
      ensures Fetched(files, outcome) == Fetch(old(files), rel, m, stamp, net, hash)
      ensures connections == Attempts(Kept(old(files), rel, m.size), m.size, 0, net).connections
      ensures connections <= MAX_RETRIES + 1
    {
      hide Attempts, PartOf, Kept;
      ghost var before, part := files, PartOf(rel);
      var start := Prepare(rel, m.size, stamp);
      var hashed, end;
      hashed, connections, end := Transmit(PartOf(rel), start, m.size, stamp, net);
      assert files == before[part := File(hashed, stamp)];
      if !end.Enough? {
        return if end.Uncaught? then Crashed else GaveUp, connections;
      }
      PartReplaced(before, part, File(hashed, stamp));
      if |hashed| != m.size || hash(hashed) != m.sha {
        files := files - {PartOf(rel)};
        return Mismatch, connections;
      }
      files := (files - {PartOf(rel)})[rel := files[PartOf(rel)]];
      outcome := Done;
    }
  }
}
