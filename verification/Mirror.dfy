/** What a transfer of api/sync-package-repo.py achieves, against any server and against the one in
    api/serve-package-repo.py. */
module Mirror {
  import opened Bytes
  import opened HttpRange
  import opened Download

  lemma PartIsAnother(rel: string)
    ensures PartOf(rel) != rel
  {
    assert |PartOf(rel)| == |rel| + 5;
  }

  /** Whatever the server sends: `dest` is replaced only by content of the indexed size and hash,
      no file but `dest` and its part changes, and the part is left behind only to be resumed. */
  lemma AnyServer(files: Files, rel: string, m: Meta, stamp: nat, net: Network, hash: Hash)
    ensures var r := Fetch(files, rel, m, stamp, net, hash);
            && (r.outcome.Done? ==> rel in r.files && Fits(m, r.files[rel].content, hash))
            && (!r.outcome.Done? ==>
                  (rel in r.files <==> rel in files) && (rel in files ==> r.files[rel] == files[rel]))
            && (forall p | p != rel && p != PartOf(rel) ::
                  (p in r.files <==> p in files) && (p in files ==> r.files[p] == files[p]))
            && (PartOf(rel) in r.files <==> r.outcome.GaveUp? || r.outcome.Crashed?)
  {
    PartIsAnother(rel);
    hide Attempts;
  }

  lemma {:induction false} AttemptsGrow(part: seq<byte>, size: nat, attempts: nat, net: Network)
    requires attempts <= MAX_RETRIES
    ensures var t := Attempts(part, size, attempts, net);
            && part <= t.part
            && (t.end.RetriesUsed? ==> |t.part| < size && t.connections == MAX_RETRIES + 1)
            && (t.end.Enough? ==> |t.part| >= size)
            && attempts <= t.connections <= MAX_RETRIES + 1
    decreases MAX_RETRIES - attempts
  {
    if |part| < size && attempts < MAX_RETRIES {
      AttemptsGrow(part + Received(net(attempts, |part|), |part|), size, attempts + 1, net);
    }
  }

  /** Giving up loses nothing, and neither does an uncaught error as long as no more was sent than the
      index says: the next run starts from every byte received so far. */
  lemma NextRunResumes(files: Files, rel: string, m: Meta, stamp: nat, net: Network, hash: Hash)
    requires var r := Fetch(files, rel, m, stamp, net, hash);
             r.outcome.GaveUp? || (r.outcome.Crashed? && |r.files[PartOf(rel)].content| <= m.size)
    ensures var left := Kept(Fetch(files, rel, m, stamp, net, hash).files, rel, m.size);
            && left == Attempts(Kept(files, rel, m.size), m.size, 0, net).part
            && Kept(files, rel, m.size) <= left
  {
    AttemptsGrow(Kept(files, rel, m.size), m.size, 0, net);
    hide Attempts;
  }

  // ----- connection by connection -----

  /** Where a transfer stands after connection number `attempts` has left `part` behind and ended in a way
      that the client handles: finished, given up after the sixth connection, or connecting again. */
  function GoesOn(part: seq<byte>, size: nat, attempts: nat, net: Network): Transfer
    requires attempts <= 5
  {
    if |part| >= size then Transfer(part, attempts + 1, Enough)
    else if attempts == 5 then Transfer(part, 6, RetriesUsed)
    else Attempts(part, size, attempts + 1, net)
  }

  /** What each kind of connection does to the part file and to the program. A reply to a range request
      that has another status than 206 is not read: the part stays, and the program goes on. */
  lemma ConnectionStep(part: seq<byte>, size: nat, attempts: nat, net: Network)
    requires |part| < size && attempts <= 5
    ensures var c := net(attempts, |part|);
            Attempts(part, size, attempts, net)
            == if c.Failed? then GoesOn(part, size, attempts, net)
               else if c.BadResponse? then Transfer(part, attempts + 1, Uncaught)
               else if part != [] && c.status != 206 then GoesOn(part, size, attempts, net)
               else if c.end.HttpError? then Transfer(part + Flat(c.chunks), attempts + 1, Uncaught)
               else GoesOn(part + Flat(c.chunks), size, attempts, net)
  {
    assert part + [] == part;
  }

  /** The connection was refused or lost, or the server ignored the range. */
  predicate Ignored(c: Connection) {
    c.Failed? || (c.Stream? && c.status != 206)
  }

  lemma {:induction false} IgnoredAttempts(part: seq<byte>, size: nat, attempts: nat, net: Network)
    requires 0 < |part| < size && attempts <= 5
    requires forall k: nat | k <= 5 :: Ignored(net(k, |part|))
    ensures Attempts(part, size, attempts, net) == Transfer(part, 6, RetriesUsed)
    decreases 5 - attempts
  {
    ConnectionStep(part, size, attempts, net);
    assert Ignored(net(attempts, |part|));
    hide Attempts;
    if attempts < 5 {
      IgnoredAttempts(part, size, attempts + 1, net);
    }
  }

  /** A server that never honours the range, whatever it sends instead: six connections are made, the
      download is given up, and the part file still holds exactly the bytes it held. */
  lemma RangeIgnored(files: Files, rel: string, m: Meta, stamp: nat, net: Network, hash: Hash)
    requires rel + ".part" in files && 0 < |files[rel + ".part"].content| < m.size
    requires forall k: nat | k <= 5 :: Ignored(net(k, |files[rel + ".part"].content|))
    ensures var kept := files[rel + ".part"].content;
            && Attempts(kept, m.size, 0, net).connections == 6
            && Fetch(files, rel, m, stamp, net, hash) == Fetched(files[rel + ".part" := File(kept, stamp)], GaveUp)
  {
    IgnoredAttempts(files[rel + ".part"].content, m.size, 0, net);
    hide Attempts, Fits;
  }

  /** Such a server: the whole file with status 200, to a client that holds five bytes of ten. Nothing of
      it is appended. */
  lemma WholeFileOnResume(rel: string, sha: string, old5: seq<byte>, whole: seq<byte>, hash: Hash)
    requires |old5| == 5 && |whole| == 10
    ensures Fetch(map[rel + ".part" := File(old5, 0)], rel, Meta(10, sha), 1,
                  (attempts, have) => Stream(200, [whole], Closed), hash)
         == Fetched(map[rel + ".part" := File(old5, 1)], GaveUp)
  {
    var files := map[rel + ".part" := File(old5, 0)];
    RangeIgnored(files, rel, Meta(10, sha), 1, (attempts, have) => Stream(200, [whole], Closed), hash);
    assert files[rel + ".part" := File(old5, 1)] == map[rel + ".part" := File(old5, 1)];
    hide Fetch;
  }

  /** One connection that brings what is missing, with status 206 when a part was kept and with any status
      when nothing was: the outcome is decided by the size and hash of old and new bytes together. */
  lemma OneConnection(files: Files, rel: string, m: Meta, stamp: nat, net: Network, hash: Hash)
    requires var have := if rel + ".part" in files then |files[rel + ".part"].content| else 0;
             var kept := if 0 < have <= m.size then files[rel + ".part"].content else [];
             var c := net(0, |kept|);
             && |kept| < m.size && c.Stream? && c.end.Closed? && (kept != [] ==> c.status == 206)
             && |kept + Flat(c.chunks)| >= m.size
    ensures var have := if rel + ".part" in files then |files[rel + ".part"].content| else 0;
            var kept := if 0 < have <= m.size then files[rel + ".part"].content else [];
            var all := kept + Flat(net(0, |kept|).chunks);
            Fetch(files, rel, m, stamp, net, hash)
            == if |all| == m.size && hash(all) == m.sha
               then Fetched((files - {rel + ".part"})[rel := File(all, stamp)], Done)
               else Fetched(files - {rel + ".part"}, Mismatch)
  {
    var kept := Kept(files, rel, m.size);
    ConnectionStep(kept, m.size, 0, net);
    hide Attempts;
  }

  // ----- errors that nothing catches -----

  /** The bytes held before connection `k`, when every connection is asked from what is held by then. */
  function Held(part: seq<byte>, net: Network, k: nat): seq<byte> {
    if k == 0 then part
    else
      var before := Held(part, net, k - 1);
      before + Received(net(k - 1, |before|), |before|)
  }

  /** Connection `k` is made and ends the program: those before it were short and did not. */
  ghost predicate CrashesAt(part: seq<byte>, size: nat, net: Network, k: nat) {
    && (forall j | 0 <= j <= k :: |Held(part, net, j)| < size)
    && (forall j | 0 <= j < k :: !Crashes(net(j, |Held(part, net, j)|), |Held(part, net, j)|))
    && Crashes(net(k, |Held(part, net, k)|), |Held(part, net, k)|)
  }

  /** The same from connection `from` on. */
  lemma {:induction false} UncaughtFrom(part: seq<byte>, size: nat, net: Network, from: nat)
    requires from <= MAX_RETRIES
    requires forall j | 0 <= j < from :: |Held(part, net, j)| < size
    requires forall j | 0 <= j < from :: !Crashes(net(j, |Held(part, net, j)|), |Held(part, net, j)|)
    ensures Attempts(Held(part, net, from), size, from, net).end.Uncaught?
       <==> exists k: nat | from <= k <= MAX_RETRIES :: CrashesAt(part, size, net, k)
    decreases MAX_RETRIES - from
  {
    hide Received, Crashes;
    var held := Held(part, net, from);
    var c := net(from, |held|);
    if |held| >= size {
      assert forall k: nat | from <= k :: !CrashesAt(part, size, net, k);
    } else if Crashes(c, |held|) {
      assert CrashesAt(part, size, net, from);
    } else {
      assert !CrashesAt(part, size, net, from);
      assert Held(part, net, from + 1) == held + Received(c, |held|);
      NextHeld(part, size, net, from);
      if from < MAX_RETRIES {
        UncaughtFrom(part, size, net, from + 1);
      }
    }
  }

  lemma NextHeld(part: seq<byte>, size: nat, net: Network, from: nat)
    ensures |Held(part, net, from + 1)| >= size ==> forall k: nat | from < k :: !CrashesAt(part, size, net, k)
  {
    hide Held, Crashes;
  }

  /** A transfer is ended by an uncaught error exactly when one of its six connections raises one, after
      others that were short and did not. */
  lemma UncaughtIff(part: seq<byte>, size: nat, net: Network)
    ensures Attempts(part, size, 0, net).end.Uncaught?
       <==> exists k: nat | k <= MAX_RETRIES :: CrashesAt(part, size, net, k)
  {
    hide CrashesAt, Attempts;
    UncaughtFrom(part, size, net, 0);
  }

  /** So a download ends the program exactly when a connection that it makes, asked from the bytes that
      it holds by then, raises such an error. */
  lemma CrashedIff(files: Files, rel: string, m: Meta, stamp: nat, net: Network, hash: Hash)
    ensures Fetch(files, rel, m, stamp, net, hash).outcome.Crashed?
       <==> exists k: nat | k <= MAX_RETRIES :: CrashesAt(Kept(files, rel, m.size), m.size, net, k)
  {
    hide CrashesAt, Attempts, Kept, Fits;
    UncaughtIff(Kept(files, rel, m.size), m.size, net);
  }

  /** Such a server: a malformed status line on the first connection. The part is left as it was. */
  lemma MalformedStatusCrashes(files: Files, rel: string, m: Meta, stamp: nat, hash: Hash)
    requires |Kept(files, rel, m.size)| < m.size
    ensures var r := Fetch(files, rel, m, stamp, (attempts, have) => BadResponse, hash);
            r.outcome.Crashed? && r.files == files[PartOf(rel) := File(Kept(files, rel, m.size), stamp)]
  {
    hide Kept;
    var kept := Kept(files, rel, m.size);
    assert kept + [] == kept;
  }

  // ----- an honest server -----

  /** The connection failed, or it carried what the server of the model sends for this request, cut
      short anywhere; its HTTP is in order. */
  ghost predicate HonestConnection(content: seq<byte>, have: nat, c: Connection) {
    var reply := Answer(ResumeHeader(have), |content|);
    match c
    case Failed => true
    case BadResponse => false
    case Stream(status, chunks, end) => end.Closed? && status == Status(reply) && Flat(chunks) <= Body(reply, content)
  }

  ghost predicate HonestNetwork(content: seq<byte>, net: Network) {
    forall attempts: nat, have: nat | have < |content| :: HonestConnection(content, have, net(attempts, have))
  }

  lemma {:induction false} FlatPrefix(chunks: seq<seq<byte>>, k: nat)
    requires k <= |chunks|
    ensures Flat(chunks[..k]) <= Flat(chunks)
  {
    FlatAppend(chunks[..k], chunks[k..]);
    assert chunks == chunks[..k] + chunks[k..];
  }

  /** While a connection is open, after every chunk, the part file is a prefix of the served file. */
  lemma PrefixAfterEveryChunk(content: seq<byte>, part: seq<byte>, c: Connection, k: nat)
    requires part <= content && |part| < |content|
    requires HonestConnection(content, |part|, c)
    requires c.Stream? && k <= |c.chunks|
    ensures part + Flat(c.chunks[..k]) <= content
    ensures part + Received(c, |part|) <= content
    ensures Received(c, |part|) == Flat(c.chunks) && !Crashes(c, |part|)
  {
    ResumeGetsTheRest(content, |part|);
    hide Answer, Body, Status;
    FlatPrefix(c.chunks, k);
    PrefixPlus(content, part, Flat(c.chunks));
    PrefixPlus(content, part, Flat(c.chunks[..k]));
  }

  lemma PrefixPlus(content: seq<byte>, part: seq<byte>, more: seq<byte>)
    requires part <= content && more <= content[|part|..]
    ensures part + more <= content
  {
    assert content == part + content[|part|..];
  }

  lemma HonestFailure(content: seq<byte>, part: seq<byte>, c: Connection)
    requires HonestConnection(content, |part|, c) && !c.Stream?
    ensures part + Received(c, |part|) == part && !Crashes(c, |part|)
  {
  }

  lemma {:induction false} HonestAttempts(content: seq<byte>, part: seq<byte>, attempts: nat, net: Network)
    requires HonestNetwork(content, net)
    requires part <= content
    requires attempts <= MAX_RETRIES
    ensures Attempts(part, |content|, attempts, net).part <= content
    ensures !Attempts(part, |content|, attempts, net).end.Uncaught?
    decreases MAX_RETRIES - attempts
  {
    hide HonestConnection;
    if |part| < |content| {
      var c := net(attempts, |part|);
      var longer := part + Received(c, |part|);
      assert HonestConnection(content, |part|, c);
      assert longer <= content && !Crashes(c, |part|) by {
        if c.Stream? {
          PrefixAfterEveryChunk(content, part, c, 0);
        } else {
          HonestFailure(content, part, c);
        }
      }
      hide Received, Crashes;
      if attempts < MAX_RETRIES {
        HonestAttempts(content, longer, attempts + 1, net);
      }
    }
  }

  /** Against an honest server, with connections dropping anywhere and a part file left by an
      earlier honest run: a checksum never fails, success installs exactly the served file, and
      giving up leaves a prefix of it. */
  lemma {:induction false} HonestServer(files: Files, rel: string, m: Meta, stamp: nat, net: Network, hash: Hash,
                                        content: seq<byte>)
    requires Fits(m, content, hash)
    requires HonestNetwork(content, net)
    requires Kept(files, rel, m.size) <= content
    ensures var r := Fetch(files, rel, m, stamp, net, hash);
            && !r.outcome.Mismatch? && !r.outcome.Crashed?
            && (r.outcome.Done? ==> r.files[rel] == File(content, stamp))
            && (r.outcome.GaveUp? ==> r.files[PartOf(rel)].content <= content)
  {
    hide Attempts, HonestNetwork;
    var start := Kept(files, rel, m.size);
    HonestAttempts(content, start, 0, net);
    AttemptsGrow(start, m.size, 0, net);
    var t := Attempts(start, m.size, 0, net);
    assert t.end.Enough? ==> t.part == content;
    PartIsAnother(rel);
  }

  /** Connection `k` carries everything up to the end of the file, wherever it is asked to start. */
  ghost predicate Completes(content: seq<byte>, net: Network, k: nat) {
    forall have: nat | have < |content| ::
      net(k, have).Stream? && |Flat(net(k, have).chunks)| == |content| - have
  }

  /** And it does finish: if any one of the six connections carries everything up to the end of the
      file, however the ones before it broke, the file is installed. */
  lemma {:induction false} HonestCompletes(files: Files, rel: string, m: Meta, stamp: nat, net: Network, hash: Hash,
                                           content: seq<byte>, k: nat)
    requires Fits(m, content, hash)
    requires HonestNetwork(content, net)
    requires Kept(files, rel, m.size) <= content
    requires k <= MAX_RETRIES && Completes(content, net, k)
    ensures Fetch(files, rel, m, stamp, net, hash).outcome.Done?
  {
    forall have: nat | have < |content|
      ensures |Received(net(k, have), have)| == |content| - have
    {
      assert HonestConnection(content, |content[..have]|, net(k, have));
      PrefixAfterEveryChunk(content, content[..have], net(k, have), 0);
    }
    hide HonestConnection, Received;
    HonestServer(files, rel, m, stamp, net, hash, content);
    CompleteAttempt(content, Kept(files, rel, m.size), 0, k, net);
    hide Attempts;
  }

  lemma {:induction false} CompleteAttempt(content: seq<byte>, part: seq<byte>, attempts: nat, k: nat, net: Network)
    requires attempts <= k <= MAX_RETRIES
    requires forall have: nat | have < |content| :: |Received(net(k, have), have)| == |content| - have
    ensures !Attempts(part, |content|, attempts, net).end.RetriesUsed?
    decreases k - attempts
  {
    if |part| < |content| && attempts < k {
      CompleteAttempt(content, part + Received(net(attempts, |part|), |part|), attempts + 1, k, net);
    }
  }
}
