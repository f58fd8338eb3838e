/** The pairing handshake of api/peers_routes.py and api/peers_store.py between honest hosts, over a
    network that may lose any message. Tokens are fresh names; a handler that calls another host is
    cut at that call. */
module Pairing {
  import opened Bytes

  type Host = nat
  type Token = nat

  datatype Status = PendingOutbound | Approved | Revoked

  /** A row of `peers` on `host`, about `other`. The last two fields are history: the tokens the row
      was created with, which revocation clears from `local` and `remote`. */
  datatype Peer = Peer(host: Host, other: Host, outbound: bool, status: Status,
                       local: Option<Token>, remote: Option<Token>,
                       firstLocal: Token, firstRemote: Option<Token>)

  datatype RequestStatus = Pending | Accepted | Rejected | Expired

  /** A row of `pairing_requests` on `host`, from `from`. */
  datatype Request = Request(host: Host, from: Host, callback: Token, status: RequestStatus)

  datatype Message =
    | Bootstrap(to: Host, from: Host, token: Token)
    | Reply(to: Host, from: Host, token: Token)
    | Callback(to: Host, from: Host, token: Token, forYou: Token)

  /** What a token was minted for: to be presented back to the initiator, or by an approved peer. */
  datatype Purpose = ForCallback(minter: Host, target: Host) | ForPeer(row: nat)

  datatype State = State(peers: map<nat, Peer>, requests: map<nat, Request>, net: set<Message>, minted: seq<Purpose>)

  const Initial := State(map[], map[], {}, [])

  datatype Event =
    | Initiate(h: Host, g: Host)
    | Receive(m: Message, id: nat)
    | Opened(m: Message, id: nat)
    | Close(r: nat, status: RequestStatus)
    | Approve(r: nat, id: nat)
    | Complete(m: Message, id: nat)
    | Revoke(id: nat)
    | Lose(m: Message)

  predicate Enabled(s: State, e: Event) {
    match e
    // refused while a row about the same address is approved or pending
    case Initiate(h, g) =>
      forall p | p in s.peers.Values :: p.host == h && p.other == g ==> p.status.Revoked?
    // refused while an approved row carries the requester's fingerprint
    case Receive(m, id) =>
      && m in s.net && m.Bootstrap? && id !in s.requests
      && forall p | p in s.peers.Values :: p.host == m.to && p.other == m.from ==> !p.status.Approved?
    case Opened(m, id) => m in s.net && m.Reply? && id !in s.peers
    case Close(r, status) => r in s.requests && !status.Pending?
    case Approve(r, id) => r in s.requests && s.requests[r].status.Pending? && id !in s.peers
    case Complete(m, id) =>
      && m in s.net && m.Callback? && id in s.peers
      && s.peers[id].host == m.to && s.peers[id].status.PendingOutbound? && s.peers[id].local == Some(m.token)
    case Revoke(id) => id in s.peers
    case Lose(m) => m in s.net
  }

  function Apply(s: State, e: Event): State
    requires Enabled(s, e)
  {
    match e
    case Initiate(h, g) =>
      s.(net := s.net + {Bootstrap(g, h, |s.minted|)}, minted := s.minted + [ForCallback(h, g)])
    case Receive(m, id) =>
      s.(net := s.net - {m} + {Reply(m.from, m.to, m.token)},
         requests := s.requests[id := Request(m.to, m.from, m.token, Pending)])
    case Opened(m, id) =>
      s.(net := s.net - {m},
         peers := s.peers[id := Peer(m.to, m.from, true, PendingOutbound, Some(m.token), None, m.token, None)])
    // approved at last, rejected or expired
    case Close(r, status) => s.(requests := s.requests[r := s.requests[r].(status := status)])
    // inserts the approved row and sends the callback; the request is closed by a later step
    case Approve(r, id) =>
      var q, mine := s.requests[r], |s.minted|;
      var row := Peer(q.host, q.from, false, Approved, Some(mine), Some(q.callback), mine, Some(q.callback));
      s.(peers := s.peers[id := row],
         net := s.net + {Callback(q.from, q.host, q.callback, mine)},
         minted := s.minted + [ForPeer(id)])
    case Complete(m, id) =>
      s.(net := s.net - {m},
         peers := s.peers[id := s.peers[id].(status := Approved, remote := Some(m.forYou))])
    case Revoke(id) =>
      s.(peers := s.peers[id := s.peers[id].(status := Revoked, local := None, remote := None)])
    case Lose(m) => s.(net := s.net - {m})
  }

  predicate Legal(s: State, es: seq<Event>)
    decreases |es|
  {
    es == [] || (Enabled(s, es[0]) && Legal(Apply(s, es[0]), es[1..]))
  }

  function After(s: State, es: seq<Event>): State
    requires Legal(s, es)
    decreases |es|
  {
    if es == [] then s else After(Apply(s, es[0]), es[1..])
  }

  // ----- what every step keeps -----

  predicate MintedFor(s: State, t: Token, purpose: Purpose) {
    t < |s.minted| && s.minted[t] == purpose
  }

  /** Row `id` is the inbound row a host created on approving the request with callback token `t`,
      and `u` is the token it minted then. */
  predicate CreatedOnApproval(s: State, id: nat, approver: Host, requester: Host, t: Token, u: Token) {
    && id in s.peers
    && !s.peers[id].outbound && s.peers[id].host == approver && s.peers[id].other == requester
    && s.peers[id].firstLocal == u && s.peers[id].firstRemote == Some(t)
    && MintedFor(s, u, ForPeer(id))
  }

  ghost predicate SomeRowCreated(s: State, approver: Host, requester: Host, t: Token, u: Token) {
    exists id :: CreatedOnApproval(s, id, approver, requester, t, u)
  }

  ghost predicate MessageOk(s: State, m: Message) {
    match m
    case Bootstrap(to, from, t) => MintedFor(s, t, ForCallback(from, to))
    case Reply(to, from, t) => MintedFor(s, t, ForCallback(to, from))
    case Callback(to, from, t, u) => MintedFor(s, t, ForCallback(to, from)) && SomeRowCreated(s, from, to, t, u)
  }

  ghost predicate RequestOk(s: State, r: nat)
    requires r in s.requests
  {
    MintedFor(s, s.requests[r].callback, ForCallback(s.requests[r].from, s.requests[r].host))
  }

  /** Whether the tokens of a row are those it was created with, according to its status. */
  predicate TokensOk(p: Peer) {
    match p.status
    case Revoked => p.local.None? && p.remote.None?
    case PendingOutbound => p.outbound && p.local == Some(p.firstLocal) && p.remote.None?
    case Approved => p.local == Some(p.firstLocal) && p.remote.Some? && (!p.outbound ==> p.remote == p.firstRemote)
  }

  ghost predicate PeerOk(s: State, id: nat)
    requires id in s.peers
  {
    var p := s.peers[id];
    && TokensOk(p)
    && (p.outbound ==> MintedFor(s, p.firstLocal, ForCallback(p.host, p.other)))
    && (!p.outbound ==> MintedFor(s, p.firstLocal, ForPeer(id)))
    && (p.outbound && p.status.Approved? ==> SomeRowCreated(s, p.other, p.host, p.firstLocal, p.remote.value))
  }

  /** The initiator's side of one token is in one place: on the way out, on the way back, or a row. */
  ghost predicate OnePlace(s: State) {
    && (forall i, j | i in s.peers && j in s.peers ::
          s.peers[i].outbound && s.peers[j].outbound && s.peers[i].firstLocal == s.peers[j].firstLocal ==> i == j)
    && (forall m, i | m in s.net && !m.Callback? && i in s.peers ::
          s.peers[i].outbound ==> s.peers[i].firstLocal != m.token)
    && (forall m, n | m in s.net && n in s.net :: m.Bootstrap? && n.Reply? ==> m.token != n.token)
  }

  ghost predicate Inv(s: State) {
    && (forall m | m in s.net :: MessageOk(s, m))
    && (forall r | r in s.requests :: RequestOk(s, r))
    && (forall id | id in s.peers :: PeerOk(s, id))
    && OnePlace(s)
  }

  /** Steps only add: tokens stay minted, rows stay, and what they were created with does not change. */
  ghost predicate Extends(s: State, s': State) {
    && s.minted <= s'.minted
    && forall id | id in s.peers ::
         && id in s'.peers
         && s'.peers[id].host == s.peers[id].host && s'.peers[id].other == s.peers[id].other
         && s'.peers[id].outbound == s.peers[id].outbound
         && s'.peers[id].firstLocal == s.peers[id].firstLocal && s'.peers[id].firstRemote == s.peers[id].firstRemote
  }

  lemma StepExtends(s: State, e: Event)
    requires Enabled(s, e)
    ensures Extends(s, Apply(s, e))
  {
  }

  lemma ExtendsKeepsRow(s: State, s': State, approver: Host, requester: Host, t: Token, u: Token)
    requires Extends(s, s') && SomeRowCreated(s, approver, requester, t, u)
    ensures SomeRowCreated(s', approver, requester, t, u)
  {
    var id :| CreatedOnApproval(s, id, approver, requester, t, u);
    assert CreatedOnApproval(s', id, approver, requester, t, u);
  }

  lemma ExtendsKeepsMessage(s: State, s': State, m: Message)
    requires Extends(s, s') && MessageOk(s, m)
    ensures MessageOk(s', m)
  {
    if m.Callback? {
      ExtendsKeepsRow(s, s', m.from, m.to, m.token, m.forYou);
    }
  }

  lemma ExtendsKeepsPeer(s: State, s': State, id: nat)
    requires Extends(s, s') && id in s.peers && PeerOk(s, id)
    requires s'.peers[id] == s.peers[id]
    ensures PeerOk(s', id)
  {
    var p := s.peers[id];
    hide SomeRowCreated;
    if p.outbound && p.status.Approved? {
      ExtendsKeepsRow(s, s', p.other, p.host, p.firstLocal, p.remote.value);
    }
  }

  lemma StepMessages(s: State, e: Event)
    requires Inv(s) && Enabled(s, e)
    ensures forall m | m in Apply(s, e).net :: MessageOk(Apply(s, e), m)
  {
    var s' := Apply(s, e);
    StepExtends(s, e);
    forall m | m in s'.net
      ensures MessageOk(s', m)
    {
      if m in s.net {
        hide Apply, MessageOk;
        ExtendsKeepsMessage(s, s', m);
      } else if e.Receive? {
        hide OnePlace, SomeRowCreated;
        assert MessageOk(s, e.m);
      } else if e.Approve? {
        hide OnePlace;
        assert RequestOk(s, e.r);
        var q := s.requests[e.r];
        assert CreatedOnApproval(s', e.id, q.host, q.from, q.callback, |s.minted|);
      }
    }
  }

  lemma StepRequests(s: State, e: Event)
    requires Inv(s) && Enabled(s, e)
    ensures forall r | r in Apply(s, e).requests :: RequestOk(Apply(s, e), r)
  {
    hide OnePlace, SomeRowCreated, PeerOk;
    var s' := Apply(s, e);
    StepExtends(s, e);
    if e.Receive? {
      assert MessageOk(s, e.m);
    }
    forall r | r in s'.requests
      ensures RequestOk(s', r)
    {
      if r in s.requests {
        assert RequestOk(s, r);
      }
    }
  }

  lemma CompletedRowOk(s: State, m: Message, id: nat)
    requires Inv(s) && Enabled(s, Complete(m, id))
    ensures PeerOk(Apply(s, Complete(m, id)), id)
  {
    hide OnePlace, SomeRowCreated;
    var s' := Apply(s, Complete(m, id));
    assert MessageOk(s, m) && PeerOk(s, id);
    StepExtends(s, Complete(m, id));
    ExtendsKeepsRow(s, s', m.from, m.to, m.token, m.forYou);
  }

  lemma StepPeers(s: State, e: Event)
    requires Inv(s) && Enabled(s, e)
    ensures forall id | id in Apply(s, e).peers :: PeerOk(Apply(s, e), id)
  {
    var s' := Apply(s, e);
    StepExtends(s, e);
    hide Apply, PeerOk, OnePlace;
    forall id | id in s'.peers
      ensures PeerOk(s', id)
    {
      if id in s.peers && s'.peers[id] == s.peers[id] {
        ExtendsKeepsPeer(s, s', id);
      } else {
        ChangedRowOk(s, e, id);
      }
    }
  }

  lemma ChangedRowOk(s: State, e: Event, id: nat)
    requires Inv(s) && Enabled(s, e) && id in Apply(s, e).peers
    requires !(id in s.peers && Apply(s, e).peers[id] == s.peers[id])
    ensures PeerOk(Apply(s, e), id)
  {
    hide OnePlace, SomeRowCreated;
    match e
    case Opened(m, _) => assert MessageOk(s, m);
    case Approve(_, _) =>
    case Complete(m, i) =>
      CompletedRowOk(s, m, i);
      OnlyRow(s, e, id);
    case Revoke(_) => assert PeerOk(s, id);
  }

  lemma OnlyRow(s: State, e: Event, id: nat)
    requires Enabled(s, e) && e.Complete?
    requires id in Apply(s, e).peers
    ensures id in s.peers && (id != e.id ==> Apply(s, e).peers[id] == s.peers[id])
  {
  }

  lemma StepOnePlace(s: State, e: Event)
    requires Inv(s) && Enabled(s, e)
    ensures OnePlace(Apply(s, e))
  {
    hide OnePlace;
    match e
    case Initiate(h, g) => InitiateOnePlace(s, h, g);
    case Receive(m, _) => ReceiveOnePlace(s, m, e.id);
    case Opened(m, _) => OpenedOnePlace(s, m, e.id);
    case _ =>
      hide Inv;
      NothingSent(s, e);
      OnePlaceFrame(s, Apply(s, e));
  }

  /** Steps that send nothing to or from an initiator leave its side where it was. */
  ghost predicate SamePlaces(s: State, s': State) {
    && (forall m | m in s'.net && !m.Callback? :: m in s.net)
    && forall i | i in s'.peers && s'.peers[i].outbound ::
         i in s.peers && s.peers[i].outbound && s.peers[i].firstLocal == s'.peers[i].firstLocal
  }

  lemma NothingSent(s: State, e: Event)
    requires Enabled(s, e) && !e.Initiate? && !e.Receive? && !e.Opened?
    ensures SamePlaces(s, Apply(s, e))
  {
  }

  lemma OnePlaceFrame(s: State, s': State)
    requires OnePlace(s) && SamePlaces(s, s')
    ensures OnePlace(s')
  {
  }

  lemma InitiateOnePlace(s: State, h: Host, g: Host)
    requires Inv(s) && Enabled(s, Initiate(h, g))
    ensures OnePlace(Apply(s, Initiate(h, g)))
  {
    hide SomeRowCreated;
    assert forall m | m in s.net :: MessageOk(s, m);
    assert forall i | i in s.peers :: PeerOk(s, i);
  }

  lemma ReceiveOnePlace(s: State, m: Message, id: nat)
    requires Inv(s) && Enabled(s, Receive(m, id))
    ensures OnePlace(Apply(s, Receive(m, id)))
  {
    hide SomeRowCreated, PeerOk;
    forall n | n in s.net && n.Bootstrap? && n.token == m.token
      ensures n == m
    {
      assert MessageOk(s, n) && MessageOk(s, m);
    }
  }

  lemma OpenedOnePlace(s: State, m: Message, id: nat)
    requires Inv(s) && Enabled(s, Opened(m, id))
    ensures OnePlace(Apply(s, Opened(m, id)))
  {
    hide SomeRowCreated, PeerOk;
    forall n | n in s.net && n.Reply? && n.token == m.token
      ensures n == m
    {
      assert MessageOk(s, n) && MessageOk(s, m);
    }
  }

  lemma StepKeepsInv(s: State, e: Event)
    requires Inv(s) && Enabled(s, e)
    ensures Inv(Apply(s, e))
  {
    StepMessages(s, e);
    StepRequests(s, e);
    StepPeers(s, e);
    StepOnePlace(s, e);
    hide Apply, Enabled, OnePlace, MessageOk, RequestOk, PeerOk;
  }

  lemma {:induction false} RunKeepsInv(s: State, es: seq<Event>)
    requires Inv(s) && Legal(s, es)
    ensures Inv(After(s, es))
    decreases |es|
  {
    if es != [] {
      hide Inv, Apply, Enabled;
      StepKeepsInv(s, es[0]);
      RunKeepsInv(Apply(s, es[0]), es[1..]);
    }
  }

  // ----- agreement -----

  /** In every run, an approved outbound row carries the tokens of a row that the other host created
      on approving that very request; that row mirrors it unless it has been revoked. */
  lemma Agreement(es: seq<Event>, id: nat) returns (partner: nat)
    requires Legal(Initial, es)
    requires var s := After(Initial, es);
             id in s.peers && s.peers[id].outbound && s.peers[id].status.Approved?
    ensures var s := After(Initial, es);
            var p := s.peers[id];
            && p.local.Some? && p.remote.Some?
            && CreatedOnApproval(s, partner, p.other, p.host, p.local.value, p.remote.value)
            && var q := s.peers[partner];
               && !q.outbound && q.host == p.other && q.other == p.host
               && (q.status == Revoked || (q.status == Approved && q.local == p.remote && q.remote == p.local))
  {
    RunKeepsInv(Initial, es);
    var s := After(Initial, es);
    hide After, Legal;
    var p := s.peers[id];
    assert PeerOk(s, id);
    partner :| CreatedOnApproval(s, partner, p.other, p.host, p.firstLocal, p.remote.value);
    assert PeerOk(s, partner);
  }

  // ----- authentication -----

  /** `find_peer_by_local_token` on host `h` can resolve `t` to row `id`. */
  predicate Resolves(s: State, h: Host, t: Token, id: nat) {
    id in s.peers && s.peers[id].host == h && s.peers[id].local == Some(t) && s.peers[id].status.Approved?
  }

  lemma LocalUnique(s: State, i: nat, j: nat)
    requires Inv(s) && i in s.peers && j in s.peers
    requires s.peers[i].local.Some? && s.peers[i].local == s.peers[j].local
    ensures i == j
  {
    hide SomeRowCreated;
    assert PeerOk(s, i) && PeerOk(s, j);
  }

  /** As long as neither side has revoked, each host's stored token opens the other host's door, and
      opens it as exactly the row of this pairing. */
  lemma MutualAuthentication(es: seq<Event>, id: nat) returns (partner: nat)
    requires Legal(Initial, es)
    requires var s := After(Initial, es);
             id in s.peers && s.peers[id].outbound && s.peers[id].status.Approved?
    ensures var s := After(Initial, es);
            var p := s.peers[id];
            && p.local.Some? && p.remote.Some?
            && CreatedOnApproval(s, partner, p.other, p.host, p.local.value, p.remote.value)
            && (!s.peers[partner].status.Revoked? ==>
                  && (forall k :: Resolves(s, p.other, p.remote.value, k) <==> k == partner)
                  && s.peers[partner].remote == p.local
                  && (forall k :: Resolves(s, p.host, p.local.value, k) <==> k == id))
  {
    partner := Agreement(es, id);
    RunKeepsInv(Initial, es);
    var s := After(Initial, es);
    hide After, Legal, Inv;
    var p := s.peers[id];
    if !s.peers[partner].status.Revoked? {
      forall k
        ensures Resolves(s, p.other, p.remote.value, k) <==> k == partner
        ensures Resolves(s, p.host, p.local.value, k) <==> k == id
      {
        if Resolves(s, p.other, p.remote.value, k) {
          LocalUnique(s, k, partner);
        }
        if Resolves(s, p.host, p.local.value, k) {
          LocalUnique(s, k, id);
        }
      }
    }
  }

  /** In every reachable state a revoked row holds no token at all, a row that waits holds the one it was
      opened with and none to present, and an approved row holds both. */
  lemma TokensHeld(es: seq<Event>, id: nat)
    requires Legal(Initial, es) && id in After(Initial, es).peers
    ensures var p := After(Initial, es).peers[id];
            && (p.status == Revoked ==> p.local == None && p.remote == None)
            && (p.status == PendingOutbound ==> p.local == Some(p.firstLocal) && p.remote == None)
            && (p.status == Approved ==> p.local == Some(p.firstLocal) && p.remote != None)
  {
    RunKeepsInv(Initial, es);
    assert PeerOk(After(Initial, es), id);
  }

  /** What authenticates on a host is an approved row of its own; the callback token of a row that still
      waits opens no door anywhere. */
  lemma PendingNeverAuthenticates(es: seq<Event>, h: Host, t: Token, k: nat)
    requires Legal(Initial, es) && Resolves(After(Initial, es), h, t, k)
    ensures var s := After(Initial, es);
            && s.peers[k].host == h && s.peers[k].status == Approved
            && forall id | id in s.peers && s.peers[id].status == PendingOutbound :: s.peers[id].local != Some(t)
  {
    RunKeepsInv(Initial, es);
    var s := After(Initial, es);
    hide After, Legal, Inv;
    forall id | id in s.peers && s.peers[id].local == Some(t)
      ensures id == k
    {
      LocalUnique(s, id, k);
    }
  }

  /** A message that is taken or lost is gone, every other one stays, and at most one is sent. */
  lemma ConsumedOnce(s: State, e: Event)
    requires Enabled(s, e)
    ensures e.Receive? || e.Opened? || e.Complete? || e.Lose? ==>
              e.m !in Apply(s, e).net && s.net - {e.m} <= Apply(s, e).net
    ensures e.Initiate? || e.Close? || e.Approve? || e.Revoke? ==> s.net <= Apply(s, e).net
    ensures |Apply(s, e).net - s.net| <= 1
  {
    var s' := Apply(s, e);
    if e.Initiate? {
      assert s'.net - s.net <= {Bootstrap(e.g, e.h, |s.minted|)};
      AtMostOne(s'.net - s.net, Bootstrap(e.g, e.h, |s.minted|));
    } else if e.Receive? {
      AtMostOne(s'.net - s.net, Reply(e.m.from, e.m.to, e.m.token));
    } else if e.Approve? {
      var q := s.requests[e.r];
      AtMostOne(s'.net - s.net, Callback(q.from, q.host, q.callback, |s.minted|));
    } else {
      assert s'.net - s.net == {};
    }
  }

  lemma AtMostOne(ms: set<Message>, m: Message)
    requires ms <= {m}
    ensures |ms| <= 1
  {
    assert ms == {} || ms == {m};
  }

  // ----- a token is used once, and a revoked one never again -----

  /** No row waits with `t`, and nothing on its way could make one. */
  ghost predicate Spent(s: State, t: Token) {
    && t < |s.minted|
    && (forall m | m in s.net && !m.Callback? :: m.token != t)
    && (forall i | i in s.peers :: s.peers[i].status.PendingOutbound? ==> s.peers[i].local != Some(t))
  }

  /** No row has `t` as its local token, and nothing on its way could make one. */
  ghost predicate Dead(s: State, t: Token) {
    && t < |s.minted|
    && (forall m | m in s.net && !m.Callback? :: m.token != t)
    && (forall i | i in s.peers :: s.peers[i].local != Some(t))
  }

  lemma StepKeepsSpent(s: State, e: Event, t: Token)
    requires Enabled(s, e)
    ensures Spent(s, t) ==> Spent(Apply(s, e), t)
    ensures Dead(s, t) ==> Dead(Apply(s, e), t)
  {
  }

  lemma CompleteSpends(s: State, e: Event)
    requires Inv(s) && Enabled(s, e) && e.Complete?
    ensures Spent(Apply(s, e), e.m.token)
  {
    hide SomeRowCreated;
    assert PeerOk(s, e.id);
    forall i | i in s.peers && s.peers[i].local == Some(e.m.token)
      ensures i == e.id
    {
      LocalUnique(s, i, e.id);
    }
  }

  lemma {:induction false} SpentNeverCompletes(s: State, es: seq<Event>, t: Token)
    requires Spent(s, t) && Legal(s, es)
    ensures forall f | f in es && f.Complete? :: f.m.token != t
    decreases |es|
  {
    if es != [] {
      StepKeepsSpent(s, es[0], t);
      hide Apply;
      SpentNeverCompletes(Apply(s, es[0]), es[1..], t);
      assert es == [es[0]] + es[1..];
    }
  }

  /** A callback token completes at most one pairing. */
  lemma CompletesOnce(es: seq<Event>, e: Event, later: seq<Event>)
    requires Legal(Initial, es)
    requires Enabled(After(Initial, es), e) && e.Complete?
    requires Legal(Apply(After(Initial, es), e), later)
    ensures forall f | f in later && f.Complete? :: f.m.token != e.m.token
  {
    RunKeepsInv(Initial, es);
    var s := After(Initial, es);
    CompleteSpends(s, e);
    SpentNeverCompletes(Apply(s, e), later, e.m.token);
  }

  lemma RevokeKills(s: State, id: nat)
    requires Inv(s) && id in s.peers && s.peers[id].local.Some?
    ensures Dead(Apply(s, Revoke(id)), s.peers[id].local.value)
  {
    hide SomeRowCreated;
    var t := s.peers[id].local.value;
    assert PeerOk(s, id);
    forall m | m in s.net && !m.Callback?
      ensures m.token != t
    {
      assert MessageOk(s, m);
    }
    forall i | i in s.peers && s.peers[i].local == Some(t)
      ensures i == id
    {
      LocalUnique(s, i, id);
    }
  }

  lemma {:induction false} DeadStaysDead(s: State, es: seq<Event>, t: Token)
    requires Dead(s, t) && Legal(s, es)
    ensures Dead(After(s, es), t)
    decreases |es|
  {
    if es != [] {
      StepKeepsSpent(s, es[0], t);
      hide Apply, Dead;
      DeadStaysDead(Apply(s, es[0]), es[1..], t);
    }
  }

  /** After a row is revoked, its token never authenticates again, on any host, in any continuation. */
  lemma RevokedNeverAuthenticates(es: seq<Event>, id: nat, later: seq<Event>, h: Host, k: nat)
    requires Legal(Initial, es)
    requires id in After(Initial, es).peers && After(Initial, es).peers[id].local.Some?
    requires Legal(Apply(After(Initial, es), Revoke(id)), later)
    ensures var s := After(Initial, es);
            !Resolves(After(Apply(s, Revoke(id)), later), h, s.peers[id].local.value, k)
  {
    RunKeepsInv(Initial, es);
    var s := After(Initial, es);
    RevokeKills(s, id);
    DeadStaysDead(Apply(s, Revoke(id)), later, s.peers[id].local.value);
  }

  // ----- the handshake can succeed -----

  lemma {:induction false} Extend(s: State, es: seq<Event>, e: Event)
    requires Legal(s, es) && Enabled(After(s, es), e)
    ensures Legal(s, es + [e]) && After(s, es + [e]) == Apply(After(s, es), e)
    decreases |es|
  {
    hide Enabled, Apply;
    if es == [] {
      assert [] + [e] == [e] && [e][1..] == [];
      assert Legal(Apply(s, e), []);
    } else {
      assert (es + [e])[1..] == es[1..] + [e];
      Extend(Apply(s, es[0]), es[1..], e);
    }
  }

  lemma {:induction false} FreshName(used: set<nat>) returns (n: nat)
    ensures forall x | x in used :: x < n
  {
    n := 0;
    if used != {} {
      var x :| x in used;
      var m := FreshName(used - {x});
      assert forall y | y in used :: y == x || y in used - {x};
      n := m + x + 1;
    }
  }

  /** Neither host has a row about the other that is still in force or waiting. */
  ghost predicate Strangers(s: State, h: Host, g: Host) {
    forall p | p in s.peers.Values ::
      (p.host == h && p.other == g) || (p.host == g && p.other == h) ==> p.status.Revoked?
  }

  /** The first half: the request is sent and recorded, and the initiator's row waits. */
  lemma RequestMade(s: State, h: Host, g: Host, r: nat, i: nat) returns (es: seq<Event>)
    requires Strangers(s, h, g) && r !in s.requests && i !in s.peers
    ensures Legal(s, es)
    ensures var s' := After(s, es);
            var t := |s.minted|;
            && s'.peers == s.peers[i := Peer(h, g, true, PendingOutbound, Some(t), None, t, None)]
            && r in s'.requests && s'.requests[r] == Request(g, h, t, Pending)
            && |s'.minted| == t + 1
  {
    var t := |s.minted|;
    var boot, reply := Bootstrap(g, h, t), Reply(h, g, t);
    assert Legal(s, []) && After(s, []) == s;
    var e1, e2, e3 := Initiate(h, g), Receive(boot, r), Opened(reply, i);
    var s1 := Apply(s, e1);
    assert Enabled(s1, e2);
    var s2 := Apply(s1, e2);
    var s3 := Apply(s2, e3);
    assert s3.peers == s.peers[i := Peer(h, g, true, PendingOutbound, Some(t), None, t, None)];
    assert r in s3.requests && s3.requests[r] == Request(g, h, t, Pending) && |s3.minted| == t + 1;
    hide Legal, After, Enabled, Apply;
    Extend(s, [], e1);
    Extend(s, [] + [e1], e2);
    Extend(s, [] + [e1] + [e2], e3);
    es := [] + [e1] + [e2] + [e3];
  }

  lemma RequestApproved(s: State, h: Host, g: Host, r: nat, i: nat, j: nat)
    requires r in s.requests && i in s.peers && j !in s.peers
    requires var t := s.requests[r].callback;
             && s.requests[r] == Request(g, h, t, Pending)
             && s.peers[i] == Peer(h, g, true, PendingOutbound, Some(t), None, t, None)
    ensures var t, u := s.requests[r].callback, |s.minted|;
            var approve, complete := Approve(r, j), Complete(Callback(h, g, t, u), i);
            && Enabled(s, approve) && Enabled(Apply(s, approve), complete)
            && Apply(Apply(s, approve), complete).peers
               == s.peers[j := Peer(g, h, false, Approved, Some(u), Some(t), u, Some(t))]
                         [i := Peer(h, g, true, Approved, Some(t), Some(u), t, None)]
  {
  }

  /** From every state where neither host has a live row about the other, when no message is lost and
      the request is approved, both hosts end with approved rows whose tokens are each other's, and
      nothing else about the rows has changed. */
  lemma HandshakeSucceeds(s: State, h: Host, g: Host) returns (es: seq<Event>, i: nat, j: nat)
    requires Strangers(s, h, g)
    ensures i != j && i !in s.peers && j !in s.peers
    ensures Legal(s, es)
    ensures var t, u := |s.minted|, |s.minted| + 1;
            After(s, es).peers
            == s.peers[i := Peer(h, g, true, Approved, Some(t), Some(u), t, None)]
                      [j := Peer(g, h, false, Approved, Some(u), Some(t), u, Some(t))]
  {
    i := FreshName(s.peers.Keys);
    j := i + 1;
    var r := FreshName(s.requests.Keys);
    var t, u := |s.minted|, |s.minted| + 1;
    var first := RequestMade(s, h, g, r, i);
    var mid := After(s, first);
    RequestApproved(mid, h, g, r, i, j);
    hide Legal, After, Enabled, Apply;
    var approve, complete := Approve(r, j), Complete(Callback(h, g, t, u), i);
    Extend(s, first, approve);
    Extend(s, first + [approve], complete);
    es := first + [approve] + [complete];
  }

  // ----- one approved row about a host -----

  predicate ApprovedAbout(s: State, i: nat, h: Host, g: Host) {
    i in s.peers && s.peers[i].status.Approved? && s.peers[i].host == h && s.peers[i].other == g
  }

  /** No host has two approved rows about one other. */
  ghost predicate OneApproved(s: State) {
    forall i, j, h, g | ApprovedAbout(s, i, h, g) && ApprovedAbout(s, j, h, g) :: i == j
  }

  /** An approval or a callback that finds a row about the same host already approved. */
  ghost predicate Doubles(s: State, e: Event)
    requires Enabled(s, e)
  {
    match e
    case Approve(r, _) => exists i :: ApprovedAbout(s, i, s.requests[r].host, s.requests[r].from)
    case Complete(_, id) => exists i :: ApprovedAbout(s, i, s.peers[id].host, s.peers[id].other)
    case _ => false
  }

  lemma ApprovedAfter(s: State, e: Event, i: nat, h: Host, g: Host)
    requires Enabled(s, e)
    ensures ApprovedAbout(Apply(s, e), i, h, g)
       <==> match e
            case Approve(r, id) =>
              ApprovedAbout(s, i, h, g) || (i == id && h == s.requests[r].host && g == s.requests[r].from)
            case Complete(_, id) =>
              ApprovedAbout(s, i, h, g) || (i == id && h == s.peers[id].host && g == s.peers[id].other)
            case Revoke(id) => ApprovedAbout(s, i, h, g) && i != id
            case _ => ApprovedAbout(s, i, h, g)
  {
  }

  /** Exactly those steps break it: the checks for it are made before a request is sent and when it
      arrives, and not when it is approved. */
  lemma StepDoublesIff(s: State, e: Event)
    requires OneApproved(s) && Enabled(s, e)
    ensures OneApproved(Apply(s, e)) <==> !Doubles(s, e)
  {
    var s' := Apply(s, e);
    assert e.Approve? || e.Complete? ==> !exists h, g :: ApprovedAbout(s, e.id, h, g);
    forall i, h, g
      ensures ApprovedAbout(s', i, h, g)
         <==> match e
              case Approve(r, id) =>
                ApprovedAbout(s, i, h, g) || (i == id && h == s.requests[r].host && g == s.requests[r].from)
              case Complete(_, id) =>
                ApprovedAbout(s, i, h, g) || (i == id && h == s.peers[id].host && g == s.peers[id].other)
              case Revoke(id) => ApprovedAbout(s, i, h, g) && i != id
              case _ => ApprovedAbout(s, i, h, g)
    {
      ApprovedAfter(s, e, i, h, g);
    }
    hide Apply, Enabled, ApprovedAbout;
    if Doubles(s, e) {
      var h := if e.Approve? then s.requests[e.r].host else s.peers[e.id].host;
      var g := if e.Approve? then s.requests[e.r].from else s.peers[e.id].other;
      var i :| ApprovedAbout(s, i, h, g);
      assert ApprovedAbout(s', i, h, g) && ApprovedAbout(s', e.id, h, g) && i != e.id;
    }
  }

  ghost predicate OneApprovedThroughout(s: State, es: seq<Event>)
    requires Legal(s, es)
    decreases |es|
  {
    OneApproved(s) && (es != [] ==> OneApprovedThroughout(Apply(s, es[0]), es[1..]))
  }

  ghost predicate DoublesIn(s: State, es: seq<Event>)
    requires Legal(s, es)
    decreases |es|
  {
    es != [] && (Doubles(s, es[0]) || DoublesIn(Apply(s, es[0]), es[1..]))
  }

  lemma {:induction false} ThroughoutIff(s: State, es: seq<Event>)
    requires OneApproved(s) && Legal(s, es)
    ensures OneApprovedThroughout(s, es) <==> !DoublesIn(s, es)
    decreases |es|
  {
    if es != [] {
      StepDoublesIff(s, es[0]);
      hide OneApproved, Doubles, Apply, Enabled;
      if !Doubles(s, es[0]) {
        ThroughoutIff(Apply(s, es[0]), es[1..]);
      } else {
        assert !OneApprovedThroughout(Apply(s, es[0]), es[1..]);
      }
    }
  }

  /** A run never has two approved rows of one host about another exactly when no approval and no
      callback in it finds such a row already approved. */
  lemma OneApprovedIff(es: seq<Event>)
    requires Legal(Initial, es)
    ensures OneApprovedThroughout(Initial, es) <==> !DoublesIn(Initial, es)
  {
    ThroughoutIff(Initial, es);
  }

  /** Host 0 asks host 1, which records the request, and the reply is lost. */
  function Asking(s: State, r: nat): seq<Event> {
    var t := |s.minted|;
    [Initiate(0, 1), Receive(Bootstrap(1, 0, t), r), Lose(Reply(0, 1, t))]
  }

  lemma Asked(s: State, r: nat)
    requires s.peers == map[] && r !in s.requests
    ensures Legal(s, Asking(s, r))
    ensures var s', t := After(s, Asking(s, r)), |s.minted|;
            s'.peers == map[] && s'.requests == s.requests[r := Request(1, 0, t, Pending)] && |s'.minted| == t + 1
  {
    var a, b, c := Asking(s, r)[0], Asking(s, r)[1], Asking(s, r)[2];
    var t := |s.minted|;
    var s1 := Apply(s, a);
    assert Enabled(s1, b);
    var s2 := Apply(s1, b);
    var s3 := Apply(s2, c);
    assert s3.peers == map[] && s3.requests == s.requests[r := Request(1, 0, t, Pending)] && |s3.minted| == t + 1;
    assert Legal(s, []) && After(s, []) == s;
    hide Legal, After, Enabled, Apply;
    Extend(s, [], a);
    Extend(s, [] + [a], b);
    Extend(s, [] + [a] + [b], c);
    assert [] + [a] + [b] + [c] == [a, b, c];
  }

  lemma {:induction false} RunAppend(s: State, xs: seq<Event>, ys: seq<Event>)
    requires Legal(s, xs) && Legal(After(s, xs), ys)
    ensures Legal(s, xs + ys) && After(s, xs + ys) == After(After(s, xs), ys)
    decreases |xs|
  {
    hide Enabled, Apply;
    if xs == [] {
      assert xs + ys == ys;
    } else {
      assert (xs + ys)[1..] == xs[1..] + ys;
      RunAppend(Apply(s, xs[0]), xs[1..], ys);
    }
  }

  /** It happens: host 0 asks again because the reply was lost, and both requests are approved. */
  lemma TwoApprovedRows() returns (es: seq<Event>)
    ensures Legal(Initial, es)
    ensures ApprovedAbout(After(Initial, es), 0, 1, 0) && ApprovedAbout(After(Initial, es), 1, 1, 0)
    ensures !OneApproved(After(Initial, es))
  {
    Asked(Initial, 0);
    es := Asking(Initial, 0);
    var s := After(Initial, es);
    Asked(s, 1);
    RunAppend(Initial, es, Asking(s, 1));
    es := es + Asking(s, 1);
    hide Legal, After, Asking;
    Extend(Initial, es, Approve(0, 0));
    es := es + [Approve(0, 0)];
    Extend(Initial, es, Approve(1, 1));
    es := es + [Approve(1, 1)];
  }

  // ----- what a live row and a closed request rule out -----

  /** Row `id`, on `h` about `g`, is pending or approved. */
  predicate Live(s: State, id: nat, h: Host, g: Host) {
    && id in s.peers && s.peers[id].host == h && s.peers[id].other == g
    && (s.peers[id].status == PendingOutbound || s.peers[id].status == Approved)
  }

  /** As long as the row is not revoked it stays live, and no callback token is minted for another handshake
      of the same two hosts. */
  lemma LiveStep(s: State, e: Event, id: nat, h: Host, g: Host)
    requires Live(s, id, h, g) && Enabled(s, e) && e != Revoke(id)
    ensures Live(Apply(s, e), id, h, g)
    ensures Apply(s, e).minted == s.minted
         || exists p :: p != ForCallback(h, g) && Apply(s, e).minted == s.minted + [p]
    ensures s.peers[id].status == Approved ==> Apply(s, e).peers[id].status == Approved
  {
    var s' := Apply(s, e);
    if e.Initiate? {
      assert s.peers[id] in s.peers.Values;
      assert s'.minted == s.minted + [ForCallback(e.h, e.g)];
    } else if e.Approve? {
      assert s'.minted == s.minted + [ForPeer(e.id)];
    }
  }

  /** While a host has a live row about another, it starts no second handshake with it: whatever happens,
      short of revoking the row, mints no token for one. */
  lemma {:induction false} LiveRowStopsInitiating(s: State, es: seq<Event>, id: nat, h: Host, g: Host)
    requires Live(s, id, h, g) && Legal(s, es) && forall e | e in es :: e != Revoke(id)
    ensures var s' := After(s, es);
            && Live(s', id, h, g)
            && s.minted <= s'.minted
            && forall t | |s.minted| <= t < |s'.minted| :: s'.minted[t] != ForCallback(h, g)
    decreases |es|
  {
    if es != [] {
      var s1 := Apply(s, es[0]);
      assert es[0] in es;
      LiveStep(s, es[0], id, h, g);
      hide Apply, Enabled, Live;
      assert forall e | e in es[1..] :: e in es;
      LiveRowStopsInitiating(s1, es[1..], id, h, g);
    }
  }

  /** A step that an approved row survives opens no request from the same host. */
  lemma ApprovedStep(s: State, e: Event, id: nat, r: nat)
    requires id in s.peers && s.peers[id].status == Approved && Enabled(s, e) && e != Revoke(id)
    requires r in Apply(s, e).requests
    ensures r in s.requests || Apply(s, e).requests[r].host != s.peers[id].host
            || Apply(s, e).requests[r].from != s.peers[id].other
    ensures r in s.requests ==>
              Apply(s, e).requests[r].host == s.requests[r].host && Apply(s, e).requests[r].from == s.requests[r].from
    ensures id in Apply(s, e).peers && Apply(s, e).peers[id].status == Approved
    ensures Apply(s, e).peers[id].host == s.peers[id].host && Apply(s, e).peers[id].other == s.peers[id].other
  {
    assert s.peers[id] in s.peers.Values;
  }

  /** While a host has an approved row about another, no new request of that other host is opened on it. */
  lemma {:induction false} ApprovedRowStopsRequests(s: State, es: seq<Event>, id: nat, r: nat)
    requires id in s.peers && s.peers[id].status == Approved
    requires Legal(s, es) && forall e | e in es :: e != Revoke(id)
    requires r in After(s, es).requests && r !in s.requests
    ensures After(s, es).requests[r].host != s.peers[id].host || After(s, es).requests[r].from != s.peers[id].other
    decreases |es|
  {
    var s1 := Apply(s, es[0]);
    assert es[0] in es && forall e | e in es[1..] :: e in es;
    assert After(s, es) == After(s1, es[1..]);
    assert id in s1.peers && s1.peers[id].status == Approved
        && s1.peers[id].host == s.peers[id].host && s1.peers[id].other == s.peers[id].other by {
      StepExtends(s, es[0]);
      assert es[0] != Revoke(id);
    }
    if r in s1.requests {
      ApprovedStep(s, es[0], id, r);
      hide Apply, Enabled;
      RequestKeeps(s1, es[1..], r);
    } else {
      hide Apply, Enabled;
      ApprovedRowStopsRequests(s1, es[1..], id, r);
    }
  }

  /** A request stays what it is about. */
  lemma {:induction false} RequestKeeps(s: State, es: seq<Event>, r: nat)
    requires r in s.requests && Legal(s, es)
    ensures r in After(s, es).requests
    ensures After(s, es).requests[r].host == s.requests[r].host && After(s, es).requests[r].from == s.requests[r].from
    decreases |es|
  {
    if es != [] {
      assert r in Apply(s, es[0]).requests;
      RequestKeeps(Apply(s, es[0]), es[1..], r);
    }
  }

  /** A request that was approved, rejected or has expired is never approved again. */
  lemma {:induction false} ClosedNeverApproved(s: State, es: seq<Event>, r: nat, k: nat)
    requires r in s.requests && s.requests[r].status != Pending
    requires Legal(s, es) && k < |es| && es[k].Approve?
    ensures es[k].r != r
    decreases |es|
  {
    var s1 := Apply(s, es[0]);
    assert r in s1.requests && s1.requests[r].status != Pending;
    hide Apply;
    if k > 0 {
      ClosedNeverApproved(s1, es[1..], r, k - 1);
    }
  }
}
