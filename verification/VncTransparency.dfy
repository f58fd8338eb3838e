/** What a whole run of the relay of api/vnc_bridge.py delivers to each side. */
module VncTransparency {
  import opened Bytes
  import opened WebSocketFrames
  import opened VncReader
  import opened VncBridge

  // ----- reading a list of messages, by the opcodes of section 5.2 of RFC 6455 -----

  predicate HasClose(ms: seq<Message>) {
    ms != [] && (ms[0].op == 8 || HasClose(ms[1..]))
  }

  /** The messages before the first close. */
  function BeforeClose(ms: seq<Message>): seq<Message> {
    if ms == [] || ms[0].op == 8 then [] else [ms[0]] + BeforeClose(ms[1..])
  }

  /** What the first close frame is answered with: the first two bytes of its payload, its status. */
  function CloseReply(ms: seq<Message>): seq<seq<byte>> {
    if ms == [] then []
    else if ms[0].op == 8 then [if |ms[0].payload| < 2 then ms[0].payload else ms[0].payload[..2]]
    else CloseReply(ms[1..])
  }

  /** The payloads of the messages with one of the opcodes in `ops`, in order. */
  function Payloads(ms: seq<Message>, ops: set<opcode>): seq<seq<byte>> {
    if ms == [] then []
    else if ms[0].op in ops then [ms[0].payload] + Payloads(ms[1..], ops)
    else Payloads(ms[1..], ops)
  }

  /** The data bytes that belong to the display. */
  function DataBytes(ms: seq<Message>): seq<byte> {
    Flat(Payloads(ms, {1, 2}))
  }

  lemma {:induction false} PayloadsAppend(xs: seq<Message>, ys: seq<Message>, ops: set<opcode>)
    ensures Payloads(xs + ys, ops) == Payloads(xs, ops) + Payloads(ys, ops)
  {
    if xs == [] {
      assert xs + ys == ys;
    } else {
      assert (xs + ys)[1..] == xs[1..] + ys;
      PayloadsAppend(xs[1..], ys, ops);
    }
  }

  lemma DataBytesAppend(xs: seq<Message>, ys: seq<Message>)
    ensures DataBytes(xs + ys) == DataBytes(xs) + DataBytes(ys)
  {
    PayloadsAppend(xs, ys, {1, 2});
    FlatAppend(Payloads(xs, {1, 2}), Payloads(ys, {1, 2}));
  }

  lemma {:induction false} BeforeCloseAppend(xs: seq<Message>, ys: seq<Message>)
    ensures HasClose(xs) ==> HasClose(xs + ys) && BeforeClose(xs + ys) == BeforeClose(xs)
    ensures !HasClose(xs) ==> HasClose(xs + ys) == HasClose(ys) && BeforeClose(xs + ys) == xs + BeforeClose(ys)
    ensures !HasClose(xs) ==> BeforeClose(xs) == xs && CloseReply(xs + ys) == CloseReply(ys)
  {
    if xs == [] {
      assert xs + ys == ys;
    } else {
      assert (xs + ys)[1..] == xs[1..] + ys;
      BeforeCloseAppend(xs[1..], ys);
    }
  }

  // ----- one batch -----

  lemma {:induction false} AnswerMeaning(ms: seq<Message>)
    ensures Answer(ms).toVnc == DataBytes(BeforeClose(ms))
    ensures Answer(ms).closed == HasClose(ms)
    ensures Payloads(Answer(ms).toClient, {10}) == Payloads(BeforeClose(ms), {9})
    ensures Payloads(Answer(ms).toClient, {8}) == CloseReply(ms)
    ensures Payloads(Answer(ms).toClient, {2}) == []
    decreases |ms|
  {
    if ms != [] && ms[0].op != 8 {
      AnswerMeaning(ms[1..]);
      var m := ms[0];
      assert BeforeClose(ms)[1..] == BeforeClose(ms[1..]);
      var rest := Answer(ms[1..]).toClient;
      assert ([Message(10, m.payload)] + rest)[1..] == rest;
    }
  }

  function WithOp(op: opcode, payloads: seq<seq<byte>>): seq<Message> {
    if payloads == [] then [] else [Message(op, payloads[0])] + WithOp(op, payloads[1..])
  }

  lemma WithOpCons(op: opcode, payload: seq<byte>, rest: seq<seq<byte>>)
    ensures WithOp(op, [payload] + rest) == [Message(op, payload)] + WithOp(op, rest)
    ensures WithOp(op, []) == []
  {
    assert ([payload] + rest)[1..] == rest;
  }

  lemma PayloadsCons(m: Message, ms: seq<Message>, ops: set<opcode>)
    ensures Payloads([m] + ms, ops) == (if m.op in ops then [m.payload] else []) + Payloads(ms, ops)
    ensures Payloads([], ops) == []
  {
    assert ([m] + ms)[1..] == ms;
  }

  lemma AnswerCons(ms: seq<Message>)
    requires ms != []
    ensures var m := ms[0];
            if m.op == 8 then
              && BeforeClose(ms) == [] && |CloseReply(ms)| == 1
              && Answer(ms).toClient == [Message(8, CloseReply(ms)[0])]
            else
              && Answer(ms).toClient == (if m.op == 9 then [Message(10, m.payload)] else []) + Answer(ms[1..]).toClient
              && BeforeClose(ms) == [m] + BeforeClose(ms[1..]) && CloseReply(ms) == CloseReply(ms[1..])
  {
    assert [] + Answer(ms[1..]).toClient == Answer(ms[1..]).toClient;
  }

  /** A batch sends the browser a pong for each ping before the first close, in order, then the answer to
      the close, and nothing else. */
  lemma {:induction false} AnswerOrder(ms: seq<Message>)
    ensures Answer(ms).toClient == WithOp(10, Payloads(BeforeClose(ms), {9})) + WithOp(8, CloseReply(ms))
    decreases |ms|
  {
    hide Answer, WithOp, Payloads, BeforeClose, CloseReply;
    var before, reply := BeforeClose(ms), CloseReply(ms);
    if ms == [] {
      NothingAnswered();
    } else {
      AnswerCons(ms);
      if ms[0].op == 8 {
        PayloadsCons(ms[0], [], {9});
        WithOpCons(10, [], []);
        WithOpCons(8, reply[0], []);
        assert [reply[0]] + [] == reply;
      } else {
        AnswerOrder(ms[1..]);
        var rest := Payloads(BeforeClose(ms[1..]), {9});
        PayloadsCons(ms[0], BeforeClose(ms[1..]), {9});
        WithOpCons(10, ms[0].payload, rest);
        assert [] + rest == rest;
      }
    }
  }

  lemma NothingAnswered()
    ensures Answer([]).toClient == WithOp(10, Payloads(BeforeClose([]), {9})) + WithOp(8, CloseReply([]))
  {
    assert BeforeClose([]) == [] && CloseReply([]) == [] && Answer([]).toClient == [];
    assert Payloads([], {9}) == [] && WithOp(10, []) == [] && WithOp(8, []) == [];
  }

  // ----- a whole run -----

  /** Everything the relay says about the browser's stream: what it read decodes, in one piece, to
      the messages it answered, however recv() cut it. */
  ghost predicate Faithful(o: Outcome, r: Relay) {
    && (o.raised <==> r.ending.Oversize?)
    && (!o.raised ==>
          && r.toVnc == DataBytes(BeforeClose(o.out))
          && Payloads(r.toClient, {10}) == Payloads(BeforeClose(o.out), {9})
          && (r.ending.CloseReceived? <==> HasClose(o.out))
          && Payloads(r.toClient, {8}) == if r.ending.VncClosed? then [[3, 232]] else CloseReply(o.out))
    && (o.raised ==> r.toVnc <= DataBytes(BeforeClose(o.out)))
  }

  lemma EmptyFaithful(s: State, r: Relay)
    requires ParseFrame(s.buf).NeedMore?
    requires r.toVnc == [] && r.fromClient == [] && Payloads(r.toClient, {10}) == []
    requires !r.ending.Oversize? && !r.ending.CloseReceived?
    requires Payloads(r.toClient, {8}) == if r.ending.VncClosed? then [[3, 232]] else []
    ensures Faithful(Drain(Push(s, r.fromClient)), r)
  {
    assert Push(s, []) == s;
    DrainStop(s);
  }

  lemma ReactFaithful(s: State, e: Event)
    requires ParseFrame(s.buf).NeedMore?
    ensures Faithful(Drain(Push(s, React(s, e).fromClient)), React(s, e))
  {
    hide Drain, Answer, ParseFrame;
    var r := React(s, e);
    if e.FromClient? && e.data != [] {
      var o := Drain(Push(s, e.data));
      AnswerMeaning(o.out);
    } else {
      assert ToBigEndian(1000, 2) == [3, 232];
      EmptyFaithful(s, r);
    }
  }

  /** A faithful step followed by a faithful run is a faithful run. */
  lemma CombineFaithful(a: Outcome, r: Relay, b: Outcome, q: Relay)
    requires Faithful(a, r) && !a.raised && r.ending.StillOpen?
    requires Faithful(b, q)
    ensures Faithful(Outcome(a.out + b.out, b.state, b.raised), Combine(r, q))
  {
    BeforeCloseAppend(a.out, b.out);
    DataBytesAppend(a.out, BeforeClose(b.out));
    PayloadsAppend(a.out, BeforeClose(b.out), {9});
    PayloadsAppend(r.toClient, q.toClient, {10});
    PayloadsAppend(r.toClient, q.toClient, {8});
    assert CloseReply(a.out + []) == [] by {
      BeforeCloseAppend(a.out, []);
    }
    assert a.out + [] == a.out;
  }

  /** Upstream: the bytes written to the display are exactly the data payloads before the first
      close frame of the stream the browser sent, each ping is answered by a pong with its payload
      in order, and the run ends with a close exactly when the stream holds one; that close is
      answered with its own status, a display that hangs up is announced with status 1000. Only an oversize
      frame cuts this short, and then what was written is still a prefix. */
  lemma {:induction false} Upstream(s: State, events: seq<Event>)
    requires ParseFrame(s.buf).NeedMore?
    ensures Faithful(Drain(Push(s, Run(s, events).fromClient)), Run(s, events))
    decreases |events|
  {
    hide Drain, React, Faithful, ParseFrame;
    if events == [] {
      EmptyFaithful(s, Nothing);
    } else {
      var e := events[0];
      var r := React(s, e);
      ReactFaithful(s, e);
      if r.ending.StillOpen? {
        UpstreamStep(s, e);
        var s' := After(s, e);
        Upstream(s', events[1..]);
        var q := Run(s', events[1..]);
        var a := Drain(Push(s, r.fromClient));
        DrainAppend(Push(s, r.fromClient), q.fromClient);
        assert Push(Push(s, r.fromClient), q.fromClient) == Push(s, r.fromClient + q.fromClient) by {
          assert s.buf + r.fromClient + q.fromClient == s.buf + (r.fromClient + q.fromClient);
        }
        CombineFaithful(a, r, Drain(Push(s', q.fromClient)), q);
      }
    }
  }

  lemma UpstreamStep(s: State, e: Event)
    requires ParseFrame(s.buf).NeedMore?
    requires React(s, e).ending.StillOpen?
    ensures var a := Drain(Push(s, React(s, e).fromClient));
            a.state == After(s, e) && !a.raised && ParseFrame(a.state.buf).NeedMore?
  {
    hide Drain, Answer, ParseFrame;
    assert Push(s, []) == s;
    DrainStop(s);
    DrainedState(Push(s, React(s, e).fromClient));
  }

  /** Downstream: the binary frames sent to the browser carry exactly the bytes the display sent. */
  lemma {:induction false} Downstream(s: State, events: seq<Event>)
    ensures Flat(Payloads(Run(s, events).toClient, {2})) == Run(s, events).fromVnc
    decreases |events|
  {
    if events != [] {
      hide Drain, Answer;
      var e := events[0];
      var r := React(s, e);
      ReactDownstream(s, e);
      if r.ending.StillOpen? {
        var s' := After(s, e);
        Downstream(s', events[1..]);
        var q := Run(s', events[1..]);
        PayloadsAppend(r.toClient, q.toClient, {2});
        FlatAppend(Payloads(r.toClient, {2}), Payloads(q.toClient, {2}));
      }
    }
  }

  lemma ReactDownstream(s: State, e: Event)
    ensures Flat(Payloads(React(s, e).toClient, {2})) == React(s, e).fromVnc
  {
    hide Drain, Answer;
    if e.FromClient? && e.data != [] {
      AnswerMeaning(Drain(Push(s, e.data)).out);
    }
  }

  /** A run that is still open has read both streams to the end of what they offered. */
  lemma {:induction false} ReadsEverything(s: State, events: seq<Event>)
    requires Run(s, events).ending.StillOpen?
    ensures Run(s, events).fromClient == Flat(Chunks(events, true))
    ensures Run(s, events).fromVnc == Flat(Chunks(events, false))
    decreases |events|
  {
    if events != [] {
      hide Drain, Answer;
      ReadsEverything(After(s, events[0]), events[1..]);
    }
  }

  function Chunks(events: seq<Event>, client: bool): seq<seq<byte>> {
    if events == [] then []
    else if events[0].FromClient? == client then [events[0].data] + Chunks(events[1..], client)
    else Chunks(events[1..], client)
  }

  // ----- event by event -----

  function AfterAll(s: State, events: seq<Event>): State
    decreases |events|
  {
    if events == [] then s else AfterAll(After(s, events[0]), events[1..])
  }

  /** A run goes on where the one before it stopped, and a run that has ended takes no further event. */
  lemma {:induction false} RunAppend(s: State, xs: seq<Event>, ys: seq<Event>)
    ensures Run(s, xs + ys)
         == if Run(s, xs).ending.StillOpen? then Combine(Run(s, xs), Run(AfterAll(s, xs), ys)) else Run(s, xs)
    decreases |xs|
  {
    hide React, After;
    if xs == [] {
      assert xs + ys == ys;
      CombineNothing(Run(s, ys));
    } else {
      assert (xs + ys)[0] == xs[0] && (xs + ys)[1..] == xs[1..] + ys;
      var r, s' := React(s, xs[0]), After(s, xs[0]);
      RunAppend(s', xs[1..], ys);
      if r.ending.StillOpen? {
        CombineAssociative(r, Run(s', xs[1..]), Run(AfterAll(s, xs), ys));
      }
    }
  }

  lemma RunOne(s: State, e: Event)
    ensures Run(s, [e]) == React(s, e)
  {
    hide React, After;
    assert [e][1..] == [];
    assert Run(After(s, e), []) == Nothing;
    CombineNothing(React(s, e));
  }

  /** What the display sends in an open run goes to the browser as one binary frame; when it hangs up, the
      browser is sent a close with status 1000 and the run ends. */
  lemma DisplayEvent(s: State, events: seq<Event>, data: seq<byte>)
    requires Run(s, events).ending.StillOpen?
    ensures var r := Run(s, events);
            Run(s, events + [FromVnc(data)])
            == if |data| == 0
               then Relay(r.toVnc, r.toClient + [Message(8, [3, 232])], r.fromVnc, r.fromClient, VncClosed)
               else Relay(r.toVnc, r.toClient + [Message(2, data)], r.fromVnc + data, r.fromClient, StillOpen)
  {
    hide Run, AfterAll;
    RunAppend(s, events, [FromVnc(data)]);
    RunOne(AfterAll(s, events), FromVnc(data));
    assert ToBigEndian(1000, 2) == [3, 232];
    var r := Run(s, events);
    assert r.toVnc + [] == r.toVnc && r.fromVnc + [] == r.fromVnc && r.fromClient + [] == r.fromClient;
  }

  /** When the browser hangs up the run ends without a word; and when the run has ended, for whatever reason,
      it takes no further event. */
  lemma HangsUp(s: State, events: seq<Event>, more: seq<Event>)
    ensures Run(s, events).ending.StillOpen? ==>
              Run(s, events + [FromClient([])]) == Run(s, events).(ending := ClientClosed)
    ensures !Run(s, events).ending.StillOpen? ==> Run(s, events + more) == Run(s, events)
  {
    hide Run, AfterAll;
    RunAppend(s, events, [FromClient([])]);
    RunOne(AfterAll(s, events), FromClient([]));
    RunAppend(s, events, more);
    var r := Run(s, events);
    assert r.toVnc + [] == r.toVnc && r.toClient + [] == r.toClient
        && r.fromVnc + [] == r.fromVnc && r.fromClient + [] == r.fromClient;
  }

  /** The run has no reason to end: neither side hung up, and what the browser sent, taken in one piece, holds
      no close and no oversize frame. */
  ghost predicate NothingEnds(s: State, events: seq<Event>) {
    var o := Drain(Push(s, Flat(Chunks(events, true))));
    (forall e | e in events :: e.data != []) && !o.raised && !HasClose(o.out)
  }

  /** A run is open exactly as long as it has no such reason. */
  lemma {:induction false} OpenIff(s: State, events: seq<Event>)
    requires ParseFrame(s.buf).NeedMore?
    ensures Run(s, events).ending.StillOpen? <==> NothingEnds(s, events)
    decreases |events|
  {
    hide Drain, React, ParseFrame;
    if events == [] {
      assert Push(s, []) == s;
      DrainStop(s);
    } else {
      var e := events[0];
      assert events == [e] + events[1..];
      ReactOpenIff(s, e);
      ChunksFirst(events);
      TwoParts(s, ClientBytes(e), Flat(Chunks(events[1..], true)));
      hide Chunks, HasClose, ClientBytes;
      if React(s, e).ending.StillOpen? {
        UpstreamStep(s, e);
        OpenIff(After(s, e), events[1..]);
        FirstReads(s, e);
      }
    }
  }

  /** The bytes that an event brings from the browser. */
  function ClientBytes(e: Event): seq<byte> {
    if e.FromClient? then e.data else []
  }

  lemma FirstReads(s: State, e: Event)
    requires React(s, e).ending.StillOpen?
    ensures React(s, e).fromClient == ClientBytes(e)
  {
    hide Drain, Answer;
  }

  lemma ReactOpenIff(s: State, e: Event)
    requires ParseFrame(s.buf).NeedMore?
    ensures React(s, e).ending.StillOpen?
       <==> e.data != [] && var o := Drain(Push(s, ClientBytes(e))); !o.raised && !HasClose(o.out)
  {
    if e.FromVnc? {
      assert Push(s, []) == s;
      DrainStop(s);
    }
    hide Drain, Answer, ParseFrame;
    if e.FromClient? && e.data != [] {
      AnswerMeaning(Drain(Push(s, e.data)).out);
    }
  }

  lemma ChunksFirst(events: seq<Event>)
    requires events != []
    ensures Flat(Chunks(events, true)) == ClientBytes(events[0]) + Flat(Chunks(events[1..], true))
  {
    hide Flat;
    var rest := Chunks(events[1..], true);
    if events[0].FromClient? {
      assert Chunks(events, true) == [events[0].data] + rest;
      FlatFirst(events[0].data, rest);
    } else {
      assert Chunks(events, true) == rest;
    }
  }

  lemma FlatFirst(x: seq<byte>, xs: seq<seq<byte>>)
    ensures Flat([x] + xs) == x + Flat(xs)
  {
    assert ([x] + xs)[1..] == xs;
  }

  /** Some bytes, and then more. */
  lemma TwoParts(s: State, x: seq<byte>, y: seq<byte>)
    ensures var a := Drain(Push(s, x));
            var b := Drain(Push(a.state, y));
            var o := Drain(Push(s, x + y));
            && o.raised == b.raised && (HasClose(o.out) <==> HasClose(a.out) || HasClose(b.out))
            && (a.raised ==> o.raised)
  {
    var a := Drain(Push(s, x));
    var b := Drain(Push(a.state, y));
    hide Drain, ParseFrame, HasClose;
    DrainAppend(Push(s, x), y);
    assert Push(Push(s, x), y) == Push(s, x + y) by {
      assert s.buf + x + y == s.buf + (x + y);
    }
    hide Push;
    BeforeCloseAppend(a.out, b.out);
    if a.raised {
      RaisedStays(Push(s, x), y);
    }
  }

  // ----- what the browser decodes -----

  /** Messages that `_frame` can carry and any receiver takes as they stand. */
  ghost predicate Sendable(ms: seq<Message>) {
    forall m | m in ms :: m.op != OP_CONT && |m.payload| <= MAX_FRAME
  }

  lemma {:induction false} DecodePrinted(ms: seq<Message>)
    requires Sendable(ms)
    ensures Drain(State(Print(ms), [])) == Outcome(ms, Fresh, false)
    decreases |ms|
  {
    if ms != [] {
      hide ParseFrame, FrameBytes, Drain;
      var m, rest := ms[0], Print(ms[1..]);
      FrameBytesDecodes(m.op, m.payload, rest);
      DrainStep(State(Print(ms), []));
      assert Print(ms)[|FrameBytes(m.op, m.payload)|..] == rest;
      DecodePrinted(ms[1..]);
      assert ms == [m] + ms[1..];
    }
  }

  lemma {:induction false} ControlPayloads(s: State)
    ensures forall m | m in Drain(s).out && IsControl(m.op) :: |m.payload| <= MAX_FRAME
    decreases |s.buf|
  {
    if ParseFrame(s.buf).Got? {
      var Got(f, size) := ParseFrame(s.buf);
      EncodeParse(s.buf);
      ControlPayloads(State(s.buf[size..], Accept(s.fragments, f).fragments));
    }
  }

  lemma {:induction false} AnswerSendable(ms: seq<Message>)
    requires forall m | m in ms && IsControl(m.op) :: |m.payload| <= MAX_FRAME
    ensures Sendable(Answer(ms).toClient)
    decreases |ms|
  {
    if ms != [] {
      AnswerSendable(ms[1..]);
    }
  }

  lemma {:induction false} RunSendable(s: State, events: seq<Event>)
    requires ValidEvents(events)
    ensures Sendable(Run(s, events).toClient)
    decreases |events|
  {
    if events != [] {
      hide Drain, Answer;
      var e := events[0];
      if e.FromClient? {
        ControlPayloads(Push(s, e.data));
        AnswerSendable(Drain(Push(s, e.data)).out);
      }
      RunSendable(After(s, e), events[1..]);
    }
  }

  /** End to end downstream: a browser that decodes the bytes `Serve` sent it, cut in any way, gets
      exactly the messages meant for it, and the data among them is the display's byte stream. */
  lemma BrowserSeesDisplay(events: seq<Event>, chunks: seq<seq<byte>>)
    requires ValidEvents(events)
    requires Flat(chunks) == Print(Run(Fresh, events).toClient)
    ensures FeedAll(Fresh, chunks) == Outcome(Run(Fresh, events).toClient, Fresh, false)
    ensures Flat(Payloads(FeedAll(Fresh, chunks).out, {2})) == Run(Fresh, events).fromVnc
  {
    hide Drain, FeedAll, Run, Print;
    var sent := Run(Fresh, events).toClient;
    RunSendable(Fresh, events);
    DecodePrinted(sent);
    assert Push(Fresh, Print(sent)) == State(Print(sent), []);
    ChunkingIndependent(Fresh, chunks);
    Downstream(Fresh, events);
  }
}
