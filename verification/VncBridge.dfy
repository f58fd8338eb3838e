/** The relay loop `serve` of api/vnc_bridge.py: bytes of a VNC display on one side, WebSocket
    frames of a browser on the other. */
module VncBridge {
  import opened Bytes
  import opened WebSocketFrames
  import opened VncReader

  /** What one recv() returned, in the order the loop makes the calls (the display's socket
      before the browser's when select() reports both). No bytes is the end of that stream. */
  datatype Event = FromVnc(data: seq<byte>) | FromClient(data: seq<byte>)

  datatype Ending = StillOpen | VncClosed | ClientClosed | CloseReceived | Oversize

  /** What the relay has read and written: bytes to the display, messages to the browser. */
  datatype Relay = Relay(toVnc: seq<byte>, toClient: seq<Message>,
                         fromVnc: seq<byte>, fromClient: seq<byte>, ending: Ending)

  const RECV_SIZE := 65536

  ghost predicate ValidEvents(events: seq<Event>) {
    forall e | e in events :: |e.data| <= RECV_SIZE
  }

  /** The browser's side of one batch of messages, up to a close frame. */
  datatype Batch = Batch(toVnc: seq<byte>, toClient: seq<Message>, closed: bool)

  function Answer(ms: seq<Message>): Batch {
    if ms == [] then Batch([], [], false)
    else
      var m := ms[0];
      if m.op == OP_CLOSE then
        Batch([], [Message(OP_CLOSE, if |m.payload| < 2 then m.payload else m.payload[..2])], true)
      else
        var rest := Answer(ms[1..]);
        if m.op == OP_PING then rest.(toClient := [Message(OP_PONG, m.payload)] + rest.toClient)
        else if m.op == OP_BINARY || m.op == OP_TEXT then rest.(toVnc := m.payload + rest.toVnc)
        else rest
  }

  function Combine(a: Relay, b: Relay): Relay {
    Relay(a.toVnc + b.toVnc, a.toClient + b.toClient, a.fromVnc + b.fromVnc, a.fromClient + b.fromClient, b.ending)
  }

  const Nothing := Relay([], [], [], [], StillOpen)

  /** The answer to one event, in reader state `s`. */
  function React(s: State, e: Event): Relay {
    match e
    case FromVnc(data) =>
      if data == [] then Relay([], [Message(OP_CLOSE, ToBigEndian(1000, 2))], [], [], VncClosed)
      else Relay([], [Message(OP_BINARY, data)], data, [], StillOpen)
    case FromClient(data) =>
      if data == [] then Relay([], [], [], [], ClientClosed)
      else
        var o := Drain(Push(s, data));
        if o.raised then Relay([], [], [], data, Oversize)
        else
          var batch := Answer(o.out);
          Relay(batch.toVnc, batch.toClient, [], data, if batch.closed then CloseReceived else StillOpen)
  }

  function After(s: State, e: Event): State {
    if e.FromVnc? then s else Drain(Push(s, e.data)).state
  }

  function Run(s: State, events: seq<Event>): Relay
    decreases |events|
  {
    if events == [] then Nothing
    else
      var r := React(s, events[0]);
      if r.ending.StillOpen? then Combine(r, Run(After(s, events[0]), events[1..])) else r
  }

  // ----- the loop -----

  /** The bytes of a list of messages as `_frame` prints them. */
  function Print(ms: seq<Message>): seq<byte> {
    if ms == [] then [] else FrameBytes(ms[0].op, ms[0].payload) + Print(ms[1..])
  }

  lemma {:induction false} PrintAppend(xs: seq<Message>, ys: seq<Message>)
    ensures Print(xs + ys) == Print(xs) + Print(ys)
  {
    if xs == [] {
      assert xs + ys == ys;
    } else {
      assert (xs + ys)[1..] == xs[1..] + ys;
      PrintAppend(xs[1..], ys);
    }
  }

  /** The next message of a batch, and what is left to answer after it. */
  lemma AnswerStep(ms: seq<Message>, i: nat)
    requires i < |ms| && ms[i].op != OP_CLOSE
    ensures var now, rest := Answer(ms[i..]), Answer(ms[i + 1..]);
            var m := ms[i];
            var data := m.op == OP_BINARY || m.op == OP_TEXT;
            && now.closed == rest.closed
            && now.toVnc == (if data then m.payload + rest.toVnc else rest.toVnc)
            && Print(now.toClient) == (if m.op == OP_PING then FrameBytes(OP_PONG, m.payload) + Print(rest.toClient)
                                       else Print(rest.toClient))
  {
    hide FrameBytes;
    assert ms[i..][0] == ms[i] && ms[i..][1..] == ms[i + 1..];
    var rest := Answer(ms[i + 1..]);
    if ms[i].op == OP_PING {
      PrintAppend([Message(OP_PONG, ms[i].payload)], rest.toClient);
      PrintOne(Message(OP_PONG, ms[i].payload));
    }
  }

  lemma AnswerClose(ms: seq<Message>, i: nat)
    requires i < |ms| && ms[i].op == OP_CLOSE
    ensures var now := Answer(ms[i..]);
            && now.closed && now.toVnc == []
            && Print(now.toClient)
               == FrameBytes(OP_CLOSE, if |ms[i].payload| < 2 then ms[i].payload else ms[i].payload[..2])
  {
    hide FrameBytes;
    assert ms[i..][0] == ms[i];
    PrintOne(Message(OP_CLOSE, if |ms[i].payload| < 2 then ms[i].payload else ms[i].payload[..2]));
  }

  /** The inner `for` loop: answers a batch until a close frame. */
  method AnswerBatch(ms: seq<Message>) returns (toVnc: seq<byte>, toClient: seq<byte>, closed: bool)
    ensures toVnc == Answer(ms).toVnc
    ensures toClient == Print(Answer(ms).toClient)
    ensures closed == Answer(ms).closed
  {
    assert Answer([]) == Batch([], [], false) && Print([]) == [];
    hide Answer, Print, FrameBytes;
    toVnc, toClient, closed := [], [], false;
    var i := 0;
    assert ms[0..] == ms;
    assert [] + Answer(ms).toVnc == Answer(ms).toVnc;
    assert [] + Print(Answer(ms).toClient) == Print(Answer(ms).toClient);
    while i < |ms|
      invariant 0 <= i <= |ms| && !closed
      invariant Answer(ms).toVnc == toVnc + Answer(ms[i..]).toVnc
      invariant Print(Answer(ms).toClient) == toClient + Print(Answer(ms[i..]).toClient)
      invariant Answer(ms).closed == Answer(ms[i..]).closed
    {
      var m := ms[i];
      if m.op == OP_CLOSE {
        AnswerClose(ms, i);
        assert toVnc + [] == toVnc;
        var frame := FrameBytes(OP_CLOSE, if |m.payload| < 2 then m.payload else m.payload[..2]);
        return toVnc, toClient + frame, true;
      }
      AnswerStep(ms, i);
      if m.op == OP_PING {
        ConcatAssociative(toClient, FrameBytes(OP_PONG, m.payload), Print(Answer(ms[i + 1..]).toClient));
        toClient := toClient + FrameBytes(OP_PONG, m.payload);
      } else if m.op == OP_BINARY || m.op == OP_TEXT {
        ConcatAssociative(toVnc, m.payload, Answer(ms[i + 1..]).toVnc);
        toVnc := toVnc + m.payload;
      }
      i := i + 1;
    }
    assert ms[|ms|..] == [];
    assert toVnc + [] == toVnc && toClient + [] == toClient;
  }

  lemma CombineAssociative(a: Relay, b: Relay, c: Relay)
    ensures Combine(Combine(a, b), c) == Combine(a, Combine(b, c))
  {
    assert a.toVnc + b.toVnc + c.toVnc == a.toVnc + (b.toVnc + c.toVnc);
    assert a.toClient + b.toClient + c.toClient == a.toClient + (b.toClient + c.toClient);
    assert a.fromVnc + b.fromVnc + c.fromVnc == a.fromVnc + (b.fromVnc + c.fromVnc);
    assert a.fromClient + b.fromClient + c.fromClient == a.fromClient + (b.fromClient + c.fromClient);
  }

  lemma CombineNothing(r: Relay)
    ensures Combine(Nothing, r) == r && Combine(r, Nothing) == r.(ending := StillOpen)
  {
    assert [] + r.toVnc == r.toVnc == r.toVnc + [] && [] + r.toClient == r.toClient == r.toClient + [];
    assert [] + r.fromVnc == r.fromVnc == r.fromVnc + [] && [] + r.fromClient == r.fromClient == r.fromClient + [];
  }

  lemma PrintOne(m: Message)
    ensures Print([m]) == FrameBytes(m.op, m.payload)
  {
    assert [m][1..] == [];
  }

  /** One pass through the loop body's `if vnc in ready` or `if client in ready`. */
  method Handle(reader: Reader, e: Event) returns (toVnc: seq<byte>, toClient: seq<byte>, ending: Ending)
    modifies reader
    ensures toVnc == React(old(reader.Value()), e).toVnc
    ensures toClient == Print(React(old(reader.Value()), e).toClient)
    ensures ending == React(old(reader.Value()), e).ending
    ensures ending.StillOpen? ==> reader.Value() == After(old(reader.Value()), e)
  {
    hide Drain, Answer, FrameBytes;
    toVnc, toClient, ending := [], [], StillOpen;
    if e.FromVnc? {
      var m := if e.data == [] then Message(OP_CLOSE, ToBigEndian(1000, 2)) else Message(OP_BINARY, e.data);
      PrintOne(m);
      toClient := FrameBytes(m.op, m.payload);
      if e.data == [] {
        ending := VncClosed;
      }
    } else if e.data == [] {
      ending := ClientClosed;
    } else {
      var ms, raised := reader.Feed(e.data);
      if raised {
        ending := Oversize;
      } else {
        var closed;
        toVnc, toClient, closed := AnswerBatch(ms);
        if closed {
          ending := CloseReceived;
        }
      }
    }
  }

  /** `serve` after the handshake. What it sends each side is exactly what `Run` records. */
  method Serve(events: seq<Event>) returns (toVnc: seq<byte>, toClient: seq<byte>, ending: Ending)
    ensures toVnc == Run(Fresh, events).toVnc
    ensures toClient == Print(Run(Fresh, events).toClient)
    ensures ending == Run(Fresh, events).ending
  {
    hide React, After;
    toVnc, toClient, ending := [], [], StillOpen;
    var reader := new Reader();
    ghost var done := Nothing;
    CombineNothing(Run(Fresh, events));
    var i := 0;
    while i < |events|
      invariant 0 <= i <= |events| && ending == StillOpen
      invariant toVnc == done.toVnc && toClient == Print(done.toClient) && done.ending.StillOpen?
      invariant Run(Fresh, events) == Combine(done, Run(reader.Value(), events[i..]))
    {
      ghost var r := React(reader.Value(), events[i]);
      assert events[i..][0] == events[i] && events[i..][1..] == events[i + 1..];
      var up, down;
      up, down, ending := Handle(reader, events[i]);
      toVnc, toClient := toVnc + up, toClient + down;
      PrintAppend(done.toClient, r.toClient);
      if ending != StillOpen {
        return;
      }
      CombineAssociative(done, r, Run(reader.Value(), events[i + 1..]));
      done := Combine(done, r);
      i := i + 1;
    }
    CombineNothing(done);
  }
}
