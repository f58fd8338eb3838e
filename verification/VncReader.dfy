/** `_Reader` of api/vnc_bridge.py: reassembly of client frames from whatever recv() hands over. */
module VncReader {
  import opened Bytes
  import opened WebSocketFrames

  datatype Message = Message(op: opcode, payload: seq<byte>)

  predicate IsControl(op: opcode) {
    op == OP_CLOSE || op == OP_PING || op == OP_PONG
  }

  // ----- what a list of frames means -----

  datatype Reassembly = Reassembly(out: seq<Message>, fragments: seq<seq<byte>>)

  /** Control frames pass at once, fragments collect until a final one, other frames stand alone. */
  function Accept(fragments: seq<seq<byte>>, f: Frame): Reassembly {
    if IsControl(f.op) then Reassembly([Message(f.op, f.payload)], fragments)
    else if f.op == OP_CONT || !f.fin then
      if f.fin then Reassembly([Message(OP_BINARY, Flat(fragments + [f.payload]))], [])
      else Reassembly([], fragments + [f.payload])
    else Reassembly([Message(f.op, f.payload)], fragments)
  }

  /** A close, ping or pong passes even between fragments; a data frame that is final and no continuation is
      a message by itself; a final continuation completes a binary message; the rest is kept. */
  lemma AcceptMeaning(fragments: seq<seq<byte>>, f: Frame)
    ensures f.op in {8, 9, 10} ==> Accept(fragments, f) == Reassembly([Message(f.op, f.payload)], fragments)
    ensures f.op !in {0, 8, 9, 10} && f.fin ==>
              Accept(fragments, f) == Reassembly([Message(f.op, f.payload)], fragments)
    ensures f.op == 0 && f.fin ==> Accept(fragments, f) == Reassembly([Message(2, Flat(fragments) + f.payload)], [])
    ensures f.op !in {8, 9, 10} && !f.fin ==> Accept(fragments, f) == Reassembly([], fragments + [f.payload])
  {
    FlatSnoc(fragments, f.payload);
    hide Flat;
  }

  function Reassemble(fragments: seq<seq<byte>>, fs: seq<Frame>): Reassembly
    decreases |fs|
  {
    if fs == [] then Reassembly([], fragments)
    else
      var first := Accept(fragments, fs[0]);
      var rest := Reassemble(first.fragments, fs[1..]);
      Reassembly(first.out + rest.out, rest.fragments)
  }

  lemma {:induction false} ReassembleAppend(fragments: seq<seq<byte>>, fs: seq<Frame>, gs: seq<Frame>)
    ensures var a := Reassemble(fragments, fs);
            var b := Reassemble(a.fragments, gs);
            Reassemble(fragments, fs + gs) == Reassembly(a.out + b.out, b.fragments)
    decreases |fs|
  {
    if fs == [] {
      assert fs + gs == gs;
    } else {
      assert (fs + gs)[1..] == fs[1..] + gs;
      ReassembleAppend(Accept(fragments, fs[0]).fragments, fs[1..], gs);
    }
  }

  // ----- what the reader does to its buffer -----

  datatype State = State(buf: seq<byte>, fragments: seq<seq<byte>>)

  /** `raised` is the "frame too large" error; the messages in `out` are then lost to the caller. */
  datatype Outcome = Outcome(out: seq<Message>, state: State, raised: bool)

  /** Takes frames off the front of the buffer until none is complete. */
  function Drain(s: State): Outcome
    decreases |s.buf|
  {
    match ParseFrame(s.buf)
    case NeedMore => Outcome([], s, false)
    case TooLarge => Outcome([], s, true)
    case Got(f, size) =>
      var step := Accept(s.fragments, f);
      var rest := Drain(State(s.buf[size..], step.fragments));
      Outcome(step.out + rest.out, rest.state, rest.raised)
  }

  function Push(s: State, data: seq<byte>): State {
    State(s.buf + data, s.fragments)
  }

  const Fresh := State([], [])

  /** The first half of the loop body of `feed`: the frame at the front of the buffer, if the
      buffer already holds all of it. */
  method FrontFrame(buf: seq<byte>) returns (r: Parsed)
    ensures r == ParseFrame(buf)
  {
    hide ApplyMask, BigEndian;
    if |buf| < 2 {
      return NeedMore;
    }
    var b0, b1 := buf[0], buf[1];
    var masked, n := b1 >= 128, b1 % 128;
    var pos, form := 2, Inline;
    if n == 126 {
      if |buf| < 4 {
        return NeedMore;
      }
      n, pos, form := BigEndian(buf[2..4]), 4, Two;
    } else if n == 127 {
      if |buf| < 10 {
        return NeedMore;
      }
      n, pos, form := BigEndian(buf[2..10]), 10, Eight;
    }
    if n > MAX_FRAME {
      return TooLarge;
    }
    var masking := Unmasked;
    if masked {
      if |buf| < pos + 4 {
        return NeedMore;
      }
      masking, pos := Masked(buf[pos..pos + 4]), pos + 4;
    }
    if |buf| < pos + n {
      return NeedMore;
    }
    var payload := ApplyMask(buf[pos..pos + n], masking);
    return Got(Frame(b0 >= 128, b0 / 16 % 8, b0 % 16, masking, form, payload), pos + n);
  }

  class Reader {
    var buf: seq<byte>
    var fragments: seq<seq<byte>>

    ghost function Value(): State
      reads this
    {
      State(buf, fragments)
    }

    constructor ()
      ensures Value() == Fresh
    {
      buf, fragments := [], [];
    }

    /** `raised` stands for the ValueError: the caller then gets no messages at all. */
    method Feed(data: seq<byte>) returns (out: seq<Message>, raised: bool)
      modifies this
      ensures Value() == Drain(Push(old(Value()), data)).state
      ensures raised == Drain(Push(old(Value()), data)).raised
      ensures out == if raised then [] else Drain(Push(old(Value()), data)).out
    {
      hide Drain, ParseFrame, Accept;
      buf := buf + data;
      ghost var start := Value();
      out := [];
      assert [] + Drain(start).out == Drain(start).out;
      while true
        invariant var rest := Drain(Value());
                  Drain(start) == Outcome(out + rest.out, rest.state, rest.raised)
        decreases |buf|
      {
        ghost var before, sofar := Value(), out;
        var next := FrontFrame(buf);
        if !next.Got? {
          DrainStop(before);
          return if next.TooLarge? then [] else out, next.TooLarge?;
        }
        DrainStep(before);
        buf := buf[next.size..];
        var got := Deliver(next.frame);
        out := out + got;
        assert sofar + got + Drain(Value()).out == sofar + (got + Drain(Value()).out);
      }
    }

    /** The second half of the loop body of `feed`. */
    method Deliver(f: Frame) returns (got: seq<Message>)
      modifies this`fragments
      ensures Reassembly(got, fragments) == Accept(old(fragments), f)
    {
      if f.op == OP_CLOSE || f.op == OP_PING || f.op == OP_PONG {
        got := [Message(f.op, f.payload)];
      } else if f.op == OP_CONT || !f.fin {
        got := [];
        fragments := fragments + [f.payload];
        if f.fin {
          got := [Message(OP_BINARY, Flat(fragments))];
          fragments := [];
        }
      } else {
        got := [Message(f.op, f.payload)];
      }
    }
  }

  // ----- the buffer as a list of frames -----

  ghost predicate ValidFrames(fs: seq<Frame>) {
    forall f | f in fs :: ValidFrame(f)
  }

  ghost function EncodeAll(fs: seq<Frame>): seq<byte>
    requires ValidFrames(fs)
  {
    if fs == [] then [] else Encode(fs[0]) + EncodeAll(fs[1..])
  }

  /** Feeding any printed frames, then bytes that hold no complete frame, yields exactly what the
      frames mean and keeps exactly the incomplete bytes. */
  lemma {:induction false} DrainFrames(fragments: seq<seq<byte>>, fs: seq<Frame>, tail: seq<byte>)
    requires ValidFrames(fs)
    requires !ParseFrame(tail).Got?
    ensures var r := Reassemble(fragments, fs);
            Drain(State(EncodeAll(fs) + tail, fragments))
            == Outcome(r.out, State(tail, r.fragments), ParseFrame(tail).TooLarge?)
    decreases |fs|
  {
    hide ParseFrame, Accept, Encode;
    if fs == [] {
      assert EncodeAll(fs) + tail == tail;
    } else {
      var rest := EncodeAll(fs[1..]) + tail;
      var buf := EncodeAll(fs) + tail;
      assert buf == Encode(fs[0]) + rest;
      ParseEncode(fs[0], rest);
      assert buf[|Encode(fs[0])|..] == rest;
      DrainFrames(Accept(fragments, fs[0]).fragments, fs[1..], tail);
    }
  }

  /** Every byte string is some list of frames followed by bytes that hold no complete frame. */
  lemma {:induction false} Split(buf: seq<byte>) returns (fs: seq<Frame>, tail: seq<byte>)
    ensures ValidFrames(fs)
    ensures buf == EncodeAll(fs) + tail
    ensures !ParseFrame(tail).Got?
    decreases |buf|
  {
    hide ParseFrame, Encode, ValidFrame;
    if ParseFrame(buf).Got? {
      var Got(f, size) := ParseFrame(buf);
      EncodeParse(buf);
      var gs;
      gs, tail := Split(buf[size..]);
      fs := [f] + gs;
      assert fs[1..] == gs && ValidFrames(fs);
      var first, rest := Encode(f), EncodeAll(gs);
      assert EncodeAll(fs) == first + rest;
      assert buf == first + (rest + tail) == first + rest + tail;
    } else {
      fs, tail := [], buf;
    }
  }

  // ----- independence of how the stream is cut -----

  /** The buffer left behind by a drain holds no complete frame. */
  lemma {:induction false} DrainedState(s: State)
    ensures var o := Drain(s);
            ParseFrame(o.state.buf) == if o.raised then TooLarge else NeedMore
    decreases |s.buf|
  {
    if ParseFrame(s.buf).Got? {
      var Got(f, size) := ParseFrame(s.buf);
      DrainedState(State(s.buf[size..], Accept(s.fragments, f).fragments));
    }
  }

  lemma DrainStop(s: State)
    requires !ParseFrame(s.buf).Got?
    ensures Drain(s) == Outcome([], s, ParseFrame(s.buf).TooLarge?)
  {
  }

  lemma DrainStep(s: State)
    requires ParseFrame(s.buf).Got?
    ensures var Got(f, size) := ParseFrame(s.buf);
            var step := Accept(s.fragments, f);
            var rest := Drain(State(s.buf[size..], step.fragments));
            Drain(s) == Outcome(step.out + rest.out, rest.state, rest.raised)
  {
  }

  /** Draining now and again after more bytes arrive is draining once with all the bytes. */
  lemma {:induction false} DrainAppend(s: State, more: seq<byte>)
    ensures var a := Drain(s);
            var b := Drain(Push(a.state, more));
            Drain(Push(s, more)) == Outcome(a.out + b.out, b.state, b.raised)
    decreases |s.buf|, 1
  {
    hide *;
    if ParseFrame(s.buf).Got? {
      DrainAppendStep(s, more);
    } else {
      DrainStop(s);
      var b := Drain(Push(s, more));
      assert [] + b.out == b.out;
    }
  }

  lemma {:induction false} DrainAppendStep(s: State, more: seq<byte>)
    requires ParseFrame(s.buf).Got?
    ensures var a := Drain(s);
            var b := Drain(Push(a.state, more));
            Drain(Push(s, more)) == Outcome(a.out + b.out, b.state, b.raised)
    decreases |s.buf|, 0
  {
    hide Drain, ParseFrame, Accept;
    var Got(f, size) := ParseFrame(s.buf);
    var s' := State(s.buf[size..], Accept(s.fragments, f).fragments);
    ParseStable(s.buf, more);
    assert Push(s, more).buf[size..] == s.buf[size..] + more;
    DrainStep(s);
    DrainStep(Push(s, more));
    DrainAppend(s', more);
  }

  /** Once raised, always raised, and nothing more is read. */
  lemma RaisedStays(s: State, more: seq<byte>)
    requires Drain(s).raised
    ensures Drain(Push(s, more)).raised && Drain(Push(s, more)).out == Drain(s).out
  {
    DrainedState(s);
    DrainAppend(s, more);
    ParseStable(Drain(s).state.buf, more);
  }

  /** What successive `feed` calls deliver, up to and including the one that raises. */
  function FeedAll(s: State, chunks: seq<seq<byte>>): Outcome
    decreases |chunks|
  {
    if chunks == [] then Outcome([], s, false)
    else
      var o := Drain(Push(s, chunks[0]));
      if o.raised then Outcome([], o.state, true)
      else
        var rest := FeedAll(o.state, chunks[1..]);
        Outcome(o.out + rest.out, rest.state, rest.raised)
  }

  /** The loop of a caller that feeds chunk after chunk computes `FeedAll`. */
  method FeedChunks(r: Reader, chunks: seq<seq<byte>>) returns (out: seq<Message>, raised: bool)
    modifies r
    ensures FeedAll(old(r.Value()), chunks) == Outcome(out, r.Value(), raised)
  {
    hide Drain, ParseFrame;
    out, raised := [], false;
    var i := 0;
    while i < |chunks| && !raised
      invariant 0 <= i <= |chunks|
      invariant raised ==> FeedAll(old(r.Value()), chunks) == Outcome(out, r.Value(), true)
      invariant !raised ==> var rest := FeedAll(r.Value(), chunks[i..]);
                            FeedAll(old(r.Value()), chunks) == Outcome(out + rest.out, rest.state, rest.raised)
    {
      var got;
      got, raised := r.Feed(chunks[i]);
      assert chunks[i..][0] == chunks[i] && chunks[i..][1..] == chunks[i + 1..];
      out := out + got;
      i := i + 1;
    }
    assert chunks[|chunks|..] == [];
  }

  /** For a stream without an oversize frame the outputs and the final state do not depend on
      how recv() cut the stream. `s` is any state between two calls. */
  lemma {:induction false} ChunkingIndependent(s: State, chunks: seq<seq<byte>>)
    requires ParseFrame(s.buf).NeedMore?
    ensures !Drain(Push(s, Flat(chunks))).raised ==> FeedAll(s, chunks) == Drain(Push(s, Flat(chunks)))
    ensures Drain(Push(s, Flat(chunks))).raised ==>
              FeedAll(s, chunks).raised && FeedAll(s, chunks).out <= Drain(Push(s, Flat(chunks))).out
    decreases |chunks|
  {
    hide ParseFrame;
    if chunks == [] {
      assert s.buf + [] == s.buf;
    } else {
      var first := Push(s, chunks[0]);
      var rest := Flat(chunks[1..]);
      assert Push(first, rest) == Push(s, Flat(chunks)) by {
        assert s.buf + chunks[0] + rest == s.buf + (chunks[0] + rest);
      }
      DrainAppend(first, rest);
      DrainedState(first);
      if Drain(first).raised {
        RaisedStays(first, rest);
      } else {
        ChunkingIndependent(Drain(first).state, chunks[1..]);
      }
    }
  }

  lemma FeedOne(s: State, x: seq<byte>)
    ensures var o := Drain(Push(s, x));
            FeedAll(s, [x]) == Outcome(if o.raised then [] else o.out, o.state, o.raised)
  {
    hide Drain;
    assert [x][1..] == [];
    var o := Drain(Push(s, x));
    assert o.out + [] == o.out;
  }

  lemma FeedTwo(s: State, x: seq<byte>, y: seq<byte>)
    requires !Drain(Push(s, x)).raised
    ensures var o := Drain(Push(s, x));
            FeedAll(s, [x, y]).out == o.out + FeedAll(o.state, [y]).out
  {
    hide Drain;
    assert [x, y][1..] == [y];
  }

  /** An oversize frame in the same chunk raises away every message decoded before it; when the
      chunk ends just before that frame, all of them are delivered. */
  lemma {:induction false} OversizeLosesMessages(stream: seq<byte>) returns (head: seq<byte>, tail: seq<byte>)
    requires Drain(State(stream, [])).raised
    ensures stream == head + tail
    ensures FeedAll(Fresh, [stream]).out == []
    ensures FeedAll(Fresh, [head, tail]).out == Drain(State(stream, [])).out
  {
    var fs;
    fs, tail := Split(stream);
    head := EncodeAll(fs);
    DrainFrames([], fs, tail);
    DrainFrames([], fs, []);
    hide *;
    FeedOversize(head, tail, Reassemble([], fs));
    assert stream == head + tail;
  }

  lemma {:induction false} FeedOversize(head: seq<byte>, tail: seq<byte>, r: Reassembly)
    requires Drain(State(head + tail, [])) == Outcome(r.out, State(tail, r.fragments), true)
    requires Drain(State(head + [], [])) == Outcome(r.out, State([], r.fragments), false)
    ensures FeedAll(Fresh, [head + tail]).out == []
    ensures FeedAll(Fresh, [head, tail]).out == r.out
  {
    hide Drain, FeedAll;
    var left := State([], r.fragments);
    assert head + [] == head && Push(Fresh, head) == State(head, []);
    assert Push(Fresh, head + tail) == State(head + tail, []);
    assert Push(left, tail) == State(tail, r.fragments);
    FeedOne(Fresh, head + tail);
    FeedTwo(Fresh, head, tail);
    FeedOne(left, tail);
    DrainedState(State(head + tail, []));
    DrainStop(State(tail, r.fragments));
  }

  /** All ways of cutting `stream` deliver the same messages. */
  ghost predicate CutsAgree(stream: seq<byte>) {
    forall xs: seq<seq<byte>>, ys: seq<seq<byte>> ::
      Flat(xs) == stream && Flat(ys) == stream ==> FeedAll(Fresh, xs).out == FeedAll(Fresh, ys).out
  }

  lemma CutsAgreeByOutput(stream: seq<byte>)
    ensures CutsAgree(stream) <==> (Drain(State(stream, [])).raised ==> Drain(State(stream, [])).out == [])
  {
    hide Drain, FeedAll;
    var whole := Drain(State(stream, []));
    assert Push(Fresh, stream) == State(stream, []);
    if whole.raised && whole.out != [] {
      var head, tail := OversizeLosesMessages(stream);
      FlatTwo(stream, []);
      FlatTwo(head, tail);
    } else {
      forall xs: seq<seq<byte>>, ys: seq<seq<byte>> | Flat(xs) == stream && Flat(ys) == stream
        ensures FeedAll(Fresh, xs).out == FeedAll(Fresh, ys).out
      {
        ChunkingIndependent(Fresh, xs);
        ChunkingIndependent(Fresh, ys);
      }
    }
  }

  /** Frames yield no message exactly when all of them are data frames that are not final. */
  lemma {:induction false} SilentIff(fragments: seq<seq<byte>>, fs: seq<Frame>)
    ensures Reassemble(fragments, fs).out == [] <==> forall f | f in fs :: !IsControl(f.op) && !f.fin
    decreases |fs|
  {
    if fs != [] {
      SilentIff(Accept(fragments, fs[0]).fragments, fs[1..]);
      assert fs == [fs[0]] + fs[1..];
    }
  }

  /** Every stream is some frames and an incomplete or oversize rest (`Split`). All ways of cutting it
      deliver the same messages exactly when no frame before an oversize one is a control frame or a
      final one: those are the frames that complete a message. */
  lemma CutsAgreeIff(fs: seq<Frame>, tail: seq<byte>)
    requires ValidFrames(fs) && !ParseFrame(tail).Got?
    ensures CutsAgree(EncodeAll(fs) + tail)
       <==> (ParseFrame(tail).TooLarge? ==> forall f | f in fs :: !IsControl(f.op) && !f.fin)
  {
    hide ParseFrame, CutsAgree, EncodeAll, Drain, Reassemble;
    CutsAgreeByOutput(EncodeAll(fs) + tail);
    DrainFrames([], fs, tail);
    SilentIff([], fs);
  }

  // ----- the loss at one stream -----

  const EmptyPing := Frame(true, 0, OP_PING, Unmasked, Inline, [])

  /** A binary frame that announces 16 MiB and one byte. */
  const OversizeHead: seq<byte> := [130, 127, 0, 0, 0, 0, 1, 0, 0, 1]

  lemma OversizeHeadTooLarge()
    ensures ParseFrame(OversizeHead).TooLarge?
  {
    hide BigEndian, ApplyMask;
    OversizeLength();
    assert OversizeHead[2..10] == [0, 0, 0, 0, 1, 0, 0, 1];
  }

  lemma OversizeLength()
    ensures BigEndian([0, 0, 0, 0, 1, 0, 0, 1]) == MAX_FRAME + 1
  {
    OversizeHigh();
    hide BigEndian;
    BigEndianSnoc([0, 0, 0, 0, 1], 0);
    BigEndianSnoc([0, 0, 0, 0, 1, 0], 0);
    BigEndianSnoc([0, 0, 0, 0, 1, 0, 0], 1);
    assert [0, 0, 0, 0, 1, 0, 0, 1] == [0, 0, 0, 0, 1, 0, 0] + [1];
    assert [0, 0, 0, 0, 1, 0, 0] == [0, 0, 0, 0, 1, 0] + [0] && [0, 0, 0, 0, 1, 0] == [0, 0, 0, 0, 1] + [0];
  }

  lemma OversizeHigh()
    ensures BigEndian([0, 0, 0, 0, 1]) == 1
  {
    assert BigEndian([]) == 0;
    hide BigEndian;
    BigEndianSnoc([], 0);
    BigEndianSnoc([0], 0);
    BigEndianSnoc([0, 0], 0);
    BigEndianSnoc([0, 0, 0], 0);
    BigEndianSnoc([0, 0, 0, 0], 1);
    assert [0, 0, 0, 0, 1] == [0, 0, 0, 0] + [1] && [0, 0, 0, 0] == [0, 0, 0] + [0];
    assert [0, 0, 0] == [0, 0] + [0] && [0, 0] == [0] + [0] && [0] == [] + [0];
  }

  /** A ping and then that header: in one piece the ping is lost, cut between them it is delivered. */
  lemma PingLost()
    ensures EncodeAll([EmptyPing]) == [137, 0]
    ensures FeedAll(Fresh, [[137, 0] + OversizeHead]).out == []
    ensures FeedAll(Fresh, [[137, 0], OversizeHead]).out == [Message(OP_PING, [])]
    ensures !CutsAgree([137, 0] + OversizeHead)
  {
    var fs := [EmptyPing];
    PingBytes();
    OversizeHeadTooLarge();
    assert fs[0] in fs;
    hide ParseFrame, CutsAgree, Drain, FeedAll, Encode;
    CutsAgreeIff(fs, OversizeHead);
    DrainFrames([], fs, OversizeHead);
    DrainFrames([], fs, []);
    FeedOversize([137, 0], OversizeHead, Reassembly([Message(OP_PING, [])], []));
  }

  lemma PingBytes()
    ensures ValidFrames([EmptyPing]) && EncodeAll([EmptyPing]) == [137, 0]
    ensures Reassemble([], [EmptyPing]) == Reassembly([Message(OP_PING, [])], [])
  {
    assert [EmptyPing][1..] == [];
    assert Encode(EmptyPing) == [137, 0];
    assert EncodeAll([]) == [] && [137, 0] + [] == [137, 0];
  }
}
