/** Round trip of whole conversations through the reader of api/vnc_bridge.py: messages in any
    number of fragments, with control frames between them (section 5.4 of RFC 6455). */
module VncConversation {
  import opened Bytes
  import opened WebSocketFrames
  import opened VncReader

  /** One continuation fragment and the control frames sent just before it. */
  datatype Part = Part(controls: seq<Message>, payload: seq<byte>)

  datatype Item =
    | Control(m: Message)
    | Whole(op: opcode, payload: seq<byte>)
    | Fragmented(op: opcode, first: seq<byte>, middle: seq<Part>, last: Part)

  ghost predicate ControlsOnly(ms: seq<Message>) {
    forall m | m in ms :: IsControl(m.op)
  }

  ghost predicate ValidItem(item: Item) {
    match item
    case Control(m) => IsControl(m.op)
    case Whole(op, _) => !IsControl(op) && op != OP_CONT
    case Fragmented(op, _, middle, last) =>
      !IsControl(op) && (forall p | p in middle :: ControlsOnly(p.controls)) && ControlsOnly(last.controls)
  }

  /** What the receiver should see: control frames at once, a fragmented message as one binary one. */
  function Expected(item: Item): seq<Message> {
    match item
    case Control(m) => [m]
    case Whole(op, payload) => [Message(op, payload)]
    case Fragmented(_, first, middle, last) =>
      PartControls(middle) + last.controls + [Message(OP_BINARY, first + PartBytes(middle) + last.payload)]
  }

  function PartControls(parts: seq<Part>): seq<Message> {
    if parts == [] then [] else parts[0].controls + PartControls(parts[1..])
  }

  function PartBytes(parts: seq<Part>): seq<byte> {
    if parts == [] then [] else parts[0].payload + PartBytes(parts[1..])
  }

  function ExpectedAll(items: seq<Item>): seq<Message> {
    if items == [] then [] else Expected(items[0]) + ExpectedAll(items[1..])
  }

  // ----- how a conversation is laid out in frames -----

  function Plain(fin: bool, op: opcode, payload: seq<byte>): Frame {
    Frame(fin, 0, op, Unmasked, Eight, payload)
  }

  function ControlFrames(ms: seq<Message>): seq<Frame> {
    seq(|ms|, i requires 0 <= i < |ms| => Plain(true, ms[i].op, ms[i].payload))
  }

  function PartFrames(p: Part, fin: bool): seq<Frame> {
    ControlFrames(p.controls) + [Plain(fin, OP_CONT, p.payload)]
  }

  function MiddleFrames(parts: seq<Part>): seq<Frame> {
    if parts == [] then [] else PartFrames(parts[0], false) + MiddleFrames(parts[1..])
  }

  function Layout(item: Item): seq<Frame> {
    match item
    case Control(m) => [Plain(true, m.op, m.payload)]
    case Whole(op, payload) => [Plain(true, op, payload)]
    case Fragmented(op, first, middle, last) =>
      [Plain(false, op, first)] + MiddleFrames(middle) + PartFrames(last, true)
  }

  function LayoutAll(items: seq<Item>): seq<Frame> {
    if items == [] then [] else Layout(items[0]) + LayoutAll(items[1..])
  }

  /** The frames agree in everything but reserved bits, masking and length form. */
  ghost predicate SameShape(fs: seq<Frame>, gs: seq<Frame>) {
    && |fs| == |gs|
    && forall i | 0 <= i < |fs| :: fs[i].fin == gs[i].fin && fs[i].op == gs[i].op && fs[i].payload == gs[i].payload
  }

  // ----- reassembling the layout -----

  lemma {:induction false} ReassembleSameShape(fragments: seq<seq<byte>>, fs: seq<Frame>, gs: seq<Frame>)
    requires SameShape(fs, gs)
    ensures Reassemble(fragments, fs) == Reassemble(fragments, gs)
    decreases |fs|
  {
    if fs != [] {
      assert Accept(fragments, fs[0]) == Accept(fragments, gs[0]);
      ReassembleSameShape(Accept(fragments, fs[0]).fragments, fs[1..], gs[1..]);
    }
  }

  lemma {:induction false} ReassembleControls(fragments: seq<seq<byte>>, ms: seq<Message>)
    requires ControlsOnly(ms)
    ensures Reassemble(fragments, ControlFrames(ms)) == Reassembly(ms, fragments)
    decreases |ms|
  {
    if ms != [] {
      var fs := ControlFrames(ms);
      assert fs[1..] == ControlFrames(ms[1..]);
      ReassembleControls(fragments, ms[1..]);
      assert ms == [ms[0]] + ms[1..];
    }
  }

  lemma ReassembleOne(fragments: seq<seq<byte>>, f: Frame)
    ensures Reassemble(fragments, [f]) == Accept(fragments, f)
  {
    var a := Accept(fragments, f);
    assert [f][1..] == [];
    assert a.out + [] == a.out;
  }

  lemma ReassemblePart(fragments: seq<seq<byte>>, p: Part, fin: bool)
    requires ControlsOnly(p.controls)
    ensures Reassemble(fragments, PartFrames(p, fin))
         == if fin then Reassembly(p.controls + [Message(OP_BINARY, Flat(fragments) + p.payload)], [])
            else Reassembly(p.controls, fragments + [p.payload])
  {
    var f := Plain(fin, OP_CONT, p.payload);
    ReassembleAppend(fragments, ControlFrames(p.controls), [f]);
    ReassembleControls(fragments, p.controls);
    ReassembleOne(fragments, f);
    FlatSnoc(fragments, p.payload);
    assert p.controls + [] == p.controls;
  }

  lemma {:induction false} ReassembleMiddle(fragments: seq<seq<byte>>, parts: seq<Part>)
    requires forall p | p in parts :: ControlsOnly(p.controls)
    ensures Reassemble(fragments, MiddleFrames(parts)).out == PartControls(parts)
    ensures Flat(Reassemble(fragments, MiddleFrames(parts)).fragments) == Flat(fragments) + PartBytes(parts)
    decreases |parts|
  {
    if parts != [] {
      hide Reassemble, PartFrames, Flat;
      var p := parts[0];
      assert MiddleFrames(parts) == PartFrames(p, false) + MiddleFrames(parts[1..]);
      assert PartControls(parts) == p.controls + PartControls(parts[1..]);
      assert PartBytes(parts) == p.payload + PartBytes(parts[1..]);
      ReassembleAppend(fragments, PartFrames(p, false), MiddleFrames(parts[1..]));
      ReassemblePart(fragments, p, false);
      FlatSnoc(fragments, p.payload);
      ReassembleMiddle(fragments + [p.payload], parts[1..]);
      var a, b, c := Flat(fragments), p.payload, PartBytes(parts[1..]);
      hide PartBytes, PartControls, MiddleFrames;
      assert a + b + c == a + (b + c);
    }
  }

  lemma ReassembleItem(item: Item)
    requires ValidItem(item)
    ensures Reassemble([], Layout(item)) == Reassembly(Expected(item), [])
  {
    match item
    case Control(m) => ReassembleOne([], Plain(true, m.op, m.payload));
    case Whole(op, payload) => ReassembleOne([], Plain(true, op, payload));
    case Fragmented(op, first, middle, last) => ReassembleFragmented(item);
  }

  lemma ReassembleStart(op: opcode, first: seq<byte>, middle: seq<Part>)
    requires !IsControl(op)
    requires forall p | p in middle :: ControlsOnly(p.controls)
    ensures var r := Reassemble([], [Plain(false, op, first)] + MiddleFrames(middle));
            r.out == PartControls(middle) && Flat(r.fragments) == first + PartBytes(middle)
  {
    hide Reassemble, MiddleFrames, PartControls, PartBytes;
    var head := Plain(false, op, first);
    ReassembleOne([], head);
    assert [] + [first] == [first];
    ReassembleMiddle([first], middle);
    assert Flat([first]) == first;
    ReassembleAppend([], [head], MiddleFrames(middle));
    assert [] + PartControls(middle) == PartControls(middle);
  }

  lemma ReassembleFragmented(item: Item)
    requires ValidItem(item) && item.Fragmented?
    ensures Reassemble([], Layout(item)) == Reassembly(Expected(item), [])
  {
    hide Reassemble, MiddleFrames, PartFrames, PartControls, PartBytes, Flat;
    var Fragmented(op, first, middle, last) := item;
    var start := [Plain(false, op, first)] + MiddleFrames(middle);
    var r := Reassemble([], start);
    ReassembleStart(op, first, middle);
    ReassemblePart(r.fragments, last, true);
    ReassembleAppend([], start, PartFrames(last, true));
    var whole := Message(OP_BINARY, first + PartBytes(middle) + last.payload);
    assert r.out + (last.controls + [whole]) == r.out + last.controls + [whole];
  }

  lemma {:induction false} ReassembleLayout(items: seq<Item>)
    requires forall item | item in items :: ValidItem(item)
    ensures Reassemble([], LayoutAll(items)) == Reassembly(ExpectedAll(items), [])
    decreases |items|
  {
    if items != [] {
      hide Layout, Expected;
      ReassembleItem(items[0]);
      ReassembleLayout(items[1..]);
      ReassembleAppend([], Layout(items[0]), LayoutAll(items[1..]));
    }
  }

  lemma NothingParses()
    ensures ParseFrame([]).NeedMore?
  {
  }

  /** Any conversation, in frames with any masking keys, length forms and reserved bits, cut by
      recv() in any way, is received message for message, and leaves the reader empty. */
  lemma {:induction false} ConversationRoundTrip(items: seq<Item>, fs: seq<Frame>, chunks: seq<seq<byte>>)
    requires forall item | item in items :: ValidItem(item)
    requires ValidFrames(fs) && SameShape(fs, LayoutAll(items))
    requires Flat(chunks) == EncodeAll(fs)
    ensures FeedAll(Fresh, chunks) == Outcome(ExpectedAll(items), Fresh, false)
  {
    hide Drain, FeedAll, Reassemble, LayoutAll, ExpectedAll, SameShape, EncodeAll, ParseFrame;
    NothingParses();
    ReassembleSameShape([], fs, LayoutAll(items));
    ReassembleLayout(items);
    DrainFrames([], fs, []);
    assert EncodeAll(fs) + [] == EncodeAll(fs);
    assert Push(Fresh, EncodeAll(fs)) == State(EncodeAll(fs), []);
    ChunkingIndependent(Fresh, chunks);
  }
}
