/** The wire format of api/vnc_bridge.py: WebSocket frames (section 5.2 of RFC 6455) as the
    bridge's reader takes them apart and as its `_frame` puts them together. */
module WebSocketFrames {
  import opened Bytes

  type opcode = n: int | 0 <= n < 16

  const OP_CONT: opcode := 0x0
  const OP_TEXT: opcode := 0x1
  const OP_BINARY: opcode := 0x2
  const OP_CLOSE: opcode := 0x8
  const OP_PING: opcode := 0x9
  const OP_PONG: opcode := 0xA

  /** `16 << 20`. */
  const MAX_FRAME := 16 * 1024 * 1024

  datatype Masking = Unmasked | Masked(key: seq<byte>)

  /** How the payload length is written: in the second byte, or in two or eight further bytes. */
  datatype LengthForm = Inline | Two | Eight

  /** Everything one frame says on the wire; `payload` is the unmasked payload. */
  datatype Frame = Frame(fin: bool, rsv: nat, op: opcode, masking: Masking, form: LengthForm, payload: seq<byte>)

  ghost predicate ValidFrame(f: Frame) {
    && f.rsv < 8
    && (f.masking.Masked? ==> |f.masking.key| == 4)
    && (f.form.Inline? ==> |f.payload| < 126)
    && (f.form.Two? ==> |f.payload| < 65536)
    && |f.payload| <= MAX_FRAME
  }

  /** Masking and unmasking are the same map: byte i against key byte i mod 4. */
  function ApplyMask(payload: seq<byte>, m: Masking): (r: seq<byte>)
    requires m.Masked? ==> |m.key| == 4
    ensures |r| == |payload|
  {
    match m
    case Unmasked => payload
    case Masked(key) => seq(|payload|, i requires 0 <= i < |payload| => Xor(payload[i], key[i % 4]))
  }

  lemma ApplyMaskInvolutive(payload: seq<byte>, m: Masking)
    requires m.Masked? ==> |m.key| == 4
    ensures ApplyMask(ApplyMask(payload, m), m) == payload
  {
    if m.Masked? {
      forall i | 0 <= i < |payload|
        ensures ApplyMask(ApplyMask(payload, m), m)[i] == payload[i]
      {
        XorInvolutive(payload[i], m.key[i % 4]);
      }
    }
  }

  // ----- printing -----

  function LengthBytes(form: LengthForm, n: nat): seq<byte> {
    match form
    case Inline => []
    case Two => ToBigEndian(n, 2)
    case Eight => ToBigEndian(n, 8)
  }

  function KeyBytes(m: Masking): seq<byte> {
    if m.Masked? then m.key else []
  }

  function Head(f: Frame): seq<byte>
    requires ValidFrame(f)
  {
    [(if f.fin then 128 else 0) + 16 * f.rsv + f.op,
     (if f.masking.Masked? then 128 else 0)
     + (match f.form case Inline => |f.payload| case Two => 126 case Eight => 127)]
  }

  /** The bytes of one frame, as any peer may write it. */
  function Encode(f: Frame): seq<byte>
    requires ValidFrame(f)
  {
    Head(f) + LengthBytes(f.form, |f.payload|) + KeyBytes(f.masking) + ApplyMask(f.payload, f.masking)
  }

  /** The bridge's own printer, `_frame`: final, unmasked, shortest length form. */
  function FrameBytes(op: opcode, payload: seq<byte>): seq<byte> {
    var n := |payload|;
    var head: seq<byte> := [128 + op];
    if n < 126 then head + [n] + payload
    else if n < 65536 then head + [126] + ToBigEndian(n, 2) + payload
    else head + [127] + ToBigEndian(n, 8) + payload
  }

  // ----- parsing -----

  datatype Parsed = NeedMore | TooLarge | Got(frame: Frame, size: nat)

  /** Bytes before the mask key: 2, or 4 or 10 with an extended length. */
  function HeaderSize(b1: byte): nat {
    if b1 % 128 == 126 then 4 else if b1 % 128 == 127 then 10 else 2
  }

  function PayloadLength(buf: seq<byte>): nat
    requires |buf| >= 2 && |buf| >= HeaderSize(buf[1])
  {
    if buf[1] % 128 == 126 then BigEndian(buf[2..4])
    else if buf[1] % 128 == 127 then BigEndian(buf[2..10])
    else buf[1] % 128
  }

  /** What one turn of the reader's loop finds at the front of `buf`. */
  function ParseFrame(buf: seq<byte>): (r: Parsed)
    ensures r.Got? ==> 2 <= r.size <= |buf|
  {
    if |buf| < 2 || |buf| < HeaderSize(buf[1]) then NeedMore
    else
      var n := PayloadLength(buf);
      if n > MAX_FRAME then TooLarge
      else
        var keyed := buf[1] >= 128;
        var body := HeaderSize(buf[1]) + (if keyed then 4 else 0);
        if |buf| < body + n then NeedMore
        else
          var masking := if keyed then Masked(buf[body - 4..body]) else Unmasked;
          var form := if buf[1] % 128 == 126 then Two else if buf[1] % 128 == 127 then Eight else Inline;
          Got(Frame(buf[0] >= 128, buf[0] / 16 % 8, buf[0] % 16, masking, form,
                    ApplyMask(buf[body..body + n], masking)),
              body + n)
  }

  lemma LengthBytesFit(n: nat)
    ensures Pow(256, 2) == 65536
    ensures n <= MAX_FRAME ==> n < Pow(256, 8)
  {
    assert Pow(256, 2) == 65536;
    assert Pow(256, 8) == 0x1_0000_0000_0000_0000;
  }

  lemma FourParts(head: seq<byte>, ext: seq<byte>, key: seq<byte>, body: seq<byte>, rest: seq<byte>)
    ensures var buf := head + ext + key + body + rest;
            var h := |head| + |ext|;
            var b := h + |key|;
            && buf[..|head|] == head && buf[|head|..h] == ext && buf[h..b] == key
            && buf[b..b + |body|] == body
            && forall i | 0 <= i < |head| :: buf[i] == head[i]
  {
  }

  /** Where the four parts of a printed frame stand in a longer stream. */
  lemma EncodeLayout(f: Frame, rest: seq<byte>)
    requires ValidFrame(f)
    ensures var buf := Encode(f) + rest;
            var h := 2 + |LengthBytes(f.form, |f.payload|)|;
            var b := h + |KeyBytes(f.masking)|;
            && |Encode(f)| == b + |f.payload|
            && buf[0] == Head(f)[0] && buf[1] == Head(f)[1]
            && HeaderSize(buf[1]) == h
            && buf[2..h] == LengthBytes(f.form, |f.payload|)
            && buf[h..b] == KeyBytes(f.masking)
            && buf[b..b + |f.payload|] == ApplyMask(f.payload, f.masking)
  {
    var head, ext, key := Head(f), LengthBytes(f.form, |f.payload|), KeyBytes(f.masking);
    var body := ApplyMask(f.payload, f.masking);
    assert Encode(f) == head + ext + key + body;
    LengthBytesSize(f);
    hide ApplyMask, LengthBytes, KeyBytes, Encode, Head;
    FourParts(head, ext, key, body, rest);
  }

  lemma LengthBytesSize(f: Frame)
    requires ValidFrame(f)
    ensures |Head(f)| == 2
    ensures HeaderSize(Head(f)[1]) == 2 + |LengthBytes(f.form, |f.payload|)|
  {
    hide ToBigEndian;
  }

  lemma LengthRoundTrip(f: Frame)
    requires ValidFrame(f)
    requires !f.form.Inline?
    ensures BigEndian(LengthBytes(f.form, |f.payload|)) == |f.payload|
  {
    LengthBytesFit(|f.payload|);
    BigEndianRoundTrip(|f.payload|, if f.form.Two? then 2 else 8);
  }

  /** The two header bytes say what the frame says. */
  lemma HeadSays(f: Frame)
    requires ValidFrame(f)
    ensures var b0, b1 := Head(f)[0], Head(f)[1];
            && (b0 >= 128 <==> f.fin) && b0 / 16 % 8 == f.rsv && b0 % 16 == f.op
            && (b1 >= 128 <==> f.masking.Masked?)
            && (b1 % 128 == 126 <==> f.form.Two?) && (b1 % 128 == 127 <==> f.form.Eight?)
            && (f.form.Inline? ==> b1 % 128 == |f.payload|)
  {
  }

  /** What a buffer parses to, from the slices that the parser looks at. */
  lemma ParseSlices(buf: seq<byte>, f: Frame, h: nat, b: nat)
    requires ValidFrame(f) && |buf| >= 2 && HeaderSize(buf[1]) == h <= |buf|
    requires PayloadLength(buf) == |f.payload|
    requires b == h + (if f.masking.Masked? then 4 else 0) && b + |f.payload| <= |buf|
    requires buf[h..b] == KeyBytes(f.masking) && buf[b..b + |f.payload|] == ApplyMask(f.payload, f.masking)
    requires var b0, b1 := buf[0], buf[1];
             && (b0 >= 128 <==> f.fin) && b0 / 16 % 8 == f.rsv && b0 % 16 == f.op
             && (b1 >= 128 <==> f.masking.Masked?)
             && (b1 % 128 == 126 <==> f.form.Two?) && (b1 % 128 == 127 <==> f.form.Eight?)
    ensures ParseFrame(buf) == Got(f, b + |f.payload|)
  {
    ApplyMaskInvolutive(f.payload, f.masking);
    hide ApplyMask, HeaderSize, PayloadLength;
    if f.masking.Masked? {
      assert f.masking == Masked(buf[b - 4..b]);
    }
  }

  /** Parsing inverts printing, whatever follows on the stream. */
  lemma ParseEncode(f: Frame, rest: seq<byte>)
    requires ValidFrame(f)
    ensures ParseFrame(Encode(f) + rest) == Got(f, |Encode(f)|)
  {
    var buf := Encode(f) + rest;
    var h := 2 + |LengthBytes(f.form, |f.payload|)|;
    EncodeLayout(f, rest);
    HeadSays(f);
    hide Encode, BigEndian, ApplyMask, LengthBytes, ToBigEndian, ParseFrame, Head;
    if !f.form.Inline? {
      LengthRoundTrip(f);
    }
    ParseSlices(buf, f, h, h + |KeyBytes(f.masking)|);
  }

  lemma HeadBytes(b: byte)
    ensures (if b >= 128 then 128 else 0) + 16 * (b / 16 % 8) + b % 16 == b
    ensures (if b >= 128 then 128 else 0) + b % 128 == b
  {
  }

  /** What a parsed frame owes to each slice of the buffer. */
  lemma ParsedFields(buf: seq<byte>)
    requires ParseFrame(buf).Got?
    ensures var f := ParseFrame(buf).frame;
            var h := HeaderSize(buf[1]);
            var b := h + (if buf[1] >= 128 then 4 else 0);
            && h <= b <= b + PayloadLength(buf) == ParseFrame(buf).size
            && PayloadLength(buf) <= MAX_FRAME
            && f.fin == (buf[0] >= 128) && f.rsv == buf[0] / 16 % 8 && f.op == buf[0] % 16
            && f.masking == (if buf[1] >= 128 then Masked(buf[b - 4..b]) else Unmasked)
            && f.form == (if buf[1] % 128 == 126 then Two else if buf[1] % 128 == 127 then Eight else Inline)
            && f.payload == ApplyMask(buf[b..b + PayloadLength(buf)], f.masking)
  {
    hide ApplyMask, HeaderSize, PayloadLength;
  }

  /** The length a frame was read with is the length it is printed with. */
  lemma LengthParse(buf: seq<byte>, form: LengthForm)
    requires |buf| >= 2 && HeaderSize(buf[1]) <= |buf|
    requires form == if buf[1] % 128 == 126 then Two else if buf[1] % 128 == 127 then Eight else Inline
    ensures LengthBytes(form, PayloadLength(buf)) == buf[2..HeaderSize(buf[1])]
    ensures form.Inline? ==> PayloadLength(buf) == buf[1] % 128 < 126
    ensures form.Two? ==> PayloadLength(buf) < 65536
  {
    var ext := buf[2..HeaderSize(buf[1])];
    ToBigEndianRoundTrip(ext);
    BigEndianBound(ext);
    LengthBytesFit(0);
    hide BigEndian, ToBigEndian, Pow;
  }

  /** The header a frame was read with is the header it is printed with. */
  lemma HeadParse(buf: seq<byte>)
    requires ParseFrame(buf).Got?
    ensures var f := ParseFrame(buf).frame;
            && ValidFrame(f)
            && |f.payload| == PayloadLength(buf)
            && Head(f) == buf[..2]
            && LengthBytes(f.form, |f.payload|) == buf[2..HeaderSize(buf[1])]
  {
    var f := ParseFrame(buf).frame;
    ParsedFields(buf);
    LengthParse(buf, f.form);
    HeadBytes(buf[0]);
    HeadBytes(buf[1]);
    hide ParseFrame, PayloadLength, HeaderSize, ApplyMask, LengthBytes;
    assert Head(f) == [buf[0], buf[1]];
  }

  /** Printing inverts parsing: a parsed frame is exactly the bytes it was read from. */
  lemma EncodeParse(buf: seq<byte>)
    requires ParseFrame(buf).Got?
    ensures ValidFrame(ParseFrame(buf).frame)
    ensures Encode(ParseFrame(buf).frame) == buf[..ParseFrame(buf).size]
  {
    var Got(f, size) := ParseFrame(buf);
    HeadParse(buf);
    ParsedFields(buf);
    var h := HeaderSize(buf[1]);
    var b := h + |KeyBytes(f.masking)|;
    assert KeyBytes(f.masking) == buf[h..b];
    ApplyMaskInvolutive(buf[b..size], f.masking);
    hide ParseFrame, PayloadLength, HeaderSize, ApplyMask, LengthBytes, Head, KeyBytes;
    Quarters(buf, h, b, size);
  }

  lemma Quarters(buf: seq<byte>, h: nat, b: nat, size: nat)
    requires 2 <= h <= b <= size <= |buf|
    ensures buf[..size] == buf[..2] + buf[2..h] + buf[h..b] + buf[b..size]
  {
  }

  /** A decision already taken is not changed by bytes that arrive later. */
  lemma ParseStable(buf: seq<byte>, more: seq<byte>)
    requires !ParseFrame(buf).NeedMore?
    ensures ParseFrame(buf + more) == ParseFrame(buf)
  {
    if ParseFrame(buf).Got? {
      GotStable(buf, more);
    } else {
      TooLargeStable(buf, more);
    }
  }

  lemma GotStable(buf: seq<byte>, more: seq<byte>)
    requires ParseFrame(buf).Got?
    ensures ParseFrame(buf + more) == ParseFrame(buf)
  {
    hide ParseFrame, Encode, ValidFrame;
    var Got(f, size) := ParseFrame(buf);
    EncodeParse(buf);
    Regroup(buf, Encode(f), more);
    ParseEncode(f, buf[size..] + more);
  }

  lemma Regroup(buf: seq<byte>, front: seq<byte>, more: seq<byte>)
    requires |front| <= |buf| && front == buf[..|front|]
    ensures buf + more == front + (buf[|front|..] + more)
  {
  }

  lemma TooLargeStable(buf: seq<byte>, more: seq<byte>)
    requires ParseFrame(buf).TooLarge?
    ensures ParseFrame(buf + more) == ParseFrame(buf)
  {
    hide ParseFrame, PayloadLength;
    TooLargeIff(buf);
    TooLargeIff(buf + more);
    LengthStable(buf, more);
  }

  lemma TooLargeIff(buf: seq<byte>)
    ensures ParseFrame(buf).TooLarge?
       <==> |buf| >= 2 && |buf| >= HeaderSize(buf[1]) && PayloadLength(buf) > MAX_FRAME
  {
    hide HeaderSize, PayloadLength, ApplyMask;
  }

  lemma LengthStable(buf: seq<byte>, more: seq<byte>)
    requires |buf| >= 2 && |buf| >= HeaderSize(buf[1])
    ensures PayloadLength(buf + more) == PayloadLength(buf)
  {
    var h := HeaderSize(buf[1]);
    assert (buf + more)[2..h] == buf[2..h];
    hide BigEndian;
  }

  lemma Unmasking(payload: seq<byte>)
    ensures ApplyMask(payload, Unmasked) == payload
  {
  }

  /** `_frame` prints one of the wire's frames, so it decodes back to exactly what was sent. */
  lemma FrameBytesDecodes(op: opcode, payload: seq<byte>, rest: seq<byte>)
    requires |payload| <= MAX_FRAME
    ensures var r := ParseFrame(FrameBytes(op, payload) + rest);
            && r.Got?
            && r.frame.fin && r.frame.op == op && r.frame.payload == payload
            && r.size == |FrameBytes(op, payload)|
  {
    hide ParseFrame, ToBigEndian, ApplyMask;
    var form := if |payload| < 126 then Inline else if |payload| < 65536 then Two else Eight;
    var f := Frame(true, 0, op, Unmasked, form, payload);
    assert ApplyMask(payload, Unmasked) == payload by {
      Unmasking(payload);
    }
    assert FrameBytes(op, payload) == Encode(f);
    hide Encode, FrameBytes;
    ParseEncode(f, rest);
  }

  // ----- the wire format, byte by byte -----

  /** Sections 5.2 and 5.3 of RFC 6455, read off the buffer: where the length stands and what it is. */
  function WireLength(buf: seq<byte>): nat
    requires |buf| >= 2
    requires buf[1] % 128 == 126 ==> |buf| >= 4
    requires buf[1] % 128 == 127 ==> |buf| >= 10
  {
    if buf[1] % 128 < 126 then buf[1] % 128
    else if buf[1] % 128 == 126 then
      var a: nat, b: nat := buf[2], buf[3];
      0x100 * a + b
    else
      var a: nat, b: nat, c: nat, d: nat := buf[2], buf[3], buf[4], buf[5];
      var e: nat, f: nat, g: nat, h: nat := buf[6], buf[7], buf[8], buf[9];
      0x100_0000_0000_0000 * a + 0x1_0000_0000_0000 * b + 0x100_0000_0000 * c + 0x1_0000_0000 * d
      + 0x100_0000 * e + 0x1_0000 * f + 0x100 * g + h
  }

  /** Where the payload starts: after the two header bytes, an extended length and a mask key. */
  function WireBody(buf: seq<byte>): nat
    requires |buf| >= 2
  {
    (if buf[1] % 128 < 126 then 2 else if buf[1] % 128 == 126 then 4 else 10) + (if buf[1] >= 128 then 4 else 0)
  }

  lemma TwoBytes(a: byte, b: byte)
    ensures BigEndian([a, b]) == 0x100 * a + b
  {
    assert BigEndian([]) == 0;
    hide BigEndian;
    BigEndianSnoc([], a);
    BigEndianSnoc([a], b);
    assert [] + [a] == [a] && [a] + [b] == [a, b];
  }

  lemma FourBytes(a: byte, b: byte, c: byte, d: byte)
    ensures BigEndian([a, b, c, d]) == 0x100_0000 * a + 0x1_0000 * b + 0x100 * c + d
  {
    hide BigEndian;
    TwoBytes(a, b);
    BigEndianSnoc([a, b], c);
    BigEndianSnoc([a, b, c], d);
    assert [a, b] + [c] == [a, b, c] && [a, b, c] + [d] == [a, b, c, d];
  }

  lemma EightBytes(a: byte, b: byte, c: byte, d: byte, e: byte, f: byte, g: byte, h: byte)
    ensures BigEndian([a, b, c, d, e, f, g, h])
         == 0x1_0000_0000 * BigEndian([a, b, c, d]) + 0x100_0000 * e + 0x1_0000 * f + 0x100 * g + h
  {
    hide BigEndian;
    BigEndianSnoc([a, b, c, d], e);
    BigEndianSnoc([a, b, c, d, e], f);
    BigEndianSnoc([a, b, c, d, e, f], g);
    BigEndianSnoc([a, b, c, d, e, f, g], h);
    assert [a, b, c, d] + [e] == [a, b, c, d, e] && [a, b, c, d, e] + [f] == [a, b, c, d, e, f];
    assert [a, b, c, d, e, f] + [g] == [a, b, c, d, e, f, g];
    assert [a, b, c, d, e, f, g] + [h] == [a, b, c, d, e, f, g, h];
  }

  lemma WireLengthRead(buf: seq<byte>)
    requires |buf| >= 2 && |buf| >= HeaderSize(buf[1])
    ensures PayloadLength(buf) == WireLength(buf)
  {
    hide BigEndian;
    if buf[1] % 128 == 126 {
      assert buf[2..4] == [buf[2], buf[3]];
      TwoBytes(buf[2], buf[3]);
    } else if buf[1] % 128 == 127 {
      assert buf[2..10] == [buf[2], buf[3], buf[4], buf[5], buf[6], buf[7], buf[8], buf[9]];
      FourBytes(buf[2], buf[3], buf[4], buf[5]);
      EightBytes(buf[2], buf[3], buf[4], buf[5], buf[6], buf[7], buf[8], buf[9]);
    }
  }

  /** What every frame that parses says, in terms of the bytes of the buffer alone: the bits of the first
      byte, the length, and the payload, which is the buffer's own bytes, or, when the mask bit is set,
      differs from them in exactly the bits of the key byte whose turn it is. */
  lemma WireMeaning(buf: seq<byte>)
    requires ParseFrame(buf).Got?
    ensures |buf| >= WireBody(buf)
    ensures var Got(f, size) := ParseFrame(buf);
            var n, body := WireLength(buf), WireBody(buf);
            && n <= 16 * 1024 * 1024 && size == body + n <= |buf|
            && (f.fin <==> Bit(buf[0], 7)) && f.op == buf[0] % 16
            && |f.payload| == n
            && (buf[1] < 128 ==> f.payload == buf[body..body + n])
            && (buf[1] >= 128 ==> forall i, k | 0 <= i < n && 0 <= k < 8 ::
                  Bit(f.payload[i], k) <==> Bit(buf[body + i], k) != Bit(buf[body - 4 + i % 4], k))
  {
    WireHead(buf);
    WirePayload(buf);
    hide ParseFrame, WireLength, WireBody, Bit;
  }

  lemma WireHead(buf: seq<byte>)
    requires ParseFrame(buf).Got?
    ensures |buf| >= WireBody(buf)
    ensures var Got(f, size) := ParseFrame(buf);
            var n, body := WireLength(buf), WireBody(buf);
            && n <= 16 * 1024 * 1024 && size == body + n <= |buf|
            && (f.fin <==> Bit(buf[0], 7)) && f.op == buf[0] % 16
            && |f.payload| == n
  {
    ParsedFields(buf);
    WireLengthRead(buf);
    HighBit(buf[0]);
    hide ParseFrame, PayloadLength, WireLength, Bit, ApplyMask;
  }

  lemma WirePayload(buf: seq<byte>)
    requires ParseFrame(buf).Got?
    ensures |buf| >= WireBody(buf) + WireLength(buf) && |ParseFrame(buf).frame.payload| == WireLength(buf)
    ensures var payload := ParseFrame(buf).frame.payload;
            var n, body := WireLength(buf), WireBody(buf);
            && (buf[1] < 128 ==> payload == buf[body..body + n])
            && (buf[1] >= 128 ==> forall i, k | 0 <= i < n && 0 <= k < 8 ::
                  Bit(payload[i], k) <==> Bit(buf[body + i], k) != Bit(buf[body - 4 + i % 4], k))
  {
    WireHead(buf);
    ParsedFields(buf);
    WireLengthRead(buf);
    var n, body := WireLength(buf), WireBody(buf);
    var payload := ParseFrame(buf).frame.payload;
    var masking := if buf[1] >= 128 then Masked(buf[body - 4..body]) else Unmasked;
    assert payload == ApplyMask(buf[body..body + n], masking);
    hide ParseFrame, PayloadLength, WireLength, WireBody, Bit, ApplyMask, HeaderSize;
    if buf[1] >= 128 {
      MaskedBits(buf, body, n);
    } else {
      Unmasking(buf[body..body + n]);
    }
  }

  lemma MaskedBits(buf: seq<byte>, body: nat, n: nat)
    requires 4 <= body && body + n <= |buf|
    ensures var payload := ApplyMask(buf[body..body + n], Masked(buf[body - 4..body]));
            forall i, k | 0 <= i < n && 0 <= k < 8 ::
              Bit(payload[i], k) <==> Bit(buf[body + i], k) != Bit(buf[body - 4 + i % 4], k)
  {
    hide Bit, XorBits;
    var key := buf[body - 4..body];
    var payload := ApplyMask(buf[body..body + n], Masked(key));
    forall i, k | 0 <= i < n && 0 <= k < 8
      ensures Bit(payload[i], k) <==> Bit(buf[body + i], k) != Bit(buf[body - 4 + i % 4], k)
    {
      assert payload[i] == Xor(buf[body + i], buf[body - 4 + i % 4]);
      XorBit(buf[body + i], buf[body - 4 + i % 4], 8, k);
    }
  }

  lemma HighBit(b: byte)
    ensures Bit(b, 7) <==> b >= 128
  {
    assert Bit(b, 7) == Bit(b / 2, 6) == Bit(b / 2 / 2, 5) == Bit(b / 2 / 2 / 2, 4);
    assert Bit(b / 2 / 2 / 2, 4) == Bit(b / 2 / 2 / 2 / 2, 3) == Bit(b / 2 / 2 / 2 / 2 / 2, 2);
    assert Bit(b / 2 / 2 / 2 / 2 / 2, 2) == Bit(b / 2 / 2 / 2 / 2 / 2 / 2, 1);
  }

  /** The masked text frame of section 5.7 of RFC 6455. */
  const HelloFrame: seq<byte> := [0x81, 0x85, 0x37, 0xfa, 0x21, 0x3d, 0x7f, 0x9f, 0x4d, 0x51, 0x58]

  /** "Hello". */
  lemma HelloDecodes(rest: seq<byte>)
    ensures var r := ParseFrame(HelloFrame + rest);
            && r.Got? && r.size == 11
            && r.frame.fin && r.frame.op == OP_TEXT && r.frame.payload == [0x48, 0x65, 0x6c, 0x6c, 0x6f]
  {
    var key, text: seq<byte> := [0x37, 0xfa, 0x21, 0x3d], [0x48, 0x65, 0x6c, 0x6c, 0x6f];
    var f := Frame(true, 0, OP_TEXT, Masked(key), Inline, text);
    HelloMasked(key, text);
    hide ApplyMask, ParseFrame;
    assert Head(f) == [0x81, 0x85];
    hide Head;
    var body: seq<byte> := [0x7f, 0x9f, 0x4d, 0x51, 0x58];
    assert Encode(f) == [0x81, 0x85] + [] + key + body;
    hide Encode;
    assert [0x81, 0x85] + [] + key + body == HelloFrame;
    ParseEncode(f, rest);
  }

  lemma HelloMasked(key: seq<byte>, text: seq<byte>)
    requires key == [0x37, 0xfa, 0x21, 0x3d] && text == [0x48, 0x65, 0x6c, 0x6c, 0x6f]
    ensures ApplyMask(text, Masked(key)) == [0x7f, 0x9f, 0x4d, 0x51, 0x58]
  {
    hide XorBits;
    MaskedH();
    MaskedE();
    MaskedL();
    MaskedSecondL();
    MaskedO();
    var r := ApplyMask(text, Masked(key));
    assert r[0] == Xor(text[0], key[0]) && r[1] == Xor(text[1], key[1]) && r[2] == Xor(text[2], key[2]);
    assert r[3] == Xor(text[3], key[3]) && r[4] == Xor(text[4], key[0]);
  }

  lemma {:induction false} MaskedH()
    ensures XorBits(0x48, 0x37, 8) == 0x7f
  {
    hide *;
    XorNone();
    XorDown(0x24, 0, 0x1b, 1, 8);
    XorDown(0x12, 0, 0x0d, 1, 7);
    XorDown(0x09, 0, 0x06, 1, 6);
    XorDown(0x04, 1, 0x03, 0, 5);
    XorDown(0x02, 0, 0x01, 1, 4);
    XorDown(0x01, 0, 0x00, 1, 3);
    XorDown(0x00, 1, 0x00, 0, 2);
    XorDown(0x00, 0, 0x00, 0, 1);
  }

  lemma {:induction false} MaskedE()
    ensures XorBits(0x65, 0xfa, 8) == 0x9f
  {
    hide *;
    XorNone();
    XorDown(0x32, 1, 0x7d, 0, 8);
    XorDown(0x19, 0, 0x3e, 1, 7);
    XorDown(0x0c, 1, 0x1f, 0, 6);
    XorDown(0x06, 0, 0x0f, 1, 5);
    XorDown(0x03, 0, 0x07, 1, 4);
    XorDown(0x01, 1, 0x03, 1, 3);
    XorDown(0x00, 1, 0x01, 1, 2);
    XorDown(0x00, 0, 0x00, 1, 1);
  }

  lemma {:induction false} MaskedL()
    ensures XorBits(0x6c, 0x21, 8) == 0x4d
  {
    hide *;
    XorNone();
    XorDown(0x36, 0, 0x10, 1, 8);
    XorDown(0x1b, 0, 0x08, 0, 7);
    XorDown(0x0d, 1, 0x04, 0, 6);
    XorDown(0x06, 1, 0x02, 0, 5);
    XorDown(0x03, 0, 0x01, 0, 4);
    XorDown(0x01, 1, 0x00, 1, 3);
    XorDown(0x00, 1, 0x00, 0, 2);
    XorDown(0x00, 0, 0x00, 0, 1);
  }

  lemma {:induction false} MaskedSecondL()
    ensures XorBits(0x6c, 0x3d, 8) == 0x51
  {
    hide *;
    XorNone();
    XorDown(0x36, 0, 0x1e, 1, 8);
    XorDown(0x1b, 0, 0x0f, 0, 7);
    XorDown(0x0d, 1, 0x07, 1, 6);
    XorDown(0x06, 1, 0x03, 1, 5);
    XorDown(0x03, 0, 0x01, 1, 4);
    XorDown(0x01, 1, 0x00, 1, 3);
    XorDown(0x00, 1, 0x00, 0, 2);
    XorDown(0x00, 0, 0x00, 0, 1);
  }

  lemma {:induction false} MaskedO()
    ensures XorBits(0x6f, 0x37, 8) == 0x58
  {
    hide *;
    XorNone();
    XorDown(0x37, 1, 0x1b, 1, 8);
    XorDown(0x1b, 1, 0x0d, 1, 7);
    XorDown(0x0d, 1, 0x06, 1, 6);
    XorDown(0x06, 1, 0x03, 0, 5);
    XorDown(0x03, 0, 0x01, 1, 4);
    XorDown(0x01, 1, 0x00, 1, 3);
    XorDown(0x00, 1, 0x00, 0, 2);
    XorDown(0x00, 0, 0x00, 0, 1);
  }
}
