/** Range requests as api/serve-package-repo.py answers them (sections 14.1.2, 14.2, 15.3.7 and
    15.5.17 of RFC 9110). */
module HttpRange {
  import opened Bytes
  import opened Text

  /** The two digit groups of `bytes=(\d*)-(\d*)`, either of which may be empty. */
  function ParseRange(header: string): (r: Option<(string, string)>)
    ensures r.Some? ==> AllDigits(r.value.0) && AllDigits(r.value.1)
  {
    var h := Strip(header);
    if |h| < 6 || h[..6] != "bytes=" then None
    else
      var spec := h[6..];
      var i := IndexOf(spec, '-');
      if i == |spec| || !AllDigits(spec[..i]) || !AllDigits(spec[i + 1..]) then None
      else Some((spec[..i], spec[i + 1..]))
  }

  function Number(s: string): Option<nat>
    requires AllDigits(s)
  {
    if s == "" then None else Some(DigitsValue(s))
  }

  datatype Reply = Whole | Partial(start: nat, end: nat) | Unsatisfiable

  /** What the two numbers ask of a file of `size` bytes, position by position. */
  ghost predicate Selected(first: Option<nat>, last: Option<nat>, size: nat, p: nat) {
    p < size && match (first, last)
                case (Some(a), Some(b)) => a <= p <= b
                case (Some(a), None) => a <= p
                case (None, Some(n)) => size - n <= p
                case (None, None) => false
  }

  /** `send_head`, on a file that exists. */
  method SendHead(header: Option<string>, size: nat) returns (r: Reply)
    ensures r == Answer(header, size)
  {
    if header.None? {
      return Whole;
    }
    var groups := ParseRange(header.value);
    if groups.None? || (groups.value.0 == "" && groups.value.1 == "") {
      return Whole;
    }
    var first, last := Number(groups.value.0), Number(groups.value.1);
    var start: int, end: int;
    if first.None? {
      start, end := if size >= last.value then size - last.value else 0, size - 1;
    } else {
      start, end := first.value, if last.Some? then last.value else size - 1;
    }
    if start >= size || start > end {
      return Unsatisfiable;
    }
    end := if end < size - 1 then end else size - 1;
    r := Partial(start, end);
  }

  function Answer(header: Option<string>, size: nat): Reply {
    if header.None? then Whole
    else
      var groups := ParseRange(header.value);
      if groups.None? || (groups.value.0 == "" && groups.value.1 == "") then Whole
      else
        var first, last := Number(groups.value.0), Number(groups.value.1);
        var start: int := if first.Some? then first.value else if size >= last.value then size - last.value else 0;
        var end: int := if first.Some? && last.Some? then last.value else size - 1;
        if start >= size || start > end then Unsatisfiable
        else Partial(start, if end < size - 1 then end else size - 1)
  }

  /** A well-formed single range is answered with exactly the positions it selects, and refused
      exactly when it selects none. */
  lemma AnswerSelects(header: string, size: nat)
    requires ParseRange(header).Some?
    requires ParseRange(header).value != ("", "")
    ensures var groups := ParseRange(header).value;
            var first, last := Number(groups.0), Number(groups.1);
            var r := Answer(Some(header), size);
            && !r.Whole?
            && (r.Unsatisfiable? <==> forall p: nat :: !Selected(first, last, size, p))
            && (r.Partial? ==> r.start <= r.end < size)
            && (r.Partial? ==> forall p: nat :: Selected(first, last, size, p) <==> r.start <= p <= r.end)
  {
    var groups := ParseRange(header).value;
    var first, last := Number(groups.0), Number(groups.1);
    hide ParseRange, Number;
    var r := Answer(Some(header), size);
    if r.Partial? {
      assert Selected(first, last, size, r.start);
    }
  }

  lemma RangeText(header: string, a: string, b: string)
    requires AllDigits(a) && AllDigits(b) && Strip(header) == "bytes=" + a + "-" + b
    ensures ParseRange(header) == Some((a, b))
  {
    var h, spec := Strip(header), a + "-" + b;
    hide Strip;
    assert h == "bytes=" + spec;
    assert h[..6] == "bytes=" && h[6..] == spec;
    assert spec[|a|] == '-' && spec[..|a|] == a && spec[|a| + 1..] == b;
    FirstIndex(spec, '-', |a|);
    hide IndexOf, AllDigits;
  }

  lemma RangeRead(header: string, a: string, b: string)
    requires ParseRange(header) == Some((a, b))
    ensures AllDigits(a) && AllDigits(b) && Strip(header) == "bytes=" + a + "-" + b
  {
    hide Strip, AllDigits;
    var h := Strip(header);
    var spec := h[6..];
    assert spec == a + "-" + b;
    assert h == "bytes=" + spec;
  }

  /** A header is read as a range exactly when, stripped, it is "bytes=", digits, a hyphen and digits. */
  lemma RangeIff(header: string, a: string, b: string)
    ensures ParseRange(header) == Some((a, b))
       <==> AllDigits(a) && AllDigits(b) && Strip(header) == "bytes=" + a + "-" + b
  {
    hide ParseRange, Strip, AllDigits;
    if ParseRange(header) == Some((a, b)) {
      RangeRead(header, a, b);
    } else if AllDigits(a) && AllDigits(b) && Strip(header) == "bytes=" + a + "-" + b {
      RangeText(header, a, b);
    }
  }

  /** And it is ignored, so that the whole file is sent, exactly when it is no such text, or one without any
      digit. */
  lemma WholeIff(header: string, size: nat)
    ensures Answer(Some(header), size) == Whole
       <==> forall a: string, b: string | AllDigits(a) && AllDigits(b) && Strip(header) == "bytes=" + a + "-" + b ::
              a == "" && b == ""
  {
    hide Strip, AllDigits;
    forall a: string, b: string
      ensures ParseRange(header) == Some((a, b))
         <==> AllDigits(a) && AllDigits(b) && Strip(header) == "bytes=" + a + "-" + b
    {
      RangeIff(header, a, b);
    }
    if ParseRange(header).Some? {
      var (a, b) := ParseRange(header).value;
      assert AllDigits(a) && AllDigits(b) && Strip(header) == "bytes=" + a + "-" + b;
    }
    hide ParseRange, Number;
  }

  // ----- what RFC 9110 asks -----

  /** Section 14.1.1: an int-range whose last position comes before its first is invalid. */
  predicate InvalidRange(first: Option<nat>, last: Option<nat>) {
    first.Some? && last.Some? && last.value < first.value
  }

  /** Section 14.1.2: an int-range is satisfiable when its first position exists, a suffix range when
      its length is not zero. */
  predicate Satisfiable(first: Option<nat>, last: Option<nat>, size: nat)
    requires first.Some? || last.Some?
  {
    if first.Some? then first.value < size else last.value > 0
  }

  /** The answer that ignores an invalid range, refuses an unsatisfiable one, and selects from the rest;
      an empty file has no positions to select from, so it is sent whole. */
  function RfcReply(first: Option<nat>, last: Option<nat>, size: nat): Reply
    requires first.Some? || last.Some?
  {
    if InvalidRange(first, last) then Whole
    else if !Satisfiable(first, last, size) then Unsatisfiable
    else if size == 0 then Whole
    else if first.None? then Partial(if size >= last.value then size - last.value else 0, size - 1)
    else Partial(first.value, if last.Some? && last.value < size then last.value else size - 1)
  }

  /** The server answers as that reading of the standard does, except for two families: an invalid
      range, and a suffix of an empty file. Both get 416. */
  lemma RfcIff(header: string, size: nat)
    requires ParseRange(header).Some?
    requires ParseRange(header).value != ("", "")
    ensures var groups := ParseRange(header).value;
            var first, last := Number(groups.0), Number(groups.1);
            var deviates := InvalidRange(first, last) || (first.None? && last.value > 0 && size == 0);
            && (Answer(Some(header), size) == RfcReply(first, last, size) <==> !deviates)
            && (deviates ==> Answer(Some(header), size) == Unsatisfiable && RfcReply(first, last, size) == Whole)
  {
    hide ParseRange, DigitsValue;
  }

  /** A reversed range of a ten-byte file: refused, where the other reading would send the file. */
  lemma ReversedRange()
    ensures ParseRange("bytes=5-2") == Some(("5", "2"))
    ensures Answer(Some("bytes=5-2"), 10) == Unsatisfiable
    ensures RfcReply(Some(5), Some(2), 10) == Whole
  {
    hide ParseRange, DigitsValue;
    FiveAndTwo();
    ParseSpec("5", "2");
    assert "bytes=" + "5" + "-" + "2" == "bytes=5-2";
  }

  lemma FiveAndTwo()
    ensures AllDigits("5") && AllDigits("2")
    ensures DigitsValue("5") == 5 && DigitsValue("2") == 2
  {
    assert Decimal(5) == "5" && Decimal(2) == "2";
    hide Decimal, DigitsValue;
    DecimalValue(5);
    DecimalValue(2);
  }

  function Body(r: Reply, content: seq<byte>): seq<byte> {
    match r
    case Whole => content
    case Partial(start, end) => if start <= end < |content| then content[start..end + 1] else []
    case Unsatisfiable => []
  }

  function Status(r: Reply): nat {
    match r
    case Whole => 200
    case Partial(_, _) => 206
    case Unsatisfiable => 416
  }

  const COPY_CHUNK := 1024 * 1024

  /** `copyfile`: the file is read from the position `send_head` left it at, and no more than the
      range is sent. */
  method CopyFile(r: Reply, content: seq<byte>) returns (sent: seq<byte>)
    requires r.Partial? ==> r.start <= r.end < |content|
    requires !r.Unsatisfiable?
    ensures sent == Body(r, content)
  {
    var pos := if r.Partial? then r.start else 0;
    var stop := if r.Partial? then r.end + 1 else |content|;
    ghost var begin := pos;
    sent := [];
    while pos < stop
      invariant begin <= pos <= stop <= |content|
      invariant sent == content[begin..pos]
    {
      var n := if stop - pos < COPY_CHUNK then stop - pos else COPY_CHUNK;
      sent := sent + content[pos..pos + n];
      pos := pos + n;
    }
  }

  // ----- resuming -----

  /** The Range header `download` sends when it already has `have` bytes. */
  function ResumeHeader(have: nat): Option<string> {
    if have == 0 then None else Some("bytes=" + Decimal(have) + "-")
  }

  lemma ParseSpec(a: string, b: string)
    requires AllDigits(a) && AllDigits(b)
    ensures ParseRange("bytes=" + a + "-" + b) == Some((a, b))
  {
    var h := "bytes=" + a + "-" + b;
    assert NoSpace(h);
    StripWhole(h);
    var spec := a + "-" + b;
    assert h == "bytes=" + spec;
    assert spec[|a|] == '-' && spec[..|a|] == a && spec[|a| + 1..] == b;
    FirstIndex(spec, '-', |a|);
    hide Strip, IndexOf, NoSpace;
    assert h[..6] == "bytes=" && h[6..] == spec;
  }

  lemma ParseResume(have: nat)
    ensures ParseRange("bytes=" + Decimal(have) + "-") == Some((Decimal(have), ""))
  {
    hide ParseRange, Decimal;
    ParseSpec(Decimal(have), "");
    assert "bytes=" + Decimal(have) + "-" + "" == "bytes=" + Decimal(have) + "-";
  }

  /** The server's answer to a resuming client is the missing suffix, with status 206; a first
      request gets the whole file. */
  lemma ResumeGetsTheRest(content: seq<byte>, have: nat)
    requires have < |content|
    ensures var r := Answer(ResumeHeader(have), |content|);
            && Body(r, content) == content[have..]
            && Status(r) == if have == 0 then 200 else 206
  {
    if have > 0 {
      ParseResume(have);
      DecimalValue(have);
      assert Number(Decimal(have)) == Some(have);
    }
  }
}
