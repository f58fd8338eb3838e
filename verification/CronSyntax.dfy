/** The fields that api/croncalc.py accepts, as they are written: pieces with commas between them, each a star,
    a number or a range, with or without a step. */
module CronSyntax {
  import opened Bytes
  import opened Text
  import opened CronFields

  datatype Span = Star | One(a: nat) | FromTo(a: nat, b: nat)

  datatype Piece = Piece(span: Span, step: Option<nat>)

  function SpanText(s: Span): string {
    match s
    case Star => "*"
    case One(a) => Decimal(a)
    case FromTo(a, b) => Decimal(a) + "-" + Decimal(b)
  }

  function PieceText(p: Piece): string {
    if p.step == None then SpanText(p.span) else SpanText(p.span) + "/" + Decimal(p.step.value)
  }

  function Texts(pieces: seq<Piece>): seq<string> {
    seq(|pieces|, i requires 0 <= i < |pieces| => PieceText(pieces[i]))
  }

  // ----- what a piece is meant to say, in a field from `lo` to `hi` -----

  function First(s: Span, lo: int): int {
    match s
    case Star => lo
    case One(a) => a
    case FromTo(a, _) => a
  }

  function Last(s: Span, hi: int): int {
    match s
    case Star => hi
    case One(a) => a
    case FromTo(_, b) => b
  }

  /** A step of zero, or a number outside the field in a range that is not empty. */
  predicate Bad(p: Piece, lo: int, hi: int) {
    || p.step == Some(0)
    || (First(p.span, lo) <= Last(p.span, hi) && (First(p.span, lo) < lo || Last(p.span, hi) > hi))
  }

  /** The value is between the ends and a whole number of steps from the field's own lower bound. */
  ghost predicate Lists(p: Piece, lo: int, hi: int, v: int) {
    && First(p.span, lo) <= v <= Last(p.span, hi)
    && (p.step == None || exists k: int :: v == lo + k * p.step.value)
  }

  // ----- each piece parses to what it says -----

  lemma SpanPlain(s: Span)
    ensures ',' !in SpanText(s) && '/' !in SpanText(s) && NoSpace(SpanText(s)) && SpanText(s) != ""
  {
    match s
    case Star =>
    case One(a) =>
      DecimalPlain(a, ',');
      DecimalPlain(a, '/');
    case FromTo(a, b) =>
      DecimalPlain(a, ',');
      DecimalPlain(a, '/');
      DecimalPlain(b, ',');
      DecimalPlain(b, '/');
      hide Decimal;
  }

  lemma SpanBounds(s: Span, lo: int, hi: int)
    ensures ParseBounds(SpanText(s), lo, hi) == Some((First(s, lo), Last(s, hi)))
  {
    match s
    case Star =>
    case One(a) =>
      DecimalPlain(a, '*');
      DecimalPlain(a, '-');
      ParseDecimal(a);
      assert Decimal(a) != "*" by {
        assert Decimal(a)[0] in Decimal(a);
      }
      hide Decimal, ParseInt;
    case FromTo(a, b) =>
      var x, y := Decimal(a), Decimal(b);
      DecimalPlain(a, '-');
      ParseDecimal(a);
      ParseDecimal(b);
      hide Decimal, ParseInt;
      var t := x + "-" + y;
      assert t[|x|] == '-' && t[..|x|] == x && t[|x| + 1..] == y;
      FirstIndex(t, '-', |x|);
  }

  /** The text of a piece holds no comma, and no white space to strip. */
  lemma PiecePlain(p: Piece)
    ensures ',' !in PieceText(p) && Strip(PieceText(p)) == PieceText(p)
  {
    SpanPlain(p.span);
    if p.step.Some? {
      DecimalPlain(p.step.value, ',');
    }
    hide SpanText, Decimal;
    assert NoSpace(PieceText(p));
    StripWhole(PieceText(p));
  }

  function StepOf(p: Piece): nat {
    if p.step == None then 1 else p.step.value
  }

  lemma SteppedParses(p: Piece, lo: int, hi: int)
    requires p.step != None
    ensures ParsePart(PieceText(p), lo, hi)
         == if p.step == Some(0) then None else Some(Range(First(p.span, lo), Last(p.span, hi), StepOf(p)))
  {
    PiecePlain(p);
    SpanPlain(p.span);
    SpanBounds(p.span, lo, hi);
    ParseDecimal(p.step.value);
    var t, s, d := PieceText(p), SpanText(p.span), Decimal(p.step.value);
    hide SpanText, Strip, Decimal, ParseBounds, ParseInt, First, Last;
    assert t[|s|] == '/' && t[..|s|] == s && t[|s| + 1..] == d;
    FirstIndex(t, '/', |s|);
    assert t[|s|] in t && t != "*";
  }

  lemma PieceParses(p: Piece, lo: int, hi: int)
    ensures ParsePart(PieceText(p), lo, hi)
         == if p.step == Some(0) then None else Some(Range(First(p.span, lo), Last(p.span, hi), StepOf(p)))
  {
    if p.step.Some? {
      SteppedParses(p, lo, hi);
    } else {
      PiecePlain(p);
      SpanPlain(p.span);
      SpanBounds(p.span, lo, hi);
      hide SpanText, Strip, First, Last;
      if PieceText(p) == "*" {
        assert ParseBounds("*", lo, hi) == Some((lo, hi));
      }
      hide ParseBounds;
    }
  }

  lemma StepsFrom(v: int, lo: int, step: nat)
    requires step > 0
    ensures (v - lo) % step == 0 <==> exists k: int :: v == lo + k * step
  {
    var d := v - lo;
    if d % step == 0 {
      assert v == lo + (d / step) * step;
    }
    if k: int :| v == lo + k * step {
      TimesMod(k, step);
    }
  }

  lemma TimesMod(k: int, step: nat)
    requires step > 0
    ensures (k * step) % step == 0
  {
    var a := k * step;
    Difference(k, a / step, step, a, a % step);
  }

  lemma Difference(k: int, q: int, step: nat, a: int, r: nat)
    requires a == k * step && a == q * step + r && r < step
    ensures r == 0
  {
    assert (k - q) * step == r;
    AtLeast(k - q, step);
  }

  lemma AtLeast(m: int, step: nat)
    ensures m >= 1 ==> m * step >= step
    ensures m <= -1 ==> m * step + step <= 0
  {
    assert (m - 1) * step == m * step - step;
    assert (m + 1) * step == m * step + step;
  }

  lemma PieceMeaning(p: Piece, lo: int, hi: int, v: int)
    ensures PartOk(PieceText(p), lo, hi) <==> !Bad(p, lo, hi)
    ensures PartHas(PieceText(p), lo, hi, v) <==> !Bad(p, lo, hi) && Lists(p, lo, hi, v)
  {
    PieceParses(p, lo, hi);
    hide ParsePart, PieceText;
    if p.step.Some? && p.step.value > 0 {
      StepsFrom(v, lo, p.step.value);
    }
    hide First, Last;
  }

  // ----- whole fields -----

  /** The field's text: the pieces with commas between them. */
  function FieldText(pieces: seq<Piece>): string {
    Glue(Texts(pieces), ',')
  }

  lemma FieldParts(pieces: seq<Piece>)
    requires pieces != []
    ensures Split(FieldText(pieces), ',') == Texts(pieces)
  {
    forall i | 0 <= i < |pieces|
      ensures ',' !in Texts(pieces)[i]
    {
      PiecePlain(pieces[i]);
    }
    hide PieceText, Glue, Split;
    SplitGlue(Texts(pieces), ',');
  }

  ghost predicate SomeLists(pieces: seq<Piece>, lo: int, hi: int, v: int) {
    exists p | p in pieces :: Lists(p, lo, hi, v)
  }

  lemma SomePartMeaning(pieces: seq<Piece>, lo: int, hi: int, v: int)
    requires forall p | p in pieces :: !Bad(p, lo, hi)
    ensures SomePartHas(Texts(pieces), lo, hi, v) <==> SomeLists(pieces, lo, hi, v)
  {
    forall i | 0 <= i < |pieces|
      ensures PartHas(Texts(pieces)[i], lo, hi, v) <==> Lists(pieces[i], lo, hi, v)
    {
      PieceMeaning(pieces[i], lo, hi, v);
    }
    hide PartHas, Lists, Bad, PieceText;
    if SomeLists(pieces, lo, hi, v) {
      var p :| p in pieces && Lists(p, lo, hi, v);
      var i :| 0 <= i < |pieces| && pieces[i] == p;
      assert PartHas(Texts(pieces)[i], lo, hi, v);
    }
  }

  lemma ListsWithin(pieces: seq<Piece>, lo: int, hi: int, v: int)
    requires forall p | p in pieces :: !Bad(p, lo, hi)
    requires SomeLists(pieces, lo, hi, v)
    ensures lo <= v <= hi
  {
    var p :| p in pieces && Lists(p, lo, hi, v);
    assert !Bad(p, lo, hi);
    hide First, Last;
  }

  /** A field is refused exactly when one of its pieces is bad or they list nothing; otherwise its values are
      exactly those that its pieces list. */
  lemma FieldIff(pieces: seq<Piece>, lo: int, hi: int)
    requires pieces != []
    ensures var r := FieldValues(FieldText(pieces), lo, hi);
            && (r.Some? <==> (forall p | p in pieces :: !Bad(p, lo, hi)) && exists v :: SomeLists(pieces, lo, hi, v))
            && (r.Some? ==> forall v :: v in r.value <==> SomeLists(pieces, lo, hi, v))
  {
    FieldParts(pieces);
    var texts := Texts(pieces);
    forall i | 0 <= i < |pieces|
      ensures PartOk(texts[i], lo, hi) <==> !Bad(pieces[i], lo, hi)
    {
      PieceMeaning(pieces[i], lo, hi, 0);
    }
    if forall p | p in pieces :: !Bad(p, lo, hi) {
      forall v
        ensures v in Union(texts, lo, hi) <==> SomeLists(pieces, lo, hi, v)
      {
        SomePartMeaning(pieces, lo, hi, v);
        if SomeLists(pieces, lo, hi, v) {
          ListsWithin(pieces, lo, hi, v);
        }
      }
      hide PartOk, Union, SomeLists, Split, Texts, FieldText, Bad;
    } else {
      var p :| p in pieces && Bad(p, lo, hi);
      var i :| 0 <= i < |pieces| && pieces[i] == p;
      assert !PartOk(texts[i], lo, hi);
      hide PartOk, Union, SomeLists, Split, PieceText, Bad;
    }
  }
}
