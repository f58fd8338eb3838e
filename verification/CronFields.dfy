/** The field parser of api/croncalc.py. */
module CronFields {
  import opened Bytes
  import opened Text

  /** One comma-separated part of a field: the values first..last, kept when they are a whole
      number of steps from the field's own lower bound. */
  datatype Range = Range(first: int, last: int, step: int)

  /** None stands for InvalidCron. */
  function ParsePart(text: string, lo: int, hi: int): (r: Option<Range>)
    ensures r.Some? ==> r.value.step > 0
  {
    var part := Strip(text);
    if part == "*" then Some(Range(lo, hi, 1))
    else if '/' in part then
      var i := IndexOf(part, '/');
      var step := ParseInt(part[i + 1..]);
      if step.None? || step.value <= 0 then None
      else
        var bounds := ParseBounds(part[..i], lo, hi);
        if bounds.None? then None else Some(Range(bounds.value.0, bounds.value.1, step.value))
    else
      var bounds := ParseBounds(part, lo, hi);
      if bounds.None? then None else Some(Range(bounds.value.0, bounds.value.1, 1))
  }

  function ParseBounds(part: string, lo: int, hi: int): Option<(int, int)> {
    if part == "*" then Some((lo, hi))
    else if '-' in part then
      var i := IndexOf(part, '-');
      var a, b := ParseInt(part[..i]), ParseInt(part[i + 1..]);
      if a.None? || b.None? then None else Some((a.value, b.value))
    else
      var a := ParseInt(part);
      if a.None? then None else Some((a.value, a.value))
  }

  /** `v` is one of the values the part stands for, in a field that starts at `lo`. */
  predicate Covers(r: Range, lo: int, v: int)
    requires r.step > 0
  {
    r.first <= v <= r.last && (v - lo) % r.step == 0
  }

  /** A part is refused when it does not parse, or when its range leaves the field's bounds. */
  predicate PartOk(text: string, lo: int, hi: int) {
    var r := ParsePart(text, lo, hi);
    r.Some? && (r.value.first <= r.value.last ==> lo <= r.value.first && r.value.last <= hi)
  }

  predicate PartHas(text: string, lo: int, hi: int, v: int) {
    PartOk(text, lo, hi) && Covers(ParsePart(text, lo, hi).value, lo, v)
  }

  predicate SomePartHas(parts: seq<string>, lo: int, hi: int, v: int) {
    exists i | 0 <= i < |parts| :: PartHas(parts[i], lo, hi, v)
  }

  /** The set a list of parts stands for: the union of what they cover. */
  function Union(parts: seq<string>, lo: int, hi: int): set<int> {
    set v | lo <= v <= hi && SomePartHas(parts, lo, hi, v)
  }

  /** What a field means: the union of its parts, unless a part is refused or nothing is left. */
  function FieldValues(field: string, lo: int, hi: int): (r: Option<set<int>>)
    ensures r.Some? ==> r.value != {} && forall v | v in r.value :: lo <= v <= hi
  {
    var parts := Split(field, ',');
    if (forall i | 0 <= i < |parts| :: PartOk(parts[i], lo, hi)) && Union(parts, lo, hi) != {}
    then Some(Union(parts, lo, hi)) else None
  }

  /** The inner loop of `_parse_field`: collects one range, or stops at a value out of bounds. */
  method Collect(r: Range, lo: int, hi: int) returns (ok: bool, values: set<int>)
    requires r.step > 0
    ensures ok <==> (r.first <= r.last ==> lo <= r.first && r.last <= hi)
    ensures ok ==> values == set v | lo <= v <= hi && Covers(r, lo, v)
  {
    values := {};
    var v := r.first;
    while v <= r.last
      invariant r.first <= v
      invariant r.first <= r.last ==> v <= r.last + 1
      invariant v > r.first ==> lo <= r.first && v - 1 <= hi
      invariant values == set u | lo <= u <= hi && u < v && Covers(r, lo, u)
      decreases r.last - v
    {
      if v < lo || v > hi {
        return false, {};
      }
      if (v - lo) % r.step == 0 {
        values := values + {v};
      }
      v := v + 1;
    }
    ok := true;
  }

  /** `_parse_field`: one part at a time. */
  method ParseField(field: string, lo: int, hi: int) returns (r: Option<set<int>>)
    ensures r == FieldValues(field, lo, hi)
  {
    var parts := Split(field, ',');
    var values: set<int> := {};
    for i := 0 to |parts|
      invariant forall j | 0 <= j < i :: PartOk(parts[j], lo, hi)
      invariant values == Union(parts[..i], lo, hi)
    {
      hide ParsePart;
      var part := ParsePart(parts[i], lo, hi);
      if part.None? {
        assert !PartOk(parts[i], lo, hi);
        return None;
      }
      var ok, more := Collect(part.value, lo, hi);
      if !ok {
        assert !PartOk(parts[i], lo, hi);
        return None;
      }
      UnionStep(parts, i, lo, hi);
      values := values + more;
    }
    assert parts[..|parts|] == parts;
    r := if values == {} then None else Some(values);
  }

  lemma {:induction false} UnionStep(parts: seq<string>, i: nat, lo: int, hi: int)
    requires i < |parts|
    ensures Union(parts[..i + 1], lo, hi)
         == Union(parts[..i], lo, hi) + set v | lo <= v <= hi && PartHas(parts[i], lo, hi, v)
  {
    hide PartHas;
    var a, b := parts[..i], parts[..i + 1];
    forall v | lo <= v <= hi
      ensures v in Union(b, lo, hi) <==> v in Union(a, lo, hi) || PartHas(parts[i], lo, hi, v)
    {
      assert b[i] == parts[i];
      assert forall j | 0 <= j < i :: a[j] == b[j];
    }
  }

  // ----- the five fields -----

  datatype Fields = Fields(minutes: set<int>, hours: set<int>, doms: set<int>, months: set<int>, dows: set<int>)

  predicate ValidFields(f: Fields) {
    && f.minutes != {} && f.hours != {} && f.doms != {} && f.months != {} && f.dows != {}
    && (forall v | v in f.minutes :: 0 <= v <= 59)
    && (forall v | v in f.hours :: 0 <= v <= 23)
    && (forall v | v in f.doms :: 1 <= v <= 31)
    && (forall v | v in f.months :: 1 <= v <= 12)
    && (forall v | v in f.dows :: 0 <= v <= 6)
  }

  function Meaning(expr: string): (r: Option<Fields>)
    ensures r.Some? ==> ValidFields(r.value)
  {
    var w := Words(expr);
    if |w| != 5 then None
    else
      var minutes, hours := FieldValues(w[0], 0, 59), FieldValues(w[1], 0, 23);
      var doms, months, dows := FieldValues(w[2], 1, 31), FieldValues(w[3], 1, 12), FieldValues(w[4], 0, 6);
      if minutes.None? || hours.None? || doms.None? || months.None? || dows.None? then None
      else Some(Fields(minutes.value, hours.value, doms.value, months.value, dows.value))
  }

  /** `_parse`. */
  method Parse(expr: string) returns (r: Option<Fields>)
    ensures r == Meaning(expr)
  {
    hide FieldValues;
    var w := Words(expr);
    if |w| != 5 {
      return None;
    }
    var minutes := ParseField(w[0], 0, 59);
    var hours := ParseField(w[1], 0, 23);
    var doms := ParseField(w[2], 1, 31);
    var months := ParseField(w[3], 1, 12);
    var dows := ParseField(w[4], 0, 6);
    if minutes.None? || hours.None? || doms.None? || months.None? || dows.None? {
      return None;
    }
    r := Some(Fields(minutes.value, hours.value, doms.value, months.value, dows.value));
  }
}
