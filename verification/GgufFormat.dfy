/** GGUF headers as a writer lays them out, and what api/gguf_meta.py reads from them, whole or cut. */
module GgufFormat {
  import opened Bytes
  import opened Gguf

  datatype Value = Plain(vtype: nat, bytes: seq<byte>) | Str(text: seq<byte>) | Arr(elemType: nat, elems: seq<Value>)

  function TypeOf(v: Value): nat {
    match v
    case Plain(vtype, _) => vtype
    case Str(_) => STRING
    case Arr(_, _) => ARRAY
  }

  predicate KnownType(vtype: nat) {
    vtype == STRING || vtype == ARRAY || ScalarSize(vtype) > 0
  }

  const U32 := 0x1_0000_0000
  const U64 := 0x1_0000_0000_0000_0000

  ghost predicate WellFormed(v: Value) {
    match v
    case Plain(vtype, bytes) => ScalarSize(vtype) > 0 && |bytes| == ScalarSize(vtype)
    case Str(text) => |text| < MAX_READ
    case Arr(elemType, elems) =>
      && elemType < U32 && |elems| < U64
      && forall i | 0 <= i < |elems| :: TypeOf(elems[i]) == elemType && WellFormed(elems[i])
  }

  function Encode(v: Value): seq<byte> {
    match v
    case Plain(_, bytes) => bytes
    case Str(text) => ToLittleEndian(|text|, 8) + text
    case Arr(elemType, elems) => ToLittleEndian(elemType, 4) + ToLittleEndian(|elems|, 8) + EncodeAll(elems)
  }

  function EncodeAll(vs: seq<Value>): seq<byte> {
    if vs == [] then [] else Encode(vs[0]) + EncodeAll(vs[1..])
  }

  // ----- reading what was written -----

  lemma IntAt(pre: seq<byte>, n: nat, k: nat, post: seq<byte>)
    requires n < Pow(256, k)
    ensures ReadInt(pre + ToLittleEndian(n, k) + post, |pre|, k) == Ok(n, |pre| + k)
  {
    var data := pre + ToLittleEndian(n, k) + post;
    assert data[|pre|..|pre| + k] == ToLittleEndian(n, k);
    LittleEndianRoundTrip(n, k);
  }

  lemma Widths()
    ensures Pow(256, 4) == U32 && Pow(256, 8) == U64
  {
    assert Pow(256, 4) == 0x1_0000_0000;
    assert Pow(256, 8) == 0x1_0000_0000_0000_0000;
  }

  lemma {:induction false} StrAt(pre: seq<byte>, text: seq<byte>, post: seq<byte>)
    requires |text| < MAX_READ
    ensures ReadStr(pre + (ToLittleEndian(|text|, 8) + text) + post, |pre|) == Ok(text, |pre| + 8 + |text|)
  {
    Widths();
    hide ReadInt, ToLittleEndian, Pow;
    var n := ToLittleEndian(|text|, 8);
    Slices(pre, n, text, post);
    IntAt(pre, |text|, 8, text + post);
  }

  lemma Slices(pre: seq<byte>, n: seq<byte>, text: seq<byte>, post: seq<byte>)
    ensures var data := pre + (n + text) + post;
            && data == pre + n + (text + post)
            && data[|pre| + |n|..|pre| + |n| + |text|] == text
  {
    var data := pre + (n + text) + post;
    assert data == pre + n + (text + post);
    assert data[|pre| + |n|..] == text + post;
  }

  /** Skipping a value advances by exactly its encoded length, nested arrays included. */
  lemma {:induction false} SkipExact(pre: seq<byte>, v: Value, post: seq<byte>)
    requires WellFormed(v)
    ensures SkipValue(pre + Encode(v) + post, |pre|, TypeOf(v)) == Ok((), |pre| + |Encode(v)|)
    decreases v, 1
  {
    hide SkipMany, ReadStr, ToLittleEndian;
    match v
    case Plain(_, _) =>
    case Str(text) => StrAt(pre, text, post);
    case Arr(elemType, elems) => SkipArrayExact(pre, v, post);
  }

  lemma {:induction false} SkipArrayExact(pre: seq<byte>, v: Value, post: seq<byte>)
    requires WellFormed(v) && v.Arr?
    ensures SkipValue(pre + Encode(v) + post, |pre|, ARRAY) == Ok((), |pre| + |Encode(v)|)
    decreases v, 0
  {
    hide SkipValue, SkipMany, ToLittleEndian, EncodeAll;
    var all := EncodeAll(v.elems);
    var head := ToLittleEndian(v.elemType, 4) + ToLittleEndian(|v.elems|, 8);
    var data := pre + Encode(v) + post;
    SkipHead(pre, v.elemType, |v.elems|, all + post);
    assert data == pre + ToLittleEndian(v.elemType, 4) + ToLittleEndian(|v.elems|, 8) + (all + post);
    SkipAllExact(pre + head, v.elemType, v.elems, post);
    assert data == pre + head + all + post;
  }

  /** The two numbers in front of an array's elements. */
  lemma {:induction false} SkipHead(pre: seq<byte>, elemType: nat, count: nat, rest: seq<byte>)
    requires elemType < U32 && count < U64
    ensures var data := pre + ToLittleEndian(elemType, 4) + ToLittleEndian(count, 8) + rest;
            SkipValue(data, |pre|, ARRAY) == SkipMany(data, |pre| + 12, elemType, count)
  {
    Widths();
    hide SkipMany, ReadInt, ToLittleEndian, Pow;
    var a, b := ToLittleEndian(elemType, 4), ToLittleEndian(count, 8);
    var data := pre + a + b + rest;
    assert data == pre + a + (b + rest);
    IntAt(pre, elemType, 4, b + rest);
    IntAt(pre + a, count, 8, rest);
  }

  lemma {:induction false} SkipAllExact(pre: seq<byte>, vtype: nat, vs: seq<Value>, post: seq<byte>)
    requires forall i | 0 <= i < |vs| :: TypeOf(vs[i]) == vtype && WellFormed(vs[i])
    ensures SkipMany(pre + EncodeAll(vs) + post, |pre|, vtype, |vs|) == Ok((), |pre| + |EncodeAll(vs)|)
    decreases vs, 0
  {
    hide SkipValue;
    if vs != [] {
      var data := pre + EncodeAll(vs) + post;
      var first, rest := Encode(vs[0]), EncodeAll(vs[1..]);
      assert data == pre + first + (rest + post);
      SkipExact(pre, vs[0], rest + post);
      assert data == pre + first + rest + post;
      SkipAllExact(pre + first, vtype, vs[1..], post);
    }
  }

  // ----- a file cut inside a value -----

  /** A cut read has stopped at the end of the file, or it has failed. */
  ghost predicate CutShort(data: seq<byte>, r: Read<()>) {
    r.TooShort? || (r.Ok? && r.pos == |data|)
  }

  lemma {:induction false} SkipManyAtEnd(data: seq<byte>, vtype: nat, count: nat)
    requires KnownType(vtype)
    ensures CutShort(data, SkipMany(data, |data|, vtype, count))
    decreases count
  {
    if count > 0 && SkipValue(data, |data|, vtype).Ok? {
      SkipManyAtEnd(data, vtype, count - 1);
    }
  }

  lemma IntCut(pre: seq<byte>, enc: seq<byte>, cut: nat, k: nat)
    requires cut < k <= |enc| && cut <= |enc|
    ensures ReadInt(pre + enc[..cut], |pre|, k) == TooShort
  {
  }

  lemma {:induction false} SkipCut(pre: seq<byte>, v: Value, cut: nat)
    requires WellFormed(v) && cut < |Encode(v)|
    ensures CutShort(pre + Encode(v)[..cut], SkipValue(pre + Encode(v)[..cut], |pre|, TypeOf(v)))
    decreases v, 1
  {
    hide SkipMany, ReadStr, ReadInt, ToLittleEndian, EncodeAll;
    match v
    case Plain(_, _) =>
    case Str(text) => StrCut(pre, text, cut);
    case Arr(elemType, elems) =>
      hide SkipValue;
      if cut < 12 {
        ArrayHeadCut(pre, v, cut);
      } else {
        SkipArrayCut(pre, v, cut);
      }
  }

  lemma {:induction false} SkipArrayCut(pre: seq<byte>, v: Value, cut: nat)
    requires WellFormed(v) && v.Arr? && 12 <= cut < |Encode(v)|
    ensures CutShort(pre + Encode(v)[..cut], SkipValue(pre + Encode(v)[..cut], |pre|, ARRAY))
    decreases v, 0
  {
    hide SkipValue, SkipMany, ToLittleEndian, EncodeAll;
    var all := EncodeAll(v.elems);
    var a, b, part := ToLittleEndian(v.elemType, 4), ToLittleEndian(|v.elems|, 8), all[..cut - 12];
    assert Encode(v) == a + b + all;
    assert (a + b + all)[..cut] == a + b + part;
    assert pre + (a + b + part) == pre + a + b + part;
    SkipHead(pre, v.elemType, |v.elems|, part);
    SkipAllCut(pre + a + b, v.elemType, v.elems, cut - 12);
  }

  lemma StrCut(pre: seq<byte>, text: seq<byte>, cut: nat)
    requires |text| < MAX_READ && cut < 8 + |text|
    ensures var data := pre + (ToLittleEndian(|text|, 8) + text)[..cut];
            var r := ReadStr(data, |pre|);
            r.TooShort? || (r.Ok? && r.pos == |data|)
  {
    var n := ToLittleEndian(|text|, 8);
    var data := pre + (n + text)[..cut];
    if cut < 8 {
      IntCut(pre, n + text, cut, 8);
    } else {
      Widths();
      assert data == pre + n + text[..cut - 8];
      IntAt(pre, |text|, 8, text[..cut - 8]);
    }
  }

  lemma ArrayHeadCut(pre: seq<byte>, v: Value, cut: nat)
    requires WellFormed(v) && v.Arr? && cut < 12 && cut <= |Encode(v)|
    ensures SkipValue(pre + Encode(v)[..cut], |pre|, ARRAY).TooShort?
  {
    hide SkipMany, ToLittleEndian, EncodeAll, Pow;
    var a, b := ToLittleEndian(v.elemType, 4), ToLittleEndian(|v.elems|, 8);
    var enc := Encode(v);
    assert enc == a + b + EncodeAll(v.elems);
    hide Encode, WellFormed;
    if cut < 4 {
      IntCut(pre, enc, cut, 4);
    } else {
      Widths();
      var rest := enc[4..cut];
      assert pre + enc[..cut] == pre + a + rest;
      IntAt(pre, v.elemType, 4, rest);
      hide LittleEndian;
      assert |pre + enc[..cut]| < |pre| + 12;
    }
  }

  lemma {:induction false} SkipAllCut(pre: seq<byte>, vtype: nat, vs: seq<Value>, cut: nat)
    requires forall i | 0 <= i < |vs| :: TypeOf(vs[i]) == vtype && WellFormed(vs[i])
    requires cut < |EncodeAll(vs)|
    ensures CutShort(pre + EncodeAll(vs)[..cut], SkipMany(pre + EncodeAll(vs)[..cut], |pre|, vtype, |vs|))
    decreases vs, 0
  {
    hide SkipValue;
    var first, rest := Encode(vs[0]), EncodeAll(vs[1..]);
    var data := pre + EncodeAll(vs)[..cut];
    if cut < |first| {
      assert data == pre + first[..cut];
      SkipCut(pre, vs[0], cut);
      WellFormedType(vs[0]);
      SkipManyAtEnd(data, vtype, |vs| - 1);
    } else {
      var more := rest[..cut - |first|];
      assert data == pre + first + more;
      SkipExact(pre, vs[0], more);
      SkipAllCut(pre + first, vtype, vs[1..], cut - |first|);
    }
  }

  // ----- key-value pairs -----

  datatype Pair = Pair(key: seq<byte>, value: Value)

  ghost predicate WellFormedPair(p: Pair) {
    |p.key| < MAX_READ && WellFormed(p.value)
  }

  function KeyBytes(p: Pair): seq<byte> {
    KeyText(p.key)
  }

  function EncodePair(p: Pair): seq<byte> {
    KeyBytes(p) + ToLittleEndian(TypeOf(p.value), 4) + Encode(p.value)
  }

  function EncodePairs(ps: seq<Pair>): seq<byte> {
    if ps == [] then [] else EncodePair(ps[0]) + EncodePairs(ps[1..])
  }

  predicate IsInteger(v: Value) {
    v.Plain? && (IsUnsigned(v.vtype) || IsSigned(v.vtype))
  }

  function ScalarOf(v: Value): Scalar {
    if v.Str? then Text(v.text)
    else if IsInteger(v) then
      Number(if IsSigned(v.vtype) then Signed(LittleEndian(v.bytes), |v.bytes|) else LittleEndian(v.bytes))
    else Nothing
  }

  /** The value of the first key that ends in ".block_count". */
  function FirstCount(ps: seq<Pair>): Scalar {
    if ps == [] then Nothing else if IsCountKey(ps[0].key) then ScalarOf(ps[0].value) else FirstCount(ps[1..])
  }

  lemma {:induction false} WellFormedType(v: Value)
    requires WellFormed(v)
    ensures KnownType(TypeOf(v)) && TypeOf(v) < U32
  {
  }

  function KeyText(key: seq<byte>): seq<byte> {
    ToLittleEndian(|key|, 8) + key
  }

  /** Reading a key and a type leaves the cursor at the value. */
  lemma KeyHead(pre: seq<byte>, key: seq<byte>, vtype: nat, rest: seq<byte>)
    requires |key| < MAX_READ && vtype < U32
    ensures var data := pre + KeyText(key) + ToLittleEndian(vtype, 4) + rest;
            var at := |pre| + |KeyText(key)|;
            && ReadStr(data, |pre|) == Ok(key, at)
            && ReadInt(data, at, 4) == Ok(vtype, at + 4)
  {
    Widths();
    hide ReadStr, ReadInt, ToLittleEndian, Pow;
    var t := ToLittleEndian(vtype, 4);
    var data := pre + KeyText(key) + t + rest;
    assert data == pre + (ToLittleEndian(|key|, 8) + key) + (t + rest);
    StrAt(pre, key, t + rest);
    IntAt(pre + KeyText(key), vtype, 4, rest);
  }

  lemma PairHead(pre: seq<byte>, p: Pair, rest: seq<byte>)
    requires WellFormedPair(p)
    ensures var data := pre + KeyBytes(p) + ToLittleEndian(TypeOf(p.value), 4) + rest;
            var at := |pre| + |KeyBytes(p)|;
            && ReadStr(data, |pre|) == Ok(p.key, at)
            && ReadInt(data, at, 4) == Ok(TypeOf(p.value), at + 4)
  {
    WellFormedType(p.value);
    hide ReadStr, ReadInt, WellFormed, ToLittleEndian, KeyText;
    KeyHead(pre, p.key, TypeOf(p.value), rest);
  }

  lemma ScalarAt(pre: seq<byte>, v: Value, post: seq<byte>)
    requires WellFormed(v)
    ensures ReadScalar(pre + Encode(v) + post, |pre|, TypeOf(v)) == Ok(ScalarOf(v), |pre| + |Encode(v)|)
  {
    var data := pre + Encode(v) + post;
    SkipExact(pre, v, post);
    hide SkipValue;
    if v.Str? {
      StrAt(pre, v.text, post);
    } else if v.Plain? {
      assert data[|pre|..|pre| + |v.bytes|] == v.bytes;
    }
  }

  lemma {:induction false} OnePair(pre: seq<byte>, p: Pair, more: seq<byte>, left: nat)
    requires WellFormedPair(p) && !IsCountKey(p.key) && left > 0
    ensures Pairs(pre + EncodePair(p) + more, |pre|, left)
         == Pairs(pre + EncodePair(p) + more, |pre + EncodePair(p)|, left - 1)
  {
    hide ReadStr, ReadInt, SkipValue, ReadScalar, Encode, KeyBytes, WellFormed, IsCountKey, ToLittleEndian;
    var v := Encode(p.value);
    var at := pre + KeyBytes(p) + ToLittleEndian(TypeOf(p.value), 4);
    assert pre + EncodePair(p) + more == at + (v + more);
    PairHead(pre, p, v + more);
    assert at + (v + more) == at + v + more;
    SkipExact(at, p.value, more);
  }

  lemma CountPair(pre: seq<byte>, p: Pair, more: seq<byte>, left: nat)
    requires WellFormedPair(p) && IsCountKey(p.key) && left > 0
    ensures Pairs(pre + EncodePair(p) + more, |pre|, left) == Result(ScalarOf(p.value))
  {
    hide ReadStr, ReadInt, SkipValue, ReadScalar, Encode, KeyBytes, WellFormed, IsCountKey, ToLittleEndian, ScalarOf;
    var v := Encode(p.value);
    var at := pre + KeyBytes(p) + ToLittleEndian(TypeOf(p.value), 4);
    assert pre + EncodePair(p) + more == at + (v + more);
    PairHead(pre, p, v + more);
    assert at + (v + more) == at + v + more;
    ScalarAt(at, p.value, more);
  }

  lemma {:induction false} PairsExact(pre: seq<byte>, ps: seq<Pair>, post: seq<byte>)
    requires forall p | p in ps :: WellFormedPair(p)
    ensures Pairs(pre + EncodePairs(ps) + post, |pre|, |ps|) == Result(FirstCount(ps))
    decreases |ps|
  {
    if ps != [] {
      hide Pairs, EncodePair, WellFormed, IsCountKey, ScalarOf;
      var p, more := ps[0], EncodePairs(ps[1..]);
      Reassociate(pre, EncodePair(p), more, post);
      if IsCountKey(p.key) {
        CountPair(pre, p, more + post, |ps|);
      } else {
        OnePair(pre, p, more + post, |ps|);
        PairsExact(pre + EncodePair(p), ps[1..], post);
      }
    }
  }

  lemma Reassociate(a: seq<byte>, b: seq<byte>, c: seq<byte>, d: seq<byte>)
    ensures a + (b + c) + d == a + b + (c + d)
    ensures a + (b + c) + d == (a + b) + c + d
  {
    assert a + (b + c) + d == a + b + (c + d);
    assert a + (b + c) + d == (a + b) + c + d;
  }

  // ----- a whole header -----

  datatype Header = Header(version: nat, tensors: nat, pairs: seq<Pair>)

  ghost predicate WellFormedHeader(h: Header) {
    h.version < U32 && h.tensors < U64 && |h.pairs| < U64 && forall p | p in h.pairs :: WellFormedPair(p)
  }

  function Front(version: nat, tensors: nat, count: nat): (r: seq<byte>)
    ensures |r| == 24
  {
    MAGIC + ToLittleEndian(version, 4) + ToLittleEndian(tensors, 8) + ToLittleEndian(count, 8)
  }

  function Preamble(h: Header): seq<byte> {
    Front(h.version, h.tensors, |h.pairs|)
  }

  function EncodeHeader(h: Header): seq<byte> {
    Preamble(h) + EncodePairs(h.pairs)
  }

  lemma FrontRead(version: nat, tensors: nat, count: nat, rest: seq<byte>)
    requires count < U64
    ensures CountIn(Front(version, tensors, count) + rest) == Pairs(Front(version, tensors, count) + rest, 24, count)
  {
    Widths();
    LittleEndianRoundTrip(count, 8);
    hide Pairs, ToLittleEndian, Pow, LittleEndian;
    var data := Front(version, tensors, count) + rest;
    assert data[..4] == MAGIC;
    assert data[16..24] == ToLittleEndian(count, 8);
  }

  lemma PreambleRead(h: Header, rest: seq<byte>)
    requires WellFormedHeader(h)
    ensures CountIn(Preamble(h) + rest) == Pairs(Preamble(h) + rest, 24, |h.pairs|)
  {
    hide Pairs, CountIn, Front, WellFormedPair;
    FrontRead(h.version, h.tensors, |h.pairs|, rest);
  }

  /** On every well-formed header, `block_count` returns the value of the first ".block_count" key: the
      number itself for a 16, 32 or 64-bit integer. */
  lemma BlockCountExact(h: Header, tail: seq<byte>)
    requires WellFormedHeader(h)
    ensures CountIn(EncodeHeader(h) + tail) == Result(FirstCount(h.pairs))
  {
    hide Pairs, CountIn, ToLittleEndian;
    var data := EncodeHeader(h) + tail;
    assert data == Preamble(h) + (EncodePairs(h.pairs) + tail);
    PreambleRead(h, EncodePairs(h.pairs) + tail);
    PairsExact(Preamble(h), h.pairs, tail);
    assert data == Preamble(h) + EncodePairs(h.pairs) + tail;
  }

  // ----- a cut header -----

  /** Some key ends in ".block_count", and the first such key has an integer value. */
  predicate HasCount(ps: seq<Pair>) {
    ps != [] && if IsCountKey(ps[0].key) then IsInteger(ps[0].value) else HasCount(ps[1..])
  }

  /** Where the first count's value ends. */
  function CountEnd(ps: seq<Pair>): nat
    requires HasCount(ps)
  {
    |EncodePair(ps[0])| + if IsCountKey(ps[0].key) then 0 else CountEnd(ps[1..])
  }

  lemma PairCutInKey(pre: seq<byte>, p: Pair, cut: nat, left: nat)
    requires WellFormedPair(p) && cut < |KeyBytes(p)| + 4 && left > 0
    ensures Pairs(pre + EncodePair(p)[..cut], |pre|, left) == NoCount
  {
    hide SkipValue, ReadScalar, Encode, WellFormed;
    var data := pre + EncodePair(p)[..cut];
    if cut < |KeyBytes(p)| {
      assert EncodePair(p)[..cut] == KeyBytes(p)[..cut];
      StrCut(pre, p.key, cut);
    } else {
      KeyWhole(pre, p, cut);
    }
  }

  lemma KeyWhole(pre: seq<byte>, p: Pair, cut: nat)
    requires WellFormedPair(p) && |KeyBytes(p)| <= cut < |KeyBytes(p)| + 4
    ensures var data := pre + EncodePair(p)[..cut];
            && ReadStr(data, |pre|) == Ok(p.key, |pre| + |KeyBytes(p)|)
            && ReadInt(data, |pre| + |KeyBytes(p)|, 4) == TooShort
  {
    hide Encode, WellFormed, ReadStr, ToLittleEndian;
    var data := pre + EncodePair(p)[..cut];
    var rest := EncodePair(p)[|KeyBytes(p)|..cut];
    assert data == pre + (ToLittleEndian(|p.key|, 8) + p.key) + rest;
    StrAt(pre, p.key, rest);
  }

  lemma PairCutSlices(pre: seq<byte>, p: Pair, cut: nat)
    requires |KeyBytes(p)| + 4 <= cut < |EncodePair(p)|
    ensures pre + EncodePair(p)[..cut]
         == pre + KeyBytes(p) + ToLittleEndian(TypeOf(p.value), 4) + Encode(p.value)[..cut - |KeyBytes(p)| - 4]
  {
    hide KeyBytes, ToLittleEndian, Encode;
    var head := KeyBytes(p) + ToLittleEndian(TypeOf(p.value), 4);
    assert EncodePair(p)[..cut] == head + Encode(p.value)[..cut - |head|];
  }

  lemma {:induction false} PairCutInValue(pre: seq<byte>, p: Pair, cut: nat, left: nat)
    requires WellFormedPair(p) && |KeyBytes(p)| + 4 <= cut < |EncodePair(p)|
    requires if IsCountKey(p.key) then IsInteger(p.value) && left > 0 else left > 1
    ensures Pairs(pre + EncodePair(p)[..cut], |pre|, left) == NoCount
  {
    hide KeyBytes, WellFormed, ReadStr, ReadInt, ToLittleEndian, IsCountKey, IsInteger, SkipValue, ReadScalar, Encode;
    var k := cut - |KeyBytes(p)| - 4;
    var part := Encode(p.value)[..k];
    var at := pre + KeyBytes(p) + ToLittleEndian(TypeOf(p.value), 4);
    PairCutSlices(pre, p, cut);
    PairHead(pre, p, part);
    if IsCountKey(p.key) {
      IntegerCut(at, p.value, k);
    } else {
      SkipCut(at, p.value, k);
      AtEnd(at + part, left - 1);
    }
  }

  lemma IntegerCut(pre: seq<byte>, v: Value, k: nat)
    requires WellFormed(v) && IsInteger(v) && k < |Encode(v)|
    ensures ReadScalar(pre + Encode(v)[..k], |pre|, TypeOf(v)).TooShort?
  {
    IntCut(pre, v.bytes, k, |v.bytes|);
  }

  lemma AtEnd(data: seq<byte>, left: nat)
    ensures Pairs(data, |data|, left) == NoCount
  {
  }

  lemma {:induction false} PairsCut(pre: seq<byte>, ps: seq<Pair>, cut: nat)
    requires forall p | p in ps :: WellFormedPair(p)
    requires HasCount(ps) && cut < CountEnd(ps)
    ensures cut <= |EncodePairs(ps)|
    ensures Pairs(pre + EncodePairs(ps)[..cut], |pre|, |ps|) == NoCount
    decreases |ps|
  {
    hide ReadStr, ReadInt, SkipValue, ReadScalar, Encode, KeyBytes, WellFormed, IsCountKey, EncodePair, IsInteger;
    hide ToLittleEndian;
    var p, first, rest := ps[0], EncodePair(ps[0]), EncodePairs(ps[1..]);
    if cut < |first| {
      assert EncodePairs(ps)[..cut] == first[..cut];
      if cut < |KeyBytes(p)| + 4 {
        PairCutInKey(pre, p, cut, |ps|);
      } else {
        PairCutInValue(pre, p, cut, |ps|);
      }
    } else {
      PairsCut(pre + first, ps[1..], cut - |first|);
      var more := rest[..cut - |first|];
      assert pre + EncodePairs(ps)[..cut] == pre + first + more;
      OnePair(pre, p, more, |ps|);
    }
  }

  /** Cutting the file anywhere before that value ends gives None, never another number. */
  lemma CutGivesNone(h: Header, cut: nat)
    requires WellFormedHeader(h) && HasCount(h.pairs)
    requires cut < 24 + CountEnd(h.pairs)
    ensures cut <= |EncodeHeader(h)|
    ensures CountIn(EncodeHeader(h)[..cut]) == NoCount
  {
    hide Pairs, ToLittleEndian, WellFormedPair, CountEnd, HasCount, EncodePairs;
    var data := EncodeHeader(h);
    if cut >= 24 {
      PairsCut(Preamble(h), h.pairs, cut - 24);
      var part := EncodePairs(h.pairs)[..cut - 24];
      assert data[..cut] == Preamble(h) + part;
      PreambleRead(h, part);
    }
  }

  // ----- no error escapes -----

  lemma KnownScalar(data: seq<byte>, pos: nat, vtype: nat)
    requires pos <= |data| && KnownType(vtype)
    requires !SkipValue(data, pos, vtype).Raises?
    ensures !ReadScalar(data, pos, vtype).Raises?
  {
    hide SkipMany, ReadStr, ReadInt;
  }

  lemma PairCutSafe(pre: seq<byte>, p: Pair, cut: nat, left: nat)
    requires WellFormedPair(p) && cut < |EncodePair(p)| && left > 0
    ensures !Pairs(pre + EncodePair(p)[..cut], |pre|, left).Escapes?
  {
    hide KeyBytes, WellFormed, ReadStr, ReadInt, ToLittleEndian, IsCountKey, SkipValue, ReadScalar, Encode;
    if cut < |KeyBytes(p)| + 4 {
      PairCutInKey(pre, p, cut, left);
    } else {
      var k := cut - |KeyBytes(p)| - 4;
      var part := Encode(p.value)[..k];
      var at := pre + KeyBytes(p) + ToLittleEndian(TypeOf(p.value), 4);
      PairCutSlices(pre, p, cut);
      PairHead(pre, p, part);
      SkipCut(at, p.value, k);
      WellFormedType(p.value);
      KnownScalar(at + part, |at|, TypeOf(p.value));
      AtEnd(at + part, left - 1);
    }
  }

  lemma {:induction false} PairsCutSafe(pre: seq<byte>, ps: seq<Pair>, cut: nat)
    requires forall p | p in ps :: WellFormedPair(p)
    requires cut <= |EncodePairs(ps)|
    ensures !Pairs(pre + EncodePairs(ps)[..cut], |pre|, |ps|).Escapes?
    decreases |ps|
  {
    hide WellFormed, IsCountKey, EncodePair, ReadStr, ReadInt, SkipValue, ReadScalar;
    if ps != [] {
      var p, first, rest := ps[0], EncodePair(ps[0]), EncodePairs(ps[1..]);
      hide Pairs;
      if cut < |first| {
        assert EncodePairs(ps)[..cut] == first[..cut];
        PairCutSafe(pre, p, cut, |ps|);
      } else {
        var more := rest[..cut - |first|];
        assert pre + EncodePairs(ps)[..cut] == pre + first + more;
        if IsCountKey(p.key) {
          CountPair(pre, p, more, |ps|);
        } else {
          PairsCutSafe(pre + first, ps[1..], cut - |first|);
          OnePair(pre, p, more, |ps|);
        }
      }
    }
  }

  /** No error escapes on a well-formed header, whole or cut anywhere. */
  lemma WellFormedNeverRaises(h: Header, cut: nat)
    requires WellFormedHeader(h) && cut <= |EncodeHeader(h)|
    ensures !CountIn(EncodeHeader(h)[..cut]).Escapes?
  {
    hide Pairs, ToLittleEndian, WellFormedPair, EncodePairs, Front;
    if cut >= 24 {
      PairsCutSafe(Preamble(h), h.pairs, cut - 24);
      var part := EncodePairs(h.pairs)[..cut - 24];
      assert EncodeHeader(h)[..cut] == Preamble(h) + part;
      hide CountIn;
      PreambleRead(h, part);
    }
  }
}
