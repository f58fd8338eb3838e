/** Exactly when an error goes through `block_count` of api/gguf_meta.py: the files on which it breaks
    its promise of a count or None. */
module GgufErrors {
  import opened Bytes
  import opened Gguf
  import opened GgufFormat

  // ----- values that raise -----

  /** What the reader meets where a value should be: a type it does not know, a string with a length
      that cannot be read, or an array whose leading elements are in order and whose next one is such
      a value again. */
  datatype Fault =
    | OddType(vtype: nat)
    | LongString(length: nat)
    | OddArray(elemType: nat, count: nat, before: seq<Value>, next: Fault)

  function FaultType(f: Fault): nat {
    match f
    case OddType(vtype) => vtype
    case LongString(_) => STRING
    case OddArray(_, _, _, _) => ARRAY
  }

  function ErrorOf(f: Fault): Escaping {
    match f
    case OddType(_) => UnknownType
    case LongString(_) => TooLong
    case OddArray(_, _, _, next) => ErrorOf(next)
  }

  /** Values of one type that the reader skips. */
  ghost predicate InOrder(vs: seq<Value>, vtype: nat) {
    forall i | 0 <= i < |vs| :: TypeOf(vs[i]) == vtype && WellFormed(vs[i])
  }

  ghost predicate ValidFault(f: Fault) {
    match f
    case OddType(vtype) => vtype < U32 && !KnownType(vtype)
    case LongString(length) => MAX_READ <= length < U64
    case OddArray(elemType, count, before, next) =>
      && elemType < U32 && |before| < count < U64
      && InOrder(before, elemType) && ValidFault(next) && FaultType(next) == elemType
  }

  /** The bytes up to where the error is raised. */
  function FaultBytes(f: Fault): seq<byte> {
    match f
    case OddType(_) => []
    case LongString(length) => ToLittleEndian(length, 8)
    case OddArray(elemType, count, before, next) =>
      ToLittleEndian(elemType, 4) + ToLittleEndian(count, 8) + (EncodeAll(before) + FaultBytes(next))
  }

  // ----- reading one raises -----

  lemma LongLength(pre: seq<byte>, length: nat, rest: seq<byte>)
    requires MAX_READ <= length < U64
    ensures ReadStr(pre + ToLittleEndian(length, 8) + rest, |pre|) == Raises(TooLong)
  {
    Widths();
    hide ReadInt, ToLittleEndian, Pow;
    IntAt(pre, length, 8, rest);
  }

  lemma {:induction false} FaultRaises(pre: seq<byte>, f: Fault, rest: seq<byte>)
    requires ValidFault(f)
    ensures SkipValue(pre + FaultBytes(f) + rest, |pre|, FaultType(f)) == Raises(ErrorOf(f))
    decreases f, |pre|
  {
    hide SkipMany, ReadStr, ReadInt, ToLittleEndian, EncodeAll, InOrder;
    match f
    case OddType(_) =>
    case LongString(length) => LongLength(pre, length, rest);
    case OddArray(elemType, count, before, next) =>
      hide SkipValue;
      var a, b, all := ToLittleEndian(elemType, 4), ToLittleEndian(count, 8), EncodeAll(before);
      var inner := FaultBytes(next);
      Layout(pre, a, b, all, inner, rest);
      SkipHead(pre, elemType, count, all + inner + rest);
      FaultRaises(pre + a + b + all, next, rest);
      SkipUpTo(pre + a + b, elemType, count, before, inner + rest);
  }

  lemma Layout(pre: seq<byte>, a: seq<byte>, b: seq<byte>, all: seq<byte>, inner: seq<byte>, rest: seq<byte>)
    ensures pre + (a + b + (all + inner)) + rest == pre + a + b + (all + inner + rest)
    ensures pre + a + b + (all + inner + rest) == pre + a + b + all + inner + rest
    ensures pre + a + b + all + inner + rest == pre + a + b + all + (inner + rest)
  {
  }

  /** Skipping leads to the first element that is not in order. */
  lemma {:induction false} SkipUpTo(pre: seq<byte>, vtype: nat, count: nat, before: seq<Value>, rest: seq<byte>)
    requires InOrder(before, vtype) && |before| < count
    ensures var data := pre + EncodeAll(before) + rest;
            var first := SkipValue(data, |pre + EncodeAll(before)|, vtype);
            first.Raises? ==> SkipMany(data, |pre|, vtype, count) == first
    decreases |before|
  {
    hide SkipValue, Encode, WellFormed;
    if before == [] {
      assert pre + EncodeAll(before) == pre;
    } else {
      var one, more := Encode(before[0]), EncodeAll(before[1..]);
      assert TypeOf(before[0]) == vtype && WellFormed(before[0]);
      assert EncodeAll(before) == one + more;
      Reassociate(pre, one, more, rest);
      assert pre + (one + more) == pre + one + more;
      SkipExact(pre, before[0], more + rest);
      SkipUpTo(pre + one, vtype, count - 1, before[1..], rest);
    }
  }

  // ----- and only reading one raises -----

  lemma {:induction false} LittleEndianBytes(s: seq<byte>)
    ensures ToLittleEndian(LittleEndian(s), |s|) == s
    ensures LittleEndian(s) < Pow(256, |s|)
  {
    if s != [] {
      var low, n := s[0], LittleEndian(s[1..]);
      LittleEndianBytes(s[1..]);
      assert (low + 256 * n) / 256 == n && (low + 256 * n) % 256 == low;
      assert s == [low] + s[1..];
      hide LittleEndian;
    }
  }

  /** What was read is what a writer writes. */
  lemma ReadIntBytes(data: seq<byte>, pos: nat, k: nat)
    requires pos <= |data| && ReadInt(data, pos, k).Ok? && (k == 4 || k == 8)
    ensures var n := ReadInt(data, pos, k).value;
            n < (if k == 4 then U32 else U64) && data[pos..pos + k] == ToLittleEndian(n, k)
  {
    Widths();
    LittleEndianBytes(data[pos..pos + k]);
    hide LittleEndian, ToLittleEndian, Pow;
  }

  /** A length that cannot be read stands at `pos`. */
  ghost predicate LongAt(data: seq<byte>, pos: nat) {
    pos + 8 <= |data| && exists n :: MAX_READ <= n < U64 && ToLittleEndian(n, 8) == data[pos..pos + 8]
  }

  /** A string that was read whole, or to the end of the file. */
  lemma ReadStrBytes(data: seq<byte>, pos: nat)
    requires pos <= |data|
    ensures var s := ReadStr(data, pos);
            && (s.Ok? && s.pos < |data| ==> |s.value| < MAX_READ && data[pos..s.pos] == KeyText(s.value))
            && (s.Raises? ==> s.e == TooLong && LongAt(data, pos))
  {
    var n := ReadInt(data, pos, 8);
    if n.Ok? {
      ReadIntBytes(data, pos, 8);
      hide ReadInt, ToLittleEndian;
      if n.value >= MAX_READ {
        assert LongAt(data, pos);
      } else if n.pos + n.value < |data| {
        WholeString(data, pos, n.value);
      }
    }
  }

  lemma WholeString(data: seq<byte>, pos: nat, n: nat)
    requires pos + 8 + n <= |data| && ToLittleEndian(n, 8) == data[pos..pos + 8]
    ensures data[pos..pos + 8 + n] == KeyText(data[pos + 8..pos + 8 + n])
  {
    hide ToLittleEndian;
    assert data[pos..pos + 8 + n] == data[pos..pos + 8] + data[pos + 8..pos + 8 + n];
  }

  /** What a successful skip passed over: a value, unless it ran into the end of the file. */
  ghost predicate Passed(data: seq<byte>, pos: nat, end: nat, v: Value, vtype: nat)
    requires pos <= end <= |data|
  {
    WellFormed(v) && TypeOf(v) == vtype && Encode(v) == data[pos..end]
  }

  ghost predicate PassedAll(data: seq<byte>, pos: nat, end: nat, vs: seq<Value>, vtype: nat)
    requires pos <= end <= |data|
  {
    InOrder(vs, vtype) && EncodeAll(vs) == data[pos..end]
  }

  /** What a raising skip ran into. */
  ghost predicate RanInto(data: seq<byte>, pos: nat, f: Fault, vtype: nat, e: Escaping)
    requires pos <= |data|
  {
    ValidFault(f) && FaultType(f) == vtype && ErrorOf(f) == e && FaultBytes(f) <= data[pos..]
  }

  ghost predicate RanIntoAfter(data: seq<byte>, pos: nat, before: seq<Value>, f: Fault, vtype: nat, e: Escaping)
    requires pos <= |data|
  {
    && InOrder(before, vtype) && ValidFault(f) && FaultType(f) == vtype && ErrorOf(f) == e
    && EncodeAll(before) + FaultBytes(f) <= data[pos..]
  }

  ghost predicate SomePassed(data: seq<byte>, pos: nat, end: nat, vtype: nat)
    requires pos <= end <= |data|
  {
    exists v :: Passed(data, pos, end, v, vtype)
  }

  ghost predicate SomeFault(data: seq<byte>, pos: nat, vtype: nat, e: Escaping)
    requires pos <= |data|
  {
    exists f :: RanInto(data, pos, f, vtype, e)
  }

  ghost predicate SomePassedAll(data: seq<byte>, pos: nat, end: nat, vtype: nat, count: nat)
    requires pos <= end <= |data|
  {
    exists vs :: |vs| == count && PassedAll(data, pos, end, vs, vtype)
  }

  ghost predicate SomeFaultAfter(data: seq<byte>, pos: nat, vtype: nat, count: nat, e: Escaping)
    requires pos <= |data|
  {
    exists before, f :: |before| < count && RanIntoAfter(data, pos, before, f, vtype, e)
  }

  lemma {:induction false} SkipUndone(data: seq<byte>, pos: nat, vtype: nat)
    requires pos <= |data| && vtype < U32
    ensures var r := SkipValue(data, pos, vtype);
            && (r.Ok? && r.pos < |data| ==> SomePassed(data, pos, r.pos, vtype))
            && (r.Raises? ==> SomeFault(data, pos, vtype, r.e))
    decreases |data| - pos, 0, 0
  {
    hide SkipMany, ReadStr, ReadInt, WellFormed, ValidFault;
    if vtype == STRING {
      StringUndone(data, pos);
    } else if vtype == ARRAY {
      var elem := ReadInt(data, pos, 4);
      if elem.Ok? {
        assert elem.pos == pos + 4;
        var count := ReadInt(data, elem.pos, 8);
        if count.Ok? {
          ReadIntBytes(data, pos, 4);
          SkipManyUndone(data, pos + 12, elem.value, count.value);
          ArrayUndone(data, pos);
        }
      }
    } else {
      PlainUndone(data, pos, vtype);
    }
  }

  lemma StringUndone(data: seq<byte>, pos: nat)
    requires pos <= |data|
    ensures var r := SkipValue(data, pos, STRING);
            && (r.Ok? && r.pos < |data| ==> SomePassed(data, pos, r.pos, STRING))
            && (r.Raises? ==> SomeFault(data, pos, STRING, r.e))
  {
    ReadStrBytes(data, pos);
    var s := ReadStr(data, pos);
    hide ReadStr, ToLittleEndian;
    if s.Ok? && s.pos < |data| {
      assert Passed(data, pos, s.pos, Str(s.value), STRING);
    } else if s.Raises? {
      var n :| MAX_READ <= n < U64 && ToLittleEndian(n, 8) == data[pos..pos + 8];
      assert data[pos..][..8] == data[pos..pos + 8];
      assert RanInto(data, pos, LongString(n), STRING, TooLong);
    }
  }

  lemma PlainUndone(data: seq<byte>, pos: nat, vtype: nat)
    requires pos <= |data| && vtype < U32 && vtype != STRING && vtype != ARRAY
    ensures var r := SkipValue(data, pos, vtype);
            && (r.Ok? && r.pos < |data| ==> SomePassed(data, pos, r.pos, vtype))
            && (r.Raises? ==> SomeFault(data, pos, vtype, r.e))
  {
    var r := SkipValue(data, pos, vtype);
    if r.Ok? && r.pos < |data| {
      assert Passed(data, pos, r.pos, Plain(vtype, data[pos..r.pos]), vtype);
    } else if r.Raises? {
      assert RanInto(data, pos, OddType(vtype), vtype, UnknownType);
    }
  }

  /** From what the elements were to what the array was. */
  lemma ArrayUndone(data: seq<byte>, pos: nat)
    requires pos + 12 <= |data| && ReadInt(data, pos, 4).Ok? && ReadInt(data, pos + 4, 8).Ok?
    requires var elemType, count := ReadInt(data, pos, 4).value, ReadInt(data, pos + 4, 8).value;
             var r := SkipMany(data, pos + 12, elemType, count);
             && (r.Ok? && r.pos < |data| ==> SomePassedAll(data, pos + 12, r.pos, elemType, count))
             && (r.Raises? ==> SomeFaultAfter(data, pos + 12, elemType, count, r.e))
    ensures var r := SkipValue(data, pos, ARRAY);
            && (r.Ok? && r.pos < |data| ==> SomePassed(data, pos, r.pos, ARRAY))
            && (r.Raises? ==> SomeFault(data, pos, ARRAY, r.e))
  {
    hide SkipValue, SkipMany, ReadInt, SomePassed, SomePassedAll, SomeFault, SomeFaultAfter, HeadAt;
    var elemType, count := ReadInt(data, pos, 4).value, ReadInt(data, pos + 4, 8).value;
    ArrayHead(data, pos);
    var r := SkipMany(data, pos + 12, elemType, count);
    if r.Ok? && r.pos < |data| {
      ArrayPassed(data, pos, r.pos, elemType, count);
    } else if r.Raises? {
      ArrayFault(data, pos, elemType, count, r.e);
    }
  }

  lemma ArrayHead(data: seq<byte>, pos: nat)
    requires pos + 12 <= |data|
    ensures ReadInt(data, pos, 4).Ok? && ReadInt(data, pos + 4, 8).Ok?
    ensures var elemType, count := ReadInt(data, pos, 4).value, ReadInt(data, pos + 4, 8).value;
            && HeadAt(data, pos, elemType, count)
            && SkipValue(data, pos, ARRAY) == SkipMany(data, pos + 12, elemType, count)
  {
    ReadIntBytes(data, pos, 4);
    ReadIntBytes(data, pos + 4, 8);
    hide SkipMany, ToLittleEndian, LittleEndian;
  }

  ghost predicate HeadAt(data: seq<byte>, pos: nat, elemType: nat, count: nat) {
    && pos + 12 <= |data| && elemType < U32 && count < U64
    && ToLittleEndian(elemType, 4) == data[pos..pos + 4] && ToLittleEndian(count, 8) == data[pos + 4..pos + 12]
  }

  lemma ArrayPassed(data: seq<byte>, pos: nat, end: nat, elemType: nat, count: nat)
    requires HeadAt(data, pos, elemType, count) && pos + 12 <= end <= |data|
    requires SomePassedAll(data, pos + 12, end, elemType, count)
    ensures SomePassed(data, pos, end, ARRAY)
  {
    hide ToLittleEndian, EncodeAll;
    var vs :| |vs| == count && PassedAll(data, pos + 12, end, vs, elemType);
    Joined(data, pos, pos + 4, pos + 12, end);
    assert Passed(data, pos, end, Arr(elemType, vs), ARRAY);
  }

  lemma ArrayFault(data: seq<byte>, pos: nat, elemType: nat, count: nat, e: Escaping)
    requires HeadAt(data, pos, elemType, count) && SomeFaultAfter(data, pos + 12, elemType, count, e)
    ensures SomeFault(data, pos, ARRAY, e)
  {
    hide ToLittleEndian, EncodeAll, InOrder;
    var before, f :| |before| < count && RanIntoAfter(data, pos + 12, before, f, elemType, e);
    var odd := OddArray(elemType, count, before, f);
    var inner := EncodeAll(before) + FaultBytes(f);
    assert FaultBytes(odd) == ToLittleEndian(elemType, 4) + ToLittleEndian(count, 8) + inner;
    assert ValidFault(odd) && FaultType(odd) == ARRAY && ErrorOf(odd) == e;
    hide FaultBytes, ValidFault;
    PrefixSlice(data, pos + 12, inner);
    Joined(data, pos, pos + 4, pos + 12, pos + 12 + |inner|);
    PrefixSlice(data, pos, FaultBytes(odd));
    assert RanInto(data, pos, odd, ARRAY, e);
  }

  lemma PrefixSlice(data: seq<byte>, pos: nat, s: seq<byte>)
    requires pos <= |data|
    ensures s <= data[pos..] <==> pos + |s| <= |data| && s == data[pos..pos + |s|]
  {
    if pos + |s| <= |data| {
      assert data[pos..][..|s|] == data[pos..pos + |s|];
    }
  }

  lemma Joined(data: seq<byte>, a: nat, b: nat, c: nat, d: nat)
    requires a <= b <= c <= d <= |data|
    ensures data[a..b] + data[b..c] + data[c..d] == data[a..d]
  {
  }

  lemma {:induction false} SkipManyUndone(data: seq<byte>, pos: nat, vtype: nat, count: nat)
    requires pos <= |data| && vtype < U32
    ensures var r := SkipMany(data, pos, vtype, count);
            && (r.Ok? && r.pos < |data| ==> SomePassedAll(data, pos, r.pos, vtype, count))
            && (r.Raises? ==> SomeFaultAfter(data, pos, vtype, count, r.e))
    decreases |data| - pos, 1, count
  {
    hide SkipValue, WellFormed, ValidFault;
    if count == 0 {
      assert EncodeAll([]) == data[pos..pos];
      assert PassedAll(data, pos, pos, [], vtype);
    } else {
      SkipUndone(data, pos, vtype);
      var first := SkipValue(data, pos, vtype);
      if first.Raises? {
        FaultFirst(data, pos, vtype, count, first.e);
      } else if first.Ok? {
        if first.pos < |data| {
          SkipManyUndone(data, first.pos, vtype, count - 1);
          OneMore(data, pos, first.pos, vtype, count);
        } else {
          KnownIfSkipped(data, pos, vtype);
          SkipManyAtEnd(data, vtype, count - 1);
        }
      }
    }
  }

  lemma KnownIfSkipped(data: seq<byte>, pos: nat, vtype: nat)
    requires pos <= |data| && SkipValue(data, pos, vtype).Ok?
    ensures KnownType(vtype)
  {
  }

  lemma FaultFirst(data: seq<byte>, pos: nat, vtype: nat, count: nat, e: Escaping)
    requires pos <= |data| && count > 0 && SomeFault(data, pos, vtype, e)
    ensures SomeFaultAfter(data, pos, vtype, count, e)
  {
    hide ValidFault, FaultBytes;
    var f :| RanInto(data, pos, f, vtype, e);
    assert EncodeAll([]) + FaultBytes(f) == FaultBytes(f);
    assert RanIntoAfter(data, pos, [], f, vtype, e);
  }

  /** An element in front of what the rest of the array was. */
  lemma OneMore(data: seq<byte>, pos: nat, mid: nat, vtype: nat, count: nat)
    requires pos <= mid <= |data| && count > 0 && SomePassed(data, pos, mid, vtype)
    requires var r := SkipMany(data, mid, vtype, count - 1);
             && (r.Ok? && r.pos < |data| ==> SomePassedAll(data, mid, r.pos, vtype, count - 1))
             && (r.Raises? ==> SomeFaultAfter(data, mid, vtype, count - 1, r.e))
    ensures var r := SkipMany(data, mid, vtype, count - 1);
            && (r.Ok? && r.pos < |data| ==> SomePassedAll(data, pos, r.pos, vtype, count))
            && (r.Raises? ==> SomeFaultAfter(data, pos, vtype, count, r.e))
  {
    hide SkipMany, SomePassed, SomePassedAll, SomeFaultAfter;
    var r := SkipMany(data, mid, vtype, count - 1);
    if r.Ok? && r.pos < |data| {
      OneMorePassed(data, pos, mid, r.pos, vtype, count);
    } else if r.Raises? {
      OneMoreBefore(data, pos, mid, vtype, count, r.e);
    }
  }

  lemma OneMorePassed(data: seq<byte>, pos: nat, mid: nat, end: nat, vtype: nat, count: nat)
    requires pos <= mid <= end <= |data| && count > 0
    requires SomePassed(data, pos, mid, vtype) && SomePassedAll(data, mid, end, vtype, count - 1)
    ensures SomePassedAll(data, pos, end, vtype, count)
  {
    hide WellFormed, Encode, EncodeAll, InOrder;
    var v :| Passed(data, pos, mid, v, vtype);
    var vs :| |vs| == count - 1 && PassedAll(data, mid, end, vs, vtype);
    ConsInOrder(v, vs, vtype);
    assert data[pos..end] == data[pos..mid] + data[mid..end];
    assert PassedAll(data, pos, end, [v] + vs, vtype);
  }

  lemma OneMoreBefore(data: seq<byte>, pos: nat, mid: nat, vtype: nat, count: nat, e: Escaping)
    requires pos <= mid <= |data| && count > 0
    requires SomePassed(data, pos, mid, vtype) && SomeFaultAfter(data, mid, vtype, count - 1, e)
    ensures SomeFaultAfter(data, pos, vtype, count, e)
  {
    hide WellFormed, Encode, EncodeAll, InOrder, ValidFault, FaultBytes;
    var v :| Passed(data, pos, mid, v, vtype);
    var before, f :| |before| < count - 1 && RanIntoAfter(data, mid, before, f, vtype, e);
    ConsInOrder(v, before, vtype);
    var inner := EncodeAll(before) + FaultBytes(f);
    TwoInARow(data, pos, mid, Encode(v), inner);
    ConcatAssociative(Encode(v), EncodeAll(before), FaultBytes(f));
    assert RanIntoAfter(data, pos, [v] + before, f, vtype, e);
  }

  lemma ConsInOrder(v: Value, vs: seq<Value>, vtype: nat)
    requires WellFormed(v) && TypeOf(v) == vtype && InOrder(vs, vtype)
    ensures InOrder([v] + vs, vtype) && EncodeAll([v] + vs) == Encode(v) + EncodeAll(vs)
  {
    assert ([v] + vs)[1..] == vs;
  }

  // ----- pairs -----

  /** A pair on which reading raises: at the length of its key, or at its value. */
  datatype PairFault = LongKey(length: nat) | OddValue(key: seq<byte>, value: Fault)

  ghost predicate ValidPairFault(p: PairFault) {
    match p
    case LongKey(length) => MAX_READ <= length < U64
    case OddValue(key, f) => |key| < MAX_READ && ValidFault(f) && FaultType(f) < U32
  }

  function PairError(p: PairFault): Escaping {
    match p
    case LongKey(_) => TooLong
    case OddValue(_, f) => ErrorOf(f)
  }

  function PairFaultBytes(p: PairFault): seq<byte> {
    match p
    case LongKey(length) => ToLittleEndian(length, 8)
    case OddValue(key, f) => KeyText(key) + ToLittleEndian(FaultType(f), 4) + FaultBytes(f)
  }

  lemma ScalarRaises(data: seq<byte>, pos: nat, vtype: nat)
    requires pos <= |data|
    ensures SkipValue(data, pos, vtype).Raises? ==> ReadScalar(data, pos, vtype).Raises?
    ensures ReadScalar(data, pos, vtype).Raises? ==> SkipValue(data, pos, vtype).Raises?
    ensures ReadScalar(data, pos, vtype).Raises? ==> ReadScalar(data, pos, vtype).e == SkipValue(data, pos, vtype).e
  {
    hide SkipMany, ReadStr, ReadInt;
  }

  lemma PairFaultRaises(pre: seq<byte>, p: PairFault, rest: seq<byte>, left: nat)
    requires ValidPairFault(p) && left > 0
    ensures Pairs(pre + PairFaultBytes(p) + rest, |pre|, left) == Escapes(PairError(p))
  {
    hide ReadStr, ReadInt, KeyText, ToLittleEndian, IsCountKey, ReadScalar, SkipValue, ValidFault, FaultBytes;
    match p
    case LongKey(length) => LongLength(pre, length, rest);
    case OddValue(key, f) =>
      var k, t, b := KeyText(key), ToLittleEndian(FaultType(f), 4), FaultBytes(f);
      var data := pre + PairFaultBytes(p) + rest;
      assert data == pre + k + t + (b + rest);
      KeyHead(pre, key, FaultType(f), b + rest);
      assert data == pre + k + t + b + rest;
      FaultRaises(pre + k + t, f, rest);
      ScalarRaises(data, |pre + k + t|, FaultType(f));
  }

  predicate NoCountKey(ps: seq<Pair>) {
    forall p | p in ps :: !IsCountKey(p.key)
  }

  lemma {:induction false} FaultAfterPairs(pre: seq<byte>, ps: seq<Pair>, p: PairFault, rest: seq<byte>, left: nat)
    requires (forall q | q in ps :: WellFormedPair(q)) && ValidPairFault(p)
    requires left > |ps|
    ensures var r := Pairs(pre + EncodePairs(ps) + (PairFaultBytes(p) + rest), |pre|, left);
            if NoCountKey(ps) then r == Escapes(PairError(p)) else r.Result?
    decreases |ps|
  {
    hide Pairs, EncodePair, WellFormed, IsCountKey, PairFaultBytes, ValidPairFault;
    var odd := PairFaultBytes(p) + rest;
    if ps == [] {
      assert pre + EncodePairs(ps) + odd == pre + PairFaultBytes(p) + rest;
      PairFaultRaises(pre, p, rest, left);
    } else {
      var q, more := ps[0], EncodePairs(ps[1..]);
      Reassociate(pre, EncodePair(q), more, odd);
      assert ps == [q] + ps[1..];
      if IsCountKey(q.key) {
        CountPair(pre, q, more + odd, left);
      } else {
        OnePair(pre, q, more + odd, left);
        FaultAfterPairs(pre + EncodePair(q), ps[1..], p, rest, left - 1);
      }
    }
  }

  // ----- whole files -----

  /** The file starts as a GGUF file that announces more pairs than `ps`, and goes on with `ps` and then
      with a pair that raises `e`. */
  ghost predicate FaultAfter(data: seq<byte>, ps: seq<Pair>, p: PairFault, e: Escaping) {
    && |data| >= 24 && data[..4] == MAGIC && |ps| < LittleEndian(data[16..24])
    && (forall q | q in ps :: WellFormedPair(q))
    && ValidPairFault(p) && PairError(p) == e
    && EncodePairs(ps) + PairFaultBytes(p) <= data[24..]
  }

  /** On such a file the error escapes exactly when no key before it ends in ".block_count"; otherwise
      the result is a value or None. */
  lemma FaultRaisesIff(data: seq<byte>, ps: seq<Pair>, p: PairFault, e: Escaping)
    requires FaultAfter(data, ps, p, e)
    ensures if NoCountKey(ps) then CountIn(data) == Escapes(e) else CountIn(data).Result?
  {
    hide Pairs, NoCountKey, WellFormedPair, ValidPairFault, PairFaultBytes, EncodePairs, LittleEndian;
    var pre, all, odd := data[..24], EncodePairs(ps), PairFaultBytes(p);
    var rest := data[24 + |all| + |odd|..];
    assert data[24..][..|all + odd|] == all + odd;
    assert data == pre + all + (odd + rest);
    FaultAfterPairs(pre, ps, p, rest, LittleEndian(data[16..24]));
  }

  ghost predicate PairsRanInto(data: seq<byte>, pos: nat, left: nat, ps: seq<Pair>, p: PairFault, e: Escaping)
    requires pos <= |data|
  {
    && |ps| < left && (forall q | q in ps :: WellFormedPair(q)) && NoCountKey(ps)
    && ValidPairFault(p) && PairError(p) == e
    && EncodePairs(ps) + PairFaultBytes(p) <= data[pos..]
  }

  lemma NoPairsBefore(data: seq<byte>, pos: nat, left: nat, p: PairFault, e: Escaping)
    requires pos <= |data| && left > 0 && ValidPairFault(p) && PairError(p) == e && PairFaultBytes(p) <= data[pos..]
    ensures PairsRanInto(data, pos, left, [], p, e)
  {
    assert EncodePairs([]) + PairFaultBytes(p) == PairFaultBytes(p);
  }

  lemma {:induction false} PairsUndone(data: seq<byte>, pos: nat, left: nat) returns (ps: seq<Pair>, p: PairFault)
    requires pos <= |data| && Pairs(data, pos, left).Escapes?
    ensures PairsRanInto(data, pos, left, ps, p, Pairs(data, pos, left).e)
    decreases left
  {
    hide ReadStr, ReadInt, SkipValue, ReadScalar, IsCountKey, WellFormed, ValidFault, FaultBytes, KeyText, PairsRanInto;
    ReadStrBytes(data, pos);
    var key := ReadStr(data, pos);
    if key.Raises? {
      var n :| MAX_READ <= n < U64 && ToLittleEndian(n, 8) == data[pos..pos + 8];
      PrefixSlice(data, pos, ToLittleEndian(n, 8));
      ps, p := [], LongKey(n);
      NoPairsBefore(data, pos, left, p, TooLong);
    } else {
      var vtype := ReadInt(data, key.pos, 4);
      ReadIntBytes(data, key.pos, 4);
      SkipUndone(data, vtype.pos, vtype.value);
      ScalarRaises(data, vtype.pos, vtype.value);
      var s := SkipValue(data, vtype.pos, vtype.value);
      if s.Raises? {
        p := ValueFault(data, pos, key.value, key.pos, vtype.value, s.e);
        ps := [];
        NoPairsBefore(data, pos, left, p, s.e);
      } else {
        assert s.Ok? && s.pos < |data| by {
          AtEnd(data, left - 1);
        }
        var more;
        more, p := PairsUndone(data, s.pos, left - 1);
        ps := PairPassed(data, pos, key.value, key.pos, vtype.value, s.pos, left, more, p, Pairs(data, pos, left).e);
      }
    }
  }

  lemma ValueFault(data: seq<byte>, pos: nat, key: seq<byte>, at: nat, vtype: nat, e: Escaping) returns (p: PairFault)
    requires pos <= at && at + 4 <= |data| && |key| < MAX_READ && vtype < U32
    requires KeyText(key) == data[pos..at] && ToLittleEndian(vtype, 4) == data[at..at + 4]
    requires SomeFault(data, at + 4, vtype, e)
    ensures ValidPairFault(p) && PairError(p) == e && PairFaultBytes(p) <= data[pos..]
  {
    hide KeyText, ToLittleEndian, ValidFault, FaultBytes;
    var f :| RanInto(data, at + 4, f, vtype, e);
    p := OddValue(key, f);
    var k, t, b := KeyText(key), ToLittleEndian(vtype, 4), FaultBytes(f);
    assert PairFaultBytes(p) == k + t + b;
    assert ValidPairFault(p) && PairError(p) == e && b <= data[at + 4..];
    hide PairFaultBytes, ValidPairFault, RanInto, PairError, FaultType;
    ThreeInARow(data, pos, at, k, t, b);
  }

  lemma ThreeInARow(data: seq<byte>, pos: nat, at: nat, k: seq<byte>, t: seq<byte>, b: seq<byte>)
    requires pos <= at && at + 4 <= |data| && k == data[pos..at] && t == data[at..at + 4] && b <= data[at + 4..]
    ensures k + t + b <= data[pos..]
  {
    PrefixSlice(data, at + 4, b);
    Joined(data, pos, at, at + 4, at + 4 + |b|);
    PrefixSlice(data, pos, k + t + b);
  }

  lemma PairPassed(data: seq<byte>, pos: nat, key: seq<byte>, at: nat, vtype: nat, end: nat, left: nat,
                   more: seq<Pair>, p: PairFault, e: Escaping) returns (ps: seq<Pair>)
    requires pos <= at && at + 4 <= end <= |data| && |key| < MAX_READ && vtype < U32 && !IsCountKey(key) && left > 0
    requires KeyText(key) == data[pos..at] && ToLittleEndian(vtype, 4) == data[at..at + 4]
    requires SomePassed(data, at + 4, end, vtype)
    requires PairsRanInto(data, end, left - 1, more, p, e)
    ensures PairsRanInto(data, pos, left, ps, p, e)
  {
    hide KeyText, ToLittleEndian, WellFormed, Encode, ValidPairFault, PairFaultBytes, IsCountKey;
    var v :| Passed(data, at + 4, end, v, vtype);
    var one := Pair(key, v);
    ps := [one] + more;
    assert ps[1..] == more;
    Joined(data, pos, at, at + 4, end);
    assert EncodePair(one) == data[pos..end];
    var a, b, c := EncodePair(one), EncodePairs(more), PairFaultBytes(p);
    hide EncodePair, SomePassed, Passed;
    TwoInARow(data, pos, end, a, b + c);
    ConcatAssociative(a, b, c);
  }

  lemma TwoInARow(data: seq<byte>, pos: nat, mid: nat, a: seq<byte>, b: seq<byte>)
    requires pos <= mid <= |data| && a == data[pos..mid] && b <= data[mid..]
    ensures a + b <= data[pos..]
  {
    PrefixSlice(data, mid, b);
    assert data[pos..mid + |b|] == data[pos..mid] + data[mid..mid + |b|];
    PrefixSlice(data, pos, a + b);
  }

  // ----- two such files -----

  lemma FirstPairRaises(version: nat, tensors: nat, p: PairFault)
    requires ValidPairFault(p)
    ensures CountIn(Front(version, tensors, 1) + PairFaultBytes(p)) == Escapes(PairError(p))
  {
    hide Pairs, CountIn, Front, PairFaultBytes, ValidPairFault;
    var front, odd := Front(version, tensors, 1), PairFaultBytes(p);
    FrontRead(version, tensors, 1, odd);
    PairFaultRaises(front, p, [], 1);
    assert front + odd + [] == front + odd;
  }

  /** The key "a" with an array of one element of type 13: the type of the value itself is known. */
  lemma ArrayOfUnknownType()
    ensures var p := OddValue([97], OddArray(13, 1, [], OddType(13)));
            && PairFaultBytes(p)
               == KeyText([97]) + ToLittleEndian(ARRAY, 4)
                  + (ToLittleEndian(13, 4) + ToLittleEndian(1, 8) + (EncodeAll([]) + []))
            && CountIn(Front(3, 0, 1) + PairFaultBytes(p)) == Escapes(UnknownType)
  {
    var p := OddValue([97], OddArray(13, 1, [], OddType(13)));
    assert ValidFault(OddType(13));
    assert ValidPairFault(p);
    hide KeyText, ToLittleEndian, CountIn, Front;
    FirstPairRaises(3, 0, p);
  }

  /** A key with the smallest length that cannot be read. */
  lemma LongKeyRaises()
    ensures CountIn(Front(3, 0, 1) + ToLittleEndian(MAX_READ, 8)) == Escapes(TooLong)
  {
    hide ToLittleEndian, CountIn, Front;
    FirstPairRaises(3, 0, LongKey(MAX_READ));
  }

  // ----- the exact condition -----

  /** Some well-formed pairs without a ".block_count" key are followed by a pair that raises `e`. */
  ghost predicate Faulty(data: seq<byte>, e: Escaping) {
    exists ps: seq<Pair>, p: PairFault :: FaultAfter(data, ps, p, e) && NoCountKey(ps)
  }

  /** On every file whatever: an error goes through exactly when the file is faulty in this way; else
      `block_count` keeps its promise and returns a value or None. */
  lemma EscapesIff(data: seq<byte>, e: Escaping)
    ensures CountIn(data) == Escapes(e) <==> Faulty(data, e)
  {
    hide Pairs, NoCountKey, FaultAfter;
    if Faulty(data, e) {
      var ps: seq<Pair>, p: PairFault :| FaultAfter(data, ps, p, e) && NoCountKey(ps);
      FaultRaisesIff(data, ps, p, e);
    }
    if CountIn(data) == Escapes(e) {
      var ps, p := PairsUndone(data, 24, LittleEndian(data[16..24]));
      RanIntoHere(data, ps, p, e);
    }
  }

  lemma RanIntoHere(data: seq<byte>, ps: seq<Pair>, p: PairFault, e: Escaping)
    requires |data| >= 24 && data[..4] == MAGIC && PairsRanInto(data, 24, LittleEndian(data[16..24]), ps, p, e)
    ensures FaultAfter(data, ps, p, e) && NoCountKey(ps)
  {
  }
}
