/** The header reader of api/gguf_meta.py. A read returns what the file still has; unpacking too few
    bytes raises struct.error, which `block_count` turns into None. Two other errors go through it. */
module Gguf {
  import opened Bytes

  const STRING := 8
  const ARRAY := 9

  /** `_SCALAR_SIZES`; 0 for every other type. */
  function ScalarSize(vtype: nat): nat {
    if vtype == 0 || vtype == 1 || vtype == 7 then 1
    else if vtype == 2 || vtype == 3 then 2
    else if vtype == 4 || vtype == 5 || vtype == 6 then 4
    else if vtype == 10 || vtype == 11 || vtype == 12 then 8
    else 0
  }

  /** The errors that `block_count` does not catch: the ValueError for an unknown type, and the
      OverflowError of `f.read` for a length that does not fit a signed 64-bit integer. */
  datatype Escaping = UnknownType | TooLong

  const MAX_READ := 0x8000_0000_0000_0000

  /** A value read and the cursor after it, a struct.error, or an error that escapes. */
  datatype Read<T> = Ok(value: T, pos: nat) | TooShort | Raises(e: Escaping)

  /** What a reader does with a failed read of its own. */
  function Failed<S, T>(r: Read<S>): Read<T>
    requires !r.Ok?
  {
    if r.TooShort? then TooShort else Raises(r.e)
  }

  /** `struct.unpack` of a little-endian unsigned integer of `k` bytes. */
  function ReadInt(data: seq<byte>, pos: nat, k: nat): (r: Read<nat>)
    requires pos <= |data|
    ensures r.Ok? ==> r.pos == pos + k <= |data|
  {
    if pos + k <= |data| then Ok(LittleEndian(data[pos..pos + k]), pos + k) else TooShort
  }

  /** `f.read(n)`. */
  function End(data: seq<byte>, pos: nat, n: nat): (e: nat)
    requires pos <= |data|
    ensures pos <= e <= |data|
  {
    if pos + n <= |data| then pos + n else |data|
  }

  function ReadStr(data: seq<byte>, pos: nat): (r: Read<seq<byte>>)
    requires pos <= |data|
    ensures r.Ok? ==> pos < r.pos <= |data|
  {
    var n := ReadInt(data, pos, 8);
    if !n.Ok? then TooShort
    else if n.value >= MAX_READ then Raises(TooLong)
    else Ok(data[n.pos..End(data, n.pos, n.value)], End(data, n.pos, n.value))
  }

  /** `_skip_value`. */
  function SkipValue(data: seq<byte>, pos: nat, vtype: nat): (r: Read<()>)
    requires pos <= |data|
    ensures r.Ok? ==> pos <= r.pos <= |data|
    decreases |data| - pos, 0, 0
  {
    if vtype == STRING then
      var s := ReadStr(data, pos);
      if s.Ok? then Ok((), s.pos) else Failed(s)
    else if vtype == ARRAY then
      var elem := ReadInt(data, pos, 4);
      if !elem.Ok? then TooShort
      else
        var count := ReadInt(data, elem.pos, 8);
        if !count.Ok? then TooShort else SkipMany(data, count.pos, elem.value, count.value)
    else if ScalarSize(vtype) > 0 then Ok((), End(data, pos, ScalarSize(vtype)))
    else Raises(UnknownType)
  }

  function SkipMany(data: seq<byte>, pos: nat, vtype: nat, count: nat): (r: Read<()>)
    requires pos <= |data|
    ensures r.Ok? ==> pos <= r.pos <= |data|
    decreases |data| - pos, 1, count
  {
    if count == 0 then Ok((), pos)
    else
      var first := SkipValue(data, pos, vtype);
      if first.Ok? then SkipMany(data, first.pos, vtype, count - 1) else first
  }

  function Signed(n: nat, k: nat): int {
    if 2 * n < Pow(256, k) then n else n - Pow(256, k)
  }

  /** What `_read_scalar` may return. */
  datatype Scalar = Number(n: int) | Text(s: seq<byte>) | Nothing

  predicate IsUnsigned(vtype: nat) {
    vtype == 2 || vtype == 4 || vtype == 10
  }

  predicate IsSigned(vtype: nat) {
    vtype == 3 || vtype == 5 || vtype == 11
  }

  function ReadScalar(data: seq<byte>, pos: nat, vtype: nat): Read<Scalar>
    requires pos <= |data|
  {
    if vtype == STRING then
      var s := ReadStr(data, pos);
      if s.Ok? then Ok(Text(s.value), s.pos) else Failed(s)
    else if IsUnsigned(vtype) || IsSigned(vtype) then
      var k := ScalarSize(vtype);
      var n := ReadInt(data, pos, k);
      if n.Ok? then Ok(Number(if IsSigned(vtype) then Signed(n.value, k) else n.value), n.pos) else TooShort
    else
      var s := SkipValue(data, pos, vtype);
      if s.Ok? then Ok(Nothing, s.pos) else Failed(s)
  }

  /** ".block_count". */
  const SUFFIX: seq<byte> := [46, 98, 108, 111, 99, 107, 95, 99, 111, 117, 110, 116]

  predicate IsCountKey(key: seq<byte>) {
    |key| >= |SUFFIX| && key[|key| - |SUFFIX|..] == SUFFIX
  }

  /** The result of `block_count`, or the error it lets through. */
  datatype Count = Result(value: Scalar) | Escapes(e: Escaping)

  const NoCount := Result(Nothing)

  /** What a failed read makes of the whole call. */
  function Caught<T>(r: Read<T>): Count
    requires !r.Ok?
  {
    if r.TooShort? then NoCount else Escapes(r.e)
  }

  /** The loop over the key-value pairs that are left. */
  function Pairs(data: seq<byte>, pos: nat, left: nat): Count
    requires pos <= |data|
    decreases left
  {
    if left == 0 then NoCount
    else
      var key := ReadStr(data, pos);
      if !key.Ok? then Caught(key)
      else
        var vtype := ReadInt(data, key.pos, 4);
        if !vtype.Ok? then NoCount
        else if IsCountKey(key.value) then
          var s := ReadScalar(data, vtype.pos, vtype.value);
          if s.Ok? then Result(s.value) else Caught(s)
        else
          var s := SkipValue(data, vtype.pos, vtype.value);
          if s.Ok? then Pairs(data, s.pos, left - 1) else Caught(s)
  }

  /** "GGUF". */
  const MAGIC: seq<byte> := [71, 71, 85, 70]

  function CountIn(data: seq<byte>): Count {
    if |data| < 24 || data[..4] != MAGIC then NoCount else Pairs(data, 24, LittleEndian(data[16..24]))
  }

  /** `block_count`, on a file that can be opened. */
  method BlockCount(data: seq<byte>) returns (r: Count)
    ensures r == CountIn(data)
  {
    hide SkipValue, ReadScalar, LittleEndian, IsCountKey;
    var pos: nat := End(data, 0, 4);
    if data[..pos] != MAGIC {
      return NoCount;
    }
    var version := ReadInt(data, pos, 4);
    if !version.Ok? {
      return NoCount;
    }
    var tensors := ReadInt(data, version.pos, 8);
    if !tensors.Ok? {
      return NoCount;
    }
    var count := ReadInt(data, tensors.pos, 8);
    if !count.Ok? {
      return NoCount;
    }
    pos := count.pos;
    var left := count.value;
    while left > 0
      invariant pos <= |data|
      invariant CountIn(data) == Pairs(data, pos, left)
      decreases left
    {
      var key := ReadStr(data, pos);
      if !key.Ok? {
        return Caught(key);
      }
      var vtype := ReadInt(data, key.pos, 4);
      if !vtype.Ok? {
        return NoCount;
      }
      if IsCountKey(key.value) {
        var value := ReadScalar(data, vtype.pos, vtype.value);
        return if value.Ok? then Result(value.value) else Caught(value);
      }
      var s := SkipValue(data, vtype.pos, vtype.value);
      if !s.Ok? {
        return Caught(s);
      }
      pos, left := s.pos, left - 1;
    }
    r := NoCount;
  }
}
