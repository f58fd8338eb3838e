/** The values of a GGUF header byte by byte: the widths of its types, the numbers api/gguf_meta.py makes of
    them, and a whole file. */
module GgufMeaning {
  import opened Bytes
  import opened Gguf
  import opened GgufFormat

  /** The fixed-width types: bytes, bools and 8-bit integers in one byte, 16-bit integers in two, 32-bit
      integers and floats in four, 64-bit integers and floats in eight. */
  lemma PlainIff(vtype: nat, bytes: seq<byte>)
    ensures WellFormed(Plain(vtype, bytes))
       <==> || (vtype in {0, 1, 7} && |bytes| == 1)
            || (vtype in {2, 3} && |bytes| == 2)
            || (vtype in {4, 5, 6} && |bytes| == 4)
            || (vtype in {10, 11, 12} && |bytes| == 8)
  {
  }

  // ----- numbers -----

  function At(s: seq<byte>, i: nat): nat
    requires i < |s|
  {
    s[i]
  }

  lemma Two(s: seq<byte>)
    requires |s| == 2
    ensures LittleEndian(s) == At(s, 0) + 256 * At(s, 1)
  {
    assert s[1..][1..] == [];
    assert LittleEndian(s[1..]) == s[1] + 256 * LittleEndian([]);
  }

  lemma Four(s: seq<byte>)
    requires |s| == 4
    ensures LittleEndian(s) == At(s, 0) + 256 * At(s, 1) + 65536 * At(s, 2) + 16777216 * At(s, 3)
  {
    Two(s[2..]);
    assert s[1..][1..] == s[2..];
    assert LittleEndian(s[1..]) == s[1] + 256 * LittleEndian(s[2..]);
    assert LittleEndian(s) == s[0] + 256 * LittleEndian(s[1..]);
  }

  lemma Eight(s: seq<byte>)
    requires |s| == 8
    ensures LittleEndian(s) == At(s, 0) + 256 * At(s, 1) + 65536 * At(s, 2) + 16777216 * At(s, 3)
                               + 4294967296 * (At(s, 4) + 256 * At(s, 5) + 65536 * At(s, 6) + 16777216 * At(s, 7))
  {
    Four(s[4..]);
    assert s[1..][1..] == s[2..] && s[2..][1..] == s[3..] && s[3..][1..] == s[4..];
    assert LittleEndian(s[3..]) == s[3] + 256 * LittleEndian(s[4..]);
    assert LittleEndian(s[2..]) == s[2] + 256 * LittleEndian(s[3..]);
    assert LittleEndian(s[1..]) == s[1] + 256 * LittleEndian(s[2..]);
    assert LittleEndian(s) == s[0] + 256 * LittleEndian(s[1..]);
  }

  /** The unsigned number in two, four or eight bytes, the lowest first. */
  function Unsigned(s: seq<byte>): nat
    requires |s| in {2, 4, 8}
  {
    if |s| == 2 then At(s, 0) + 256 * At(s, 1)
    else if |s| == 4 then At(s, 0) + 256 * At(s, 1) + 65536 * At(s, 2) + 16777216 * At(s, 3)
    else At(s, 0) + 256 * At(s, 1) + 65536 * At(s, 2) + 16777216 * At(s, 3)
         + 4294967296 * (At(s, 4) + 256 * At(s, 5) + 65536 * At(s, 6) + 16777216 * At(s, 7))
  }

  /** Two's complement: the top bit takes 2 to the width away. */
  function TwosComplement(s: seq<byte>): int
    requires |s| in {2, 4, 8}
  {
    if s[|s| - 1] < 128 then Unsigned(s)
    else Unsigned(s) - (if |s| == 2 then 65536 else if |s| == 4 then 4294967296 else 18446744073709551616)
  }

  lemma UnsignedMeaning(s: seq<byte>)
    requires |s| in {2, 4, 8}
    ensures LittleEndian(s) == Unsigned(s)
  {
    hide LittleEndian;
    if |s| == 2 {
      Two(s);
    } else if |s| == 4 {
      Four(s);
    } else {
      Eight(s);
    }
  }

  lemma SignedMeaning(s: seq<byte>)
    requires |s| in {2, 4, 8}
    ensures Signed(LittleEndian(s), |s|) == TwosComplement(s)
  {
    Widths();
    assert Pow(256, 2) == 65536;
    hide LittleEndian, Pow;
    UnsignedMeaning(s);
  }

  /** What a value of each type counts for: a text for itself, the unsigned and the signed integers of 16,
      32 and 64 bits for their numbers, and nothing else for anything. */
  lemma ScalarMeaning(v: Value)
    requires WellFormed(v)
    ensures v.Str? ==> ScalarOf(v) == Text(v.text)
    ensures v.Arr? ==> ScalarOf(v) == Nothing
    ensures v.Plain? && v.vtype in {0, 1, 6, 7, 12} ==> ScalarOf(v) == Nothing
    ensures v.Plain? && v.vtype in {2, 4, 10} ==> |v.bytes| in {2, 4, 8} && ScalarOf(v) == Number(Unsigned(v.bytes))
    ensures v.Plain? && v.vtype in {3, 5, 11} ==>
              |v.bytes| in {2, 4, 8} && ScalarOf(v) == Number(TwosComplement(v.bytes))
  {
    if v.Plain? && v.vtype in {2, 3, 4, 5, 10, 11} {
      assert |v.bytes| in {2, 4, 8};
      UnsignedMeaning(v.bytes);
      SignedMeaning(v.bytes);
    }
    hide LittleEndian, Signed, Unsigned, TwosComplement;
  }

  /** The key ends in ".block_count". */
  ghost predicate EndsInCount(key: seq<byte>) {
    exists front: seq<byte> :: key == front + [46, 98, 108, 111, 99, 107, 95, 99, 111, 117, 110, 116]
  }

  lemma CountKeyIff(key: seq<byte>)
    ensures IsCountKey(key) <==> EndsInCount(key)
  {
    if IsCountKey(key) {
      assert key == key[..|key| - 12] + SUFFIX;
    }
  }

  /** So a 32-bit count is returned as the number its four bytes make, wherever its key stands among keys
      that do not end in ".block_count". */
  lemma CountReturned(h: Header, k: nat, tail: seq<byte>)
    requires WellFormedHeader(h) && k < |h.pairs| && h.pairs[k].value.Plain? && h.pairs[k].value.vtype == 4
    requires EndsInCount(h.pairs[k].key) && forall j | 0 <= j < k :: !EndsInCount(h.pairs[j].key)
    ensures |h.pairs[k].value.bytes| == 4
    ensures var b := h.pairs[k].value.bytes;
            CountIn(EncodeHeader(h) + tail)
            == Result(Number(At(b, 0) + 256 * At(b, 1) + 65536 * At(b, 2) + 16777216 * At(b, 3)))
  {
    assert WellFormedPair(h.pairs[k]);
    forall j | 0 <= j <= k
      ensures IsCountKey(h.pairs[j].key) <==> EndsInCount(h.pairs[j].key)
    {
      CountKeyIff(h.pairs[j].key);
    }
    hide EndsInCount, IsCountKey;
    BlockCountExact(h, tail);
    FirstCountAt(h.pairs, k);
    ScalarMeaning(h.pairs[k].value);
    hide CountIn, EncodeHeader, ScalarOf;
  }

  lemma {:induction false} FirstCountAt(ps: seq<Pair>, k: nat)
    requires k < |ps| && IsCountKey(ps[k].key) && forall j | 0 <= j < k :: !IsCountKey(ps[j].key)
    ensures FirstCount(ps) == ScalarOf(ps[k].value)
    decreases k
  {
    hide IsCountKey, ScalarOf;
    if k > 0 {
      FirstCountAt(ps[1..], k - 1);
    }
  }

  // ----- a whole file -----

  lemma {:induction false} Zeros(k: nat)
    ensures forall i | 0 <= i < k :: ToLittleEndian(0, k)[i] == 0
  {
    if k > 0 {
      Zeros(k - 1);
    }
  }

  lemma LowestFirst(n: byte, k: nat)
    requires k > 0
    ensures ToLittleEndian(n, k) == [n] + ToLittleEndian(0, k - 1)
  {
  }

  /** The bytes of a small number. */
  lemma Small(n: byte)
    ensures ToLittleEndian(n, 4) == [n, 0, 0, 0]
    ensures ToLittleEndian(n, 8) == [n, 0, 0, 0, 0, 0, 0, 0]
  {
    hide ToLittleEndian;
    Zeros(3);
    Zeros(7);
    LowestFirst(n, 4);
    LowestFirst(n, 8);
    assert ToLittleEndian(0, 3) == [0, 0, 0];
    assert ToLittleEndian(0, 7) == [0, 0, 0, 0, 0, 0, 0];
  }

  const SAMPLE_FRONT: seq<byte> :=
    [71, 71, 85, 70] + [3, 0, 0, 0] + [0, 0, 0, 0, 0, 0, 0, 0] + [1, 0, 0, 0, 0, 0, 0, 0]
  const SAMPLE_KEY: seq<byte> := [97, 46, 98, 108, 111, 99, 107, 95, 99, 111, 117, 110, 116]
  const SAMPLE_PAIR: seq<byte> := [13, 0, 0, 0, 0, 0, 0, 0] + SAMPLE_KEY + [4, 0, 0, 0] + [44, 1, 0, 0]

  function SamplePair(): Pair {
    Pair(SAMPLE_KEY, Plain(4, [44, 1, 0, 0]))
  }

  lemma SampleFront()
    ensures Front(3, 0, 1) == SAMPLE_FRONT
  {
    Small(3);
    Small(0);
    Small(1);
    hide ToLittleEndian;
  }

  lemma SamplePairBytes()
    ensures EncodePairs([SamplePair()]) == SAMPLE_PAIR
  {
    Small(13);
    Small(4);
    hide ToLittleEndian;
    var p := SamplePair();
    assert EncodePair(p) == SAMPLE_PAIR;
    assert [p][1..] == [];
    assert EncodePairs([]) == [];
    hide EncodePair, SamplePair;
    assert EncodePairs([p]) == EncodePair(p) + [];
  }

  lemma SampleKey()
    ensures EndsInCount(SAMPLE_KEY)
  {
    assert SAMPLE_KEY == [97] + SUFFIX;
  }

  lemma SampleWellFormed()
    ensures WellFormedPair(SamplePair())
  {
    assert |SAMPLE_KEY| == 13;
  }

  lemma OneCount(h: Header, front: seq<byte>, bytes: seq<byte>)
    requires WellFormedHeader(h) && front == Preamble(h) && bytes == EncodePairs(h.pairs) && |h.pairs| == 1
    requires var p := h.pairs[0]; EndsInCount(p.key) && p.value.Plain? && p.value.vtype == 4
    ensures |h.pairs[0].value.bytes| == 4
    ensures CountIn(front + bytes) == Result(Number(Unsigned(h.pairs[0].value.bytes)))
  {
    hide CountIn, WellFormedPair, EndsInCount, EncodePairs, Preamble, WellFormedHeader, ToLittleEndian;
    var data := front + bytes;
    assert EncodeHeader(h) + [] == data;
    hide EncodeHeader;
    CountReturned(h, 0, []);
  }

  /** A file of fifty-three bytes with one pair, "a.block_count" with an unsigned 32-bit 300. */
  lemma SampleCount()
    ensures CountIn(SAMPLE_FRONT + SAMPLE_PAIR) == Result(Number(300))
  {
    hide CountIn, WellFormedPair, EndsInCount, EncodePairs, Front;
    var h := Header(3, 0, [SamplePair()]);
    SampleFront();
    SamplePairBytes();
    SampleKey();
    SampleWellFormed();
    OneCount(h, SAMPLE_FRONT, SAMPLE_PAIR);
  }
}
