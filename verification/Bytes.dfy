/** Byte strings and the integer encodings that the binary formats share. */
module Bytes {

  type byte = b: int | 0 <= b < 256

  datatype Option<+T> = None | Some(value: T)

  /** Concatenation of a list of sequences (Python's `b"".join`). */
  function Flat<T>(parts: seq<seq<T>>): seq<T> {
    if parts == [] then [] else parts[0] + Flat(parts[1..])
  }

  lemma {:induction false} FlatAppend<T>(xs: seq<seq<T>>, ys: seq<seq<T>>)
    ensures Flat(xs + ys) == Flat(xs) + Flat(ys)
  {
    if xs == [] {
      assert xs + ys == ys;
    } else {
      assert (xs + ys)[1..] == xs[1..] + ys;
      FlatAppend(xs[1..], ys);
    }
  }

  predicate NoRepeats<T(==)>(xs: seq<T>) {
    forall i, j | 0 <= i < j < |xs| :: xs[i] != xs[j]
  }

  /** The elements that `p` accepts, in order (a list comprehension with a condition). */
  function Keep<T>(xs: seq<T>, p: T -> bool): seq<T> {
    if xs == [] then [] else if p(xs[0]) then [xs[0]] + Keep(xs[1..], p) else Keep(xs[1..], p)
  }

  lemma KeepStep<T>(xs: seq<T>, i: nat, p: T -> bool)
    requires i < |xs|
    ensures Keep(xs[i..], p) == if p(xs[i]) then [xs[i]] + Keep(xs[i + 1..], p) else Keep(xs[i + 1..], p)
  {
    assert xs[i..][0] == xs[i] && xs[i..][1..] == xs[i + 1..];
  }

  lemma {:induction false} KeepMembers<T(!new)>(xs: seq<T>, p: T -> bool)
    ensures forall x :: x in Keep(xs, p) <==> x in xs && p(x)
  {
    if xs != [] {
      KeepMembers(xs[1..], p);
      assert xs == [xs[0]] + xs[1..];
    }
  }

  ghost predicate Pairwise<T>(xs: seq<T>, r: (T, T) -> bool) {
    forall i, j | 0 <= i < j < |xs| :: r(xs[i], xs[j])
  }

  /** What holds of any two elements still does after some are left out. */
  lemma {:induction false} KeepPairwise<T(!new)>(xs: seq<T>, p: T -> bool, r: (T, T) -> bool)
    requires Pairwise(xs, r)
    ensures Pairwise(Keep(xs, p), r)
  {
    if xs != [] {
      assert Pairwise(xs[1..], r);
      KeepPairwise(xs[1..], p, r);
      KeepMembers(xs[1..], p);
      var rest := Keep(xs[1..], p);
      forall j | 0 <= j < |rest|
        ensures r(xs[0], rest[j])
      {
        assert rest[j] in rest;
        assert rest[j] in xs[1..];
      }
    }
  }

  lemma ConcatAssociative<T>(a: seq<T>, b: seq<T>, c: seq<T>)
    ensures a + (b + c) == a + b + c
  {
  }

  lemma FlatTwo<T>(x: seq<T>, y: seq<T>)
    ensures Flat([x]) == x && Flat([x, y]) == x + y
  {
    assert [y][1..] == [] && [x][1..] == [] && [x, y][1..] == [y];
    assert Flat([y]) == y;
  }

  lemma FlatSnoc<T>(xs: seq<seq<T>>, y: seq<T>)
    ensures Flat(xs + [y]) == Flat(xs) + y
  {
    FlatAppend(xs, [y]);
    assert Flat([y]) == y;
  }

  function Pow(base: nat, k: nat): nat {
    if k == 0 then 1 else base * Pow(base, k - 1)
  }

  // ----- exclusive or -----

  /** The low `k` bits of the exclusive or of `a` and `b`. */
  function XorBits(a: nat, b: nat, k: nat): nat {
    if k == 0 then 0
    else (if a % 2 == b % 2 then 0 else 1) + 2 * XorBits(a / 2, b / 2, k - 1)
  }

  function Xor(a: byte, b: byte): byte {
    XorBitsBound(a, b, 8);
    assert Pow(2, 8) == 256;
    XorBits(a, b, 8)
  }

  lemma {:induction false} XorBitsBound(a: nat, b: nat, k: nat)
    ensures XorBits(a, b, k) < Pow(2, k)
  {
    if k != 0 {
      XorBitsBound(a / 2, b / 2, k - 1);
    }
  }

  lemma {:induction false} XorBitsInvolutive(a: nat, b: nat, k: nat)
    requires a < Pow(2, k)
    ensures XorBits(XorBits(a, b, k), b, k) == a
  {
    if k != 0 {
      XorBitsBound(a / 2, b / 2, k - 1);
      XorBitsInvolutive(a / 2, b / 2, k - 1);
      var rest := XorBits(a / 2, b / 2, k - 1);
      var bit := if a % 2 == b % 2 then 0 else 1;
      assert (bit + 2 * rest) / 2 == rest && (bit + 2 * rest) % 2 == bit;
    }
  }

  lemma XorInvolutive(a: byte, b: byte)
    ensures Xor(Xor(a, b), b) == a
  {
    assert Pow(2, 8) == 256;
    XorBitsInvolutive(a, b, 8);
  }

  /** Bit `k` of `n` is set; bit 0 is the lowest. */
  predicate Bit(n: nat, k: nat) {
    if k == 0 then n % 2 == 1 else Bit(n / 2, k - 1)
  }

  /** Each bit of the result tells whether the two operands differ there. */
  lemma {:induction false} XorBit(a: nat, b: nat, n: nat, k: nat)
    requires k < n
    ensures Bit(XorBits(a, b, n), k) <==> Bit(a, k) != Bit(b, k)
  {
    var bit, rest := if a % 2 == b % 2 then 0 else 1, XorBits(a / 2, b / 2, n - 1);
    assert (bit + 2 * rest) / 2 == rest && (bit + 2 * rest) % 2 == bit;
    if k > 0 {
      XorBit(a / 2, b / 2, n - 1, k - 1);
    }
  }

  lemma {:induction false} XorDown(a: nat, x: nat, b: nat, y: nat, n: nat)
    requires n > 0 && x < 2 && y < 2
    ensures XorBits(2 * a + x, 2 * b + y, n) == (if x == y then 0 else 1) + 2 * XorBits(a, b, n - 1)
  {
    assert (2 * a + x) / 2 == a && (2 * a + x) % 2 == x && (2 * b + y) / 2 == b && (2 * b + y) % 2 == y;
  }

  lemma XorNone()
    ensures XorBits(0, 0, 0) == 0
  {
  }

  // ----- fixed-width integers -----

  function BigEndian(s: seq<byte>): nat {
    if s == [] then 0 else BigEndian(s[..|s| - 1]) * 256 + s[|s| - 1]
  }

  function ToBigEndian(n: nat, k: nat): (s: seq<byte>)
    ensures |s| == k
  {
    if k == 0 then [] else ToBigEndian(n / 256, k - 1) + [n % 256]
  }

  lemma BigEndianSnoc(s: seq<byte>, b: byte)
    ensures BigEndian(s + [b]) == BigEndian(s) * 256 + b
  {
    assert (s + [b])[..|s|] == s;
  }

  lemma {:induction false} BigEndianRoundTrip(n: nat, k: nat)
    requires n < Pow(256, k)
    ensures BigEndian(ToBigEndian(n, k)) == n
  {
    if k != 0 {
      BigEndianRoundTrip(n / 256, k - 1);
      var s := ToBigEndian(n, k);
      assert s[..k - 1] == ToBigEndian(n / 256, k - 1);
    }
  }

  lemma {:induction false} ToBigEndianRoundTrip(s: seq<byte>)
    ensures ToBigEndian(BigEndian(s), |s|) == s
  {
    if s != [] {
      var front, last := s[..|s| - 1], s[|s| - 1];
      ToBigEndianRoundTrip(front);
      var n := BigEndian(front);
      assert (n * 256 + last) / 256 == n && (n * 256 + last) % 256 == last;
      assert s == front + [last];
    }
  }

  lemma {:induction false} BigEndianBound(s: seq<byte>)
    ensures BigEndian(s) < Pow(256, |s|)
  {
    if s != [] {
      BigEndianBound(s[..|s| - 1]);
    }
  }

  function LittleEndian(s: seq<byte>): nat {
    if s == [] then 0 else s[0] + 256 * LittleEndian(s[1..])
  }

  function ToLittleEndian(n: nat, k: nat): (s: seq<byte>)
    ensures |s| == k
  {
    if k == 0 then [] else [n % 256] + ToLittleEndian(n / 256, k - 1)
  }

  lemma {:induction false} LittleEndianRoundTrip(n: nat, k: nat)
    requires n < Pow(256, k)
    ensures LittleEndian(ToLittleEndian(n, k)) == n
  {
    if k != 0 {
      LittleEndianRoundTrip(n / 256, k - 1);
      assert ToLittleEndian(n, k)[1..] == ToLittleEndian(n / 256, k - 1);
    }
  }
}
