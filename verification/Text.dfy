/** The Python string operations that the parsers of CloudCore rely on, over ASCII text. */
module Text {
  import opened Bytes

  predicate IsSpace(c: char) {
    c == ' ' || 9 <= c as int <= 13 || 28 <= c as int <= 31
  }

  predicate IsDigit(c: char) {
    48 <= c as int <= 57
  }

  predicate AllDigits(s: string) {
    forall c | c in s :: IsDigit(c)
  }

  lemma CharacterClasses(c: char)
    ensures IsSpace(c) <==> c in {' ', '\t', '\n', '\r'} || c as int in {11, 12, 28, 29, 30, 31}
    ensures IsDigit(c) <==> '0' <= c && c <= '9'
  {
  }

  // ----- split and strip -----

  /** The index of the first `c`, or the length when there is none. */
  function IndexOf(s: string, c: char): (i: nat)
    ensures i <= |s|
    ensures c !in s[..i]
    ensures i < |s| ==> s[i] == c
    ensures i == |s| <==> c !in s
  {
    if s == "" || s[0] == c then 0
    else
      var i := 1 + IndexOf(s[1..], c);
      assert s[..i] == [s[0]] + s[1..][..i - 1];
      assert s == [s[0]] + s[1..];
      i
  }

  lemma {:induction false} FirstIndex(s: string, c: char, i: nat)
    requires i < |s| && s[i] == c && c !in s[..i]
    ensures IndexOf(s, c) == i
  {
    if i > 0 {
      assert s[0] == s[..i][0];
      assert s[1..][..i - 1] == s[..i][1..];
      FirstIndex(s[1..], c, i - 1);
    }
  }

  /** `s.split(c)`. */
  function Split(s: string, c: char): seq<string> {
    var i := IndexOf(s, c);
    if i == |s| then [s] else [s[..i]] + Split(s[i + 1..], c)
  }

  /** `c.join(parts)`. */
  function Glue(parts: seq<string>, c: char): string {
    if parts == [] then "" else if |parts| == 1 then parts[0] else parts[0] + [c] + Glue(parts[1..], c)
  }

  /** Splitting at a character undoes joining with it, for parts that do not hold it. */
  lemma {:induction false} SplitGlue(parts: seq<string>, c: char)
    requires parts != [] && forall i | 0 <= i < |parts| :: c !in parts[i]
    ensures Split(Glue(parts, c), c) == parts
  {
    if |parts| == 1 {
      SplitNone(parts[0], c);
    } else {
      SplitGlue(parts[1..], c);
      SplitFirst(parts[0], c, Glue(parts[1..], c));
      hide Split;
      assert parts == [parts[0]] + parts[1..];
    }
  }

  lemma SplitNone(s: string, c: char)
    requires c !in s
    ensures Split(s, c) == [s]
  {
  }

  lemma SplitFirst(first: string, c: char, rest: string)
    requires c !in first
    ensures Split(first + [c] + rest, c) == [first] + Split(rest, c)
  {
    var s := first + [c] + rest;
    assert s[..|first|] == first && s[|first|] == c && s[|first| + 1..] == rest;
    FirstIndex(s, c, |first|);
  }

  /** `s.split()`: the maximal runs without white space. */
  function Words(s: string): seq<string> {
    if s == "" then []
    else if IsSpace(s[0]) then Words(s[1..])
    else
      var k := WordEnd(s);
      [s[..k]] + Words(s[k..])
  }

  function WordEnd(s: string): (k: nat)
    ensures k <= |s|
    ensures s != "" && !IsSpace(s[0]) ==> k > 0
  {
    if s == "" || IsSpace(s[0]) then 0 else 1 + WordEnd(s[1..])
  }

  /** `s.strip()`. */
  function Strip(s: string): string
    decreases |s|
  {
    if s == "" then ""
    else if IsSpace(s[0]) then Strip(s[1..])
    else if IsSpace(s[|s| - 1]) then Strip(s[..|s| - 1])
    else s
  }

  predicate NoSpace(s: string) {
    forall c | c in s :: !IsSpace(c)
  }

  function Join(words: seq<string>): string {
    if words == [] then "" else words[0] + (if |words| == 1 then "" else " " + Join(words[1..]))
  }

  lemma {:induction false} WordEndWhole(w: string, rest: string)
    requires NoSpace(w)
    requires rest == "" || IsSpace(rest[0])
    ensures WordEnd(w + rest) == |w|
  {
    if w == "" {
      assert w + rest == rest;
    } else {
      assert (w + rest)[1..] == w[1..] + rest;
      WordEndWhole(w[1..], rest);
    }
  }

  lemma WordsFirst(w: string, rest: string)
    requires w != "" && NoSpace(w)
    requires rest == "" || IsSpace(rest[0])
    ensures Words(w + rest) == [w] + Words(rest)
  {
    var s := w + rest;
    WordEndWhole(w, rest);
    assert s[0] == w[0] && w[0] in w;
    assert s[..|w|] == w && s[|w|..] == rest;
  }

  /** Splitting undoes joining, for words that hold no white space. */
  lemma {:induction false} WordsJoin(words: seq<string>)
    requires forall w | w in words :: w != "" && NoSpace(w)
    ensures Words(Join(words)) == words
    decreases |words|
  {
    if words != [] {
      var w := words[0];
      var rest := if |words| == 1 then "" else " " + Join(words[1..]);
      var s := Join(words);
      assert s == w + rest;
      assert forall v | v in words[1..] :: v in words;
      WordsJoin(words[1..]);
      assert Words(rest) == words[1..] by {
        if |words| > 1 {
          assert rest[0] == ' ' && rest[1..] == Join(words[1..]);
        }
      }
      assert w in words && (rest == "" || IsSpace(rest[0]));
      WordsFirst(w, rest);
      assert words == [w] + words[1..];
    }
  }

  lemma StripWhole(s: string)
    requires NoSpace(s)
    ensures Strip(s) == s
  {
  }

  /** Stripping takes off white space at both ends and nothing else. */
  lemma {:induction false} StripMeaning(s: string) returns (i: nat, j: nat)
    ensures i <= j <= |s| && Strip(s) == s[i..j]
    ensures forall k | 0 <= k < i || j <= k < |s| :: IsSpace(s[k])
    ensures i < j ==> !IsSpace(s[i]) && !IsSpace(s[j - 1])
    decreases |s|
  {
    hide IsSpace;
    i, j := 0, |s|;
    if s != "" && IsSpace(s[0]) {
      var i', j' := StripMeaning(s[1..]);
      i, j := i' + 1, j' + 1;
      assert forall k | 0 < k < |s| :: s[k] == s[1..][k - 1];
    } else if s != "" && IsSpace(s[|s| - 1]) {
      i, j := StripMeaning(s[..|s| - 1]);
    }
  }

  // ----- case -----

  function LowerChar(c: char): char {
    if 65 <= c as int <= 90 then (c as int + 32) as char else c
  }

  /** `s.lower()`. */
  function Lower(s: string): string {
    seq(|s|, i requires 0 <= i < |s| => LowerChar(s[i]))
  }

  /** Capital letters become small ones; every other character stays. */
  lemma LowerMeaning(s: string)
    ensures |Lower(s)| == |s|
    ensures forall i | 0 <= i < |s| ::
              if 'A' <= s[i] <= 'Z' then Lower(s)[i] as int - 'a' as int == s[i] as int - 'A' as int
              else Lower(s)[i] == s[i]
  {
  }

  // ----- decimal numbers -----

  function Digit(d: nat): char
    requires d < 10
  {
    (48 + d) as char
  }

  /** `str(n)` for a natural number. */
  function Decimal(n: nat): (s: string)
    ensures s != "" && AllDigits(s)
  {
    if n < 10 then [Digit(n)] else Decimal(n / 10) + [Digit(n % 10)]
  }

  /** The value of digits with underscores between them. */
  function DigitsValue(s: string): nat
    requires forall c | c in s :: IsDigit(c) || c == '_'
  {
    if s == "" then 0
    else
      var front, last := s[..|s| - 1], s[|s| - 1];
      assert IsDigit(last) || last == '_' by { assert last in s; }
      if last == '_' then DigitsValue(front) else DigitsValue(front) * 10 + (last as int - 48)
  }

  predicate IsNumeral(s: string) {
    && s != ""
    && (forall c | c in s :: IsDigit(c) || c == '_')
    && s[0] != '_' && s[|s| - 1] != '_'
    && forall i | 0 < i < |s| :: s[i] == '_' ==> s[i - 1] != '_'
  }

  /** `int(s)`; None stands for the ValueError. */
  function ParseInt(s: string): Option<int> {
    var t := Strip(s);
    var negative := t != "" && t[0] == '-';
    var body := if t != "" && (t[0] == '-' || t[0] == '+') then t[1..] else t;
    if !IsNumeral(body) then None
    else
      var value: int := DigitsValue(body);
      Some(if negative then -value else value)
  }

  lemma {:induction false} DecimalValue(n: nat)
    ensures DigitsValue(Decimal(n)) == n
  {
    if n < 10 {
      assert Decimal(n)[..0] == "";
    } else {
      DecimalValue(n / 10);
      var s := Decimal(n);
      assert s[..|s| - 1] == Decimal(n / 10);
    }
  }

  /** Reading undoes printing. */
  lemma ParseDecimal(n: nat)
    ensures ParseInt(Decimal(n)) == Some(n)
  {
    var s := Decimal(n);
    assert IsDigit(s[0]) && IsDigit(s[|s| - 1]);
    StripWhole(s);
    DecimalValue(n);
  }

  lemma DecimalNumeral(n: nat)
    ensures IsNumeral(Decimal(n)) && NoSpace(Decimal(n)) && DigitsValue(Decimal(n)) == n
  {
    var s := Decimal(n);
    DecimalPlain(n, '_');
    DecimalValue(n);
    hide Decimal, DigitsValue;
    assert s[0] in s && s[|s| - 1] in s;
  }

  /** A sign before the digits. */
  lemma ParseSigned(sign: char, s: string)
    requires (sign == '-' || sign == '+') && IsNumeral(s) && NoSpace(s)
    ensures var value: int := DigitsValue(s); ParseInt([sign] + s) == Some(if sign == '-' then -value else value)
  {
    var t := [sign] + s;
    assert !IsSpace(sign);
    hide DigitsValue, Strip, IsNumeral, IsSpace;
    assert NoSpace(t);
    StripWhole(t);
    assert t[1..] == s;
  }

  lemma NumeralFirst(a: string, b: string)
    requires '_' !in a
    ensures IsNumeral(a + ['_'] + b) <==> a != "" && AllDigits(a) && IsNumeral(b)
  {
    var s := a + ['_'] + b;
    assert s[|a|] == '_';
    if a != "" && AllDigits(a) && IsNumeral(b) {
      forall i | 0 < i < |s| && s[i] == '_'
        ensures s[i - 1] != '_'
      {
        if i <= |a| {
          assert a[i - 1] in a;
        } else {
          assert s[i] == b[i - |a| - 1];
        }
      }
      assert s[0] in a;
    } else if IsNumeral(s) {
      assert forall c | c in a :: c in s && c != '_';
      assert forall c | c in b :: c in s;
      assert b != "" by {
        assert s[|s| - 1] != '_';
      }
      assert s[|a| + 1] == b[0];
      forall i | 0 < i < |b| && b[i] == '_'
        ensures b[i - 1] != '_'
      {
        assert s[|a| + 1 + i] == b[i] && s[|a| + i] == b[i - 1];
      }
    }
  }

  lemma WholeNumeral(s: string)
    requires '_' !in s
    ensures IsNumeral(s) <==> s != "" && AllDigits(s)
  {
    if s != "" {
      assert s[0] in s && s[|s| - 1] in s;
    }
  }

  ghost predicate DigitGroups(parts: seq<string>) {
    forall p | p in parts :: p != "" && AllDigits(p)
  }

  lemma GroupsFirst(a: string, rest: seq<string>)
    ensures DigitGroups([a] + rest) <==> a != "" && AllDigits(a) && DigitGroups(rest)
    ensures DigitGroups([a]) <==> a != "" && AllDigits(a)
  {
    hide AllDigits;
    assert a in [a] + rest && a in [a];
    assert forall p | p in rest :: p in [a] + rest;
  }

  /** What stands between single underscores in a numeral is digits, and there is always some. */
  lemma {:induction false} NumeralIff(s: string)
    ensures IsNumeral(s) <==> DigitGroups(Split(s, '_'))
    decreases |s|
  {
    hide IsNumeral, AllDigits, DigitGroups, Split;
    var i := IndexOf(s, '_');
    if i < |s| {
      var a, b := s[..i], s[i + 1..];
      assert s == a + ['_'] + b;
      NumeralFirst(a, b);
      NumeralIff(b);
      SplitFirst(a, '_', b);
      GroupsFirst(a, Split(b, '_'));
    } else {
      SplitNone(s, '_');
      WholeNumeral(s);
      GroupsFirst(s, []);
    }
  }

  lemma DecimalInjective(m: nat, n: nat)
    requires Decimal(m) == Decimal(n)
    ensures m == n
  {
    DecimalValue(m);
    DecimalValue(n);
  }

  /** A decimal number holds none of the characters that separate parts of an expression. */
  lemma DecimalPlain(n: nat, c: char)
    requires !IsDigit(c)
    ensures c !in Decimal(n) && NoSpace(Decimal(n))
  {
    var s := Decimal(n);
    forall x | x in s
      ensures x != c && !IsSpace(x)
    {
      assert IsDigit(x);
    }
  }
}
