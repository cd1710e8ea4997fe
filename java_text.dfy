/**
  Java's text primitives as the core uses them: a `char` is one UTF-16 code unit,
  `Integer.toString` renders an int in decimal, `Character.isWhitespace` classifies
  a code unit, and a stream of strings written one after another concatenates them.
*/
module JavaText {

  /** A Java `char`: one UTF-16 code unit, surrogate halves included. */
  type JChar = c: int | 0 <= c < 0x1_0000

  /** A Java `String`: a sequence of UTF-16 code units. */
  type JString = seq<JChar>

  predicate IsDigit(c: char) {
    '0' <= c <= '9'
  }

  predicate AllDigits(s: string) {
    forall k :: 0 <= k < |s| ==> IsDigit(s[k])
  }

  function DigitChar(d: nat): (c: char)
    requires d < 10
    ensures IsDigit(c)
  {
    ('0' as int + d) as char
  }

  function DigitValue(c: char): (d: nat)
    requires IsDigit(c)
    ensures d < 10 && DigitChar(d) == c
  {
    c as int - '0' as int
  }

  /** The decimal digits of `n`, most significant first, without leading zeros. */
  function NatToDecimal(n: nat): (r: string)
    ensures |r| > 0 && AllDigits(r)
    ensures |r| > 1 ==> r[0] != '0'
  {
    if n < 10 then [DigitChar(n)] else NatToDecimal(n / 10) + [DigitChar(n % 10)]
  }

  /** The value of a run of decimal digits (the empty run reads as 0). */
  function ParseDecimal(s: string): nat
    requires AllDigits(s)
  {
    if s == [] then 0 else ParseDecimal(s[..|s| - 1]) * 10 + DigitValue(s[|s| - 1])
  }

  lemma {:induction false} DecimalRoundTrip(n: nat)
    ensures ParseDecimal(NatToDecimal(n)) == n
  {
    if n >= 10 {
      var r := NatToDecimal(n);
      assert r[..|r| - 1] == NatToDecimal(n / 10);
      DecimalRoundTrip(n / 10);
    }
  }

  /** `Integer.toString(i)` (also what `"" + i` and `String.valueOf(i)` write). */
  function IntToString(i: int): (r: string)
    ensures |r| > 0
    ensures r[0] == '-' <==> i < 0
    ensures i >= 0 ==> AllDigits(r)
    ensures i < 0 ==> AllDigits(r[1..])
  {
    if i < 0 then "-" + NatToDecimal(-i) else NatToDecimal(i)
  }

  /** Reads back what `IntToString` writes. */
  function ParseInt(s: string): int
    requires |s| > 0
    requires if s[0] == '-' then AllDigits(s[1..]) else AllDigits(s)
  {
    if s[0] == '-' then 0 - ParseDecimal(s[1..]) else ParseDecimal(s)
  }

  lemma IntToStringRoundTrip(i: int)
    ensures ParseInt(IntToString(i)) == i
  {
    if i < 0 {
      assert IntToString(i)[1..] == NatToDecimal(-i);
      DecimalRoundTrip(-i);
    } else {
      DecimalRoundTrip(i);
    }
  }

  /** `Character.isHighSurrogate(c) || Character.isLowSurrogate(c)`. */
  predicate IsSurrogate(c: JChar) {
    0xD800 <= c <= 0xDFFF
  }

  /**
    `Character.isWhitespace(c)` for a UTF-16 code unit: a Unicode space, line or
    paragraph separator other than the no-break spaces U+00A0, U+2007 and U+202F,
    or one of the controls U+0009..U+000D and U+001C..U+001F (Unicode 6.3 and later).
  */
  predicate IsWhitespace(c: JChar) {
    || 0x09 <= c <= 0x0D
    || 0x1C <= c <= 0x20
    || c == 0x1680
    || 0x2000 <= c <= 0x2006
    || 0x2008 <= c <= 0x200A
    || c == 0x2028 || c == 0x2029
    || c == 0x205F
    || c == 0x3000
  }

  /** The strings of a stream written one after another. */
  function Concat(chunks: seq<string>): string {
    if chunks == [] then "" else Concat(chunks[..|chunks| - 1]) + chunks[|chunks| - 1]
  }

  predicate OccursAt(w: string, s: string, j: nat) {
    j + |w| <= |s| && s[j..j + |w|] == w
  }

  /** `w` is a substring of `s`. */
  predicate Occurs(w: string, s: string) {
    exists j: nat | j <= |s| :: OccursAt(w, s, j)
  }

  lemma OccursInSuffix(w: string, u: string, s: string)
    requires Occurs(w, s)
    ensures Occurs(w, u + s)
  {
    var j: nat :| j <= |s| && OccursAt(w, s, j);
    assert j + |w| <= |s|;
    assert (u + s)[|u| + j..|u| + j + |w|] == s[j..j + |w|];
    assert OccursAt(w, u + s, |u| + j);
  }

  predicate StartsWith(s: string, p: string) {
    |p| <= |s| && s[..|p|] == p
  }

  /** Index of the first `c` in `s`, or `|s|` when there is none. */
  function IndexOf(s: string, c: char): (k: nat)
    ensures k <= |s|
    ensures forall j :: 0 <= j < k ==> s[j] != c
    ensures k < |s| ==> s[k] == c
  {
    if s == [] then 0 else if s[0] == c then 0 else 1 + IndexOf(s[1..], c)
  }

  lemma IndexOfAfter(a: string, b: string, c: char)
    requires forall j :: 0 <= j < |a| ==> a[j] != c
    ensures IndexOf(a + b, c) == |a| + IndexOf(b, c)
  {
    var k := IndexOf(a + b, c);
    var m := IndexOf(b, c);
    assert forall j :: 0 <= j < |a| ==> (a + b)[j] != c;
    assert (a + b)[|a|..] == b;
    if m < |b| {
      assert (a + b)[|a| + m] == c;
    }
  }

  // Regrouping concatenations, for text written piece by piece.

  lemma Assoc(a: string, b: string, c: string)
    ensures a + (b + c) == a + b + c
  {
  }

  lemma Assoc3(o: string, a: string, b: string, c: string)
    ensures o + a + b + c == o + (a + b + c)
  {
    Assoc(o, a, b);
    Assoc(o, a + b, c);
  }

  lemma Assoc4(o: string, a: string, b: string, c: string, d: string)
    ensures o + a + b + c + d == o + (a + b + c + d)
  {
    Assoc3(o, a, b, c);
    Assoc(o, a + b + c, d);
  }

  lemma Assoc5(o: string, a: string, b: string, c: string, d: string, e: string)
    ensures o + a + b + c + d + e == o + (a + b + c + d + e)
  {
    Assoc4(o, a, b, c, d);
    Assoc(o, a + b + c + d, e);
  }
}
