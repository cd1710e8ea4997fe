/**
  The A1-style reference `new CellReference(row, col).formatAsString()` that the row
  writer puts in each cell's `r` attribute: the column in bijective base 26 (`A`..`Z`,
  `AA`, ...) followed by the 1-based row number in decimal.
*/
module CellReference {
  import opened JavaText
  import opened Wrappers

  predicate IsLetter(c: char) {
    'A' <= c <= 'Z'
  }

  function Letter(d: nat): (c: char)
    requires d < 26
    ensures IsLetter(c)
  {
    ('A' as int + d) as char
  }

  /** The column letters of the 0-based column `col`: 0 is `A`, 25 is `Z`, 26 is `AA`. */
  function ColumnLetters(col: nat): (r: string)
    ensures |r| > 0
    ensures forall k :: 0 <= k < |r| ==> IsLetter(r[k])
  {
    if col < 26 then [Letter(col)] else ColumnLetters(col / 26 - 1) + [Letter(col % 26)]
  }

  /** The bijective base-26 value of a run of letters (one more than the 0-based column). */
  function LettersValue(s: string): nat
    requires forall k :: 0 <= k < |s| ==> IsLetter(s[k])
  {
    if s == [] then 0 else
      assert IsLetter(s[|s| - 1]);
      LettersValue(s[..|s| - 1]) * 26 + (s[|s| - 1] as int - 'A' as int + 1)
  }

  lemma {:induction false} ColumnLettersValue(col: nat)
    ensures LettersValue(ColumnLetters(col)) == col + 1
  {
    if col >= 26 {
      var r := ColumnLetters(col);
      assert r[..|r| - 1] == ColumnLetters(col / 26 - 1);
      ColumnLettersValue(col / 26 - 1);
    }
  }

  /** `formatAsString()` of the reference to the 0-based `row` and `col`. */
  function FormatAsString(row: nat, col: nat): string {
    ColumnLetters(col) + NatToDecimal(row + 1)
  }

  /** The number of letters at the front of `s`. */
  function LeadingLetters(s: string): (n: nat)
    ensures n <= |s|
    ensures forall k :: 0 <= k < n ==> IsLetter(s[k])
    ensures n < |s| ==> !IsLetter(s[n])
  {
    if s == [] || !IsLetter(s[0]) then 0 else 1 + LeadingLetters(s[1..])
  }

  datatype Position = Position(row: nat, col: nat)

  /** Reads an A1-style reference back: letters giving the column, then a positive row number. */
  function ParseReference(s: string): Option<Position> {
    var n := LeadingLetters(s);
    var digits := s[n..];
    if n == 0 || digits == [] || !AllDigits(digits) || ParseDecimal(digits) == 0 then None
    else Some(Position(ParseDecimal(digits) - 1, LettersValue(s[..n]) - 1))
  }

  lemma {:induction false} LettersThenDigits(a: string, b: string)
    requires forall k :: 0 <= k < |a| ==> IsLetter(a[k])
    requires |b| > 0 && AllDigits(b)
    ensures LeadingLetters(a + b) == |a|
    decreases |a|
  {
    if a == [] {
      assert a + b == b;
      assert !IsLetter(b[0]);
    } else {
      assert (a + b)[1..] == a[1..] + b;
      LettersThenDigits(a[1..], b);
    }
  }

  /** The written reference reads back as the row and column it was made from. */
  lemma ReferenceRoundTrip(row: nat, col: nat)
    ensures ParseReference(FormatAsString(row, col)) == Some(Position(row, col))
  {
    var letters, digits := ColumnLetters(col), NatToDecimal(row + 1);
    var s := FormatAsString(row, col);
    LettersThenDigits(letters, digits);
    assert s[..|letters|] == letters;
    assert s[|letters|..] == digits;
    DecimalRoundTrip(row + 1);
    ColumnLettersValue(col);
  }

  /** Distinct cells get distinct references. */
  lemma ReferenceInjective(row1: nat, col1: nat, row2: nat, col2: nat)
    requires FormatAsString(row1, col1) == FormatAsString(row2, col2)
    ensures row1 == row2 && col1 == col2
  {
    ReferenceRoundTrip(row1, col1);
    ReferenceRoundTrip(row2, col2);
  }
}
