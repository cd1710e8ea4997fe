/**
  The text escaper `SheetDataWriter.outputQuotedString`, which writes cell text and formulas
  into XML character data, and a reader for XML character data (the predefined entities of
  section 4.6 and the character references of section 4.1 of the XML 1.0 specification) that
  says what a consumer of the sheet reads back.
*/
module XmlEscape {
  import opened JavaText
  import opened Wrappers

  /** A code unit the escaper copies unchanged: printable ASCII (and DEL) other than `<`, `>`, `&`, `"`. */
  predicate IsVerbatim(c: JChar) {
    0x20 <= c <= 0x7F && c != '<' as int && c != '>' as int && c != '&' as int && c != '"' as int
  }

  /**
    A code unit the escaper replaces by `?`: a control below U+0020 other than tab, line feed
    and carriage return, a surrogate half, U+FFFE or U+FFFF.
  */
  predicate IsReplaced(c: JChar) {
    (c < 0x20 && c != 0x09 && c != 0x0A && c != 0x0D) || IsSurrogate(c) || 0xFFFE <= c
  }

  /** What the escaper's output is made of: printable ASCII and DEL, with no `<`, `>` or `"`. */
  predicate Safe(t: string) {
    forall k :: 0 <= k < |t| ==> 0x20 <= t[k] as int <= 0x7F && t[k] != '<' && t[k] != '>' && t[k] != '"'
  }

  lemma SafeAppend(a: string, b: string)
    requires Safe(a) && Safe(b)
    ensures Safe(a + b)
  {
  }

  /** The text the escaper writes for one code unit, case by case in the order of its `switch`. */
  function EscapeChar(c: JChar): string {
    if c == '<' as int then "&lt;"
    else if c == '>' as int then "&gt;"
    else if c == '&' as int then "&amp;"
    else if c == '"' as int then "&quot;"
    else if c == 0x0A || c == 0x0D then "&#xa;"
    else if c == 0x09 then "&#x9;"
    else if c == 0xA0 then "&#xa0;"
    else if c < 0x20 || IsSurrogate(c) || 0xFFFE <= c then "?"
    else if c > 127 then "&#" + NatToDecimal(c) + ";"
    else [c as char]
  }

  /**
    The escape of one code unit is non-empty printable ASCII (or DEL) with no `<`, `>` or `"`:
    the unit itself when it is verbatim, otherwise a reference or `?`.
  */
  lemma EscapeCharShape(c: JChar)
    ensures |EscapeChar(c)| > 0 && Safe(EscapeChar(c))
    ensures IsVerbatim(c) ==> EscapeChar(c) == [c as char]
    ensures !IsVerbatim(c) ==> EscapeChar(c)[0] == '&' || EscapeChar(c) == "?"
  {
  }

  /** The whole escaped text: the escape of each code unit, in order. */
  function Escape(s: JString): string {
    if s == [] then "" else EscapeChar(s[0]) + Escape(s[1..])
  }

  /** Escaped text is in U+0020..U+007F with no `<`, `>` or `"`, and no shorter than the input. */
  lemma {:induction false} EscapeSafe(s: JString)
    ensures Safe(Escape(s)) && |Escape(s)| >= |s|
  {
    if s != [] {
      EscapeCharShape(s[0]);
      EscapeSafe(s[1..]);
      SafeAppend(EscapeChar(s[0]), Escape(s[1..]));
    }
  }

  lemma {:induction false} EscapeAppend(a: JString, b: JString)
    ensures Escape(a + b) == Escape(a) + Escape(b)
  {
    if a == [] {
      assert a + b == b;
    } else {
      assert (a + b)[0] == a[0];
      assert (a + b)[1..] == a[1..] + b;
      calc {
        Escape(a + b);
        EscapeChar(a[0]) + Escape(a[1..] + b);
        { EscapeAppend(a[1..], b); }
        EscapeChar(a[0]) + (Escape(a[1..]) + Escape(b));
        EscapeChar(a[0]) + Escape(a[1..]) + Escape(b);
      }
    }
  }

  /** A run of verbatim code units as characters, as the bulk `write(chars, last, n)` copies them. */
  function Verbatim(run: JString): (r: string)
    requires forall k :: 0 <= k < |run| ==> IsVerbatim(run[k])
    ensures |r| == |run|
  {
    if run == [] then "" else
      assert IsVerbatim(run[0]);
      [run[0] as char] + Verbatim(run[1..])
  }

  /** Copying a verbatim run in bulk writes what escaping it unit by unit writes. */
  lemma {:induction false} VerbatimIsEscape(run: JString)
    requires forall k :: 0 <= k < |run| ==> IsVerbatim(run[k])
    ensures Verbatim(run) == Escape(run)
  {
    if run != [] {
      VerbatimIsEscape(run[1..]);
    }
  }

  lemma EscapeSingle(c: JChar)
    ensures Escape([c]) == EscapeChar(c)
  {
    assert [c][1..] == [];
  }

  lemma SplitAt(s: JString, last: nat, counter: nat)
    requires last <= counter < |s|
    ensures s[..counter + 1] == s[..last] + s[last..counter] + [s[counter]]
  {
  }

  lemma SplitWhole(s: JString, i: nat)
    requires i <= |s|
    ensures s[..i] + s[i..] == s
  {
  }

  /** One step of the escaper's loop: the pending verbatim run `s[last..counter]`, then `s[counter]`. */
  lemma EscapeStep(out: string, s: JString, last: nat, counter: nat)
    requires last <= counter < |s|
    requires forall k :: last <= k < counter ==> IsVerbatim(s[k])
    ensures out + Escape(s[..last]) + Verbatim(s[last..counter]) + EscapeChar(s[counter]) == out + Escape(s[..counter + 1])
  {
    var a, run, u := s[..last], s[last..counter], [s[counter]];
    VerbatimIsEscape(run);
    SplitAt(s, last, counter);
    EscapeAppend(a + run, u);
    EscapeAppend(a, run);
    EscapeSingle(s[counter]);
    Assoc3(out, Escape(a), Escape(run), Escape(u));
  }

  /** The end of the escaper: the verbatim run left when the loop is over. */
  lemma EscapeTail(out: string, s: JString, last: nat)
    requires last <= |s|
    requires forall k :: last <= k < |s| ==> IsVerbatim(s[k])
    ensures out + Escape(s[..last]) + Verbatim(s[last..]) == out + Escape(s)
  {
    var a, b := s[..last], s[last..];
    VerbatimIsEscape(b);
    SplitWhole(s, last);
    EscapeAppend(a, b);
    Assoc(out, Escape(a), Escape(b));
  }

  /** `if (counter > last) _out.write(chars, last, counter - last)`: the pending verbatim run. */
  method Flush(s: JString, last: nat, counter: nat, out: string) returns (out': string)
    requires last <= counter <= |s|
    requires forall k :: last <= k < counter ==> IsVerbatim(s[k])
    ensures out' == out + Verbatim(s[last..counter])
  {
    out' := out;
    if counter > last {
      out' := out' + Verbatim(s[last..counter]);
    }
  }

  /**
    One `case` of the escaper's `switch` for a unit that is not copied verbatim: the pending
    run is flushed and `e`, the replacement text, is written. `written` is the output the
    loop started from.
  */
  method Replace(s: JString, last: nat, counter: nat, out: string, e: string, ghost written: string)
    returns (out': string)
    requires last <= counter < |s|
    requires forall k :: last <= k < counter ==> IsVerbatim(s[k])
    requires out == written + Escape(s[..last])
    requires e == EscapeChar(s[counter])
    ensures out' == written + Escape(s[..counter + 1])
  {
    out' := Flush(s, last, counter, out);
    EscapeStep(written, s, last, counter);
    out' := out' + e;
  }

  /**
    The escaper's `switch` on one code unit: the text that replaces it, or none when the unit
    is left for the bulk copy of the verbatim run it belongs to.
  */
  method Replacement(c: JChar) returns (e: Option<string>)
    ensures e.None? <==> IsVerbatim(c)
    ensures e.Some? ==> e.value == EscapeChar(c)
  {
    if c == '<' as int {
      e := Some("&lt;");
    } else if c == '>' as int {
      e := Some("&gt;");
    } else if c == '&' as int {
      e := Some("&amp;");
    } else if c == '"' as int {
      e := Some("&quot;");
    } else if c == 0x0A || c == 0x0D {
      e := Some("&#xa;");
    } else if c == 0x09 {
      e := Some("&#x9;");
    } else if c == 0xA0 {
      e := Some("&#xa0;");
    } else if c < 0x20 || IsSurrogate(c) || (0xFFFE <= c && c <= 0xFFFF) {
      e := Some("?");
    } else if c > 127 {
      e := Some("&#" + NatToDecimal(c) + ";");
    } else {
      e := None;
    }
  }

  /**
    `outputQuotedString(s, out)`: the code units of `s` are scanned once; a run of verbatim
    units is written in bulk when a unit that needs escaping ends it, and at the end.
  */
  method OutputQuotedString(s: JString, out: string) returns (out': string)
    ensures out' == out + Escape(s)
  {
    out' := out;
    if |s| == 0 {
      return;
    }
    var last := 0;
    var length := |s|;
    for counter := 0 to length
      invariant last <= counter
      invariant forall k :: last <= k < counter ==> IsVerbatim(s[k])
      invariant out' == out + Escape(s[..last])
    {
      var e := Replacement(s[counter]);
      if e.Some? {
        out' := Replace(s, last, counter, out', e.value, out);
        last := counter + 1;
      }
    }
    if last < length {
      out' := out' + Verbatim(s[last..length]);
    }
    assert s[last..length] == s[last..];
    EscapeTail(out, s, last);
  }

  // ---------------------------------------------------------------------------------------
  // Reading the escaped text back

  predicate IsHexDigit(c: char) {
    '0' <= c <= '9' || 'a' <= c <= 'f' || 'A' <= c <= 'F'
  }

  predicate AllHex(s: string) {
    forall k :: 0 <= k < |s| ==> IsHexDigit(s[k])
  }

  function HexValue(c: char): (d: nat)
    requires IsHexDigit(c)
    ensures d < 16
  {
    if '0' <= c <= '9' then c as int - '0' as int
    else if 'a' <= c <= 'f' then c as int - 'a' as int + 10
    else c as int - 'A' as int + 10
  }

  function ParseHex(s: string): nat
    requires AllHex(s)
  {
    if s == [] then 0 else ParseHex(s[..|s| - 1]) * 16 + HexValue(s[|s| - 1])
  }

  /** The `Char` production of XML 1.0 (section 2.2). */
  predicate IsXmlChar(v: nat) {
    v == 0x09 || v == 0x0A || v == 0x0D || 0x20 <= v <= 0xD7FF || 0xE000 <= v <= 0xFFFD || 0x10000 <= v <= 0x10FFFF
  }

  /** The code units a character reference to `v` stands for (a surrogate pair above U+FFFF). */
  function CharRef(v: nat): (r: Option<JString>)
    ensures r.Some? <==> IsXmlChar(v)
    ensures r.Some? && v < 0x10000 ==> r.value == [v]
  {
    if !IsXmlChar(v) then None
    else if v < 0x10000 then Some([v])
    else Some([0xD800 + (v - 0x10000) / 0x400, 0xDC00 + (v - 0x10000) % 0x400])
  }

  /** What the reference `&name;` stands for: a predefined entity or a character reference. */
  function NamedRef(name: string): Option<JString> {
    if name == "lt" then Some(['<' as int])
    else if name == "gt" then Some(['>' as int])
    else if name == "amp" then Some(['&' as int])
    else if name == "quot" then Some(['"' as int])
    else if name == "apos" then Some(['\'' as int])
    else if |name| > 2 && name[..2] == "#x" && AllHex(name[2..]) then CharRef(ParseHex(name[2..]))
    else if |name| > 1 && name[0] == '#' && AllDigits(name[1..]) then CharRef(ParseDecimal(name[1..]))
    else None
  }

  datatype Decoded = Decoded(units: JString, length: nat)

  /** The reference at the start of `t` (which starts with `&`): what it stands for and its length. */
  function Reference(t: string): (r: Option<Decoded>)
    requires |t| > 0 && t[0] == '&'
    ensures r.Some? ==> 0 < r.value.length <= |t|
  {
    var k := IndexOf(t, ';');
    if k == |t| then None
    else match NamedRef(t[1..k])
      case None => None
      case Some(u) => Some(Decoded(u, k + 1))
  }

  function PrefixBy(u: JString, r: Option<JString>): Option<JString> {
    match r
    case None => None
    case Some(v) => Some(u + v)
  }

  /**
    The code units an XML reader delivers for character data `t`: references are replaced,
    a line break `\r\n` or a lone `\r` reads as `\n` (section 2.11), a `<` or a malformed
    reference is an error.
  */
  function Unescape(t: string): Option<JString>
    decreases |t|
  {
    if t == [] then Some([])
    else if t[0] == '<' then None
    else if t[0] == '&' then
      match Reference(t)
      case None => None
      case Some(d) => PrefixBy(d.units, Unescape(t[d.length..]))
    else if t[0] == '\r' then
      if |t| > 1 && t[1] == '\n' then PrefixBy([0x0A], Unescape(t[2..]))
      else PrefixBy([0x0A], Unescape(t[1..]))
    else if t[0] as int < 0x10000 then PrefixBy([t[0] as int], Unescape(t[1..]))
    else
      var v := t[0] as int - 0x10000;
      PrefixBy([0xD800 + v / 0x400, 0xDC00 + v % 0x400], Unescape(t[1..]))
  }

  /** What a reader gets back for one code unit: carriage returns read as line feeds, replaced units as `?`. */
  function ReadBackChar(c: JChar): JChar {
    if c == 0x0D then 0x0A else if IsReplaced(c) then '?' as int else c
  }

  function ReadBack(s: JString): (r: JString)
    ensures |r| == |s|
  {
    if s == [] then [] else [ReadBackChar(s[0])] + ReadBack(s[1..])
  }

  /** No carriage return and nothing the escaper replaces. */
  predicate Lossless(s: JString) {
    forall k :: 0 <= k < |s| ==> s[k] != 0x0D && !IsReplaced(s[k])
  }

  lemma ReferenceOf(name: string, rest: string)
    requires forall k :: 0 <= k < |name| ==> name[k] != ';'
    ensures Reference("&" + name + ";" + rest)
         == match NamedRef(name) case None => None case Some(u) => Some(Decoded(u, |name| + 2))
  {
    var t := "&" + name + ";" + rest;
    assert t == ("&" + name) + (";" + rest);
    IndexOfAfter("&" + name, ";" + rest, ';');
    assert IndexOf(t, ';') == |name| + 1;
    assert t[1..|name| + 1] == name;
  }

  lemma NoSemicolon(digits: string)
    requires AllDigits(digits)
    ensures forall k :: 0 <= k < |"#" + digits| ==> ("#" + digits)[k] != ';'
  {
  }

  /** Reading back the escape of one code unit followed by more escaped text. */
  lemma UnescapeChar(c: JChar, rest: string)
    ensures Unescape(EscapeChar(c) + rest) == PrefixBy([ReadBackChar(c)], Unescape(rest))
  {
    if c == '<' as int || c == '>' as int || c == '&' as int || c == '"' as int {
      UnescapePredefined(c, rest);
    } else if c == 0x0A || c == 0x0D || c == 0x09 || c == 0xA0 {
      UnescapeHex(c, rest);
    } else if c < 0x20 || IsSurrogate(c) || 0xFFFE <= c {
      UnescapeReplaced(c, rest);
    } else if c > 127 {
      DecimalRef(c, rest);
    } else {
      UnescapeVerbatim(c, rest);
    }
  }

  lemma PredefinedRefs()
    ensures NamedRef("lt") == Some(['<' as int])
    ensures NamedRef("gt") == Some(['>' as int])
    ensures NamedRef("amp") == Some(['&' as int])
    ensures NamedRef("quot") == Some(['"' as int])
  {
  }

  lemma UnescapePredefined(c: JChar, rest: string)
    requires c == '<' as int || c == '>' as int || c == '&' as int || c == '"' as int
    ensures Unescape(EscapeChar(c) + rest) == PrefixBy([ReadBackChar(c)], Unescape(rest))
  {
    PredefinedRefs();
    assert ReadBackChar(c) == c;
    if c == '<' as int {
      assert EscapeChar(c) == "&lt;";
      EntityReadBack("&lt;", "lt", rest, c);
    } else if c == '>' as int {
      assert EscapeChar(c) == "&gt;";
      EntityReadBack("&gt;", "gt", rest, c);
    } else if c == '&' as int {
      assert EscapeChar(c) == "&amp;";
      EntityReadBack("&amp;", "amp", rest, c);
    } else {
      assert EscapeChar(c) == "&quot;";
      EntityReadBack("&quot;", "quot", rest, c);
    }
  }

  lemma UnescapeHex(c: JChar, rest: string)
    requires c == 0x0A || c == 0x0D || c == 0x09 || c == 0xA0
    ensures Unescape(EscapeChar(c) + rest) == PrefixBy([ReadBackChar(c)], Unescape(rest))
  {
    HexRefs();
    if c == 0x0A || c == 0x0D {
      UnescapeLineBreak(c, rest);
    } else if c == 0x09 {
      UnescapeTab(rest);
    } else {
      UnescapeNoBreakSpace(rest);
    }
  }

  lemma UnescapeLineBreak(c: JChar, rest: string)
    requires c == 0x0A || c == 0x0D
    requires NamedRef("#xa") == Some([0x0A])
    ensures Unescape(EscapeChar(c) + rest) == PrefixBy([ReadBackChar(c)], Unescape(rest))
  {
    assert EscapeChar(c) == "&#xa;" && ReadBackChar(c) == 0x0A;
    EntityReadBack("&#xa;", "#xa", rest, 0x0A);
  }

  lemma UnescapeTab(rest: string)
    requires NamedRef("#x9") == Some([0x09])
    ensures Unescape(EscapeChar(0x09) + rest) == PrefixBy([ReadBackChar(0x09)], Unescape(rest))
  {
    assert EscapeChar(0x09) == "&#x9;" && ReadBackChar(0x09) == 0x09;
    EntityReadBack("&#x9;", "#x9", rest, 0x09);
  }

  lemma UnescapeNoBreakSpace(rest: string)
    requires NamedRef("#xa0") == Some([0xA0])
    ensures Unescape(EscapeChar(0xA0) + rest) == PrefixBy([ReadBackChar(0xA0)], Unescape(rest))
  {
    assert EscapeChar(0xA0) == "&#xa0;" && ReadBackChar(0xA0) == 0xA0;
    EntityReadBack("&#xa0;", "#xa0", rest, 0xA0);
  }

  lemma UnescapeReplaced(c: JChar, rest: string)
    requires c != 0x0A && c != 0x0D && c != 0x09
    requires c < 0x20 || IsSurrogate(c) || 0xFFFE <= c
    ensures Unescape(EscapeChar(c) + rest) == PrefixBy([ReadBackChar(c)], Unescape(rest))
  {
    assert EscapeChar(c) == "?";
    OneUnit("?", rest);
  }

  lemma UnescapeVerbatim(c: JChar, rest: string)
    requires IsVerbatim(c)
    ensures Unescape(EscapeChar(c) + rest) == PrefixBy([ReadBackChar(c)], Unescape(rest))
  {
    OneUnit([c as char], rest);
  }

  lemma OneUnit(e: string, rest: string)
    requires |e| == 1
    ensures (e + rest)[0] == e[0] && (e + rest)[1..] == rest
  {
  }

  lemma HexRefs()
    ensures NamedRef("#xa") == Some([0x0A])
    ensures NamedRef("#x9") == Some([0x09])
    ensures NamedRef("#xa0") == Some([0xA0])
  {
    assert "#xa"[2..] == "a" && "#x9"[2..] == "9" && "#xa0"[2..] == "a0";
    assert ParseHex("a") == 10;
    assert ParseHex("9") == 9;
    assert "a0"[..1] == "a";
    assert ParseHex("a0") == 0xA0;
  }

  lemma DecimalRef(c: JChar, rest: string)
    requires 127 < c && c != 0xA0 && !IsSurrogate(c) && c < 0xFFFE
    ensures Unescape(EscapeChar(c) + rest) == PrefixBy([ReadBackChar(c)], Unescape(rest))
  {
    var digits := NatToDecimal(c);
    NoSemicolon(digits);
    var name := "#" + digits;
    DecimalName(c, name);
    DecimalEscape(c, name);
    EntityReadBack(EscapeChar(c), name, rest, c);
  }

  lemma DecimalEscape(c: JChar, name: string)
    requires 127 < c && c != 0xA0 && !IsSurrogate(c) && c < 0xFFFE
    requires name == "#" + NatToDecimal(c)
    ensures EscapeChar(c) == "&" + name + ";"
  {
    var digits := NatToDecimal(c);
    assert EscapeChar(c) == "&#" + digits + ";";
    assert "&#" + digits == "&" + ("#" + digits);
  }

  lemma DecimalName(c: JChar, name: string)
    requires 127 < c && c != 0xA0 && !IsSurrogate(c) && c < 0xFFFE
    requires name == "#" + NatToDecimal(c)
    ensures NamedRef(name) == Some([c])
  {
    var digits := NatToDecimal(c);
    assert name[1..] == digits;
    DecimalRoundTrip(c);
    assert !(|name| > 2 && name[..2] == "#x") by {
      assert name[1] == digits[0];
    }
  }

  lemma EntityReadBack(e: string, name: string, rest: string, v: JChar)
    requires e == "&" + name + ";"
    requires forall k :: 0 <= k < |name| ==> name[k] != ';'
    requires NamedRef(name) == Some([v])
    ensures Unescape(e + rest) == PrefixBy([v], Unescape(rest))
  {
    var t := "&" + name + ";" + rest;
    ReferenceOf(name, rest);
    assert t[|name| + 2..] == rest;
  }

  /**
    What a reader gets back from the escaped text: every code unit, except that carriage
    returns come back as line feeds and the units the escaper replaces as `?`.
  */
  lemma {:induction false} UnescapeEscape(s: JString)
    ensures Unescape(Escape(s)) == Some(ReadBack(s))
  {
    if s != [] {
      UnescapeChar(s[0], Escape(s[1..]));
      UnescapeEscape(s[1..]);
    }
  }

  lemma {:induction false} ReadBackLossless(s: JString)
    requires Lossless(s)
    ensures ReadBack(s) == s
  {
    if s != [] {
      ReadBackLossless(s[1..]);
    }
  }

  /** For text with no carriage return and nothing replaced, the escaper loses nothing. */
  lemma EscapeRoundTrip(s: JString)
    requires Lossless(s)
    ensures Unescape(Escape(s)) == Some(s)
  {
    UnescapeEscape(s);
    ReadBackLossless(s);
  }
}
