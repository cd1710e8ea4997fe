/**
  The placeholder scanner of `StreamWorkbook.copyStreamAndInjectWorksheet`: one pass over a
  template sheet part that copies it up to the `<sheetData>` placeholder, writes the streamed
  row chunks and a closing `</sheetData>`, and copies the rest.

  `Scan` and `AfterOpenTag` are the matcher as a state machine over the remaining input:
  `Scan(t, SeekOpen, pos)` is the state "matching `<sheetData` with `pos` characters matched",
  `AfterOpenTag` the one- or two-character lookahead after a full `<sheetData`, and
  `Scan(t, SeekClose, pos)` the state "matching `</sheetData>`". A matched prefix is held back
  and written only when the next character breaks the match.
*/
module Splicer {
  import opened JavaText

  const OpenTag: string := "<sheetData"
  const CloseTag: string := "</sheetData>"
  /** What is written in front of the chunks when the template never opened the element. */
  const StartTag: string := "<sheetData>\n"

  datatype Phase = SeekOpen | SeekClose

  /** The literal `s` the scanner is matching in each phase. */
  function Target(ph: Phase): string {
    if ph.SeekOpen? then OpenTag else CloseTag
  }

  /**
    Where scanning stopped: the text written so far, the index of the first character not
    yet read, and whether an opening tag still has to be synthesized (`needsStartTag`).
  */
  datatype Scanned = Scanned(emitted: string, stop: nat, needsStartTag: bool)

  function Prepend(w: string, r: Scanned): Scanned {
    Scanned(w + r.emitted, r.stop, r.needsStartTag)
  }

  /** The scanner reading `input` from index `i` on, in phase `ph` with `pos` characters matched. */
  function Scan(input: string, i: nat, ph: Phase, pos: nat): (r: Scanned)
    requires i <= |input| && pos < |Target(ph)|
    ensures i <= r.stop <= |input|
    decreases |input| - i, 1
  {
    if i == |input| then
      // end of input: a pending partial match is not written
      Scanned([], i, ph.SeekOpen?)
    else
      var s := Target(ph);
      var c := input[i];
      if c == s[pos] then
        if pos + 1 < |s| then Scan(input, i + 1, ph, pos + 1)
        else if ph.SeekOpen? then AfterOpenTag(input, i + 1)
        else Scanned([], i + 1, false)   // `</sheetData>` found; it is not written
      else if c == s[0] then
        Prepend(s[..pos], Scan(input, i + 1, ph, 1))
      else
        Prepend(s[..pos] + [c], Scan(input, i + 1, ph, 0))
  }

  /** The lookahead after `<sheetData` has been matched, reading `input` from index `i` on. */
  function AfterOpenTag(input: string, i: nat): (r: Scanned)
    requires i <= |input|
    ensures i <= r.stop <= |input|
    decreases |input| - i, 0
  {
    if i == |input| then Scanned(OpenTag, i, true)
    else if input[i] == '>' then
      Prepend(OpenTag + ">", Scan(input, i + 1, SeekClose, 0))
    else if input[i] == '/' then
      if i + 1 == |input| then Scanned(OpenTag, i + 1, true)   // the `/` is dropped
      else if input[i + 1] == '>' then Scanned([], i + 2, true)   // `<sheetData/>` is not written
      else Prepend(OpenTag + "/" + [input[i + 1]], Scan(input, i + 2, SeekOpen, 0))
    else
      // the source writes a `/` here although none was read
      Prepend(OpenTag + "/" + [input[i]], Scan(input, i + 1, SeekOpen, 0))
  }

  /** The whole entry the splicer writes for template text `input` and row chunks `chunks`. */
  function Splice(input: string, chunks: seq<string>): string {
    var r := Scan(input, 0, SeekOpen, 0);
    r.emitted + (if r.needsStartTag then StartTag else "") + Concat(chunks) + CloseTag + input[r.stop..]
  }

  function PhaseOf(needsStartTag: bool): Phase {
    if needsStartTag then SeekOpen else SeekClose
  }

  lemma ScanOnMatch(input: string, i: nat, ph: Phase, pos: nat)
    requires i < |input| && pos + 1 < |Target(ph)| && input[i] == Target(ph)[pos]
    ensures Scan(input, i, ph, pos) == Scan(input, i + 1, ph, pos + 1)
  {
  }

  lemma ScanOnRestart(input: string, i: nat, ph: Phase, pos: nat)
    requires i < |input| && pos < |Target(ph)|
    requires input[i] != Target(ph)[pos] && input[i] == Target(ph)[0]
    ensures Scan(input, i, ph, pos) == Prepend(Target(ph)[..pos], Scan(input, i + 1, ph, 1))
  {
  }

  lemma ScanOnMismatch(input: string, i: nat, ph: Phase, pos: nat)
    requires i < |input| && pos < |Target(ph)|
    requires input[i] != Target(ph)[pos] && input[i] != Target(ph)[0]
    ensures Scan(input, i, ph, pos) == Prepend(Target(ph)[..pos] + [input[i]], Scan(input, i + 1, ph, 0))
  {
  }

  lemma ScanAtEnd(input: string, ph: Phase, pos: nat)
    requires pos < |Target(ph)|
    ensures Scan(input, |input|, ph, pos) == Scanned([], |input|, ph.SeekOpen?)
  {
  }

  lemma ScanAtFullClose(input: string, i: nat)
    requires i < |input| && input[i] == CloseTag[|CloseTag| - 1]
    ensures Scan(input, i, SeekClose, |CloseTag| - 1) == Scanned([], i + 1, false)
  {
  }

  lemma ScanAtFullOpen(input: string, i: nat)
    requires i < |input| && input[i] == OpenTag[|OpenTag| - 1]
    ensures Scan(input, i, SeekOpen, |OpenTag| - 1) == AfterOpenTag(input, i + 1)
  {
  }

  lemma AfterOpenGt(input: string, i: nat)
    requires i < |input| && input[i] == '>'
    ensures AfterOpenTag(input, i) == Prepend(OpenTag + ">", Scan(input, i + 1, SeekClose, 0))
  {
  }

  lemma AfterOpenSlash(input: string, i: nat)
    requires i + 1 < |input| && input[i] == '/' && input[i + 1] != '>'
    ensures AfterOpenTag(input, i) == Prepend(OpenTag + "/" + [input[i + 1]], Scan(input, i + 2, SeekOpen, 0))
  {
  }

  lemma AfterOpenOther(input: string, i: nat)
    requires i < |input| && input[i] != '>' && input[i] != '/'
    ensures AfterOpenTag(input, i) == Prepend(OpenTag + "/" + [input[i]], Scan(input, i + 1, SeekOpen, 0))
  {
  }

  lemma PrependTwice(a: string, b: string, r: Scanned)
    ensures Prepend(a, Prepend(b, r)) == Prepend(a + b, r)
  {
    assert a + (b + r.emitted) == (a + b) + r.emitted;
  }

  // ---------------------------------------------------------------------------------------
  // The code

  /** `copyStream(Stream<String>, Writer)`: every chunk, in order. */
  method CopyChunks(chunks: seq<string>, out: string) returns (out': string)
    ensures out' == out + Concat(chunks)
  {
    out' := out;
    for k := 0 to |chunks|
      invariant out' == out + Concat(chunks[..k])
    {
      assert chunks[..k + 1][..k] == chunks[..k];
      out' := out' + chunks[k];
    }
    assert chunks[..|chunks|] == chunks;
  }

  /** The closing loop of `copyStreamAndInjectWorksheet`: every character read after index `i`. */
  method CopyRest(input: string, i: nat, out: string) returns (out': string)
    requires i <= |input|
    ensures out' == out + input[i..]
  {
    out' := out;
    var k := i;
    while k < |input|
      invariant i <= k <= |input|
      invariant out' == out + input[i..k]
    {
      assert input[i..k + 1] == input[i..k] + [input[k]];
      out' := out' + [input[k]];
      k := k + 1;
    }
    assert input[i..] == input[i..|input|];
  }

  /** How the main loop goes on after the lookahead: it stops, or resumes matching in a phase. */
  datatype Next = Stop | Resume(phase: Phase)

  /**
    The lookahead of `copyStreamAndInjectWorksheet` once `<sheetData` has been matched: the
    characters from index `i` on decide between `<sheetData>` (resume seeking the closing
    tag), `<sheetData/>` or end of input (stop), and anything else (resume seeking `<sheetData`).
  */
  method ReadAfterOpenTag(input: string, i: nat, out: string) returns (out': string, i': nat, next: Next)
    requires i <= |input|
    ensures i <= i' <= |input|
    ensures next.Stop? ==> Prepend(out, AfterOpenTag(input, i)) == Scanned(out', i', true)
    ensures next.Resume? ==> Prepend(out, AfterOpenTag(input, i)) == Prepend(out', Scan(input, i', next.phase, 0))
  {
    var s := OpenTag;
    i' := i;
    if i' == |input| {
      out' := out + s;
      return out', i', Stop;
    }
    var c := input[i'];
    i' := i' + 1;
    if c == '>' {
      out' := out + (s + [c]);
      assert AfterOpenTag(input, i) == Prepend(OpenTag + ">", Scan(input, i', SeekClose, 0));
      PrependTwice(out, OpenTag + ">", Scan(input, i', SeekClose, 0));
      return out', i', Resume(SeekClose);
    }
    if c == '/' {
      out', i', next := ReadAfterSlash(input, i', out);
      return;
    }
    out' := out + (s + "/" + [c]);
    assert AfterOpenTag(input, i) == Prepend(OpenTag + "/" + [c], Scan(input, i', SeekOpen, 0));
    PrependTwice(out, OpenTag + "/" + [c], Scan(input, i', SeekOpen, 0));
    return out', i', Resume(SeekOpen);
  }

  /** The lookahead once `<sheetData/` has been read, the `/` at index `i - 1`. */
  method ReadAfterSlash(input: string, i: nat, out: string) returns (out': string, i': nat, next: Next)
    requires 0 < i <= |input| && input[i - 1] == '/'
    ensures i <= i' <= |input|
    ensures next.Stop? ==> Prepend(out, AfterOpenTag(input, i - 1)) == Scanned(out', i', true)
    ensures next.Resume? ==> Prepend(out, AfterOpenTag(input, i - 1)) == Prepend(out', Scan(input, i', next.phase, 0))
  {
    i' := i;
    if i' == |input| {
      out' := out + OpenTag;
      return out', i', Stop;
    }
    var c := input[i'];
    i' := i' + 1;
    if c == '>' {
      return out, i', Stop;
    }
    out' := out + (OpenTag + "/" + [c]);
    assert AfterOpenTag(input, i - 1) == Prepend(OpenTag + "/" + [c], Scan(input, i', SeekOpen, 0));
    PrependTwice(out, OpenTag + "/" + [c], Scan(input, i', SeekOpen, 0));
    return out', i', Resume(SeekOpen);
  }

  /**
    The branch of the first loop for a character `c` that breaks the current match: the held-back
    prefix of `s` is written, then `c` itself unless it starts a new match.
  */
  method WriteOnMismatch(s: string, pos: nat, c: char, out: string, ghost input: string, ghost i: nat, ghost ph: Phase)
    returns (out': string, pos': nat)
    requires s == Target(ph) && pos < |s|
    requires i < |input| && input[i] == c && c != s[pos]
    ensures pos' < |s|
    ensures Prepend(out, Scan(input, i, ph, pos)) == Prepend(out', Scan(input, i + 1, ph, pos'))
  {
    out' := out;
    if pos > 0 {
      out' := out' + s[..pos];
    }
    assert out' == out + s[..pos];
    if c == s[0] {
      ScanOnRestart(input, i, ph, pos);
      PrependTwice(out, s[..pos], Scan(input, i + 1, ph, 1));
      pos' := 1;
    } else {
      ScanOnMismatch(input, i, ph, pos);
      PrependTwice(out, s[..pos] + [c], Scan(input, i + 1, ph, 0));
      assert out' + [c] == out + (s[..pos] + [c]);
      out' := out' + [c];
      pos' := 0;
    }
  }

  /**
    The first loop of `copyStreamAndInjectWorksheet`: copies `input` up to and excluding the
    `<sheetData/>` or `</sheetData>` it stops at, and says where it stopped and whether a start
    tag is still owed.
  */
  method CopyUpToSheetDataEnd(input: string) returns (output: string, i: nat, needsStartTag: bool)
    ensures Scan(input, 0, SeekOpen, 0) == Scanned(output, i, needsStartTag)
  {
    needsStartTag := true;
    var pos: nat := 0;
    var s := OpenTag;
    var n := |s|;
    i := 0;
    output := "";
    ghost var whole := Scan(input, 0, SeekOpen, 0);
    while i < |input|
      invariant 0 <= i <= |input|
      invariant s == Target(PhaseOf(needsStartTag)) && n == |s| && pos < n
      invariant whole == Prepend(output, Scan(input, i, PhaseOf(needsStartTag), pos))
    {
      ghost var ph := PhaseOf(needsStartTag);
      ghost var before := output;
      var c := input[i];
      i := i + 1;
      if c == s[pos] {
        pos := pos + 1;
        if pos < n {
          assert whole == Prepend(output, Scan(input, i, ph, pos)) by {
            ScanOnMatch(input, i - 1, ph, pos - 1);
          }
        }
        if pos == n {
          assert (s == OpenTag) == needsStartTag by {
            assert OpenTag[1] != CloseTag[1];
          }
          if s == OpenTag {
            assert whole == Prepend(output, AfterOpenTag(input, i)) by {
              ScanAtFullOpen(input, i - 1);
            }
            var next;
            output, i, next := ReadAfterOpenTag(input, i, output);
            if next.Stop? {
              assert whole == Scanned(output, i, needsStartTag);
              break;
            }
            if next.phase == SeekClose {
              s := CloseTag;
              n := |s|;
              needsStartTag := false;
            }
            pos := 0;
            continue;
          } else {
            assert whole == Scanned(output, i, needsStartTag) by {
              ScanAtFullClose(input, i - 1);
            }
            break;
          }
        }
      } else {
        output, pos := WriteOnMismatch(s, pos, c, output, input, i - 1, ph);
        PrependTwice(before, [], Scan(input, i, ph, pos));
      }
    }
    assert whole == Scanned(output, i, needsStartTag) by {
      if i == |input| && pos < n {
        ScanAtEnd(input, PhaseOf(needsStartTag), pos);
      }
    }
  }

  method CopyStreamAndInjectWorksheet(input: string, worksheetData: seq<string>) returns (output: string)
    ensures output == Splice(input, worksheetData)
  {
    var i, needsStartTag;
    output, i, needsStartTag := CopyUpToSheetDataEnd(input);
    if needsStartTag {
      output := output + StartTag;
    }
    output := CopyChunks(worksheetData, output);
    output := output + CloseTag;
    output := CopyRest(input, i, output);
  }
}
