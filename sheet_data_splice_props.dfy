/**
  What the placeholder scanner of `copyStreamAndInjectWorksheet` does to the shapes of template
  it meets: a self-closing `<sheetData/>`, a paired `<sheetData>`…`</sheetData>`, a template
  without any `<`, open tags it rejects, and the ways input can end in the middle of a tag.
*/
module SpliceProperties {
  import opened JavaText
  import opened Splicer

  /** The state the scanner enters once the whole of `Target(ph)` has been read up to index `k`. */
  function AfterMatch(input: string, k: nat, ph: Phase): Scanned
    requires k <= |input|
  {
    if ph.SeekOpen? then AfterOpenTag(input, k) else Scanned([], k, false)
  }

  /** `<` occurs in either literal only at index 0, so restarting a broken match at `s[0]` loses nothing. */
  lemma LtOnlyAtStart(ph: Phase, k: nat)
    requires 0 < k < |Target(ph)|
    ensures Target(ph)[0] == '<' && Target(ph)[k] != '<'
  {
  }

  /**
    Scanning text in which no complete target occurs (counting the `pos` characters already
    held back) writes all of it except a held-back prefix `Target(ph)[..p]` of the target.
  */
  lemma {:induction false} ScanPassesOver(input: string, i: nat, j: nat, ph: Phase, pos: nat)
    returns (x: string, p: nat)
    requires i <= j <= |input| && pos < |Target(ph)|
    requires !Occurs(Target(ph), Target(ph)[..pos] + input[i..j])
    ensures p < |Target(ph)|
    ensures Scan(input, i, ph, pos) == Prepend(x, Scan(input, j, ph, p))
    ensures x + Target(ph)[..p] == Target(ph)[..pos] + input[i..j]
    ensures NoLongerHeld(Target(ph)[..pos] + input[i..j], p, Target(ph))
    decreases j - i
  {
    var s := Target(ph);
    if i == j {
      x, p := [], pos;
      assert s[..pos] + input[i..j] == s[..pos];
      return;
    }
    var w, pos' := StepOver(input, i, j, ph, pos);
    var x', p' := ScanPassesOver(input, i + 1, j, ph, pos');
    x, p := w + x', p';
    PrependTwice(w, x', Scan(input, j, ph, p));
    Chain(w, x', s[..p], s[..pos'], input[i + 1..j], s[..pos] + input[i..j]);
  }

  /** One character of `ScanPassesOver`: what it writes and the new match length. */
  lemma StepOver(input: string, i: nat, j: nat, ph: Phase, pos: nat) returns (w: string, pos': nat)
    requires i < j <= |input| && pos < |Target(ph)|
    requires !Occurs(Target(ph), Target(ph)[..pos] + input[i..j])
    ensures pos' < |Target(ph)|
    ensures Scan(input, i, ph, pos) == Prepend(w, Scan(input, i + 1, ph, pos'))
    ensures w + Target(ph)[..pos'] + input[i + 1..j] == Target(ph)[..pos] + input[i..j]
    ensures !Occurs(Target(ph), Target(ph)[..pos'] + input[i + 1..j])
    ensures forall p: nat :: NoLongerHeld(Target(ph)[..pos'] + input[i + 1..j], p, Target(ph))
                        ==> NoLongerHeld(Target(ph)[..pos] + input[i..j], p, Target(ph))
  {
    var s := Target(ph);
    if input[i] == s[pos] {
      w, pos' := StepOverMatch(input, i, j, ph, pos);
    } else if input[i] == s[0] {
      w, pos' := StepOverRestart(input, i, j, ph, pos);
    } else {
      w, pos' := StepOverMismatch(input, i, j, ph, pos);
    }
  }

  lemma StepOverMatch(input: string, i: nat, j: nat, ph: Phase, pos: nat) returns (w: string, pos': nat)
    requires i < j <= |input| && pos < |Target(ph)| && input[i] == Target(ph)[pos]
    requires !Occurs(Target(ph), Target(ph)[..pos] + input[i..j])
    ensures pos' < |Target(ph)|
    ensures Scan(input, i, ph, pos) == Prepend(w, Scan(input, i + 1, ph, pos'))
    ensures w + Target(ph)[..pos'] + input[i + 1..j] == Target(ph)[..pos] + input[i..j]
    ensures !Occurs(Target(ph), Target(ph)[..pos'] + input[i + 1..j])
    ensures forall p: nat :: NoLongerHeld(Target(ph)[..pos'] + input[i + 1..j], p, Target(ph))
                        ==> NoLongerHeld(Target(ph)[..pos] + input[i..j], p, Target(ph))
  {
    HeldGrows(Target(ph), pos, input, i, j);
    if pos + 1 == |Target(ph)| {
      WholeHeld(Target(ph), input[i + 1..j]);
      assert false;
    }
    w, pos' := [], pos + 1;
    ScanOnMatch(input, i, ph, pos);
  }

  lemma StepOverRestart(input: string, i: nat, j: nat, ph: Phase, pos: nat) returns (w: string, pos': nat)
    requires i < j <= |input| && pos < |Target(ph)|
    requires input[i] != Target(ph)[pos] && input[i] == Target(ph)[0]
    requires !Occurs(Target(ph), Target(ph)[..pos] + input[i..j])
    ensures pos' < |Target(ph)|
    ensures Scan(input, i, ph, pos) == Prepend(w, Scan(input, i + 1, ph, pos'))
    ensures w + Target(ph)[..pos'] + input[i + 1..j] == Target(ph)[..pos] + input[i..j]
    ensures !Occurs(Target(ph), Target(ph)[..pos'] + input[i + 1..j])
    ensures forall p: nat :: NoLongerHeld(Target(ph)[..pos'] + input[i + 1..j], p, Target(ph))
                        ==> NoLongerHeld(Target(ph)[..pos] + input[i..j], p, Target(ph))
  {
    HeldRestarts(Target(ph), pos, input, i, j);
    NotInSuffix(Target(ph), Target(ph)[..pos], input[i..j]);
    w, pos' := Target(ph)[..pos], 1;
    ScanOnRestart(input, i, ph, pos);
    var h := Target(ph)[..1] + input[i + 1..j];
    assert Target(ph)[..pos] + h == Target(ph)[..pos] + input[i..j];
    TargetsLtFirst(ph);
    assert h[0] == '<';
    forall p: nat | NoLongerHeld(h, p, Target(ph))
      ensures NoLongerHeld(Target(ph)[..pos] + input[i..j], p, Target(ph))
    {
      LongestAfterRestart(Target(ph), Target(ph)[..pos], h, p);
    }
  }

  lemma StepOverMismatch(input: string, i: nat, j: nat, ph: Phase, pos: nat) returns (w: string, pos': nat)
    requires i < j <= |input| && pos < |Target(ph)|
    requires input[i] != Target(ph)[pos] && input[i] != Target(ph)[0]
    requires !Occurs(Target(ph), Target(ph)[..pos] + input[i..j])
    ensures pos' < |Target(ph)|
    ensures Scan(input, i, ph, pos) == Prepend(w, Scan(input, i + 1, ph, pos'))
    ensures w + Target(ph)[..pos'] + input[i + 1..j] == Target(ph)[..pos] + input[i..j]
    ensures !Occurs(Target(ph), Target(ph)[..pos'] + input[i + 1..j])
    ensures forall p: nat :: NoLongerHeld(Target(ph)[..pos'] + input[i + 1..j], p, Target(ph))
                        ==> NoLongerHeld(Target(ph)[..pos] + input[i..j], p, Target(ph))
  {
    HeldDropped(Target(ph), pos, input, i, j);
    NotInSuffix(Target(ph), Target(ph)[..pos] + [input[i]], input[i + 1..j]);
    w, pos' := Target(ph)[..pos] + [input[i]], 0;
    ScanOnMismatch(input, i, ph, pos);
    TargetsLtFirst(ph);
    forall p: nat | NoLongerHeld(Target(ph)[..0] + input[i + 1..j], p, Target(ph))
      ensures NoLongerHeld(Target(ph)[..pos] + input[i..j], p, Target(ph))
    {
      LongestAfterMismatch(Target(ph), pos, input[i], input[i + 1..j], p);
    }
  }

  // Sequence facts behind the three steps, stated for any literal `s`.

  lemma HeldGrows(s: string, pos: nat, input: string, i: nat, j: nat)
    requires pos < |s| && i < j <= |input| && input[i] == s[pos]
    ensures [] + s[..pos + 1] + input[i + 1..j] == s[..pos] + input[i..j]
    ensures s[..pos + 1] + input[i + 1..j] == s[..pos] + input[i..j]
  {
    assert input[i..j] == [input[i]] + input[i + 1..j];
    assert s[..pos + 1] == s[..pos] + [input[i]];
  }

  lemma HeldRestarts(s: string, pos: nat, input: string, i: nat, j: nat)
    requires 0 < |s| && pos <= |s| && i < j <= |input| && input[i] == s[0]
    ensures s[..1] + input[i + 1..j] == input[i..j]
    ensures s[..pos] + s[..1] + input[i + 1..j] == s[..pos] + input[i..j]
  {
    assert input[i..j] == [input[i]] + input[i + 1..j];
    assert s[..1] == [input[i]];
  }

  lemma HeldDropped(s: string, pos: nat, input: string, i: nat, j: nat)
    requires pos <= |s| && i < j <= |input|
    ensures s[..0] + input[i + 1..j] == input[i + 1..j]
    ensures s[..pos] + [input[i]] + s[..0] + input[i + 1..j] == s[..pos] + input[i..j]
    ensures s[..pos] + [input[i]] + input[i + 1..j] == s[..pos] + input[i..j]
  {
    assert input[i..j] == [input[i]] + input[i + 1..j];
  }

  lemma WholeHeld(s: string, rest: string)
    requires 0 < |s|
    ensures Occurs(s, s[..|s|] + rest)
  {
    assert s[..|s|] == s;
    assert (s + rest)[0..|s|] == s;
    assert OccursAt(s, s + rest, 0);
  }

  lemma NotInSuffix(w: string, a: string, b: string)
    requires !Occurs(w, a + b)
    ensures !Occurs(w, b)
  {
    if Occurs(w, b) {
      OccursInSuffix(w, a, b);
    }
  }

  /**
    No suffix of `h` longer than `p` (and shorter than `s`) is a prefix of `s`: a held-back
    `s[..p]` is the longest partial match at the end of `h`.
  */
  ghost predicate NoLongerHeld(h: string, p: nat, s: string) {
    forall q :: p < q < |s| && q <= |h| ==> h[|h| - q..] != s[..q]
  }

  /** `s` starts with `<` and has no other: true of both literals the scanner looks for. */
  ghost predicate LtFirst(s: string) {
    0 < |s| && s[0] == '<' && forall k :: 0 < k < |s| ==> s[k] != '<'
  }

  lemma TargetsLtFirst(ph: Phase)
    ensures LtFirst(Target(ph))
  {
    forall k | 0 < k < |Target(ph)|
      ensures Target(ph)[k] != '<'
    {
      LtOnlyAtStart(ph, k);
    }
  }

  /** Text put in front of a run that starts with `<` cannot lengthen a partial match. */
  lemma LongestAfterRestart(s: string, a: string, h: string, p: nat)
    requires LtFirst(s) && 0 < |h| && h[0] == '<' && NoLongerHeld(h, p, s)
    ensures NoLongerHeld(a + h, p, s)
  {
    var t := a + h;
    forall q | p < q < |s| && q <= |t|
      ensures t[|t| - q..] != s[..q]
    {
      if q <= |h| {
        assert t[|t| - q..] == h[|h| - q..];
      } else {
        assert t[|t| - q..][q - |h|] == h[0];
      }
    }
  }

  /**
    A held prefix `s[..pos]` broken by a character `c` that neither continues nor restarts the
    match leaves no partial match reaching back into `s[..pos] + [c]`.
  */
  lemma LongestAfterMismatch(s: string, pos: nat, c: char, h: string, p: nat)
    requires LtFirst(s) && pos < |s| && c != s[pos] && c != s[0]
    requires NoLongerHeld(h, p, s)
    ensures NoLongerHeld(s[..pos] + [c] + h, p, s)
  {
    var w := s[..pos] + [c];
    var t := w + h;
    forall q | p < q < |s| && q <= |t|
      ensures t[|t| - q..] != s[..q]
    {
      if q <= |h| {
        assert t[|t| - q..] == h[|h| - q..];
      } else {
        MismatchEnd(s, pos, c, h, q);
      }
    }
  }

  /** One length `q` of `LongestAfterMismatch`, reaching into `s[..pos] + [c]`. */
  lemma MismatchEnd(s: string, pos: nat, c: char, h: string, q: nat)
    requires LtFirst(s) && pos < |s| && c != s[pos] && c != s[0]
    requires |h| < q <= pos + 1 + |h| && q < |s|
    ensures (s[..pos] + [c] + h)[pos + 1 + |h| - q..] != s[..q]
  {
    var w := s[..pos] + [c];
    var u := (w + h)[|w| + |h| - q..];
    var d := q - |h|;
    assert u[..d] == w[|w| - d..];
    assert w[pos] == c;
    if 1 < d <= pos {
      assert u[0] == s[pos + 1 - d];
    }
  }

  lemma Chain(w: string, x: string, hp: string, hq: string, r: string, h: string)
    requires w + hq + r == h && x + hp == hq + r
    ensures w + x + hp == h
  {
    assert w + x + hp == w + (x + hp);
  }

  /** The rest of the target, from `q` on, read from index `k`: the match completes. */
  lemma {:induction false} ScanMatchesRest(input: string, k: nat, ph: Phase, q: nat)
    requires q < |Target(ph)| && k + |Target(ph)| - q <= |input|
    requires input[k..k + |Target(ph)| - q] == Target(ph)[q..]
    ensures Scan(input, k, ph, q) == AfterMatch(input, k + |Target(ph)| - q, ph)
    decreases |Target(ph)| - q
  {
    RestStep(input, k, Target(ph), q);
    if q + 1 < |Target(ph)| {
      ScanOnMatch(input, k, ph, q);
      ScanMatchesRest(input, k + 1, ph, q + 1);
    } else if ph.SeekOpen? {
      ScanAtFullOpen(input, k);
    } else {
      ScanAtFullClose(input, k);
    }
  }

  lemma RestStep(t: string, k: nat, s: string, q: nat)
    requires q < |s| && k + |s| - q <= |t| && t[k..k + |s| - q] == s[q..]
    ensures t[k] == s[q]
    ensures q + 1 < |s| ==> t[k + 1..k + |s| - q] == s[q + 1..]
  {
    assert t[k] == t[k..k + |s| - q][0];
    if q + 1 < |s| {
      assert t[k + 1..k + |s| - q] == t[k..k + |s| - q][1..];
      assert s[q..][1..] == s[q + 1..];
    }
  }

  lemma OccursAtParts(s: string, t: string, k: nat)
    requires 0 < |s| && OccursAt(s, t, k)
    ensures k < |t| && t[k] == s[0]
    ensures t[k + 1..k + 1 + |s| - 1] == s[1..]
    ensures t[k..k + |s| - 0] == s[0..]
  {
    assert t[k] == t[k..k + |s|][0];
    assert t[k + 1..k + |s|] == t[k..k + |s|][1..];
  }

  /**
    An occurrence of the target at index `k` is found whatever prefix `Target(ph)[..p]` is
    held back when it starts: the held-back characters are written and the match completes.
  */
  lemma ScanFindsTarget(input: string, k: nat, ph: Phase, p: nat)
    requires p < |Target(ph)| && OccursAt(Target(ph), input, k)
    ensures Scan(input, k, ph, p) == Prepend(Target(ph)[..p], AfterMatch(input, k + |Target(ph)|, ph))
  {
    OccursAtParts(Target(ph), input, k);
    if p == 0 {
      ScanMatchesRest(input, k, ph, 0);
      EmptyPrepend(AfterMatch(input, k + |Target(ph)|, ph));
    } else {
      LtOnlyAtStart(ph, p);
      ScanOnRestart(input, k, ph, p);
      ScanMatchesRest(input, k + 1, ph, 1);
    }
  }

  lemma EmptyPrepend(r: Scanned)
    ensures Prepend([], r) == r
  {
    assert [] + r.emitted == r.emitted;
  }

  /**
    Scanning from index `i` to the first occurrence of the target at index `j` writes exactly
    `input[i..j]` and then continues as after a completed match.
  */
  lemma ScanToFirst(input: string, i: nat, j: nat, ph: Phase)
    requires i <= j && OccursAt(Target(ph), input, j)
    requires !Occurs(Target(ph), input[i..j])
    ensures Scan(input, i, ph, 0) == Prepend(input[i..j], AfterMatch(input, j + |Target(ph)|, ph))
  {
    EmptyHead(Target(ph), input[i..j]);
    var x, p := ScanPassesOver(input, i, j, ph, 0);
    ScanFindsTarget(input, j, ph, p);
    PrependTwice(x, Target(ph)[..p], AfterMatch(input, j + |Target(ph)|, ph));
  }

  lemma EmptyHead(s: string, t: string)
    ensures s[..0] + t == t
  {
  }

  /** Scanning to the end of input without meeting the target: all but a held-back prefix is written. */
  lemma ScanToEnd(input: string, i: nat, ph: Phase) returns (p: nat)
    requires i <= |input| && !Occurs(Target(ph), input[i..])
    ensures p < |Target(ph)| && p <= |input| - i
    ensures input[|input| - p..] == Target(ph)[..p]
    ensures forall q :: p < q < |Target(ph)| && q <= |input| - i ==> input[|input| - q..] != Target(ph)[..q]
    ensures Scan(input, i, ph, 0) == Scanned(input[i..|input| - p], |input|, ph.SeekOpen?)
  {
    var h := input[i..|input|];
    assert input[i..] == h;
    EmptyHead(Target(ph), h);
    var x;
    x, p := ScanPassesOver(input, i, |input|, ph, 0);
    ScanAtEnd(input, ph, p);
    SplitWritten(input, i, x, Target(ph)[..p]);
    assert NoLongerHeld(h, p, Target(ph));
    HeldAtEnd(input, i, p, Target(ph));
  }

  /** `NoLongerHeld` of the text from `i` to the end, in terms of the ends of `input` itself. */
  lemma HeldAtEnd(input: string, i: nat, p: nat, s: string)
    requires i <= |input| && NoLongerHeld(input[i..|input|], p, s)
    ensures forall q :: p < q < |s| && q <= |input| - i ==> input[|input| - q..] != s[..q]
  {
    forall q | p < q < |s| && q <= |input| - i
      ensures input[|input| - q..] != s[..q]
    {
      SuffixOfSuffix(input, i, q);
    }
  }

  lemma SuffixOfSuffix(input: string, i: nat, q: nat)
    requires i <= |input| && q <= |input| - i
    ensures input[i..|input|][|input| - i - q..] == input[|input| - q..]
  {
  }

  lemma SplitWritten(input: string, i: nat, x: string, h: string)
    requires i <= |input| && x + h == input[i..|input|]
    ensures |h| <= |input| - i && input[|input| - |h|..] == h
    ensures Prepend(x, Scanned([], |input|, true)).emitted == input[i..|input| - |h|]
    ensures x == input[i..|input| - |h|]
  {
    assert x == (x + h)[..|x|];
    assert h == (x + h)[|x|..];
  }

  /**
    The scanner's reading of `input` from index `k` on does not depend on what precedes `k`:
    it is the reading of `input[k..]`, with stop indices shifted by `k`.
  */
  lemma {:induction false} ScanSuffix(input: string, k: nat, i: nat, ph: Phase, pos: nat)
    requires k <= i <= |input| && pos < |Target(ph)|
    ensures Scan(input, i, ph, pos).emitted == Scan(input[k..], i - k, ph, pos).emitted
    ensures Scan(input, i, ph, pos).stop == Scan(input[k..], i - k, ph, pos).stop + k
    ensures Scan(input, i, ph, pos).needsStartTag == Scan(input[k..], i - k, ph, pos).needsStartTag
    decreases |input| - i, 1
  {
    var s := Target(ph);
    if i < |input| {
      assert input[k..][i - k] == input[i];
      var c := input[i];
      if c == s[pos] {
        if pos + 1 < |s| {
          ScanSuffix(input, k, i + 1, ph, pos + 1);
        } else if ph.SeekOpen? {
          AfterOpenSuffix(input, k, i + 1);
        }
      } else if c == s[0] {
        ScanSuffix(input, k, i + 1, ph, 1);
      } else {
        ScanSuffix(input, k, i + 1, ph, 0);
      }
    }
  }

  lemma {:induction false} AfterOpenSuffix(input: string, k: nat, i: nat)
    requires k <= i <= |input|
    ensures AfterOpenTag(input, i).emitted == AfterOpenTag(input[k..], i - k).emitted
    ensures AfterOpenTag(input, i).stop == AfterOpenTag(input[k..], i - k).stop + k
    ensures AfterOpenTag(input, i).needsStartTag == AfterOpenTag(input[k..], i - k).needsStartTag
    decreases |input| - i, 0
  {
    if i < |input| {
      assert input[k..][i - k] == input[i];
      if input[i] == '>' {
        ScanSuffix(input, k, i + 1, SeekClose, 0);
      } else if input[i] == '/' {
        if i + 1 < |input| {
          assert input[k..][i + 1 - k] == input[i + 1];
          if input[i + 1] != '>' {
            ScanSuffix(input, k, i + 2, SeekOpen, 0);
          }
        }
      } else {
        ScanSuffix(input, k, i + 1, SeekOpen, 0);
      }
    }
  }

  // ---------------------------------------------------------------------------------------
  // Whole templates

  /** `Splice` once the scanner's result on the template is known. */
  lemma SpliceIs(input: string, chunks: seq<string>, r: Scanned)
    requires Scan(input, 0, SeekOpen, 0) == r
    ensures r.stop <= |input|
    ensures Splice(input, chunks)
         == r.emitted + (if r.needsStartTag then StartTag else "") + Concat(chunks) + CloseTag + input[r.stop..]
  {
  }

  /** Where the pieces of `pre + tag + mid + post` lie. */
  lemma Layout(input: string, pre: string, tag: string, mid: string, post: string)
    requires input == pre + tag + mid + post
    ensures StartsWith(input, pre + tag)
    ensures input[|pre| + |tag|..|pre| + |tag| + |mid|] == mid
    ensures input[|pre| + |tag| + |mid|..] == post
  {
    assert input[..|pre| + |tag|] == pre + tag;
  }

  /** A suffix of a suffix. */
  lemma DropMore(input: string, k: nat, post: string, t: nat)
    requires k <= |input| && input[k..] == post && t <= |post|
    ensures input[k + t..] == post[t..]
  {
  }

  /** The first `<sheetData` of `input` starts at index `|pre|`. */
  lemma OpenTagFirstAt(pre: string, input: string)
    requires StartsWith(input, pre + OpenTag) && !Occurs(OpenTag, pre)
    ensures Scan(input, 0, SeekOpen, 0) == Prepend(pre, AfterOpenTag(input, |pre| + |OpenTag|))
  {
    FirstAt(pre, OpenTag, input);
    ScanToFirst(input, 0, |pre|, SeekOpen);
  }

  lemma FirstAt(pre: string, tag: string, input: string)
    requires StartsWith(input, pre + tag)
    ensures input[0..|pre|] == pre && OccursAt(tag, input, |pre|)
  {
    assert input[0..|pre|] == (pre + tag)[..|pre|];
    assert input[|pre|..|pre| + |tag|] == (pre + tag)[|pre|..];
  }

  /**
    Self-closing placeholder: the text before the first `<sheetData`, a synthesized
    `<sheetData>\n`, the chunks, one `</sheetData>` and the text after `/>`.
  */
  lemma SpliceSelfClosing(pre: string, post: string, chunks: seq<string>)
    requires !Occurs(OpenTag, pre)
    ensures Splice(pre + OpenTag + "/>" + post, chunks) == pre + StartTag + Concat(chunks) + CloseTag + post
  {
    var input := pre + OpenTag + "/>" + post;
    var m := |pre| + |OpenTag|;
    Layout(input, pre, OpenTag, "/>", post);
    OpenTagFirstAt(pre, input);
    assert input[m] == '/' && input[m + 1] == '>';
    SpliceIs(input, chunks, Scanned(pre, m + 2, true));
  }

  /** Where the pieces of `pre + open + ">" + inner + close + post` lie. */
  lemma PairedLayout(input: string, pre: string, open: string, inner: string, close: string, post: string)
    requires input == pre + open + ">" + inner + close + post
    ensures StartsWith(input, pre + open)
    ensures input[|pre| + |open|] == '>'
    ensures input[|pre| + |open| + 1..|pre| + |open| + 1 + |inner|] == inner
    ensures OccursAt(close, input, |pre| + |open| + 1 + |inner|)
    ensures input[|pre| + |open| + 1 + |inner| + |close|..] == post
  {
    assert input[..|pre| + |open|] == pre + open;
  }

  /**
    Paired placeholder: the prefix, the template's own `<sheetData>` and inner text verbatim,
    the chunks, then a single `</sheetData>` (the template's own is swallowed) and the rest.
  */
  lemma SplicePaired(pre: string, inner: string, post: string, chunks: seq<string>)
    requires !Occurs(OpenTag, pre) && !Occurs(CloseTag, inner)
    ensures Splice(pre + OpenTag + ">" + inner + CloseTag + post, chunks)
         == pre + OpenTag + ">" + inner + Concat(chunks) + CloseTag + post
  {
    var input := pre + OpenTag + ">" + inner + CloseTag + post;
    var m := |pre| + |OpenTag|;
    var j := m + 1 + |inner|;
    PairedLayout(input, pre, OpenTag, inner, CloseTag, post);
    OpenTagFirstAt(pre, input);
    AfterOpenGt(input, m);
    ScanToFirst(input, m + 1, j, SeekClose);
    var done := Scanned([], j + |CloseTag|, false);
    PrependTwice(pre, OpenTag + ">", Prepend(inner, done));
    PrependTwice(pre + (OpenTag + ">"), inner, done);
    SpliceIs(input, chunks, Prepend(pre + (OpenTag + ">") + inner, done));
    assert (pre + (OpenTag + ">") + inner + []) + "" == pre + (OpenTag + ">") + inner;
    Assoc(pre, OpenTag, ">");
  }

  /** If the target occurs in `t`, `t` has a `<`. */
  lemma TagHasLt(t: string, ph: Phase)
    ensures Occurs(Target(ph), t) ==> exists k | 0 <= k < |t| :: t[k] == '<'
  {
    if Occurs(Target(ph), t) {
      var j: nat :| j <= |t| && OccursAt(Target(ph), t, j);
      OccursAtParts(Target(ph), t, j);
    }
  }

  /** A template containing no `<` at all is copied whole, followed by the synthesized element. */
  lemma SpliceWithoutLt(input: string, chunks: seq<string>)
    requires forall k | 0 <= k < |input| :: input[k] != '<'
    ensures Splice(input, chunks) == input + StartTag + Concat(chunks) + CloseTag
  {
    TagHasLt(input, SeekOpen);
    var p := SpliceWithoutOpenTag(input, chunks);
    if p > 0 {
      assert false;
    }
    assert input[..|input| - 0] == input;
  }

  /**
    A template with no `<sheetData` at all loses its trailing partial match of it (the returned
    `p` characters, the longest end of the template that begins `<sheetData`) and gets the
    synthesized element.
  */
  lemma SpliceWithoutOpenTag(input: string, chunks: seq<string>) returns (p: nat)
    requires !Occurs(OpenTag, input)
    ensures p < |OpenTag| && p <= |input| && input[|input| - p..] == OpenTag[..p]
    ensures forall q :: p < q < |OpenTag| && q <= |input| ==> input[|input| - q..] != OpenTag[..q]
    ensures Splice(input, chunks) == input[..|input| - p] + StartTag + Concat(chunks) + CloseTag
  {
    assert input[0..] == input;
    p := ScanToEnd(input, 0, SeekOpen);
    assert input[0..|input| - p] == input[..|input| - p];
    SpliceIs(input, chunks, Scanned(input[..|input| - p], |input|, true));
    assert input[|input|..] == [];
  }

  /** End of input inside `<sheetData`: the partial tag is dropped and the element synthesized. */
  lemma SpliceEofInPartialOpenTag(pre: string, k: nat, chunks: seq<string>)
    requires 0 < k < |OpenTag| && !Occurs(OpenTag, pre)
    ensures Splice(pre + OpenTag[..k], chunks) == pre + StartTag + Concat(chunks) + CloseTag
  {
    var input := pre + OpenTag[..k];
    PartialLayout(input, pre, OpenTag, k);
    EmptyHead(OpenTag, pre);
    var x, p := ScanPassesOver(input, 0, |pre|, SeekOpen, 0);
    var q: nat;
    if p == 0 {
      q := 0;
    } else {
      LtOnlyAtStart(SeekOpen, p);
      ScanOnRestart(input, |pre|, SeekOpen, p);
      q := 1;
      PrependTwice(x, OpenTag[..p], Scan(input, |pre| + 1, SeekOpen, 1));
    }
    EofInMatch(input, |pre| + q, q, k);
    assert Scan(input, |pre| + q, SeekOpen, q) == Scanned([], |input|, true);
    SpliceIs(input, chunks, Scanned(pre, |input|, true));
  }

  /**
    End of input inside `</sheetData>` after the template's own `<sheetData>`: the held part
    of the closing tag is dropped, and the chunks and one `</sheetData>` follow the inner text.
  */
  lemma SpliceEofInPartialCloseTag(pre: string, inner: string, k: nat, chunks: seq<string>)
    requires !Occurs(OpenTag, pre) && !Occurs(CloseTag, inner) && 0 < k < |CloseTag|
    ensures Splice(pre + OpenTag + ">" + inner + CloseTag[..k], chunks)
         == pre + OpenTag + ">" + inner + Concat(chunks) + CloseTag
  {
    var input := pre + OpenTag + ">" + inner + CloseTag[..k];
    PartialCloseScan(pre, inner, k);
    SpliceIs(input, chunks, Scanned(pre + (OpenTag + ">") + inner, |input|, false));
    assert input[|input|..] == [];
    Assoc(pre, OpenTag, ">");
  }

  lemma PartialCloseScan(pre: string, inner: string, k: nat)
    requires !Occurs(OpenTag, pre) && !Occurs(CloseTag, inner) && 0 < k < |CloseTag|
    ensures var input := pre + OpenTag + ">" + inner + CloseTag[..k];
      Scan(input, 0, SeekOpen, 0) == Scanned(pre + (OpenTag + ">") + inner, |input|, false)
  {
    var rest := inner + CloseTag[..k];
    var input := pre + OpenTag + ">" + rest;
    assert input == pre + OpenTag + ">" + inner + CloseTag[..k];
    var m := |pre| + |OpenTag|;
    Layout(input, pre, OpenTag, ">", rest);
    OpenTagFirstAt(pre, input);
    AfterOpenGt(input, m);
    HeldPartialClose(input, m + 1, inner, k);
    PrependTwice(pre, OpenTag + ">", Scanned(inner, |input|, false));
  }

  /** Scanning `inner` and then part of `</sheetData>` to the end writes exactly `inner`. */
  lemma HeldPartialClose(input: string, i: nat, inner: string, k: nat)
    requires !Occurs(CloseTag, inner) && 0 < k < |CloseTag|
    requires i <= |input| && input[i..] == inner + CloseTag[..k]
    ensures Scan(input, i, SeekClose, 0) == Scanned(inner, |input|, false)
  {
    NoCloseInPartial(inner, k);
    assert |input| - i == |inner| + k;
    var p := ScanToEnd(input, i, SeekClose);
    assert input[|input| - k..] == CloseTag[..k];
    if k < p {
      LaterHeldDiffers(SeekClose, input, k, p);
    }
    assert input[i..|input| - k] == inner;
  }

  /** A template's inner text with no `</sheetData>`, followed by part of one, has none. */
  lemma NoCloseInPartial(inner: string, k: nat)
    requires !Occurs(CloseTag, inner) && 0 < k < |CloseTag|
    ensures !Occurs(CloseTag, inner + CloseTag[..k])
  {
    var t := inner + CloseTag[..k];
    forall j: nat | j <= |t|
      ensures !OccursAt(CloseTag, t, j)
    {
      if j + |CloseTag| <= |inner| {
        assert t[j..j + |CloseTag|] == inner[j..j + |CloseTag|];
        assert !OccursAt(CloseTag, inner, j);
      } else if j + |CloseTag| <= |t| {
        LtOnlyAtStart(SeekClose, |inner| - j);
        assert t[|inner|] == '<';
        assert t[j..j + |CloseTag|][|inner| - j] == t[|inner|];
      }
    }
  }

  /** Two different partial matches cannot both end the same text: each would start with the only `<`. */
  lemma LaterHeldDiffers(ph: Phase, t: string, a: nat, b: nat)
    requires 0 < a < b < |Target(ph)| && b <= |t|
    ensures t[|t| - a..] == Target(ph)[..a] ==> t[|t| - b..] != Target(ph)[..b]
  {
    LtOnlyAtStart(ph, b - a);
    assert t[|t| - b..][b - a] == t[|t| - a..][0];
  }

  lemma PartialLayout(input: string, pre: string, tag: string, k: nat)
    requires k <= |tag| && input == pre + tag[..k]
    ensures input[0..|pre|] == pre && input[|pre|..] == tag[..k] && |input| == |pre| + k
    ensures input[|input|..] == []
  {
  }

  lemma {:induction false} EofInMatch(input: string, i: nat, q: nat, k: nat)
    requires q <= k < |OpenTag| && i + k - q == |input|
    requires input[i..] == OpenTag[..k][q..]
    ensures Scan(input, i, SeekOpen, q) == Scanned([], |input|, true)
    decreases k - q
  {
    if q < k {
      assert input[i] == input[i..][0];
      assert input[i + 1..] == input[i..][1..];
      assert OpenTag[..k][q..][1..] == OpenTag[..k][q + 1..];
      ScanOnMatch(input, i, SeekOpen, q);
      EofInMatch(input, i + 1, q + 1, k);
    } else {
      ScanAtEnd(input, SeekOpen, q);
    }
  }

  /** End of input right after `<sheetData`: the literal is written and the element still synthesized. */
  lemma SpliceEofAfterOpenTag(pre: string, chunks: seq<string>)
    requires !Occurs(OpenTag, pre)
    ensures Splice(pre + OpenTag, chunks) == pre + OpenTag + StartTag + Concat(chunks) + CloseTag
  {
    var input := pre + OpenTag;
    Layout(input, pre, OpenTag, [], []);
    OpenTagFirstAt(pre, input);
    SpliceIs(input, chunks, Scanned(pre + OpenTag, |input|, true));
    assert input[|input|..] == [];
  }

  /** End of input right after `<sheetData/`: the `/` is dropped. */
  lemma SpliceEofAfterSlash(pre: string, chunks: seq<string>)
    requires !Occurs(OpenTag, pre)
    ensures Splice(pre + OpenTag + "/", chunks) == pre + OpenTag + StartTag + Concat(chunks) + CloseTag
  {
    var input := pre + OpenTag + "/";
    Layout(input, pre, OpenTag, "/", []);
    OpenTagFirstAt(pre, input);
    assert input[|pre| + |OpenTag|] == '/';
    SpliceIs(input, chunks, Scanned(pre + OpenTag, |input|, true));
    assert input[|input|..] == [];
  }

  /**
    `<sheetData` followed by a character that is neither `>` nor `/`: it is written with a `/`
    between them that the template does not have, and scanning starts afresh after that
    character (which is not itself tested as the start of a new tag).
  */
  lemma SpliceRejectedOpenTag(pre: string, c: char, post: string, chunks: seq<string>)
    requires !Occurs(OpenTag, pre) && c != '>' && c != '/'
    ensures Splice(pre + OpenTag + [c] + post, chunks) == pre + OpenTag + "/" + [c] + Splice(post, chunks)
  {
    var input := pre + OpenTag + [c] + post;
    var m := |pre| + |OpenTag|;
    Layout(input, pre, OpenTag, [c], post);
    OpenTagFirstAt(pre, input);
    AfterOpenOther(input, m);
    ScanSuffix(input, m + 1, m + 1, SeekOpen, 0);
    var r := Scan(post, 0, SeekOpen, 0);
    var w := pre + (OpenTag + "/" + [c]);
    PrependTwice(pre, OpenTag + "/" + [c], Scan(input, m + 1, SeekOpen, 0));
    SpliceIs(input, chunks, Scanned(w + r.emitted, m + 1 + r.stop, r.needsStartTag));
    SpliceIs(post, chunks, r);
    DropMore(input, m + 1, post, r.stop);
    Assoc5(w, r.emitted, if r.needsStartTag then StartTag else "", Concat(chunks), CloseTag, post[r.stop..]);
    assert w == pre + OpenTag + "/" + [c];
  }

  /** `<sheetData/` followed by a character other than `>`: written as read, scanning starts afresh. */
  lemma SpliceRejectedSelfClose(pre: string, c: char, post: string, chunks: seq<string>)
    requires !Occurs(OpenTag, pre) && c != '>'
    ensures Splice(pre + OpenTag + ['/', c] + post, chunks) == pre + OpenTag + "/" + [c] + Splice(post, chunks)
  {
    var input := pre + OpenTag + ['/', c] + post;
    var m := |pre| + |OpenTag|;
    Layout(input, pre, OpenTag, ['/', c], post);
    OpenTagFirstAt(pre, input);
    assert input[m] == '/' && input[m + 1] == c;
    AfterOpenSlash(input, m);
    ScanSuffix(input, m + 2, m + 2, SeekOpen, 0);
    var r := Scan(post, 0, SeekOpen, 0);
    var w := pre + (OpenTag + "/" + [c]);
    PrependTwice(pre, OpenTag + "/" + [c], Scan(input, m + 2, SeekOpen, 0));
    SpliceIs(input, chunks, Scanned(w + r.emitted, m + 2 + r.stop, r.needsStartTag));
    SpliceIs(post, chunks, r);
    DropMore(input, m + 2, post, r.stop);
    Assoc5(w, r.emitted, if r.needsStartTag then StartTag else "", Concat(chunks), CloseTag, post[r.stop..]);
    assert w == pre + OpenTag + "/" + [c];
  }

  /** Once the scanner has passed a `<sheetData>`, that tag is in what it wrote. */
  lemma {:induction false} OpenedMeansWritten(input: string, i: nat, pos: nat)
    requires i <= |input| && pos < |OpenTag|
    ensures !Scan(input, i, SeekOpen, pos).needsStartTag ==> Occurs(OpenTag + ">", Scan(input, i, SeekOpen, pos).emitted)
    decreases |input| - i, 1
  {
    if i < |input| {
      var c := input[i];
      if c == OpenTag[pos] {
        if pos + 1 < |OpenTag| {
          OpenedMeansWritten(input, i + 1, pos + 1);
        } else {
          AfterOpenWritten(input, i + 1);
        }
      } else if c == OpenTag[0] {
        OpenedMeansWritten(input, i + 1, 1);
        if !Scan(input, i + 1, SeekOpen, 1).needsStartTag {
          OccursInSuffix(OpenTag + ">", OpenTag[..pos], Scan(input, i + 1, SeekOpen, 1).emitted);
        }
      } else {
        OpenedMeansWritten(input, i + 1, 0);
        if !Scan(input, i + 1, SeekOpen, 0).needsStartTag {
          OccursInSuffix(OpenTag + ">", OpenTag[..pos] + [c], Scan(input, i + 1, SeekOpen, 0).emitted);
        }
      }
    }
  }

  lemma {:induction false} AfterOpenWritten(input: string, i: nat)
    requires i <= |input|
    ensures !AfterOpenTag(input, i).needsStartTag ==> Occurs(OpenTag + ">", AfterOpenTag(input, i).emitted)
    decreases |input| - i, 0
  {
    if i < |input| {
      if input[i] == '>' {
        var rest := Scan(input, i + 1, SeekClose, 0).emitted;
        assert OccursAt(OpenTag + ">", OpenTag + ">" + rest, 0);
      } else if input[i] == '/' {
        if i + 1 < |input| && input[i + 1] != '>' {
          OpenedMeansWritten(input, i + 2, 0);
          if !Scan(input, i + 2, SeekOpen, 0).needsStartTag {
            OccursInSuffix(OpenTag + ">", OpenTag + "/" + [input[i + 1]], Scan(input, i + 2, SeekOpen, 0).emitted);
          }
        }
      } else {
        OpenedMeansWritten(input, i + 1, 0);
        if !Scan(input, i + 1, SeekOpen, 0).needsStartTag {
          OccursInSuffix(OpenTag + ">", OpenTag + "/" + [input[i]], Scan(input, i + 1, SeekOpen, 0).emitted);
        }
      }
    }
  }

  /**
    On every input the chunks are written verbatim and in order, after a head that holds a
    `<sheetData>` and before exactly one `</sheetData>`; head and tail do not depend on the
    chunks, and the tail is a suffix of the template.
  */
  lemma SpliceFrame(input: string, chunks: seq<string>) returns (head: string, tail: string)
    ensures Splice(input, chunks) == head + Concat(chunks) + CloseTag + tail
    ensures forall other: seq<string> :: Splice(input, other) == head + Concat(other) + CloseTag + tail
    ensures Occurs(OpenTag + ">", head)
    ensures |tail| <= |input| && tail == input[|input| - |tail|..]
  {
    var r := Scan(input, 0, SeekOpen, 0);
    head := r.emitted + (if r.needsStartTag then StartTag else "");
    tail := input[r.stop..];
    if r.needsStartTag {
      assert OccursAt(OpenTag + ">", StartTag, 0);
      OccursInSuffix(OpenTag + ">", r.emitted, StartTag);
    } else {
      OpenedMeansWritten(input, 0, 0);
      assert head == r.emitted;
    }
  }
}
