/** Sentence splitting: `split_at_punctuation` of modules/transcriber.py.
    A segment whose text holds a `.`, `!` or `?` is cut after every such
    mark (any text after the last mark stays on the last piece), and the
    segment's time span is shared out among the pieces in proportion to
    their lengths, each piece starting where the previous one ended. */
module SentenceSplitter {
  import opened Types
  import opened Text

  /** Strings concatenated in order. */
  function Concat(ss: seq<string>): string {
    if ss == [] then [] else Concat(ss[..|ss| - 1]) + ss[|ss| - 1]
  }

  /** `sum(len(s) for s in sentences)`. */
  function TotalLength(ss: seq<string>): nat {
    if ss == [] then 0 else TotalLength(ss[..|ss| - 1]) + |ss[|ss| - 1]|
  }

  /** The total length is the length of the concatenation. */
  lemma {:induction false} TotalLengthIsConcatLength(ss: seq<string>)
    ensures TotalLength(ss) == |Concat(ss)|
  {
    if ss != [] {
      TotalLengthIsConcatLength(ss[..|ss| - 1]);
    }
  }

  lemma ConcatSnoc(ss: seq<string>, s: string)
    ensures Concat(ss + [s]) == Concat(ss) + s
    ensures TotalLength(ss + [s]) == TotalLength(ss) + |s|
  {
    assert (ss + [s])[..|ss|] == ss;
  }

  /** Lengths add up across a concatenation of lists. */
  lemma {:induction false} TotalLengthAppend(a: seq<string>, b: seq<string>)
    ensures TotalLength(a + b) == TotalLength(a) + TotalLength(b)
    decreases |b|
  {
    if b == [] {
      assert a + b == a;
    } else {
      var b' := b[..|b| - 1];
      assert a + b == (a + b') + [b[|b| - 1]];
      ConcatSnoc(a + b', b[|b| - 1]);
      TotalLengthAppend(a, b');
    }
  }

  lemma CountMarksSnoc(s: string, c: char)
    ensures CountMarks(s + [c]) == CountMarks(s) + (if IsMark(c) then 1 else 0)
  {
    assert (s + [c])[..|s|] == s;
  }

  /** A piece that ends at its one and only mark. */
  predicate EndsAtMark(p: string) {
    p != [] && IsMark(p[|p| - 1]) && CountMarks(p) == 1
  }

  /** The text cut after every mark; the last element is what follows the
      last mark, possibly empty. This is `re.split(r'([.!?])', text)` with
      each mark glued to the text before it. */
  function CutAfterMarks(s: string): (r: seq<string>)
    ensures |r| == CountMarks(s) + 1
  {
    if s == [] then [""]
    else
      var r := CutAfterMarks(s[..|s| - 1]);
      var c := s[|s| - 1];
      if IsMark(c) then r[..|r| - 1] + [r[|r| - 1] + [c], ""]
      else r[..|r| - 1] + [r[|r| - 1] + [c]]
  }

  /** The cut pieces put back together are the text. */
  lemma {:induction false} CutAfterMarksConcat(s: string)
    ensures Concat(CutAfterMarks(s)) == s
  {
    if s == [] {
      assert Concat([""]) == Concat([]) + "";
    } else {
      var init, c := s[..|s| - 1], s[|s| - 1];
      CutAfterMarksConcat(init);
      var r' := CutAfterMarks(init);
      var front, last := r'[..|r'| - 1], r'[|r'| - 1];
      TakeSnoc(r', |r'| - 1);
      TakeAll(r');
      ConcatSnoc(front, last);
      ConcatSnoc(front, last + [c]);
      AppendAssoc(Concat(front), last, [c]);
      TakeSnoc(s, |s| - 1);
      TakeAll(s);
      if IsMark(c) {
        ConcatSnoc(front + [last + [c]], "");
        AppendAssoc(front, [last + [c]], [""]);
        assert [last + [c], ""] == [last + [c]] + [""];
      }
    }
  }

  /** Every cut piece but the last ends at its only mark, and the last
      holds no mark. */
  lemma {:induction false} CutAfterMarksPieces(s: string)
    ensures var r := CutAfterMarks(s);
      (forall j :: 0 <= j < |r| - 1 ==> EndsAtMark(r[j]))
      && CountMarks(r[|r| - 1]) == 0
  {
    if s != [] {
      var init, c := s[..|s| - 1], s[|s| - 1];
      CutAfterMarksPieces(init);
      CutStep(CutAfterMarks(init), c, CutAfterMarks(s));
    }
  }

  /** One character more keeps the cut's shape. */
  lemma CutStep(r': seq<string>, c: char, r: seq<string>)
    requires |r'| > 0
    requires forall j :: 0 <= j < |r'| - 1 ==> EndsAtMark(r'[j])
    requires CountMarks(r'[|r'| - 1]) == 0
    requires r == if IsMark(c) then r'[..|r'| - 1] + [r'[|r'| - 1] + [c], ""]
                  else r'[..|r'| - 1] + [r'[|r'| - 1] + [c]]
    ensures (forall j :: 0 <= j < |r| - 1 ==> EndsAtMark(r[j])) && CountMarks(r[|r| - 1]) == 0
  {
    var last := r'[|r'| - 1];
    CountMarksSnoc(last, c);
    forall j | 0 <= j < |r| - 1 ensures EndsAtMark(r[j]) {
      if j < |r'| - 1 {
        assert r[j] == r'[j];
      } else {
        assert r[j] == last + [c];
      }
    }
  }

  /** The pieces `split_at_punctuation` times (lines 129-141): the cut
      pieces, with the text after the last mark appended to the last one. */
  function Sentences(s: string): (r: seq<string>)
    requires CountMarks(s) > 0
    ensures |r| == CountMarks(s)
  {
    var c := CutAfterMarks(s);
    var n := |c|;
    c[..n - 2] + [c[n - 2] + c[n - 1]]
  }

  /** Piece structure: the pieces concatenate back to the text exactly, so
      their lengths add up to the text's; every piece holds exactly one mark,
      and every piece but the last ends at it. */
  lemma SentencesShape(s: string)
    requires CountMarks(s) > 0
    ensures var r := Sentences(s);
      Concat(r) == s && TotalLength(r) == |s|
      && (forall j :: 0 <= j < |r| - 1 ==> EndsAtMark(r[j]))
      && (forall j :: 0 <= j < |r| ==> CountMarks(r[j]) == 1)
  {
    SentencesConcat(s);
    SentencesMarks(s);
  }

  lemma SentencesConcat(s: string)
    requires CountMarks(s) > 0
    ensures Concat(Sentences(s)) == s && TotalLength(Sentences(s)) == |s|
  {
    var c := CutAfterMarks(s);
    CutAfterMarksConcat(s);
    var n := |c|;
    var front, a, b := c[..n - 2], c[n - 2], c[n - 1];
    var r := Sentences(s);
    assert r == front + [a + b];
    TakeSnoc(c, n - 2);
    TakeSnoc(c, n - 1);
    TakeAll(c);
    ConcatSnoc(front + [a], b);
    ConcatSnoc(front, a);
    ConcatSnoc(front, a + b);
    AppendAssoc(Concat(front), a, b);
    TotalLengthIsConcatLength(r);
  }

  lemma SentencesMarks(s: string)
    requires CountMarks(s) > 0
    ensures var r := Sentences(s);
      (forall j :: 0 <= j < |r| - 1 ==> EndsAtMark(r[j]))
      && (forall j :: 0 <= j < |r| ==> CountMarks(r[j]) == 1)
  {
    var c := CutAfterMarks(s);
    CutAfterMarksPieces(s);
    var n := |c|;
    var r := Sentences(s);
    forall j | 0 <= j < n - 2 ensures EndsAtMark(r[j]) && CountMarks(r[j]) == 1 {
      assert r[j] == c[j];
    }
    assert r[n - 2] == c[n - 2] + c[n - 1];
    CountMarksAppend(c[n - 2], c[n - 1]);
  }

  /** No piece is blank, and the lengths add up to the text's. */
  lemma SentencesKept(s: string)
    requires CountMarks(s) > 0
    ensures var r := Sentences(s);
      TotalLength(r) == |s| && forall j :: 0 <= j < |r| ==> Strip(r[j]) != []
  {
    SentencesShape(s);
    var r := Sentences(s);
    forall j | 0 <= j < |r| ensures Strip(r[j]) != [] {
      MarkedNotBlank(r[j]);
    }
  }

  /** `split_at_punctuation`'s cut of one line's text (lines 129-141), as
      an explicit scan over the characters. */
  method SplitSentences(text: string) returns (sentences: seq<string>)
    requires CountMarks(text) > 0
    ensures sentences == Sentences(text)
  {
    var done: seq<string> := [];
    var current := "";
    for i := 0 to |text|
      invariant done + [current] == CutAfterMarks(text[..i])
    {
      TakeSnoc(text, i);
      var c := text[i];
      if IsMark(c) {
        done := done + [current + [c]];
        current := "";
      } else {
        current := current + [c];
      }
    }
    TakeAll(text);
    sentences := done[..|done| - 1] + [done[|done| - 1] + current];
  }

  /** `n * x`, as `n` copies of `x` added up. */
  function Scale(n: nat, x: real): real {
    if n == 0 then 0.0 else Scale(n - 1, x) + x
  }

  lemma {:induction false} ScaleIsProduct(n: nat, x: real)
    ensures Scale(n, x) == n as real * x
  {
    if n > 0 {
      ScaleIsProduct(n - 1, x);
    }
  }

  lemma {:induction false} ScaleAdd(a: nat, b: nat, x: real)
    ensures Scale(a + b, x) == Scale(a, x) + Scale(b, x)
    decreases b
  {
    if b > 0 {
      ScaleAdd(a, b - 1, x);
    }
  }

  lemma {:induction false} ScaleNonNegative(n: nat, x: real)
    requires x >= 0.0
    ensures Scale(n, x) >= 0.0
  {
    if n > 0 {
      ScaleNonNegative(n - 1, x);
    }
  }

  /** Spreading a span over `n` characters and adding the shares back up
      gives the span again. */
  lemma Proportion(n: nat, span: real)
    requires n > 0
    ensures n as real * (span / n as real) == span
  {
  }

  /** The pieces from index `i` on, timed from `t`: each lasts
      `len(piece) * perChar` and starts where the previous one ended; blank
      pieces are skipped without advancing the clock (lines 158-172). */
  function Distribute(pieces: seq<string>, i: nat, t: real, perChar: real): seq<Segment>
    requires i <= |pieces|
    decreases |pieces| - i
  {
    if i == |pieces| then []
    else if Strip(pieces[i]) == [] then Distribute(pieces, i + 1, t, perChar)
    else
      var e := t + Scale(|pieces[i]|, perChar);
      [Segment(Strip(pieces[i]), t, e)] + Distribute(pieces, i + 1, e, perChar)
  }

  /** With no blank piece, every piece yields one output. */
  lemma {:induction false} DistributeLength(pieces: seq<string>, i: nat, t: real, perChar: real)
    requires forall k :: 0 <= k < |pieces| ==> Strip(pieces[k]) != []
    requires i <= |pieces|
    ensures |Distribute(pieces, i, t, perChar)| == |pieces| - i
    decreases |pieces| - i
  {
    if i < |pieces| {
      DistributeHead(pieces, i, t, perChar);
      DistributeLength(pieces, i + 1, t + Scale(|pieces[i]|, perChar), perChar);
    }
  }

  /** The time the pieces from `i` up to `j` take at `perChar` per
      character. */
  function Elapsed(pieces: seq<string>, i: nat, j: nat, perChar: real): real
    requires i <= j <= |pieces|
    decreases j - i
  {
    if i == j then 0.0 else Scale(|pieces[i]|, perChar) + Elapsed(pieces, i + 1, j, perChar)
  }

  /** The time taken is proportional to the characters covered: the pieces
      before `i` and those from `i` to `j` together take as long as all the
      characters before `j`. */
  lemma {:induction false} ElapsedIsProportional(pieces: seq<string>, i: nat, j: nat, perChar: real)
    requires i <= j <= |pieces|
    ensures Scale(TotalLength(pieces[..i]), perChar) + Elapsed(pieces, i, j, perChar)
      == Scale(TotalLength(pieces[..j]), perChar)
    decreases j - i
  {
    if i < j {
      ElapsedIsProportional(pieces, i + 1, j, perChar);
      TakeSnoc(pieces, i);
      ConcatSnoc(pieces[..i], pieces[i]);
      ScaleAdd(TotalLength(pieces[..i]), |pieces[i]|, perChar);
    }
  }

  /** With no blank piece, the output for piece `j` carries it stripped,
      starts once the pieces before it have elapsed, and lasts its own
      length. */
  lemma {:induction false} DistributeAt(pieces: seq<string>, i: nat, t: real, perChar: real, j: nat)
    requires i <= j < |pieces|
    requires forall k :: i <= k <= j ==> Strip(pieces[k]) != []
    ensures var d, s := Distribute(pieces, i, t, perChar), t + Elapsed(pieces, i, j, perChar);
      j - i < |d| && d[j - i] == Segment(Strip(pieces[j]), s, s + Scale(|pieces[j]|, perChar))
    decreases j - i
  {
    var e := t + Scale(|pieces[i]|, perChar);
    DistributeHead(pieces, i, t, perChar);
    if i < j {
      DistributeAt(pieces, i + 1, e, perChar, j);
      ElapsedHead(pieces, i, j, perChar);
    }
  }

  lemma ElapsedHead(pieces: seq<string>, i: nat, j: nat, perChar: real)
    requires i < j <= |pieces|
    ensures Elapsed(pieces, i, j, perChar) == Scale(|pieces[i]|, perChar) + Elapsed(pieces, i + 1, j, perChar)
  {
  }

  /** A kept piece contributes its own output first. */
  lemma DistributeHead(pieces: seq<string>, i: nat, t: real, perChar: real)
    requires i < |pieces| && Strip(pieces[i]) != []
    ensures var e := t + Scale(|pieces[i]|, perChar);
      Distribute(pieces, i, t, perChar) == [Segment(Strip(pieces[i]), t, e)] + Distribute(pieces, i + 1, e, perChar)
  {
  }

  /** A blank piece contributes nothing and leaves the clock where it was. */
  lemma DistributeSkip(pieces: seq<string>, i: nat, t: real, perChar: real)
    requires i < |pieces| && Strip(pieces[i]) == []
    ensures Distribute(pieces, i, t, perChar) == Distribute(pieces, i + 1, t, perChar)
  {
  }

  /** What `split_at_punctuation` makes of one segment (lines 121-172):
      the segment itself when its text has no mark, otherwise its pieces
      timed across its span. */
  function Refine(seg: Segment): seq<Segment> {
    if !HasMark(seg.text) then [seg]
    else
      CountMarksPositiveIffHasMark(seg.text);
      var sentences := Sentences(seg.text);
      var totalChars := TotalLength(sentences);
      if totalChars == 0 then [seg]
      else Distribute(sentences, 0, seg.start, (seg.end - seg.start) / totalChars as real)
  }

  /** The output of `split_at_punctuation`: each segment refined in turn. */
  function RefineAll(segs: seq<Segment>): seq<Segment> {
    if segs == [] then [] else RefineAll(segs[..|segs| - 1]) + Refine(segs[|segs| - 1])
  }

  /** The time per character of a segment's span. */
  function TimePerChar(seg: Segment): real
    requires seg.text != []
  {
    (seg.end - seg.start) / |seg.text| as real
  }

  /** The shares of all the characters add up to the whole span. */
  lemma ScaleSpan(seg: Segment)
    requires seg.text != []
    ensures Scale(|seg.text|, TimePerChar(seg)) == seg.end - seg.start
  {
    ScaleIsProduct(|seg.text|, TimePerChar(seg));
    Proportion(|seg.text|, seg.end - seg.start);
  }

  /** A segment that does not run backwards has a non-negative time per
      character. */
  lemma TimePerCharNonNegative(seg: Segment)
    requires seg.text != [] && seg.start <= seg.end
    ensures TimePerChar(seg) >= 0.0
  {
  }

  /** Output `j` of a segment with marks: piece `j` stripped, starting
      once the characters before it have elapsed and lasting its own
      length. */
  lemma RefineAt(seg: Segment, j: nat)
    requires j < CountMarks(seg.text)
    ensures HasMark(seg.text) && seg.text != []
    ensures var r, s, perChar := Refine(seg), Sentences(seg.text), TimePerChar(seg);
      |r| == |s| && j < |s|
      && r[j].text == Strip(s[j])
      && r[j].start == seg.start + Scale(TotalLength(s[..j]), perChar)
      && r[j].end == r[j].start + Scale(|s[j]|, perChar)
  {
    RefineDistributes(seg);
    var s, perChar := Sentences(seg.text), TimePerChar(seg);
    DistributeLength(s, 0, seg.start, perChar);
    DistributeAt(s, 0, seg.start, perChar, j);
    ElapsedIsProportional(s, 0, j, perChar);
    assert s[..0] == [];
  }

  /** With a mark in the text, the output is the distribution of its
      pieces, none of them blank, at the segment's time per character. */
  lemma RefineDistributes(seg: Segment)
    requires CountMarks(seg.text) > 0
    ensures HasMark(seg.text) && seg.text != []
    ensures var s := Sentences(seg.text);
      (forall k :: 0 <= k < |s| ==> Strip(s[k]) != [])
      && Refine(seg) == Distribute(s, 0, seg.start, TimePerChar(seg))
  {
    CountMarksPositiveIffHasMark(seg.text);
    SentencesKept(seg.text);
  }

  /** Pass-through, piece structure and time distribution for one segment.
      Without a mark the very segment is returned. With marks there is one
      output per mark; output `j` carries piece `j` stripped; the first
      starts at the segment's start, each later one where the one before
      ended, and the last ends exactly at the segment's end; each lasts
      `len(piece)` times the time per character `(end - start) / len(text)`,
      and none runs backwards when the segment does not. */
  lemma RefineSpec(seg: Segment)
    ensures !HasMark(seg.text) ==> Refine(seg) == [seg]
    ensures HasMark(seg.text) ==>
      CountMarks(seg.text) > 0 && seg.text != [] &&
      var r, s, perChar := Refine(seg), Sentences(seg.text), TimePerChar(seg);
      |r| == |s| == CountMarks(seg.text)
      && r[0].start == seg.start
      && r[|r| - 1].end == seg.end
      && (forall j :: 0 <= j < |r| ==> r[j].text == Strip(s[j]))
      && (forall j :: 0 <= j < |r| - 1 ==> r[j].end == r[j + 1].start)
      && (forall j :: 0 <= j < |r| ==> r[j].end - r[j].start == Scale(|s[j]|, perChar))
      && (seg.start <= seg.end ==> forall j :: 0 <= j < |r| ==> r[j].start <= r[j].end)
  {
    if HasMark(seg.text) {
      CountMarksPositiveIffHasMark(seg.text);
      RefineAt(seg, 0);
      RefinePieces(seg);
      RefineChained(seg);
      RefineCovers(seg);
    }
  }

  /** Each output of a segment with marks carries its piece stripped and
      lasts its piece's share of the span. */
  lemma RefinePieces(seg: Segment)
    requires CountMarks(seg.text) > 0
    ensures seg.text != []
    ensures var r, s, perChar := Refine(seg), Sentences(seg.text), TimePerChar(seg);
      |r| == |s|
      && (forall j :: 0 <= j < |r| ==> r[j].text == Strip(s[j]))
      && (forall j :: 0 <= j < |r| ==> r[j].end - r[j].start == Scale(|s[j]|, perChar))
      && (seg.start <= seg.end ==> forall j :: 0 <= j < |r| ==> r[j].start <= r[j].end)
  {
    RefineAt(seg, 0);
    var s, r, perChar := Sentences(seg.text), Refine(seg), TimePerChar(seg);
    forall j | 0 <= j < |s|
      ensures r[j].text == Strip(s[j])
      ensures r[j].end - r[j].start == Scale(|s[j]|, perChar)
      ensures seg.start <= seg.end ==> r[j].start <= r[j].end
    {
      RefineAt(seg, j);
      if seg.start <= seg.end {
        TimePerCharNonNegative(seg);
        ScaleNonNegative(|s[j]|, perChar);
      }
    }
  }

  /** Each output of a segment with marks starts where the one before it
      ended. */
  lemma RefineChained(seg: Segment)
    requires CountMarks(seg.text) > 0
    ensures var r := Refine(seg);
      forall j :: 0 <= j < |r| - 1 ==> r[j].end == r[j + 1].start
  {
    RefineAt(seg, 0);
    var s, r, perChar := Sentences(seg.text), Refine(seg), TimePerChar(seg);
    forall j | 0 <= j < |r| - 1 ensures r[j].end == r[j + 1].start {
      RefineAt(seg, j);
      RefineAt(seg, j + 1);
      TakeSnoc(s, j);
      ConcatSnoc(s[..j], s[j]);
      ScaleAdd(TotalLength(s[..j]), |s[j]|, perChar);
    }
  }

  /** The outputs of a segment with marks begin at its start and finish at
      its end. */
  lemma RefineCovers(seg: Segment)
    requires CountMarks(seg.text) > 0
    ensures var r := Refine(seg);
      |r| == CountMarks(seg.text) && r[0].start == seg.start && r[|r| - 1].end == seg.end
  {
    RefineStarts(seg);
    RefineEnds(seg);
  }

  /** The first output starts where the segment starts. */
  lemma RefineStarts(seg: Segment)
    requires CountMarks(seg.text) > 0
    ensures var r := Refine(seg);
      |r| == CountMarks(seg.text) && r[0].start == seg.start
  {
    RefineAt(seg, 0);
    var s := Sentences(seg.text);
    assert s[..0] == [];
  }

  /** The last output ends where the segment ends. */
  lemma RefineEnds(seg: Segment)
    requires CountMarks(seg.text) > 0
    ensures var r := Refine(seg);
      |r| > 0 && r[|r| - 1].end == seg.end
  {
    var s, r, perChar := Sentences(seg.text), Refine(seg), TimePerChar(seg);
    var n := CountMarks(seg.text);
    RefineAt(seg, n - 1);
    assert r[n - 1].end
      == seg.start + Scale(TotalLength(s[..n - 1]), perChar) + Scale(|s[n - 1]|, perChar);
    SentencesKept(seg.text);
    ScaleLast(s, perChar);
    ScaleSpan(seg);
  }

  /** The shares of all pieces are those of the pieces before the last, plus
      the last piece's share. */
  lemma ScaleLast(pieces: seq<string>, perChar: real)
    requires pieces != []
    ensures var n := |pieces|;
      Scale(TotalLength(pieces[..n - 1]), perChar) + Scale(|pieces[n - 1]|, perChar)
      == Scale(TotalLength(pieces), perChar)
  {
    var n := |pieces|;
    TakeSnoc(pieces, n - 1);
    TakeAll(pieces);
    ConcatSnoc(pieces[..n - 1], pieces[n - 1]);
    ScaleAdd(TotalLength(pieces[..n - 1]), |pieces[n - 1]|, perChar);
  }

  /** Sentence splitting is idempotent: splitting its own output again
      changes nothing. */
  lemma {:induction false} RefineAllIdempotent(segs: seq<Segment>)
    ensures RefineAll(RefineAll(segs)) == RefineAll(segs)
    decreases |segs|
  {
    if segs != [] {
      var init, last := segs[..|segs| - 1], segs[|segs| - 1];
      RefineAllIdempotent(init);
      RefineAllAppend(RefineAll(init), Refine(last));
      RefineIsFixed(last);
    }
  }

  /** Splitting the output of one segment again gives it back unchanged. */
  lemma RefineIsFixed(seg: Segment)
    ensures RefineAll(Refine(seg)) == Refine(seg)
  {
    var r := Refine(seg);
    if !HasMark(seg.text) {
      assert RefineAll([seg]) == RefineAll([]) + Refine(seg);
    } else {
      CountMarksPositiveIffHasMark(seg.text);
      var s := Sentences(seg.text);
      SentencesShape(seg.text);
      RefineAt(seg, 0);
      forall j | 0 <= j < |r| ensures Refine(r[j]) == [r[j]] {
        RefineAt(seg, j);
        StripKeepsMarks(s[j]);
        StripIdempotent(s[j]);
        OneMarkFixed(r[j]);
      }
      RefineAllOfFixed(r);
    }
  }

  /** A stripped text with a single mark is one sentence: it is returned
      with its own span. */
  lemma OneMarkFixed(seg: Segment)
    requires CountMarks(seg.text) == 1 && Strip(seg.text) == seg.text
    ensures Refine(seg) == [seg]
  {
    CountMarksPositiveIffHasMark(seg.text);
    var s := Sentences(seg.text);
    SentencesShape(seg.text);
    assert Concat(s) == Concat([]) + s[0];
    RefineAt(seg, 0);
    var r := Refine(seg);
    assert s[..0] == [];
    assert s[0] == seg.text;
    assert r[0].text == seg.text;
    assert r[0].start == seg.start + Scale(0, TimePerChar(seg)) == seg.start;
    ScaleSpan(seg);
    assert r[0].end == seg.end;
  }

  /** A list of segments each of which refines to itself refines to itself. */
  lemma {:induction false} RefineAllOfFixed(segs: seq<Segment>)
    requires forall j :: 0 <= j < |segs| ==> Refine(segs[j]) == [segs[j]]
    ensures RefineAll(segs) == segs
    decreases |segs|
  {
    if segs != [] {
      RefineAllOfFixed(segs[..|segs| - 1]);
      TakeSnoc(segs, |segs| - 1);
    }
  }

  /** Refining a concatenation refines each part. */
  lemma {:induction false} RefineAllAppend(a: seq<Segment>, b: seq<Segment>)
    ensures RefineAll(a + b) == RefineAll(a) + RefineAll(b)
    decreases |b|
  {
    if b == [] {
      assert a + b == a;
    } else {
      var b', last := b[..|b| - 1], b[|b| - 1];
      assert a + b == (a + b') + [last];
      RefineAllSnoc(a + b', last);
      RefineAllAppend(a, b');
      AppendAssoc(RefineAll(a), RefineAll(b'), Refine(last));
    }
  }

  lemma RefineAllSnoc(segs: seq<Segment>, seg: Segment)
    ensures RefineAll(segs + [seg]) == RefineAll(segs) + Refine(seg)
  {
    assert (segs + [seg])[..|segs|] == segs;
  }

  /** A list of outputs covers a list of inputs: it is empty exactly when
      they are, and otherwise starts with the first input and ends with the
      last. */
  predicate Covers(out: seq<Segment>, segs: seq<Segment>) {
    (out == [] <==> segs == [])
    && (segs != [] ==> out[0].start == segs[0].start && out[|out| - 1].end == segs[|segs| - 1].end)
  }

  lemma CoversAppend(a: seq<Segment>, sa: seq<Segment>, b: seq<Segment>, sb: seq<Segment>)
    requires Covers(a, sa) && Covers(b, sb)
    ensures Covers(a + b, sa + sb)
  {
    if a == [] {
      assert a + b == b && sa + sb == sb;
    } else if b == [] {
      assert a + b == a && sa + sb == sa;
    } else {
      assert (a + b)[0] == a[0] && (sa + sb)[0] == sa[0];
      assert (a + b)[|a + b| - 1] == b[|b| - 1] && (sa + sb)[|sa + sb| - 1] == sb[|sb| - 1];
    }
  }

  /** A segment that runs forward splits into ordered outputs that cover
      exactly its span. */
  lemma RefineOrdered(seg: Segment)
    requires seg.start <= seg.end
    ensures Ordered(Refine(seg)) && Covers(Refine(seg), [seg])
  {
    if HasMark(seg.text) {
      CountMarksPositiveIffHasMark(seg.text);
      RefinePieces(seg);
      RefineChained(seg);
      RefineCovers(seg);
    }
  }

  /** The Segment invariant survives sentence splitting: an ordered list
      splits into an ordered list covering the same span. */
  lemma {:induction false} RefineAllOrdered(segs: seq<Segment>)
    requires Ordered(segs)
    ensures Ordered(RefineAll(segs)) && Covers(RefineAll(segs), segs)
    decreases |segs|
  {
    if segs != [] {
      var init, last := segs[..|segs| - 1], segs[|segs| - 1];
      assert segs == init + [last];
      assert Ordered(init);
      RefineAllOrdered(init);
      RefineOrdered(last);
      if init != [] {
        assert init[|init| - 1].end <= last.start;
      }
      OrderedAppend(RefineAll(init), Refine(last));
      CoversAppend(RefineAll(init), init, Refine(last), [last]);
    }
  }

  /** One step of `Distribute` on a kept piece, with its end written as
      the product the source computes. */
  lemma DistributeStep(pieces: seq<string>, i: nat, t: real, perChar: real, e: real)
    requires i < |pieces| && Strip(pieces[i]) != []
    requires e == t + |pieces[i]| as real * perChar
    ensures Distribute(pieces, i, t, perChar) == [Segment(Strip(pieces[i]), t, e)] + Distribute(pieces, i + 1, e, perChar)
  {
    ScaleIsProduct(|pieces[i]|, perChar);
    assert e == t + Scale(|pieces[i]|, perChar);
  }

  /** The timing loop of `split_at_punctuation` (lines 158-172). */
  method DistributeTimes(pieces: seq<string>, start: real, timePerChar: real) returns (out: seq<Segment>)
    ensures out == Distribute(pieces, 0, start, timePerChar)
  {
    out := [];
    var currentTime := start;
    for i := 0 to |pieces|
      invariant out + Distribute(pieces, i, currentTime, timePerChar) == Distribute(pieces, 0, start, timePerChar)
    {
      var sentence := pieces[i];
      var text := Strip(sentence);
      if text == [] {
        DistributeSkip(pieces, i, currentTime, timePerChar);
        continue;
      }
      var duration := |sentence| as real * timePerChar;
      var endTime := currentTime + duration;
      DistributeStep(pieces, i, currentTime, timePerChar, endTime);
      AppendAssoc(out, [Segment(text, currentTime, endTime)], Distribute(pieces, i + 1, endTime, timePerChar));
      out := out + [Segment(text, currentTime, endTime)];
      currentTime := endTime;
    }
  }

  /** The scan standing in for `re.search(r'[.!?]', text)` (line 124):
      it reports whether any character of `text` is a sentence mark. */
  method ContainsMark(text: string) returns (found: bool)
    ensures found <==> HasMark(text)
  {
    for i := 0 to |text|
      invariant forall k :: 0 <= k < i ==> !IsMark(text[k])
    {
      if IsMark(text[i]) {
        return true;
      }
    }
    return false;
  }

  /** One segment's share of `split_at_punctuation` (lines 121-172). The
      guard of lines 144-146 is left out: a text with a mark always yields
      at least one piece (`Sentences` has one per mark), so `sentences` is
      never empty. */
  method RefineSegment(seg: Segment) returns (out: seq<Segment>)
    ensures out == Refine(seg)
  {
    var marked := ContainsMark(seg.text);
    if !marked {
      return [seg];
    }
    CountMarksPositiveIffHasMark(seg.text);
    var sentences := SplitSentences(seg.text);
    var totalChars := TotalLength(sentences);
    if totalChars == 0 {
      return [seg];
    }
    var timeSpan := seg.end - seg.start;
    var timePerChar := timeSpan / totalChars as real;
    out := DistributeTimes(sentences, seg.start, timePerChar);
  }

  /** `split_at_punctuation(segments)`. */
  method SplitAtPunctuation(segments: seq<Segment>) returns (refined: seq<Segment>)
    ensures refined == RefineAll(segments)
  {
    refined := [];
    for i := 0 to |segments|
      invariant refined == RefineAll(segments[..i])
    {
      TakeSnoc(segments, i);
      RefineAllSnoc(segments[..i], segments[i]);
      var pieces := RefineSegment(segments[i]);
      refined := refined + pieces;
    }
    TakeAll(segments);
  }
}
