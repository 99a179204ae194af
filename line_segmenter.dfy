/** Greedy packing of recognised words into display lines:
    `split_into_short_lines` of modules/transcriber.py. Each recognition
    batch is walked word by word; a line is flushed when the next word would
    push it past the character limit or the duration limit, and the first
    word of a fresh line is always accepted. */
module LineSegmenter {
  import opened Types
  import opened Text

  /** A recognised word as the engine reports it: a non-empty token with no
      whitespace in it. */
  predicate WellFormedWord(w: Word) {
    w.word != [] && forall i :: 0 <= i < |w.word| ==> !IsSpace(w.word[i])
  }

  predicate AllWellFormed(ws: seq<Word>) {
    forall i :: 0 <= i < |ws| ==> WellFormedWord(ws[i])
  }

  /** The running `current_text` of a line: every word followed by one space. */
  function Spaced(ws: seq<Word>): string {
    if ws == [] then "" else Spaced(ws[..|ws| - 1]) + ws[|ws| - 1].word + " "
  }

  /** The word texts joined by single spaces, `" ".join(...)`. */
  function JoinWords(ws: seq<Word>): string {
    if ws == [] then ""
    else if |ws| == 1 then ws[0].word
    else JoinWords(ws[..|ws| - 1]) + " " + ws[|ws| - 1].word
  }

  /** Strings joined by single spaces. */
  function JoinTexts(ss: seq<string>): string {
    if ss == [] then ""
    else if |ss| == 1 then ss[0]
    else JoinTexts(ss[..|ss| - 1]) + " " + ss[|ss| - 1]
  }

  /** All the words of a sequence of lines, in order. */
  function Flatten(lines: seq<Line>): seq<Word> {
    if lines == [] then [] else Flatten(lines[..|lines| - 1]) + lines[|lines| - 1]
  }

  /** The running text is the joined text with one trailing space. */
  lemma {:induction false} SpacedIsJoinedPlusSpace(ws: seq<Word>)
    requires ws != []
    ensures Spaced(ws) == JoinWords(ws) + " "
  {
    if |ws| > 1 {
      SpacedIsJoinedPlusSpace(ws[..|ws| - 1]);
    } else {
      assert ws[..0] == [];
    }
  }

  /** The length the source tests, `len(current_text + word_text)`, is the
      length of the line with the new word joined on. */
  lemma ProjectedText(ws: seq<Word>, w: Word)
    requires ws != []
    ensures Spaced(ws) + w.word == JoinWords(ws + [w])
  {
    SpacedIsJoinedPlusSpace(ws);
    assert (ws + [w])[..|ws|] == ws;
  }

  /** Line 87-88: the next word would overfill the line or overstay it. */
  predicate Breaks(line: seq<Word>, w: Word, lineStart: real, maxLineLength: int, maxLineDuration: real) {
    |Spaced(line) + w.word| > maxLineLength || w.end - lineStart > maxLineDuration
  }

  /** A display line: one or more words. */
  type Line = s: seq<Word> | s != [] witness [Word("", 0.0, 0.0)]

  /** The packer's state: the lines already flushed and the line being built
      (`current_line`, empty before the first word). */
  datatype Packing = Packing(flushed: seq<Line>, line: seq<Word>)

  /** The state after feeding the words of `ws` in order. */
  function Pack(ws: seq<Word>, maxLineLength: int, maxLineDuration: real): Packing {
    if ws == [] then Packing([], [])
    else
      var p := Pack(ws[..|ws| - 1], maxLineLength, maxLineDuration);
      var w := ws[|ws| - 1];
      if p.line == [] then Packing(p.flushed, [w])
      else if Breaks(p.line, w, p.line[0].start, maxLineLength, maxLineDuration) then
        Packing(p.flushed + [p.line], [w])
      else Packing(p.flushed, p.line + [w])
  }

  /** The lines one batch is packed into: the flushed ones and the last. */
  function Lines(ws: seq<Word>, maxLineLength: int, maxLineDuration: real): seq<Line> {
    var p := Pack(ws, maxLineLength, maxLineDuration);
    if p.line == [] then p.flushed else p.flushed + [p.line]
  }

  /** A line of two or more words keeps both limits; a single word may not. */
  predicate WithinLimits(line: seq<Word>, maxLineLength: int, maxLineDuration: real) {
    line != [] &&
    (|line| >= 2 ==>
      |JoinWords(line)| <= maxLineLength && line[|line| - 1].end - line[0].start <= maxLineDuration)
  }

  /** What packing keeps true word after word: the words are all there, in
      order, split between the flushed lines and the current one, and every
      line keeps the limits. */
  predicate PackedWell(p: Packing, ws: seq<Word>, maxLineLength: int, maxLineDuration: real) {
    Flatten(p.flushed) + p.line == ws
    && (p.line == [] <==> ws == [])
    && (ws != [] ==> WithinLimits(p.line, maxLineLength, maxLineDuration))
    && forall j :: 0 <= j < |p.flushed| ==> WithinLimits(p.flushed[j], maxLineLength, maxLineDuration)
  }

  lemma {:induction false} PackInvariant(ws: seq<Word>, maxLineLength: int, maxLineDuration: real)
    ensures PackedWell(Pack(ws, maxLineLength, maxLineDuration), ws, maxLineLength, maxLineDuration)
    decreases |ws|
  {
    if ws != [] {
      var prefix, w := ws[..|ws| - 1], ws[|ws| - 1];
      assert ws == prefix + [w];
      PackInvariant(prefix, maxLineLength, maxLineDuration);
      PackStep(prefix, w, maxLineLength, maxLineDuration);
    }
  }

  /** One word fed to the packer keeps `PackedWell`. */
  lemma PackStep(prefix: seq<Word>, w: Word, maxLineLength: int, maxLineDuration: real)
    requires PackedWell(Pack(prefix, maxLineLength, maxLineDuration), prefix, maxLineLength, maxLineDuration)
    ensures PackedWell(Pack(prefix + [w], maxLineLength, maxLineDuration), prefix + [w], maxLineLength, maxLineDuration)
  {
    var p := Pack(prefix, maxLineLength, maxLineDuration);
    assert (prefix + [w])[..|prefix|] == prefix;
    if p.line == [] {
      assert Flatten(p.flushed) + [w] == prefix + [w];
      assert WithinLimits([w], maxLineLength, maxLineDuration);
    } else if Breaks(p.line, w, p.line[0].start, maxLineLength, maxLineDuration) {
      var fl: seq<Line> := p.flushed + [p.line];
      assert fl[..|p.flushed|] == p.flushed;
      assert Flatten(fl) == Flatten(p.flushed) + p.line;
      assert Flatten(fl) + [w] == prefix + [w];
      assert WithinLimits([w], maxLineLength, maxLineDuration);
      assert forall j :: 0 <= j < |fl| ==> WithinLimits(fl[j], maxLineLength, maxLineDuration);
    } else {
      ProjectedText(p.line, w);
      var l := p.line + [w];
      assert l[0] == p.line[0] && l[|l| - 1] == w;
      assert WithinLimits(l, maxLineLength, maxLineDuration);
      assert Flatten(p.flushed) + l == prefix + [w];
    }
  }

  /** Per batch: the lines hold exactly the batch's words, in order; each line
      is non-empty and keeps the limits unless it is a single word; a batch
      with words yields at least one line and an empty batch none. */
  lemma LinesPartitionWords(ws: seq<Word>, maxLineLength: int, maxLineDuration: real)
    ensures var lines := Lines(ws, maxLineLength, maxLineDuration);
      Flatten(lines) == ws
      && (|lines| == 0 <==> ws == [])
      && forall j :: 0 <= j < |lines| ==> WithinLimits(lines[j], maxLineLength, maxLineDuration)
  {
    PackInvariant(ws, maxLineLength, maxLineDuration);
    var p := Pack(ws, maxLineLength, maxLineDuration);
    if p.line != [] {
      var lines: seq<Line> := p.flushed + [p.line];
      assert lines[..|p.flushed|] == p.flushed;
      assert Flatten(lines) == Flatten(p.flushed) + p.line;
    } else {
      assert Flatten(p.flushed) + [] == Flatten(p.flushed);
    }
  }

  /** Every flushed line was closed because the first word of the line after
      it would have broken a limit. */
  predicate FlushedForCause(p: Packing, maxLineLength: int, maxLineDuration: real) {
    (forall j :: 0 <= j < |p.flushed| - 1 ==>
       Breaks(p.flushed[j], p.flushed[j + 1][0], p.flushed[j][0].start, maxLineLength, maxLineDuration))
    && (p.flushed != [] ==>
       p.line != []
       && Breaks(p.flushed[|p.flushed| - 1], p.line[0], p.flushed[|p.flushed| - 1][0].start,
            maxLineLength, maxLineDuration))
  }

  lemma {:induction false} PackFlushesForCause(ws: seq<Word>, maxLineLength: int, maxLineDuration: real)
    ensures FlushedForCause(Pack(ws, maxLineLength, maxLineDuration), maxLineLength, maxLineDuration)
    decreases |ws|
  {
    if ws != [] {
      var prefix, w := ws[..|ws| - 1], ws[|ws| - 1];
      PackFlushesForCause(prefix, maxLineLength, maxLineDuration);
      PackInvariant(prefix, maxLineLength, maxLineDuration);
      var p := Pack(prefix, maxLineLength, maxLineDuration);
      if p.line == [] {
        assert prefix == [];
      } else if Breaks(p.line, w, p.line[0].start, maxLineLength, maxLineDuration) {
        var fl: seq<Line> := p.flushed + [p.line];
        assert fl[|fl| - 1] == p.line;
        assert forall j :: 0 <= j < |p.flushed| ==> fl[j] == p.flushed[j];
      }
    }
  }

  /** The other direction of the flush rule: a line ends only because the
      next word of its batch would push it past the character limit or the
      duration limit, so the packing is greedy and never breaks early. */
  lemma LinesMaximal(ws: seq<Word>, maxLineLength: int, maxLineDuration: real)
    ensures var lines := Lines(ws, maxLineLength, maxLineDuration);
      forall j :: 0 <= j < |lines| - 1 ==>
        Breaks(lines[j], lines[j + 1][0], lines[j][0].start, maxLineLength, maxLineDuration)
  {
    PackFlushesForCause(ws, maxLineLength, maxLineDuration);
    var p := Pack(ws, maxLineLength, maxLineDuration);
    if p.line != [] {
      var lines: seq<Line> := p.flushed + [p.line];
      assert forall j :: 0 <= j < |p.flushed| ==> lines[j] == p.flushed[j];
    }
  }

  /** The segment a line is flushed as (lines 91-95 and 108-112). */
  function LineSegment(line: Line): Segment {
    Segment(Strip(Spaced(line)), line[0].start, line[|line| - 1].end)
  }

  /** The segments of a sequence of lines. */
  function LineSegments(lines: seq<Line>): (segs: seq<Segment>)
    ensures |segs| == |lines|
    ensures forall j :: 0 <= j < |lines| ==> segs[j] == LineSegment(lines[j])
  {
    if lines == [] then []
    else LineSegments(lines[..|lines| - 1]) + [LineSegment(lines[|lines| - 1])]
  }

  /** The segments one batch produces. */
  function BatchSegments(ws: seq<Word>, maxLineLength: int, maxLineDuration: real): seq<Segment> {
    LineSegments(Lines(ws, maxLineLength, maxLineDuration))
  }

  /** The output of `split_into_short_lines`: the batches' segments one batch
      after another. */
  function ShortLines(batches: seq<seq<Word>>, maxLineLength: int, maxLineDuration: real): seq<Segment> {
    if batches == [] then []
    else
      var init := ShortLines(batches[..|batches| - 1], maxLineLength, maxLineDuration);
      init + BatchSegments(batches[|batches| - 1], maxLineLength, maxLineDuration)
  }

  /** With well-formed words the `strip()` only drops the trailing space, so
      a line's text is its words joined by single spaces, and it is never empty. */
  lemma {:induction false} LineText(line: seq<Word>)
    requires line != [] && AllWellFormed(line)
    ensures LineSegment(line).text == JoinWords(line) != []
  {
    JoinedEnds(line);
    SpacedIsJoinedPlusSpace(line);
    StripTrailingSpace(JoinWords(line));
  }

  /** The joined text of well-formed words starts with the first word's first
      character and ends with the last word's last character. */
  lemma {:induction false} JoinedEnds(ws: seq<Word>)
    requires ws != [] && AllWellFormed(ws)
    ensures var s := JoinWords(ws);
      s != [] && s[0] == ws[0].word[0] && s[|s| - 1] == ws[|ws| - 1].word[|ws[|ws| - 1].word| - 1]
  {
    if |ws| > 1 {
      JoinedEnds(ws[..|ws| - 1]);
    }
  }

  /** Joining two non-empty runs of words is joining their texts with a space. */
  lemma {:induction false} JoinWordsAppend(a: seq<Word>, b: seq<Word>)
    requires a != [] && b != []
    ensures JoinWords(a + b) == JoinWords(a) + " " + JoinWords(b)
    decreases |b|
  {
    if |b| == 1 {
      assert (a + b)[..|a|] == a;
    } else {
      var b' := b[..|b| - 1];
      assert (a + b)[..|a + b| - 1] == a + b';
      JoinWordsAppend(a, b');
    }
  }

  /** Joining the lines' texts gives back the words' text. */
  lemma {:induction false} JoinFlatten(lines: seq<Line>)
    ensures JoinWords(Flatten(lines)) == JoinTexts(LinesJoined(lines))
    decreases |lines|
  {
    if |lines| > 1 {
      var init := lines[..|lines| - 1];
      JoinFlatten(init);
      FlattenNonEmpty(init);
      JoinWordsAppend(Flatten(init), lines[|lines| - 1]);
    } else if |lines| == 1 {
      assert lines[..0] == [];
      assert Flatten(lines) == lines[0];
      assert LinesJoined(lines) == [JoinWords(lines[0])];
    }
  }

  lemma {:induction false} FlattenNonEmpty(lines: seq<Line>)
    requires lines != []
    ensures Flatten(lines) != []
  {
  }

  /** The joined text of each line. */
  function LinesJoined(lines: seq<Line>): (r: seq<string>)
    ensures |r| == |lines| && forall j :: 0 <= j < |lines| ==> r[j] == JoinWords(lines[j])
  {
    if lines == [] then [] else LinesJoined(lines[..|lines| - 1]) + [JoinWords(lines[|lines| - 1])]
  }

  /** Word conservation, batch handling and the limits, stated on a batch's
      segments: joining the segment texts with single spaces gives the batch's
      words joined with single spaces; each segment is a line of the packing,
      with non-empty text, the line's first start and last end, and a text
      longer than the limit or a span longer than the limit only when that
      line is a single word. */
  lemma BatchSegmentsSpec(ws: seq<Word>, maxLineLength: int, maxLineDuration: real)
    requires AllWellFormed(ws)
    ensures var segs, lines := BatchSegments(ws, maxLineLength, maxLineDuration), Lines(ws, maxLineLength, maxLineDuration);
      JoinTexts(Texts(segs)) == JoinWords(ws)
      && (|segs| == 0 <==> ws == [])
      && |segs| == |lines|
      && forall j :: 0 <= j < |segs| ==>
           lines[j] != []
           && segs[j].text == JoinWords(lines[j]) != []
           && segs[j].start == lines[j][0].start
           && segs[j].end == lines[j][|lines[j]| - 1].end
           && (|segs[j].text| > maxLineLength ==> |lines[j]| == 1)
           && (segs[j].end - segs[j].start > maxLineDuration ==> |lines[j]| == 1)
  {
    var lines := Lines(ws, maxLineLength, maxLineDuration);
    LinesPartitionWords(ws, maxLineLength, maxLineDuration);
    var segs := BatchSegments(ws, maxLineLength, maxLineDuration);
    forall j | 0 <= j < |lines|
      ensures segs[j].text == JoinWords(lines[j]) != []
    {
      WellFormedInFlatten(lines, j);
      LineText(lines[j]);
    }
    assert Texts(segs) == LinesJoined(lines);
    JoinFlatten(lines);
  }

  /** Each line of a packing of well-formed words holds well-formed words. */
  lemma {:induction false} WellFormedInFlatten(lines: seq<Line>, j: nat)
    requires j < |lines| && AllWellFormed(Flatten(lines))
    ensures AllWellFormed(lines[j])
    decreases |lines|
  {
    var init := lines[..|lines| - 1];
    var f := Flatten(lines);
    assert f == Flatten(init) + lines[|lines| - 1];
    if j < |lines| - 1 {
      assert forall i :: 0 <= i < |Flatten(init)| ==> f[i] == Flatten(init)[i];
      WellFormedInFlatten(init, j);
      assert init[j] == lines[j];
    } else {
      assert forall i :: 0 <= i < |lines[j]| ==> lines[j][i] == f[|Flatten(init)| + i];
    }
  }

  /** The texts of a sequence of segments. */
  function Texts(segs: seq<Segment>): (r: seq<string>)
    ensures |r| == |segs| && forall j :: 0 <= j < |segs| ==> r[j] == segs[j].text
  {
    if segs == [] then [] else Texts(segs[..|segs| - 1]) + [segs[|segs| - 1].text]
  }

  /** A line never spans two batches: the output for a list of batches is the
      output for its first part followed by the output for the rest. */
  lemma {:induction false} ShortLinesAppend(a: seq<seq<Word>>, b: seq<seq<Word>>, maxLineLength: int, maxLineDuration: real)
    ensures ShortLines(a + b, maxLineLength, maxLineDuration)
      == ShortLines(a, maxLineLength, maxLineDuration) + ShortLines(b, maxLineLength, maxLineDuration)
    decreases |b|
  {
    if b == [] {
      assert a + b == a;
    } else {
      var b', last := b[..|b| - 1], b[|b| - 1];
      assert a + b == (a + b') + [last];
      ShortLinesSnoc(a + b', last, maxLineLength, maxLineDuration);
      ShortLinesAppend(a, b', maxLineLength, maxLineDuration);
      AppendAssoc(ShortLines(a, maxLineLength, maxLineDuration), ShortLines(b', maxLineLength, maxLineDuration),
        BatchSegments(last, maxLineLength, maxLineDuration));
    }
  }

  lemma ShortLinesSnoc(batches: seq<seq<Word>>, last: seq<Word>, maxLineLength: int, maxLineDuration: real)
    ensures ShortLines(batches + [last], maxLineLength, maxLineDuration)
      == ShortLines(batches, maxLineLength, maxLineDuration) + BatchSegments(last, maxLineLength, maxLineDuration)
  {
    assert (batches + [last])[..|batches|] == batches;
  }

  /** A batch without words (its `result` missing or empty) adds nothing. */
  lemma EmptyBatchSkipped(batches: seq<seq<Word>>, maxLineLength: int, maxLineDuration: real)
    ensures ShortLines(batches + [[]], maxLineLength, maxLineDuration) == ShortLines(batches, maxLineLength, maxLineDuration)
  {
    assert (batches + [[]])[..|batches|] == batches;
    LinesPartitionWords([], maxLineLength, maxLineDuration);
  }

  // ---------------------------------------------------------------------
  // Timing of the output.

  /** Words as the recogniser times them: none runs backwards, and none
      starts before the word ahead of it has ended. */
  predicate TimedWords(ws: seq<Word>) {
    (forall i :: 0 <= i < |ws| ==> ws[i].start <= ws[i].end)
    && (forall i :: 0 <= i < |ws| - 1 ==> ws[i].end <= ws[i + 1].start)
  }

  /** The words of all batches, one batch after another. */
  function AllWords(batches: seq<seq<Word>>): seq<Word> {
    if batches == [] then [] else AllWords(batches[..|batches| - 1]) + batches[|batches| - 1]
  }

  /** Both parts of well-timed words are well timed, and the first part
      ends no later than the second starts. */
  lemma TimedSplit(a: seq<Word>, b: seq<Word>)
    requires TimedWords(a + b)
    ensures TimedWords(a) && TimedWords(b)
    ensures a != [] && b != [] ==> a[|a| - 1].end <= b[0].start
  {
    var s := a + b;
    assert forall i :: 0 <= i < |a| ==> s[i] == a[i];
    assert forall i :: 0 <= i < |b| ==> s[|a| + i] == b[i];
    if a != [] && b != [] {
      assert s[|a| - 1] == a[|a| - 1] && s[|a|] == b[0];
    }
  }

  /** What packing keeps true of the timing: the segments of the flushed
      lines are ordered, the current line runs forward from its first word
      to the last word fed, and it starts no earlier than the last flushed
      line ends; the first line begins with the batch's first word. */
  predicate PackTimed(p: Packing, ws: seq<Word>) {
    ws != [] && p.line != []
    && p.line[|p.line| - 1] == ws[|ws| - 1]
    && p.line[0].start <= p.line[|p.line| - 1].end
    && Ordered(LineSegments(p.flushed))
    && (p.flushed != [] ==>
          p.flushed[0][0] == ws[0]
          && p.flushed[|p.flushed| - 1][|p.flushed[|p.flushed| - 1]| - 1].end <= p.line[0].start)
    && (p.flushed == [] ==> p.line[0] == ws[0])
  }

  lemma {:induction false} PackKeepsTime(ws: seq<Word>, maxLineLength: int, maxLineDuration: real)
    requires ws != [] && TimedWords(ws)
    ensures PackTimed(Pack(ws, maxLineLength, maxLineDuration), ws)
    decreases |ws|
  {
    var prefix, w := ws[..|ws| - 1], ws[|ws| - 1];
    assert ws == prefix + [w];
    TimedSplit(prefix, [w]);
    if prefix == [] {
      assert Pack(prefix, maxLineLength, maxLineDuration) == Packing([], []);
      assert LineSegments([]) == [];
    } else {
      PackKeepsTime(prefix, maxLineLength, maxLineDuration);
      PackTimedStep(Pack(prefix, maxLineLength, maxLineDuration), prefix, w, maxLineLength, maxLineDuration);
    }
  }

  lemma PackTimedStep(p: Packing, prefix: seq<Word>, w: Word, maxLineLength: int, maxLineDuration: real)
    requires p == Pack(prefix, maxLineLength, maxLineDuration)
    requires PackTimed(p, prefix) && w.start <= w.end && prefix[|prefix| - 1].end <= w.start
    ensures PackTimed(Pack(prefix + [w], maxLineLength, maxLineDuration), prefix + [w])
  {
    PackSnoc(prefix, w, maxLineLength, maxLineDuration);
    var ws := prefix + [w];
    assert ws[0] == prefix[0] && ws[|ws| - 1] == w;
    if Breaks(p.line, w, p.line[0].start, maxLineLength, maxLineDuration) {
      var fl: seq<Line> := p.flushed + [p.line];
      LineSegmentsSnoc(p.flushed, p.line);
      OrderedAppend(LineSegments(p.flushed), [LineSegment(p.line)]);
      assert fl[0] == if p.flushed == [] then p.line else p.flushed[0];
      assert fl[|fl| - 1] == p.line;
    } else {
      var l := p.line + [w];
      assert l[0] == p.line[0] && l[|l| - 1] == w;
    }
  }

  /** The segments of one batch of well-timed words are ordered; the first
      starts with the batch's first word and the last ends with its last. */
  lemma BatchSegmentsOrdered(ws: seq<Word>, maxLineLength: int, maxLineDuration: real)
    requires TimedWords(ws)
    ensures Ordered(BatchSegments(ws, maxLineLength, maxLineDuration))
    ensures Spans(BatchSegments(ws, maxLineLength, maxLineDuration), ws)
  {
    LinesPartitionWords(ws, maxLineLength, maxLineDuration);
    if ws != [] {
      PackKeepsTime(ws, maxLineLength, maxLineDuration);
      var p := Pack(ws, maxLineLength, maxLineDuration);
      LineSegmentsSnoc(p.flushed, p.line);
      OrderedAppend(LineSegments(p.flushed), [LineSegment(p.line)]);
      var lines: seq<Line> := p.flushed + [p.line];
      assert lines[0][0] == ws[0];
    }
  }

  /** A list of segments spans a run of words: it is empty exactly when the
      run is, and otherwise starts with the first word and ends with the last. */
  predicate Spans(s: seq<Segment>, ws: seq<Word>) {
    (s == [] <==> ws == [])
    && (ws != [] ==> s[0].start == ws[0].start && s[|s| - 1].end == ws[|ws| - 1].end)
  }

  lemma SpansAppend(a: seq<Segment>, wa: seq<Word>, b: seq<Segment>, wb: seq<Word>)
    requires Spans(a, wa) && Spans(b, wb)
    ensures Spans(a + b, wa + wb)
  {
    if a == [] {
      assert a + b == b && wa + wb == wb;
    } else if b == [] {
      assert a + b == a && wa + wb == wa;
    } else {
      assert (a + b)[0] == a[0] && (wa + wb)[0] == wa[0];
      assert (a + b)[|a + b| - 1] == b[|b| - 1] && (wa + wb)[|wa + wb| - 1] == wb[|wb| - 1];
    }
  }

  /** The Segment invariant on the packer's output: for well-timed words,
      every segment runs forward, each starts no earlier than the one before
      it ends, and the list spans exactly from the first word to the last. */
  lemma {:induction false} ShortLinesOrdered(batches: seq<seq<Word>>, maxLineLength: int, maxLineDuration: real)
    requires TimedWords(AllWords(batches))
    ensures Ordered(ShortLines(batches, maxLineLength, maxLineDuration))
    ensures Spans(ShortLines(batches, maxLineLength, maxLineDuration), AllWords(batches))
    decreases |batches|
  {
    if batches != [] {
      var init, last := batches[..|batches| - 1], batches[|batches| - 1];
      var a, b := ShortLines(init, maxLineLength, maxLineDuration), BatchSegments(last, maxLineLength, maxLineDuration);
      assert ShortLines(batches, maxLineLength, maxLineDuration) == a + b;
      assert AllWords(batches) == AllWords(init) + last;
      TimedSplit(AllWords(init), last);
      ShortLinesOrdered(init, maxLineLength, maxLineDuration);
      BatchSegmentsOrdered(last, maxLineLength, maxLineDuration);
      OrderedAppend(a, b);
      SpansAppend(a, AllWords(init), b, last);
    }
  }

  lemma SpacedSingle(w: Word)
    ensures Spaced([w]) == w.word + " "
  {
    assert [w][..0] == [];
  }

  lemma PackSnoc(ws: seq<Word>, w: Word, maxLineLength: int, maxLineDuration: real)
    ensures var p := Pack(ws, maxLineLength, maxLineDuration);
      Pack(ws + [w], maxLineLength, maxLineDuration) ==
        if p.line == [] then Packing(p.flushed, [w])
        else if Breaks(p.line, w, p.line[0].start, maxLineLength, maxLineDuration) then
          Packing(p.flushed + [p.line], [w])
        else Packing(p.flushed, p.line + [w])
  {
    assert (ws + [w])[..|ws|] == ws;
  }

  lemma LineSegmentsSnoc(lines: seq<Line>, line: Line)
    ensures LineSegments(lines + [line]) == LineSegments(lines) + [LineSegment(line)]
  {
    assert (lines + [line])[..|lines|] == lines;
  }

  /** `split_into_short_lines(raw_segments, max_line_length, max_line_duration)`
      with each batch's `result` given as its list of words (a missing
      `result` as the empty list). */
  method SplitIntoShortLines(batches: seq<seq<Word>>, maxLineLength: int, maxLineDuration: real)
    returns (segments: seq<Segment>)
    ensures segments == ShortLines(batches, maxLineLength, maxLineDuration)
  {
    segments := [];
    for b := 0 to |batches|
      invariant segments == ShortLines(batches[..b], maxLineLength, maxLineDuration)
    {
      var words := batches[b];
      TakeSnoc(batches, b);
      ShortLinesSnoc(batches[..b], words, maxLineLength, maxLineDuration);
      if words == [] {
        LinesPartitionWords(words, maxLineLength, maxLineDuration);
        continue;
      }
      ghost var before := segments;
      ghost var flushed: seq<Line> := [];
      var currentLine: seq<Word> := [];
      var currentText := "";
      var lineStart := words[0].start;
      for i := 0 to |words|
        invariant Pack(words[..i], maxLineLength, maxLineDuration) == Packing(flushed, currentLine)
        invariant segments == before + LineSegments(flushed)
        invariant currentText == Spaced(currentLine)
        invariant currentLine == [] <==> i == 0
        invariant lineStart == if currentLine == [] then words[0].start else currentLine[0].start
      {
        var word := words[i];
        TakeSnoc(words, i);
        PackSnoc(words[..i], word, maxLineLength, maxLineDuration);
        if |currentText + word.word| > maxLineLength || word.end - lineStart > maxLineDuration {
          if |currentLine| > 0 {
            LineSegmentsSnoc(flushed, currentLine);
            AppendAssoc(before, LineSegments(flushed), [LineSegment(currentLine)]);
            segments := segments + [Segment(Strip(currentText), lineStart, currentLine[|currentLine| - 1].end)];
            flushed := flushed + [currentLine];
          }
          currentLine := [word];
          currentText := word.word + " ";
          lineStart := word.start;
        } else {
          currentLine := currentLine + [word];
          currentText := currentText + word.word + " ";
        }
        SpacedSingle(word);
      }
      TakeAll(words);
      if |currentLine| > 0 {
        LineSegmentsSnoc(flushed, currentLine);
        AppendAssoc(before, LineSegments(flushed), [LineSegment(currentLine)]);
        segments := segments + [Segment(Strip(currentText), lineStart, currentLine[|currentLine| - 1].end)];
      }
    }
    TakeAll(batches);
  }
}
