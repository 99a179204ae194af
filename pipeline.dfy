/** The two segmentation passes run back to back, as the transcription
    pipeline does: words packed into lines, then lines cut into sentences. */
module Pipeline {
  import opened Types
  import opened LineSegmenter
  import opened SentenceSplitter

  /** For words timed as the recogniser times them, the final segment list
      keeps the Segment invariant: every segment runs forward, none starts
      before the one ahead of it has ended, the list is sorted by start, and
      it spans exactly from the first word's start to the last word's end. */
  lemma FinalSegmentsOrdered(batches: seq<seq<Word>>, maxLineLength: int, maxLineDuration: real)
    requires TimedWords(AllWords(batches))
    ensures var segs, ws := RefineAll(ShortLines(batches, maxLineLength, maxLineDuration)), AllWords(batches);
      Ordered(segs)
      && (forall i, k :: 0 <= i <= k < |segs| ==> segs[i].start <= segs[k].start)
      && (segs == [] <==> ws == [])
      && (ws != [] ==> segs[0].start == ws[0].start && segs[|segs| - 1].end == ws[|ws| - 1].end)
  {
    var lines := ShortLines(batches, maxLineLength, maxLineDuration);
    ShortLinesOrdered(batches, maxLineLength, maxLineDuration);
    RefineAllOrdered(lines);
    OrderedSortedByStart(RefineAll(lines));
  }
}
