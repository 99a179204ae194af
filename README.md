# Subtitle segmentation and SubRip serialisation, in Dafny

This project models the subtitle pipeline of a video transcription tool. A
speech recogniser delivers batches of timed words. The pipeline then does four
things:

1. It packs the words of each batch greedily into display lines, bounded by a
   character limit and a duration limit (`split_into_short_lines`).
2. It cuts every line after each `.`, `!` and `?`, and shares the line's time
   span among the pieces in proportion to their lengths (`split_at_punctuation`).
3. It renders the segments as SubRip blocks `i\nSTART --> END\ntext\n\n` and
   fails when nothing was written (`create_srt_file`).
4. It formats each time as `HH:MM:SS,mmm` (`format_time`).

The files:

- `types.dfy`: the records, `Word(word, start, end)` and
  `Segment(text, start, end)`, plus `Option`/`Result`, the timing invariant `Ordered` that every
  subtitle list keeps, and three sequence facts.
- `text.dfy`: Python's `str.isspace()` and `str.strip()`, the sentence
  marks, and decimal numerals (`str(n)`, `f"{n:0Wd}"`) with a reader for
  them.
- `time_format.dfy`: `format_time`, as a pure function over exact reals. It
  uses Python's truncating `int()` and flooring `%` as written, together
  with a reader for the timestamps it produces.
- `line_segmenter.dfy`: the packing loop as a method, `SplitIntoShortLines`,
  proved equal to a specification function, `ShortLines`, plus that
  function's properties.
- `sentence_splitter.dfy`: the splitting loops as methods, `ContainsMark`,
  `SplitSentences`, `DistributeTimes`, `RefineSegment` and
  `SplitAtPunctuation`, each proved equal to a specification function
  (`HasMark`, `Sentences`, `Distribute`, `Refine`, `RefineAll`), plus those
  functions' properties.
- `srt_writer.dfy`: the rendering loop as a method, `RenderSrt`, returning
  the written text or `EmptySubtitleFile`. It also has a reader for the
  written text and a round-trip lemma.
- `pipeline.dfy`: the packer and the splitter run back to back, and the
  timing of the segment list they produce.

Times are Dafny `real`, so the proportional division of
modules/transcriber.py:154-164 is exact. Recognition batches are an input
`seq<seq<Word>>`; a batch without `result` is the empty sequence.

## Model

| member | source | states |
|---|---|---|
| Types.OrderedAppend | modules/transcriber.py:67-174 | Two ordered segment lists, the second starting no earlier than the first ends, append to an ordered list. |
| Types.OrderedSortedByStart | modules/transcriber.py:67-174 | An ordered segment list is sorted by start time. |
| Text.TrimStartSuffix | modules/transcriber.py:92 | Dropping leading whitespace leaves a suffix of the input. Everything dropped is whitespace, and the result does not start with whitespace. |
| Text.TrimEndPrefix | modules/transcriber.py:92 | Dropping trailing whitespace leaves a prefix of the input. Everything dropped is whitespace, and the result does not end with whitespace. |
| Text.StripSlice | modules/transcriber.py:92 | `strip()` returns a contiguous slice of its input. Only whitespace lies on either side of it, and the slice neither starts nor ends with whitespace. |
| Text.StripEmptyIffBlank | modules/transcriber.py:185 | `text.strip()` is empty exactly when every character of `text` is whitespace (both directions). |
| Text.StripTrimmed | modules/transcriber.py:167 | A text that neither starts nor ends with whitespace is its own strip. |
| Text.StripIdempotent | modules/transcriber.py:167 | Stripping an already stripped text changes nothing. |
| Text.StripTrailingSpace | modules/transcriber.py:109 | If a text starts and ends with non-whitespace, stripping `text + " "` removes exactly the trailing separator. |
| Text.CountMarksAppend | modules/transcriber.py:129 | The sentence marks of a concatenation are those of its parts added together. |
| Text.CountMarksPositiveIffHasMark | modules/transcriber.py:124 | Counting the marks gives more than zero exactly when `re.search(r'[.!?]', text)` finds one (both directions). |
| Text.BlankHasNoMarks | modules/transcriber.py:160 | A whitespace-only text holds no sentence mark. |
| Text.StripKeepsMarks | modules/transcriber.py:167 | `strip()` removes no sentence mark. |
| Text.MarkedNotBlank | modules/transcriber.py:160-161 | A piece holding a mark is not blank and its strip is not empty, so the skip at lines 160-161 never drops a piece. |
| Text.Digits | modules/transcriber.py:189 | `f"{i}"` is a non-empty string of decimal digits, without a leading zero unless `i` is 0. It has one digit exactly below 10, at most two below 100 and at most three below 1000. |
| Text.ParseDigits | modules/transcriber.py:189 | Reading the numeral of `n` back gives `n`. |
| Text.PadInt | modules/utils.py:116 | `f"{n:0Wd}"` has at least `W` characters. For `n >= 0` it is all digits, reads back as `n`, and is `W` wide unless the numeral is longer. |
| Text.ParseLeadingZeros | modules/utils.py:116 | Zero padding does not change the value a numeral reads as. |
| TimeFormat.Trunc | modules/utils.py:108 | `int(x)` rounds toward zero. For `x >= 0` the result `n` satisfies `0 <= n <= x < n + 1`; for `x < 0` it satisfies `n - 1 < x <= n <= 0`. |
| TimeFormat.ClockOf | modules/utils.py:108-113 | Field ranges, for every `t`: minutes and seconds are in 0..59 and milliseconds in 0..999. Hours are non-negative exactly when `t > -3600`. |
| TimeFormat.ClockIsFloorMillis | modules/utils.py:108-113 | For `t >= 0` the four fields spell out `floor(1000 t)` milliseconds. |
| TimeFormat.ClockTruncates | modules/utils.py:108-113 | Truncation, not rounding: `h*3600 + m*60 + s + ms/1000 <= t < h*3600 + m*60 + s + (ms+1)/1000`. |
| TimeFormat.ClockRoundTrip | modules/utils.py:108-116 | A non-negative `t` that is a whole number of milliseconds is read back exactly from its four fields. |
| TimeFormat.LexFromMillis | modules/utils.py:108-113 | For fields within their ranges, ordering the instants they name orders the field tuples lexicographically. |
| TimeFormat.ClockMonotonic | modules/utils.py:108-113 | If `0 <= t1 <= t2`, the field tuple of `t1` is lexicographically at most that of `t2`. |
| TimeFormat.FormatTimeShape | modules/utils.py:116 | Output shape for `t >= 0`: there are colons 10 and 7 characters from the end and a comma 4 from the end. The hours take at least two digits, and the output is exactly 12 characters long exactly when hours are below 100. Reading it back gives the clock fields. |
| TimeFormat.ClockTextShape | modules/utils.py:116 | The padded text of any clock with fields in range has the separators at fixed places from the end, and is 12 characters long exactly when hours are below 100. Reading it back gives that clock. |
| TimeFormat.ParseTimeOfParts | modules/utils.py:116 | Digit strings of widths at least 2, 2, 2 and 3, joined by `:`, `:` and `,`, read back as their four values. |
| TimeFormat.DigitsLong | modules/utils.py:116 | Hours from 100 up need at least three digits, which is why the field grows beyond two. |
| TimeFormat.PadTwo | modules/utils.py:116 | `f"{n:02d}"` of a number below 100 is exactly its tens digit followed by its units digit. |
| TimeFormat.PadThree | modules/utils.py:116 | `f"{n:03d}"` of a number in 100..999 is exactly its three digits. |
| TimeFormat.FormatTimeExample1 | modules/utils.py:106-116 | 12.345 s formats as `00:00:12,345`. |
| TimeFormat.FormatTimeExample2 | modules/utils.py:106-116 | 3661.5 s formats as `01:01:01,500`. |
| LineSegmenter.SpacedIsJoinedPlusSpace | modules/transcriber.py:99-104 | The running `current_text` of a line is its words joined by single spaces, plus one trailing space. |
| LineSegmenter.ProjectedText | modules/transcriber.py:87 | `current_text + word_text` is exactly the line's text with the new word joined on, so the length test is inclusive on the joined length. |
| LineSegmenter.PackInvariant | modules/transcriber.py:79-104 | After any prefix of a batch, the flushed lines followed by the current line are exactly the words so far, in order. The current line is empty only before the first word, and every line of two or more words keeps both limits. |
| LineSegmenter.PackStep | modules/transcriber.py:83-104 | Feeding one more word, with its flush-or-append decision, preserves the invariant above. |
| LineSegmenter.LinesPartitionWords | modules/transcriber.py:79-112 | Word conservation: the lines of a batch, concatenated, are the batch's words in order. A batch yields no line exactly when it is empty. Each line is non-empty, and a line of two or more words has joined length at most `max_line_length` and span at most `max_line_duration`. |
| LineSegmenter.PackFlushesForCause | modules/transcriber.py:87-102 | After any prefix of a batch, each flushed line was closed because the first word of the line after it, or of the current line, breaks the length limit or the duration limit. |
| LineSegmenter.LinesMaximal | modules/transcriber.py:87-102 | The other direction of the flush rule: between two consecutive lines of a batch, the second line's first word would have broken a limit of the first line. The packing is greedy and never breaks early. |
| LineSegmenter.TimedSplit | modules/transcriber.py:79 | Both halves of a well-timed word sequence are well timed, and the first half ends no later than the second starts. |
| LineSegmenter.PackKeepsTime | modules/transcriber.py:79-104 | For well-timed words, after any prefix the flushed lines' segments are ordered. The current line runs forward to the last word fed and starts no earlier than the last flushed line ends. |
| LineSegmenter.PackTimedStep | modules/transcriber.py:83-104 | Feeding one more well-timed word keeps the timing invariant above. |
| LineSegmenter.BatchSegmentsOrdered | modules/transcriber.py:79-112 | The segments of one batch of well-timed words are ordered. They start at the batch's first word and end at its last word. |
| LineSegmenter.SpansAppend | modules/transcriber.py:71-112 | Helper: lists spanning two runs of words, appended, span the two runs appended. |
| LineSegmenter.ShortLinesOrdered | modules/transcriber.py:67-114 | Segment invariant on the packer's output: for words that never run backwards or overlap, every segment has `start <= end`, and each starts no earlier than the one before it ends. The list starts at the first word's start and ends at the last word's end. |
| LineSegmenter.LineSegments | modules/transcriber.py:91-95 | There is exactly one segment per line, and segment `j` is line `j`'s text, first start and last end. |
| LineSegmenter.LineText | modules/transcriber.py:109-110 | With well-formed words, `current_text.strip()` drops only the trailing separator. The line text is its words joined by single spaces and is never empty. |
| LineSegmenter.JoinedEnds | modules/transcriber.py:104 | The joined text of well-formed words starts with the first word's first character and ends with the last word's last character. |
| LineSegmenter.JoinWordsAppend | modules/transcriber.py:104 | Joining two non-empty runs of words is joining their two texts with one space. |
| LineSegmenter.JoinFlatten | modules/transcriber.py:79-112 | Joining the lines' texts with single spaces equals joining all their words with single spaces. |
| LineSegmenter.LinesJoined | modules/transcriber.py:92 | There is one joined text per line, and entry `j` is line `j`'s words joined. |
| LineSegmenter.BatchSegmentsSpec | modules/transcriber.py:79-112 | For a batch of well-formed words, joining the segment texts with single spaces gives the batch's words joined with single spaces. There is one segment per packed line, and none when the batch is empty. Each segment's text is its line joined and non-empty, it starts at the line's first start and ends at its last end, and it exceeds either limit only if its line is a single word. |
| LineSegmenter.Texts | modules/transcriber.py:91-95 | The list of texts has one entry per segment, entry `j` being segment `j`'s text. |
| LineSegmenter.ShortLinesAppend | modules/transcriber.py:71-112 | No line spans two batches. The output for batches `a + b` is the output for `a` followed by the output for `b`. |
| LineSegmenter.EmptyBatchSkipped | modules/transcriber.py:72-77 | A batch whose `result` is missing or empty adds nothing to the output. |
| LineSegmenter.SplitIntoShortLines | modules/transcriber.py:67-114 | The loop's output is `ShortLines`, the batch-by-batch packing whose properties are the lemmas above. |
| SentenceSplitter.TotalLengthIsConcatLength | modules/transcriber.py:149 | `sum(len(s) for s in sentences)` is the length of the pieces concatenated. |
| SentenceSplitter.TotalLengthAppend | modules/transcriber.py:149 | The total length of two lists of pieces is the sum of their totals. |
| SentenceSplitter.CutAfterMarks | modules/transcriber.py:129-137 | Cutting after every mark gives one more piece than there are marks. |
| SentenceSplitter.CutAfterMarksConcat | modules/transcriber.py:129-137 | The cut pieces concatenate back to the text exactly. |
| SentenceSplitter.CutAfterMarksPieces | modules/transcriber.py:129-137 | Every cut piece but the last ends at a mark and holds no other mark. The last piece, the text after the last mark, holds none. |
| SentenceSplitter.CutStep | modules/transcriber.py:129-137 | Reading one more character keeps that shape of the cut. |
| SentenceSplitter.Sentences | modules/transcriber.py:139-141 | After the trailing text is glued onto the last piece, there is exactly one piece per mark. |
| SentenceSplitter.SentencesConcat | modules/transcriber.py:129-141 | The pieces concatenate back to the original text, and their lengths add up to its length. |
| SentenceSplitter.SentencesMarks | modules/transcriber.py:129-141 | Every piece holds exactly one mark, and every piece but the last ends at it. |
| SentenceSplitter.SentencesShape | modules/transcriber.py:129-141 | Piece structure: the two lemmas above together. |
| SentenceSplitter.SentencesKept | modules/transcriber.py:149-161 | The total length equals the text's length and no piece is blank. Hence the guard at lines 150-152 is never taken on a text with a mark, and no piece is skipped. |
| SentenceSplitter.SplitSentences | modules/transcriber.py:129-141 | The character scan returns `Sentences(text)`. |
| SentenceSplitter.ContainsMark | modules/transcriber.py:124 | The scan reports a mark exactly when the text holds one of `.`, `!`, `?`. |
| SentenceSplitter.ScaleIsProduct | modules/transcriber.py:163 | `n` shares of `x` added up equal `n * x`, the duration the source computes. |
| SentenceSplitter.ScaleAdd | modules/transcriber.py:163-164 | The shares of `a + b` characters are those of `a` characters plus those of `b`. |
| SentenceSplitter.ScaleNonNegative | modules/transcriber.py:163 | Helper: a non-negative time per character gives non-negative durations. |
| SentenceSplitter.Proportion | modules/transcriber.py:155 | Helper: dividing a span over `n` characters and multiplying back gives the span. |
| SentenceSplitter.DistributeLength | modules/transcriber.py:158-172 | With no blank piece, every piece yields exactly one output. |
| SentenceSplitter.ElapsedIsProportional | modules/transcriber.py:163-172 | The time that has elapsed before piece `j` is the time per character times the characters of the pieces before `j`. |
| SentenceSplitter.DistributeAt | modules/transcriber.py:158-172 | With no blank piece, output `j` is piece `j` stripped. It starts once the pieces before it have elapsed and lasts its own length times the time per character. |
| SentenceSplitter.DistributeHead | modules/transcriber.py:159-172 | A non-blank piece yields its own output first, and the clock moves on to that output's end. |
| SentenceSplitter.DistributeSkip | modules/transcriber.py:160-161 | A blank piece contributes no output and does not move the clock. |
| SentenceSplitter.DistributeStep | modules/transcriber.py:163-172 | The same step holds with the end time written as `current_time + len(sentence) * time_per_char`. |
| SentenceSplitter.ScaleSpan | modules/transcriber.py:154-163 | The shares of all the text's characters add up to exactly `end - start`. |
| SentenceSplitter.TimePerCharNonNegative | modules/transcriber.py:155 | Helper: a segment that does not run backwards has a non-negative time per character. |
| SentenceSplitter.RefineAt | modules/transcriber.py:149-172 | For a segment with marks, output `j` is piece `j` stripped. It starts at `start` plus the shares of the characters before piece `j` and ends one piece-share later. |
| SentenceSplitter.RefineDistributes | modules/transcriber.py:149-158 | With a mark present, the output is the timed distribution of the non-blank pieces at `(end - start) / len(text)` per character. |
| SentenceSplitter.RefineSpec | modules/transcriber.py:121-172 | Pass-through: without a mark the segment itself is returned. Piece structure: with marks there is one output per mark, and output `j` is piece `j` stripped. Time distribution: the first output starts at the start, each later one starts where the previous ended, and the last ends exactly at the end. Every duration is `len(piece) * (end - start) / len(text)`, and no output runs backwards when the segment does not. |
| SentenceSplitter.RefinePieces | modules/transcriber.py:159-170 | Every output carries its piece stripped and lasts its piece's share. None runs backwards when the segment does not. |
| SentenceSplitter.RefineChained | modules/transcriber.py:164-172 | Each output starts where the one before it ended. |
| SentenceSplitter.RefineCovers | modules/transcriber.py:149-172 | There is one output per mark; the first starts at the segment's start and the last ends exactly at its end. |
| SentenceSplitter.RefineStarts | modules/transcriber.py:158-164 | There is one output per mark, and the first starts at the segment's start. |
| SentenceSplitter.RefineEnds | modules/transcriber.py:149-172 | The last output ends exactly at the segment's end. |
| SentenceSplitter.ScaleLast | modules/transcriber.py:149-164 | The shares of all pieces are the shares of the pieces before the last plus the last piece's share. |
| SentenceSplitter.OneMarkFixed | modules/transcriber.py:124-172 | A stripped text holding exactly one mark comes back unchanged, with its own span. |
| SentenceSplitter.RefineIsFixed | modules/transcriber.py:121-172 | Splitting the outputs of one segment again returns them unchanged. |
| SentenceSplitter.RefineAllAppend | modules/transcriber.py:118-174 | Splitting a concatenation of segment lists splits each part. |
| SentenceSplitter.RefineAllOfFixed | modules/transcriber.py:118-174 | A list of segments each of which splits to itself splits to itself. |
| SentenceSplitter.RefineAllIdempotent | modules/transcriber.py:116-174 | `split_at_punctuation` is idempotent: applying it to its own output changes nothing. |
| SentenceSplitter.CoversAppend | modules/transcriber.py:118-172 | Helper: outputs covering two input lists, appended, cover the two lists appended. |
| SentenceSplitter.RefineOrdered | modules/transcriber.py:121-172 | A segment with `start <= end` splits into a non-empty ordered list. It starts at the segment's start and ends at its end. |
| SentenceSplitter.RefineAllOrdered | modules/transcriber.py:116-174 | The Segment invariant survives sentence splitting: an ordered list splits into an ordered list with the same first start and last end. The output is empty only when the input is. |
| SentenceSplitter.DistributeTimes | modules/transcriber.py:158-172 | The timing loop returns `Distribute(pieces, 0, start, time_per_char)`. |
| SentenceSplitter.RefineSegment | modules/transcriber.py:121-172 | The loop body for one segment returns `Refine(segment)`. |
| SentenceSplitter.SplitAtPunctuation | modules/transcriber.py:116-174 | The whole function returns `RefineAll(segments)`, each segment's outputs in input order. |
| SrtWriter.SrtFromEmptyIffAllSkipped | modules/transcriber.py:183-197 | Nothing is written exactly when every remaining segment has blank stripped text (both directions). |
| SrtWriter.BlockNonEmpty | modules/transcriber.py:188-197 | Helper: a block is never empty. |
| SrtWriter.RenderSrt | modules/transcriber.py:183-201 | The error is returned exactly when every segment is blank, which includes the empty list. Otherwise the result is the blocks in order, one per non-blank segment, numbered by 1-based input position. |
| SrtWriter.ReadUntilOf | modules/transcriber.py:188-197 | Reading up to a delimiter absent from a field gives back the field and what follows it. |
| SrtWriter.AvoidsConcat | modules/transcriber.py:188-197 | Helper: a character absent from two strings is absent from their concatenation. |
| SrtWriter.FormatTimeAvoids | modules/utils.py:116 | A timestamp of a non-negative time holds only digits, colons and its comma, so no space and no newline. |
| SrtWriter.StripAvoids | modules/transcriber.py:197 | `strip()` adds no character, so a text without line breaks stays without them. |
| SrtWriter.FormatTimeReadable | modules/utils.py:116 | A non-negative timestamp contains neither block separator and reads back as its clock fields. |
| SrtWriter.BlockLines | modules/transcriber.py:188-197 | A block is its number line, then its time line, then its text line with the closing blank line. |
| SrtWriter.ReadNumberOf | modules/transcriber.py:189 | The first line of a block reads back as the segment number. |
| SrtWriter.ReadTimesOfParts | modules/transcriber.py:192-194 | A line `START --> END` made of two readable timestamps reads back as their two clocks. |
| SrtWriter.ReadTimesOf | modules/transcriber.py:192-194 | The second line reads back as the clocks of the segment's start and end. |
| SrtWriter.ReadTextOf | modules/transcriber.py:197 | The third line reads back as the stripped text, and the blank line after it closes the block. |
| SrtWriter.ReadBlockOf | modules/transcriber.py:188-197 | A block reads back as its number, the clocks of its two times and its stripped text, leaving the rest of the output untouched. |
| SrtWriter.ParseSrtFrom | modules/transcriber.py:183-197 | Round trip: reading the written text back gives one entry per non-blank segment, in order. Each entry has the segment's 1-based input position, the clocks of its start and end, and its stripped text. |
| Pipeline.FinalSegmentsOrdered | modules/transcriber.py:67-174 | For well-timed words, `split_at_punctuation(split_into_short_lines(...))` is ordered and sorted by start. It spans exactly from the first word's start to the last word's end, and it is empty only when there are no words. |

## Left out

- The default arguments `max_line_length=40, max_line_duration=3.0` of `split_into_short_lines` (modules/transcriber.py:67) are not modelled; the limits are always parameters. The one caller, modules/video_processor.py:58, passes both.
- `transcribe_audio` (modules/transcriber.py:9-65) runs the external recogniser over a WAV file and reports progress. Its output is an input here, `seq<seq<Word>>`.
- The filesystem calls of `create_srt_file` (lines 179, 182 and 200) are `makedirs`, `open`/`write` and `os.path.getsize`. The model returns the text that would be written. "The file is missing or has size 0" becomes "nothing was written", since UTF-8 encodes any non-empty text to a non-empty file.
- The `st.error` reporting at modules/transcriber.py:205-209 is user interface. The re-raise is the `Err(EmptySubtitleFile)` result.
- The rest of modules/utils.py (dependency checks, downloads, ffmpeg calls, the HTML player, the model table), modules/video_processor.py, modules/ui.py and app.py are I/O, configuration or user interface. They are not part of this model.
- IEEE-754 floating point is not modelled; times are exact reals. Float effects are therefore absent: `int((seconds - int(seconds)) * 1000)` losing a millisecond (`1.001` is stored just below 1.001, so the source prints `00:00:01,000` where the model prints `00:00:01,001`), and drift in the chained end times.
- Python's `re` module is replaced by explicit scans: `ContainsMark` for `re.search` at line 124, and `SplitSentences` for `re.split` plus the grouping loop at lines 129-141.
- The `else` branch at modules/transcriber.py:136-137 is left out because it cannot run. The guard at lines 144-146 is left out because `sentences` always has one piece per mark, and so is non-empty. The guard at lines 150-152 is kept in `Refine` and `RefineSegment`, and `SentencesKept` shows it is never taken.
- The specification function `Distribute` writes a duration as `Scale(len(piece), time_per_char)`, repeated addition. The methods compute the product, as the source does, and `ScaleIsProduct` proves the two equal.
- "The very same record" in the pass-through is value equality: Dafny datatypes have no object identity. Keys of the recogniser's dictionaries other than `word`, `start`, `end` and `text` are not modelled.
- LineSegmenter.BatchSegmentsSpec, LineText and JoinedEnds: these require every word to be non-empty and free of whitespace, as the recogniser delivers them. Without that, `strip()` at lines 92 and 110 could remove more than the trailing separator. `SplitIntoShortLines` itself has no precondition.
- LineSegmenter.ShortLinesOrdered and Pipeline.FinalSegmentsOrdered: these require the recogniser's words to be timed consistently. No word may end before it starts or start before the previous word ends. The source never checks this, and without it the output can be out of order.
- SrtWriter.ParseSrtFrom: stated only for non-negative times and texts without line breaks. A negative time renders a `-` sign the reader does not accept, and a line break inside a text would split the block.
- TimeFormat.ClockIsFloorMillis, ClockTruncates, ClockRoundTrip, ClockMonotonic and FormatTimeShape: stated for non-negative times only. `format_time` of a time in (-3600, 0) gives hours 0 and a clock near one hour (`-0.5` gives `00:59:59,500`); `ClockOf` states its field ranges for all times.
