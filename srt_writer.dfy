/** SubRip rendering: the string-building loop of `create_srt_file` in
    modules/transcriber.py, and the error it raises when nothing was
    written. Every segment whose stripped text is not empty becomes one
    block `i\nSTART --> END\ntext\n\n`, where `i` is the segment's 1-based
    position in the input, so skipped segments leave gaps in the numbering. */
module SrtWriter {
  import opened Types
  import opened Text
  import opened TimeFormat

  /** `create_srt_file` finds the file it wrote empty (lines 199-201). */
  datatype SrtError = EmptySubtitleFile

  /** The block written for segment number `index` (lines 188-197). */
  function Block(index: nat, seg: Segment): string {
    Digits(index) + "\n" + FormatTime(seg.start) + " --> " + FormatTime(seg.end) + "\n"
      + Strip(seg.text) + "\n\n"
  }

  /** A segment the loop skips (lines 185-186). */
  predicate Skipped(seg: Segment) {
    Strip(seg.text) == []
  }

  /** What the loop writes for the segments from position `i` on. */
  function SrtFrom(segs: seq<Segment>, i: nat): string
    requires i <= |segs|
    decreases |segs| - i
  {
    if i == |segs| then []
    else if Skipped(segs[i]) then SrtFrom(segs, i + 1)
    else Block(i + 1, segs[i]) + SrtFrom(segs, i + 1)
  }

  /** Nothing is written exactly when every remaining segment is skipped. */
  lemma {:induction false} SrtFromEmptyIffAllSkipped(segs: seq<Segment>, i: nat)
    requires i <= |segs|
    ensures SrtFrom(segs, i) == [] <==> forall j :: i <= j < |segs| ==> Skipped(segs[j])
    decreases |segs| - i
  {
    if i < |segs| {
      SrtFromEmptyIffAllSkipped(segs, i + 1);
      if !Skipped(segs[i]) {
        BlockNonEmpty(i + 1, segs[i]);
      }
    }
  }

  lemma BlockNonEmpty(index: nat, seg: Segment)
    ensures |Block(index, seg)| > 0
  {
  }

  /** The rendering loop and the empty-output check of `create_srt_file`
      (lines 183-201), with the file replaced by the string written to it. */
  method RenderSrt(segments: seq<Segment>) returns (r: Result<string, SrtError>)
    ensures r.Err? <==> forall j :: 0 <= j < |segments| ==> Blank(segments[j].text)
    ensures r.Ok? ==> r.value == SrtFrom(segments, 0)
  {
    var written := "";
    for i := 0 to |segments|
      invariant written + SrtFrom(segments, i) == SrtFrom(segments, 0)
    {
      var segment := segments[i];
      if Strip(segment.text) == [] {
        continue;
      }
      var number := Digits(i + 1);
      var startTime := FormatTime(segment.start);
      var endTime := FormatTime(segment.end);
      var block := number + "\n" + startTime + " --> " + endTime + "\n" + Strip(segment.text) + "\n\n";
      AppendAssoc(written, block, SrtFrom(segments, i + 1));
      written := written + block;
    }
    assert written == SrtFrom(segments, 0);
    SrtFromEmptyIffAllSkipped(segments, 0);
    forall j | 0 <= j < |segments| ensures Skipped(segments[j]) <==> Blank(segments[j].text) {
      StripEmptyIffBlank(segments[j].text);
    }
    if written == [] {
      return Err(EmptySubtitleFile);
    }
    return Ok(written);
  }

  // ---------------------------------------------------------------------
  // Reading the output back.

  /** One block read back: its number, its two timestamps and its text. */
  datatype Entry = Entry(index: nat, start: Clock, end: Clock, text: string)

  /** The blocks the loop writes for the segments from position `i` on. */
  function EntriesFrom(segs: seq<Segment>, i: nat): seq<Entry>
    requires i <= |segs|
    decreases |segs| - i
  {
    if i == |segs| then []
    else if Skipped(segs[i]) then EntriesFrom(segs, i + 1)
    else [Entry(i + 1, ClockOf(segs[i].start), ClockOf(segs[i].end), Strip(segs[i].text))]
         + EntriesFrom(segs, i + 1)
  }

  /** No character of `s` is `c`. */
  predicate Avoids(s: string, c: char) {
    forall m :: 0 <= m < |s| ==> s[m] != c
  }

  /** The position of the first `c` in `s`, or `|s|` when there is none. */
  function IndexOf(s: string, c: char): (k: nat)
    ensures k <= |s|
  {
    if s == [] || s[0] == c then 0 else 1 + IndexOf(s[1..], c)
  }

  /** Splits `s` at its first `c`, dropping the `c`. */
  function ReadUntil(s: string, c: char): (r: Option<(string, string)>)
    ensures r.Some? ==> |r.value.1| < |s|
  {
    var k := IndexOf(s, c);
    if k == |s| then None else Some((s[..k], s[k + 1..]))
  }

  /** Reads the number line of a block. */
  function ReadNumber(s: string): (r: Option<(nat, string)>)
    ensures r.Some? ==> |r.value.1| < |s|
  {
    match ReadUntil(s, '\n')
    case None => None
    case Some((number, rest)) => if AllDigits(number) then Some((ParseNat(number), rest)) else None
  }

  /** Reads the `START --> END` line of a block. */
  function ReadTimes(s: string): (r: Option<(Clock, Clock, string)>)
    ensures r.Some? ==> |r.value.2| < |s|
  {
    match ReadUntil(s, ' ')
    case None => None
    case Some((from, s1)) =>
      if |s1| < 4 || s1[..4] != "--> " then None
      else
        match ReadUntil(s1[4..], '\n')
        case None => None
        case Some((to, rest)) =>
          match (ParseTime(from), ParseTime(to))
          case (Some(a), Some(b)) => Some((a, b, rest))
          case _ => None
  }

  /** Reads the text line of a block and the blank line that closes it. */
  function ReadText(s: string): (r: Option<(string, string)>)
    ensures r.Some? ==> |r.value.1| < |s|
  {
    match ReadUntil(s, '\n')
    case None => None
    case Some((text, s1)) => if s1 == [] || s1[0] != '\n' then None else Some((text, s1[1..]))
  }

  /** Reads one block off the front of `s`; returns it with what follows. */
  function ReadBlock(s: string): (r: Option<(Entry, string)>)
    ensures r.Some? ==> |r.value.1| < |s|
  {
    match ReadNumber(s)
    case None => None
    case Some((index, s1)) =>
      match ReadTimes(s1)
      case None => None
      case Some((a, b, s2)) =>
        match ReadText(s2)
        case None => None
        case Some((text, rest)) => Some((Entry(index, a, b, text), rest))
  }

  /** Reads a whole SubRip body back into its blocks. */
  function ParseSrt(s: string): Option<seq<Entry>>
    decreases |s|
  {
    if s == [] then Some([])
    else
      match ReadBlock(s)
      case None => None
      case Some((e, rest)) =>
        match ParseSrt(rest)
        case None => None
        case Some(es) => Some([e] + es)
  }

  lemma {:induction false} IndexOfFirst(a: string, c: char, b: string)
    requires Avoids(a, c)
    ensures IndexOf(a + [c] + b, c) == |a|
    decreases |a|
  {
    if a != [] {
      assert (a + [c] + b)[1..] == a[1..] + [c] + b;
      IndexOfFirst(a[1..], c, b);
    }
  }

  /** Reading up to the first `c` gives back the text before it. */
  lemma ReadUntilOf(a: string, c: char, b: string)
    requires Avoids(a, c)
    ensures ReadUntil(a + [c] + b, c) == Some((a, b))
  {
    IndexOfFirst(a, c, b);
    var s := a + [c] + b;
    assert s[..|a|] == a;
    assert s[|a| + 1..] == b;
  }

  lemma AvoidsConcat(a: string, b: string, c: char)
    requires Avoids(a, c) && Avoids(b, c)
    ensures Avoids(a + b, c)
  {
    forall m | 0 <= m < |a + b| ensures (a + b)[m] != c {
      if m >= |a| {
        assert (a + b)[m] == b[m - |a|];
      }
    }
  }

  lemma DigitsAvoid(s: string, c: char)
    requires AllDigits(s) && !IsDigit(c)
    ensures Avoids(s, c)
  {
  }

  /** A timestamp of a non-negative time holds only digits, colons and a
      comma. */
  lemma FormatTimeAvoids(t: real, c: char)
    requires t >= 0.0 && !IsDigit(c) && c != ':' && c != ','
    ensures Avoids(FormatTime(t), c)
  {
    var k := ClockOf(t);
    var hh, mm, ss, ms := PadInt(k.hours, 2), PadInt(k.minutes, 2), PadInt(k.seconds, 2), PadInt(k.millis, 3);
    DigitsAvoid(hh, c);
    DigitsAvoid(mm, c);
    DigitsAvoid(ss, c);
    DigitsAvoid(ms, c);
    AvoidsConcat(hh, ":", c);
    AvoidsConcat(hh + ":", mm, c);
    AvoidsConcat(hh + ":" + mm, ":", c);
    AvoidsConcat(hh + ":" + mm + ":", ss, c);
    AvoidsConcat(hh + ":" + mm + ":" + ss, ",", c);
    AvoidsConcat(hh + ":" + mm + ":" + ss + ",", ms, c);
  }

  /** Stripping a line adds no character to it. */
  lemma StripAvoids(s: string, c: char)
    requires Avoids(s, c)
    ensures Avoids(Strip(s), c)
  {
    var i, j := StripSlice(s);
    forall m | 0 <= m < j - i ensures Strip(s)[m] != c {
      assert Strip(s)[m] == s[i + m];
    }
  }

  /** The three lines of a block: its number, its times, and its text
      followed by the blank line. */
  function NumberLine(index: nat): string { Digits(index) + "\n" }

  function TimeLine(seg: Segment): string {
    FormatTime(seg.start) + " --> " + FormatTime(seg.end) + "\n"
  }

  function TextLine(seg: Segment): string { Strip(seg.text) + "\n\n" }

  lemma BlockLines(index: nat, seg: Segment, rest: string)
    ensures Block(index, seg) + rest == NumberLine(index) + (TimeLine(seg) + (TextLine(seg) + rest))
  {
    Regroup(Digits(index), FormatTime(seg.start), FormatTime(seg.end), Strip(seg.text), rest);
  }

  lemma Regroup(number: string, from: string, to: string, text: string, rest: string)
    ensures number + "\n" + from + " --> " + to + "\n" + text + "\n\n" + rest
      == (number + "\n") + ((from + " --> " + to + "\n") + ((text + "\n\n") + rest))
  {
  }

  lemma ReadNumberOf(index: nat, rest: string)
    ensures ReadNumber(NumberLine(index) + rest) == Some((index, rest))
  {
    DigitsAvoid(Digits(index), '\n');
    ReadUntilOf(Digits(index), '\n', rest);
    ParseDigits(index);
  }

  lemma TimeLineParts(from: string, to: string, rest: string)
    ensures from + " --> " + to + "\n" + rest == from + " " + ("--> " + to + "\n" + rest)
  {
  }

  /** The time line reads back any two well-formed timestamps. */
  lemma ReadTimesOfParts(from: string, to: string, rest: string, a: Clock, b: Clock)
    requires Avoids(from, ' ') && Avoids(to, '\n')
    requires ParseTime(from) == Some(a) && ParseTime(to) == Some(b)
    ensures ReadTimes(from + " --> " + to + "\n" + rest) == Some((a, b, rest))
  {
    var s1 := "--> " + to + "\n" + rest;
    TimeLineParts(from, to, rest);
    ReadUntilOf(from, ' ', s1);
    assert s1[..4] == "--> " && s1[4..] == to + "\n" + rest;
    ReadUntilOf(to, '\n', rest);
  }

  /** A rendered timestamp contains no separator of the block and reads back
      as its clock. */
  lemma FormatTimeReadable(t: real)
    requires t >= 0.0
    ensures Avoids(FormatTime(t), ' ') && Avoids(FormatTime(t), '\n')
    ensures ParseTime(FormatTime(t)) == Some(ClockOf(t))
  {
    FormatTimeAvoids(t, ' ');
    FormatTimeAvoids(t, '\n');
    FormatTimeShape(t);
  }

  lemma ReadTimesOf(seg: Segment, rest: string)
    requires seg.start >= 0.0 && seg.end >= 0.0
    ensures ReadTimes(TimeLine(seg) + rest) == Some((ClockOf(seg.start), ClockOf(seg.end), rest))
  {
    FormatTimeReadable(seg.start);
    FormatTimeReadable(seg.end);
    ReadTimesOfParts(FormatTime(seg.start), FormatTime(seg.end), rest, ClockOf(seg.start), ClockOf(seg.end));
  }

  lemma ReadTextOf(seg: Segment, rest: string)
    requires Avoids(seg.text, '\n')
    ensures ReadText(TextLine(seg) + rest) == Some((Strip(seg.text), rest))
  {
    var text := Strip(seg.text);
    StripAvoids(seg.text, '\n');
    assert text + "\n\n" + rest == text + "\n" + ("\n" + rest);
    ReadUntilOf(text, '\n', "\n" + rest);
    assert ("\n" + rest)[1..] == rest;
  }

  lemma ReadBlockSteps(s: string, index: nat, s1: string, a: Clock, b: Clock, s2: string, text: string, rest: string)
    requires ReadNumber(s) == Some((index, s1))
    requires ReadTimes(s1) == Some((a, b, s2))
    requires ReadText(s2) == Some((text, rest))
    ensures ReadBlock(s) == Some((Entry(index, a, b, text), rest))
  {
  }

  /** A block reads back as its number, the clocks of its two times and its
      stripped text, leaving what follows it untouched. */
  lemma ReadBlockOf(index: nat, seg: Segment, rest: string)
    requires seg.start >= 0.0 && seg.end >= 0.0 && Avoids(seg.text, '\n')
    ensures ReadBlock(Block(index, seg) + rest)
      == Some((Entry(index, ClockOf(seg.start), ClockOf(seg.end), Strip(seg.text)), rest))
  {
    var s2 := TextLine(seg) + rest;
    var s1 := TimeLine(seg) + s2;
    BlockLines(index, seg, rest);
    ReadNumberOf(index, s1);
    ReadTimesOf(seg, s2);
    ReadTextOf(seg, rest);
    ReadBlockSteps(Block(index, seg) + rest, index, s1, ClockOf(seg.start), ClockOf(seg.end), s2,
                   Strip(seg.text), rest);
  }

  /** Round trip: reading the written body back gives, in order, one entry
      per segment that was not skipped, carrying that segment's 1-based
      position, the clocks of its start and end, and its stripped text. */
  lemma {:induction false} ParseSrtFrom(segs: seq<Segment>, i: nat)
    requires i <= |segs|
    requires forall j :: 0 <= j < |segs| ==>
      segs[j].start >= 0.0 && segs[j].end >= 0.0 && Avoids(segs[j].text, '\n')
    ensures ParseSrt(SrtFrom(segs, i)) == Some(EntriesFrom(segs, i))
    decreases |segs| - i
  {
    if i < |segs| {
      ParseSrtFrom(segs, i + 1);
      if !Skipped(segs[i]) {
        var rest := SrtFrom(segs, i + 1);
        ReadBlockOf(i + 1, segs[i], rest);
        assert Block(i + 1, segs[i]) + rest != [];
      }
    }
  }
}
