/** SubRip timestamps: `format_time` of modules/utils.py, which renders a
    number of seconds as `HH:MM:SS,mmm` by truncating division and modulo.
    Times are exact reals. */
module TimeFormat {
  import opened Types
  import opened Text

  /** The four fields of a SubRip timestamp. */
  datatype Clock = Clock(hours: int, minutes: int, seconds: int, millis: int)

  /** Python's `int(x)` on a float: rounds toward zero. */
  function Trunc(x: real): (n: int)
    ensures x >= 0.0 ==> 0 <= n && n as real <= x < n as real + 1.0
    ensures x < 0.0 ==> n <= 0 && n as real - 1.0 < x <= n as real
  {
    if x >= 0.0 then x.Floor else -((-x).Floor)
  }

  /** Python's `x % m` for a positive divisor: `x` less the largest whole
      multiple of `m` not above it. */
  function FloorMod(x: real, m: real): real
    requires m > 0.0
  {
    x - m * (x / m).Floor as real
  }

  /** The fields `format_time` computes for `t` seconds. */
  function ClockOf(t: real): (c: Clock)
    ensures 0 <= c.minutes < 60 && 0 <= c.seconds < 60 && 0 <= c.millis < 1000
    ensures c.hours >= 0 <==> t > -3600.0
  {
    var hours := Trunc(t / 3600.0);
    var r1 := FloorMod(t, 3600.0);
    var minutes := Trunc(r1 / 60.0);
    var r2 := FloorMod(r1, 60.0);
    var millis := Trunc((r2 - Trunc(r2) as real) * 1000.0);
    var seconds := Trunc(r2);
    Clock(hours, minutes, seconds, millis)
  }

  /** `format_time(t)`: `HH:MM:SS,mmm` with `:02d`, `:02d`, `:02d`, `:03d`. */
  function FormatTime(t: real): string {
    var c := ClockOf(t);
    PadInt(c.hours, 2) + ":" + PadInt(c.minutes, 2) + ":" + PadInt(c.seconds, 2)
      + "," + PadInt(c.millis, 3)
  }

  /** The instant a clock names, in whole milliseconds. */
  function TotalMillis(c: Clock): int {
    c.hours * 3_600_000 + c.minutes * 60_000 + c.seconds * 1000 + c.millis
  }

  /** The instant a clock names, in seconds. */
  function ClockSeconds(c: Clock): real {
    TotalMillis(c) as real / 1000.0
  }

  /** Lexicographic order on the field tuple. */
  predicate ClockLeq(a: Clock, b: Clock) {
    a.hours < b.hours
    || (a.hours == b.hours && (a.minutes < b.minutes
    || (a.minutes == b.minutes && (a.seconds < b.seconds
    || (a.seconds == b.seconds && a.millis <= b.millis)))))
  }

  /** For a non-negative time the fields spell out the whole milliseconds
      of `t`, rounded down. */
  lemma ClockIsFloorMillis(t: real)
    requires t >= 0.0
    ensures TotalMillis(ClockOf(t)) == (t * 1000.0).Floor
  {
    var c := ClockOf(t);
    var h := (t / 3600.0).Floor;
    var r1 := t - 3600.0 * h as real;
    var m := (r1 / 60.0).Floor;
    var r2 := r1 - 60.0 * m as real;
    var s := r2.Floor;
    var f := r2 - s as real;
    assert c.hours == h && c.minutes == m && c.seconds == s;
    assert c.millis == (f * 1000.0).Floor;
    var k := h * 3_600_000 + m * 60_000 + s * 1000;
    assert t * 1000.0 == k as real + f * 1000.0;
    FloorShift(k, f * 1000.0);
  }

  lemma FloorShift(k: int, x: real)
    ensures (k as real + x).Floor == k + x.Floor
  {
  }

  /** Truncation, not rounding: the clock never runs ahead of `t`, and
      falls short of it by less than one millisecond. */
  lemma ClockTruncates(t: real)
    requires t >= 0.0
    ensures ClockSeconds(ClockOf(t)) <= t < ClockSeconds(ClockOf(t)) + 0.001
  {
    ClockIsFloorMillis(t);
  }

  /** A time that is a whole number of milliseconds is read back exactly
      from its four fields. */
  lemma ClockRoundTrip(t: real)
    requires t >= 0.0 && (t * 1000.0).Floor as real == t * 1000.0
    ensures ClockSeconds(ClockOf(t)) == t
  {
    ClockIsFloorMillis(t);
  }

  /** Later times never show earlier fields. */
  lemma ClockMonotonic(t1: real, t2: real)
    requires 0.0 <= t1 <= t2
    ensures ClockLeq(ClockOf(t1), ClockOf(t2))
  {
    ClockIsFloorMillis(t1);
    ClockIsFloorMillis(t2);
    assert (t1 * 1000.0).Floor <= (t2 * 1000.0).Floor;
    LexFromMillis(ClockOf(t1), ClockOf(t2));
  }

  /** On fields within their ranges, ordering the instants orders the tuples. */
  lemma LexFromMillis(a: Clock, b: Clock)
    requires 0 <= a.minutes < 60 && 0 <= a.seconds < 60 && 0 <= a.millis < 1000
    requires 0 <= b.minutes < 60 && 0 <= b.seconds < 60 && 0 <= b.millis < 1000
    requires TotalMillis(a) <= TotalMillis(b)
    ensures ClockLeq(a, b)
  {
  }

  /** Reads `H+:MM:SS,mmm` (at least two hour digits) back into the fields. */
  function ParseTime(s: string): Option<Clock> {
    if |s| < 12 then None
    else
      var n := |s|;
      var hh, mm, ss, ms := s[..n - 10], s[n - 9..n - 7], s[n - 6..n - 4], s[n - 3..];
      if s[n - 10] == ':' && s[n - 7] == ':' && s[n - 4] == ','
         && AllDigits(hh) && AllDigits(mm) && AllDigits(ss) && AllDigits(ms)
      then Some(Clock(ParseNat(hh), ParseNat(mm), ParseNat(ss), ParseNat(ms)))
      else None
  }

  /** The shape of the output: colon, colon, comma in fixed places from the
      end, two-digit minutes and seconds, three-digit milliseconds, and
      hours of at least two digits (exactly two below 100 hours); reading
      it back gives the clock fields again. */
  lemma FormatTimeShape(t: real)
    requires t >= 0.0
    ensures var c, r := ClockOf(t), FormatTime(t);
      |r| == |PadInt(c.hours, 2)| + 10
      && (c.hours < 100 <==> |r| == 12)
      && r[|r| - 10] == ':' && r[|r| - 7] == ':' && r[|r| - 4] == ','
      && ParseTime(r) == Some(c)
  {
    var c := ClockOf(t);
    FormatTimeOfClock(t, c);
    ClockTextShape(c);
  }

  /** The padded text of a clock whose fields are in range. */
  lemma ClockTextShape(c: Clock)
    requires c.hours >= 0 && 0 <= c.minutes < 60 && 0 <= c.seconds < 60 && 0 <= c.millis < 1000
    ensures var r := PadInt(c.hours, 2) + ":" + PadInt(c.minutes, 2) + ":"
      + PadInt(c.seconds, 2) + "," + PadInt(c.millis, 3);
      |r| == |PadInt(c.hours, 2)| + 10
      && (c.hours < 100 <==> |r| == 12)
      && r[|r| - 10] == ':' && r[|r| - 7] == ':' && r[|r| - 4] == ','
      && ParseTime(r) == Some(c)
  {
    var hh, mm, ss, ms := PadInt(c.hours, 2), PadInt(c.minutes, 2), PadInt(c.seconds, 2), PadInt(c.millis, 3);
    assert |Digits(c.hours)| <= 2 <==> c.hours < 100 by {
      if c.hours >= 100 { DigitsLong(c.hours); }
    }
    ParseTimeOfParts(hh, mm, ss, ms);
  }

  /** Any four digit strings of the right widths, joined with the SubRip
      separators, read back as their four values. */
  lemma ParseTimeOfParts(hh: string, mm: string, ss: string, ms: string)
    requires |hh| >= 2 && |mm| == 2 && |ss| == 2 && |ms| == 3
    requires AllDigits(hh) && AllDigits(mm) && AllDigits(ss) && AllDigits(ms)
    ensures var r := hh + ":" + mm + ":" + ss + "," + ms;
      |r| == |hh| + 10
      && r[|r| - 10] == ':' && r[|r| - 7] == ':' && r[|r| - 4] == ','
      && ParseTime(r) == Some(Clock(ParseNat(hh), ParseNat(mm), ParseNat(ss), ParseNat(ms)))
  {
    var r := hh + ":" + mm + ":" + ss + "," + ms;
    var n := |r|;
    assert r[n - 10] == ':' && r[n - 7] == ':' && r[n - 4] == ',';
    assert r[..n - 10] == hh;
    assert r[n - 9..n - 7] == mm;
    assert r[n - 6..n - 4] == ss;
    assert r[n - 3..] == ms;
    ParseTimeFields(r, hh, mm, ss, ms);
  }

  lemma ParseTimeFields(r: string, hh: string, mm: string, ss: string, ms: string)
    requires |r| >= 12 && r[|r| - 10] == ':' && r[|r| - 7] == ':' && r[|r| - 4] == ','
    requires r[..|r| - 10] == hh && r[|r| - 9..|r| - 7] == mm && r[|r| - 6..|r| - 4] == ss && r[|r| - 3..] == ms
    requires AllDigits(hh) && AllDigits(mm) && AllDigits(ss) && AllDigits(ms)
    ensures ParseTime(r) == Some(Clock(ParseNat(hh), ParseNat(mm), ParseNat(ss), ParseNat(ms)))
  {
  }

  /** Numbers from 100 up need at least three digits. */
  lemma {:induction false} DigitsLong(n: nat)
    requires n >= 100
    ensures |Digits(n)| >= 3
  {
    assert |Digits(n / 10)| >= 2;
  }

  /** `format_time` pads the four fields of its clock. */
  lemma FormatTimeOfClock(t: real, c: Clock)
    requires ClockOf(t) == c
    ensures FormatTime(t) == PadInt(c.hours, 2) + ":" + PadInt(c.minutes, 2) + ":"
      + PadInt(c.seconds, 2) + "," + PadInt(c.millis, 3)
  {
  }

  /** Worked example: 12.345 s. */
  lemma FormatTimeExample1()
    ensures FormatTime(12.345) == "00:00:12,345"
  {
    ClockExample1();
    FormatTimeOfClock(12.345, Clock(0, 0, 12, 345));
    PadTwo(0);
    PadTwo(12);
    PadThree(345);
  }

  lemma ClockExample1()
    ensures ClockOf(12.345) == Clock(0, 0, 12, 345)
  {
  }

  /** Worked example: 3661.5 s, one hour, one minute and one and a half seconds. */
  lemma FormatTimeExample2()
    ensures FormatTime(3661.5) == "01:01:01,500"
  {
    ClockExample2();
    FormatTimeOfClock(3661.5, Clock(1, 1, 1, 500));
    PadTwo(1);
    PadThree(500);
  }

  lemma ClockExample2()
    ensures ClockOf(3661.5) == Clock(1, 1, 1, 500)
  {
  }

  /** `f"{n:02d}"` for `n < 100`: exactly the tens digit and the units digit. */
  lemma PadTwo(n: nat)
    requires n < 100
    ensures PadInt(n, 2) == [DigitChar(n / 10), DigitChar(n % 10)]
  {
    if n < 10 {
      assert Digits(n) == [DigitChar(n)];
      assert Zeros(1) == [DigitChar(0)];
    } else {
      assert Digits(n / 10) == [DigitChar(n / 10)];
    }
  }

  /** `f"{n:03d}"` for `100 <= n < 1000`: its three digits. */
  lemma PadThree(n: nat)
    requires 100 <= n < 1000
    ensures PadInt(n, 3) == [DigitChar(n / 100), DigitChar(n / 10 % 10), DigitChar(n % 10)]
  {
    assert Digits(n / 10) == [DigitChar(n / 100), DigitChar(n / 10 % 10)];
  }
}
