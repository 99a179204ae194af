/** Character-level helpers shared by the segmenter, the splitter and the
    SubRip writer: Python's whitespace test and `str.strip()`, the sentence
    marks, and decimal rendering and parsing of integers. */
module Text {

  /** The characters for which Python's `str.isspace()` is true. */
  predicate IsSpace(c: char) {
    c == ' ' || ('\t' <= c <= '\r') || ('\U{1c}' <= c <= '\U{1f}')
    || c == '\U{85}' || c == '\U{a0}' || c == '\U{1680}'
    || ('\U{2000}' <= c <= '\U{200a}') || c == '\U{2028}' || c == '\U{2029}'
    || c == '\U{202f}' || c == '\U{205f}' || c == '\U{3000}'
  }

  /** Every character of `s` is whitespace (the empty string included). */
  predicate Blank(s: string) {
    forall i :: 0 <= i < |s| ==> IsSpace(s[i])
  }

  /** Drops leading whitespace. */
  function TrimStart(s: string): string {
    if s != [] && IsSpace(s[0]) then TrimStart(s[1..]) else s
  }

  /** Drops trailing whitespace. */
  function TrimEnd(s: string): string {
    if s != [] && IsSpace(s[|s| - 1]) then TrimEnd(s[..|s| - 1]) else s
  }

  /** `TrimStart(s)` is the suffix of `s` that starts at its first
      non-whitespace character. */
  lemma {:induction false} TrimStartSuffix(s: string)
    ensures var r := TrimStart(s);
      |r| <= |s| && r == s[|s| - |r|..]
      && (forall i :: 0 <= i < |s| - |r| ==> IsSpace(s[i]))
      && (r == [] || !IsSpace(r[0]))
  {
    if s != [] && IsSpace(s[0]) {
      var t := s[1..];
      TrimStartSuffix(t);
      var r := TrimStart(t);
      assert TrimStart(s) == r;
      assert s[|s| - |r|..] == t[|t| - |r|..];
      forall i | 0 <= i < |s| - |r| ensures IsSpace(s[i]) {
        if i > 0 {
          assert s[i] == t[i - 1];
        }
      }
    }
  }

  /** `TrimEnd(s)` is the prefix of `s` that ends at its last non-whitespace
      character. */
  lemma {:induction false} TrimEndPrefix(s: string)
    ensures var r := TrimEnd(s);
      |r| <= |s| && r == s[..|r|]
      && (forall i :: |r| <= i < |s| ==> IsSpace(s[i]))
      && (r == [] || !IsSpace(r[|r| - 1]))
  {
    if s != [] && IsSpace(s[|s| - 1]) {
      var t := s[..|s| - 1];
      TrimEndPrefix(t);
      var r := TrimEnd(t);
      assert TrimEnd(s) == r;
      assert s[..|r|] == t[..|r|];
      forall i | |r| <= i < |s| ensures IsSpace(s[i]) {
        if i < |t| {
          assert s[i] == t[i];
        }
      }
    }
  }

  /** Python's `s.strip()`: whitespace removed at both ends. */
  function Strip(s: string): string {
    TrimEnd(TrimStart(s))
  }

  /** `Strip(s)` is a contiguous slice of `s` with only whitespace around it,
      and it neither starts nor ends with whitespace. */
  lemma StripSlice(s: string) returns (i: nat, j: nat)
    ensures i <= j <= |s| && Strip(s) == s[i..j]
    ensures Blank(s[..i]) && Blank(s[j..])
    ensures Strip(s) == [] || (!IsSpace(Strip(s)[0]) && !IsSpace(Strip(s)[|Strip(s)| - 1]))
  {
    var t := TrimStart(s);
    TrimStartSuffix(s);
    TrimEndPrefix(t);
    i := |s| - |t|;
    j := i + |TrimEnd(t)|;
    assert t[|TrimEnd(t)|..] == s[j..];
  }

  /** `strip()` yields the empty string exactly on blank strings. */
  lemma StripEmptyIffBlank(s: string)
    ensures Strip(s) == [] <==> Blank(s)
  {
    var i, j := StripSlice(s);
    assert Strip(s) != [] ==> Strip(s)[0] == s[i];
    if !Blank(s) {
      var k :| 0 <= k < |s| && !IsSpace(s[k]);
      assert forall m :: 0 <= m < i ==> s[..i][m] == s[m];
      assert forall m :: j <= m < |s| ==> s[j..][m - j] == s[m];
    }
  }

  /** A string that neither starts nor ends with whitespace is its own strip. */
  lemma StripTrimmed(s: string)
    requires s == [] || (!IsSpace(s[0]) && !IsSpace(s[|s| - 1]))
    ensures Strip(s) == s
  {
  }

  /** `strip()` is idempotent. */
  lemma StripIdempotent(s: string)
    ensures Strip(Strip(s)) == Strip(s)
  {
    var _, _ := StripSlice(s);
    StripTrimmed(Strip(s));
  }

  /** A trailing space is the only thing `strip()` removes from a string
      that neither starts nor ends with whitespace. */
  lemma StripTrailingSpace(s: string)
    requires s != [] && !IsSpace(s[0]) && !IsSpace(s[|s| - 1])
    ensures Strip(s + " ") == s
  {
    assert TrimStart(s + " ") == s + " ";
    assert (s + " ")[..|s|] == s;
    assert TrimEnd(s + " ") == TrimEnd(s) == s;
  }

  /** The sentence-terminal punctuation `[.!?]`. */
  predicate IsMark(c: char) {
    c == '.' || c == '!' || c == '?'
  }

  /** `re.search(r'[.!?]', s)` succeeds. */
  predicate HasMark(s: string) {
    exists i :: 0 <= i < |s| && IsMark(s[i])
  }

  /** The number of sentence marks in `s`. */
  function CountMarks(s: string): nat
  {
    if s == [] then 0
    else CountMarks(s[..|s| - 1]) + (if IsMark(s[|s| - 1]) then 1 else 0)
  }

  lemma {:induction false} CountMarksAppend(a: string, b: string)
    ensures CountMarks(a + b) == CountMarks(a) + CountMarks(b)
    decreases |b|
  {
    if b == [] {
      assert a + b == a;
    } else {
      assert (a + b)[..|a + b| - 1] == a + b[..|b| - 1];
      CountMarksAppend(a, b[..|b| - 1]);
    }
  }

  /** Counting marks and searching for one agree. */
  lemma {:induction false} CountMarksPositiveIffHasMark(s: string)
    ensures CountMarks(s) > 0 <==> HasMark(s)
    decreases |s|
  {
    if s != [] {
      var p := s[..|s| - 1];
      CountMarksPositiveIffHasMark(p);
      if HasMark(p) {
        var k :| 0 <= k < |p| && IsMark(p[k]);
        assert s[k] == p[k];
      }
      if HasMark(s) && !IsMark(s[|s| - 1]) {
        var k :| 0 <= k < |s| && IsMark(s[k]);
        assert p[k] == s[k];
      }
    }
  }

  /** Whitespace holds no marks. */
  lemma {:induction false} BlankHasNoMarks(s: string)
    requires Blank(s)
    ensures CountMarks(s) == 0
    decreases |s|
  {
    if s != [] {
      assert Blank(s[..|s| - 1]);
      BlankHasNoMarks(s[..|s| - 1]);
    }
  }

  /** `strip()` removes no sentence mark. */
  lemma StripKeepsMarks(s: string)
    ensures CountMarks(Strip(s)) == CountMarks(s)
  {
    var i, j := StripSlice(s);
    assert s == s[..i] + s[i..j] + s[j..];
    CountMarksAppend(s[..i] + s[i..j], s[j..]);
    CountMarksAppend(s[..i], s[i..j]);
    BlankHasNoMarks(s[..i]);
    BlankHasNoMarks(s[j..]);
  }

  /** A string with a mark in it is not blank. */
  lemma MarkedNotBlank(s: string)
    requires CountMarks(s) > 0
    ensures !Blank(s) && Strip(s) != []
  {
    if Blank(s) {
      BlankHasNoMarks(s);
    }
    StripEmptyIffBlank(s);
  }

  // ---------------------------------------------------------------------
  // Decimal numerals, as produced by Python's `f"{n}"` and `f"{n:0Wd}"`.

  function DigitChar(d: nat): (c: char)
    requires d < 10
    ensures '0' <= c <= '9'
  {
    "0123456789"[d]
  }

  predicate IsDigit(c: char) {
    '0' <= c <= '9'
  }

  predicate AllDigits(s: string) {
    forall i :: 0 <= i < |s| ==> IsDigit(s[i])
  }

  /** The shortest decimal numeral for `n` (Python `str(n)` for `n >= 0`). */
  function Digits(n: nat): (r: string)
    ensures r != [] && AllDigits(r)
    ensures r[0] != '0' || n == 0
    ensures n < 10 <==> |r| == 1
    ensures n < 100 ==> |r| <= 2
    ensures n < 1000 ==> |r| <= 3
  {
    if n < 10 then [DigitChar(n)] else Digits(n / 10) + [DigitChar(n % 10)]
  }

  /** `k` copies of the character `0`. */
  function Zeros(k: nat): (r: string)
    ensures |r| == k && (forall i :: 0 <= i < k ==> r[i] == '0')
  {
    if k == 0 then [] else "0" + Zeros(k - 1)
  }

  /** Python's `f"{n:0{width}d}"`: the numeral for `n`, zero-padded after
      the sign to at least `width` characters. */
  function PadInt(n: int, width: nat): (r: string)
    ensures n >= 0 ==> AllDigits(r) && ParseNat(r) == n
    ensures n >= 0 ==> |r| == if |Digits(n)| < width then width else |Digits(n)|
    ensures |r| >= width
  {
    if n >= 0 then
      ParseLeadingZeros(if |Digits(n)| < width then width - |Digits(n)| else 0, Digits(n));
      ParseDigits(n);
      (if |Digits(n)| < width then Zeros(width - |Digits(n)|) else []) + Digits(n)
    else
      var w := if width == 0 then 0 else width - 1;
      "-" + (if |Digits(-n)| < w then Zeros(w - |Digits(-n)|) else []) + Digits(-n)
  }

  function DigitValue(c: char): nat
    requires IsDigit(c)
  {
    (c as int - '0' as int) as nat
  }

  /** Reads a string of decimal digits back as a number. */
  function ParseNat(s: string): nat
    requires AllDigits(s)
  {
    if s == [] then 0 else ParseNat(s[..|s| - 1]) * 10 + DigitValue(s[|s| - 1])
  }

  lemma DigitValueOfChar(d: nat)
    requires d < 10
    ensures DigitValue(DigitChar(d)) == d
  {
    assert "0123456789"[d] as int == '0' as int + d;
  }

  /** Reading a numeral back gives the number again. */
  lemma {:induction false} ParseDigits(n: nat)
    ensures ParseNat(Digits(n)) == n
  {
    if n < 10 {
      DigitValueOfChar(n);
    } else {
      var r := Digits(n);
      assert r[..|r| - 1] == Digits(n / 10);
      ParseDigits(n / 10);
      DigitValueOfChar(n % 10);
    }
  }

  /** Leading zeros do not change the value read. */
  lemma {:induction false} ParseLeadingZeros(k: nat, s: string)
    requires AllDigits(s)
    ensures AllDigits(Zeros(k) + s) && ParseNat(Zeros(k) + s) == ParseNat(s)
    decreases k + |s|
  {
    if s == [] {
      assert Zeros(k) + s == Zeros(k);
      if k > 0 {
        assert Zeros(k)[..k - 1] == Zeros(k - 1) + [];
        ParseLeadingZeros(k - 1, []);
      }
    } else {
      var t := Zeros(k) + s;
      assert t[..|t| - 1] == Zeros(k) + s[..|s| - 1];
      ParseLeadingZeros(k, s[..|s| - 1]);
    }
  }
}
