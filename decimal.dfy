/**
 * Decimal text for Java `long` values: `Long.toString` / `String.valueOf`
 * (ASCII digits) and `Long.parseLong` (an optional sign, then decimal digits of
 * any script, 64-bit range).
 */
module Decimal {
  import opened Wrappers

  const LongMin: int := -0x8000_0000_0000_0000
  const LongMax: int := 0x7FFF_FFFF_FFFF_FFFF

  predicate InLongRange(n: int) { LongMin <= n <= LongMax }

  predicate IsDigit(c: char) { '0' <= c <= '9' }

  predicate AllDigits(s: string) {
    forall i :: 0 <= i < |s| ==> IsDigit(s[i])
  }

  function DigitChar(d: int): char
    requires 0 <= d < 10
  {
    ('0' as int + d) as char
  }

  function DigitValue(c: char): int
    requires IsDigit(c)
  {
    c as int - '0' as int
  }

  /** The value of a string of digits, most significant first. */
  function DigitsValue(s: string): nat
    requires AllDigits(s)
  {
    if s == [] then 0 else DigitsValue(s[..|s| - 1]) * 10 + DigitValue(s[|s| - 1])
  }

  /** The shortest decimal form of `n`, with no sign and no leading zero. */
  function NatToString(n: nat): (r: string)
    ensures |r| >= 1 && AllDigits(r)
    ensures r[0] == '0' ==> n == 0
  {
    if n < 10 then [DigitChar(n)] else NatToString(n / 10) + [DigitChar(n % 10)]
  }

  /** `Long.toString(n)`: a minus sign for negative values, then the digits. */
  function IntToString(n: int): (r: string)
    ensures |r| >= 1
    ensures n >= 0 ==> AllDigits(r)
    ensures n < 0 <==> r[0] == '-'
  {
    if n < 0 then "-" + NatToString(-n) else NatToString(n)
  }

  lemma {:induction false} NatToStringValue(n: nat)
    ensures DigitsValue(NatToString(n)) == n
  {
    if n >= 10 {
      var s := NatToString(n);
      assert s[..|s| - 1] == NatToString(n / 10);
      NatToStringValue(n / 10);
    }
  }

  /**
   * The zero of every run of ten decimal digits (Unicode general category Nd)
   * in the Basic Multilingual Plane, as of Unicode 15.1: ASCII, Arabic-Indic,
   * extended Arabic-Indic, NKo, the Indic scripts, Sinhala, Thai, Lao, Tibetan,
   * Myanmar, Khmer, Mongolian, Limbu, New Tai Lue, Tai Tham, Balinese, Sundanese,
   * Lepcha, Ol Chiki, Vai, Saurashtra, Kayah Li, Javanese, Myanmar Tai Laing,
   * Cham, Meetei Mayek and the fullwidth forms. A Java `char` is one UTF-16
   * unit, so the digit runs outside this plane never reach `Character.digit`.
   */
  const DigitZeros: seq<int> := [
    0x0030, 0x0660, 0x06F0, 0x07C0, 0x0966, 0x09E6, 0x0A66, 0x0AE6, 0x0B66, 0x0BE6,
    0x0C66, 0x0CE6, 0x0D66, 0x0DE6, 0x0E50, 0x0ED0, 0x0F20, 0x1040, 0x1090, 0x17E0,
    0x1810, 0x1946, 0x19D0, 0x1A80, 0x1A90, 0x1B50, 0x1BB0, 0x1C40, 0x1C50, 0xA620,
    0xA8D0, 0xA900, 0xA9D0, 0xA9F0, 0xAA50, 0xABF0, 0xFF10]

  /** The value of `c` in the first run of ten that starts at one of `zeros`, or -1. */
  function RunDigit(zeros: seq<int>, c: int): (r: int)
    ensures -1 <= r <= 9
  {
    if zeros == [] then -1
    else if zeros[0] <= c < zeros[0] + 10 then c - zeros[0]
    else RunDigit(zeros[1..], c)
  }

  lemma {:induction false} RunDigitMeaning(zeros: seq<int>, c: int)
    ensures RunDigit(zeros, c) >= 0 <==> exists k :: 0 <= k < |zeros| && zeros[k] <= c < zeros[k] + 10
    ensures RunDigit(zeros, c) >= 0 ==> c - RunDigit(zeros, c) in zeros
  {
    if zeros != [] && !(zeros[0] <= c < zeros[0] + 10) {
      RunDigitMeaning(zeros[1..], c);
      forall k | 0 <= k < |zeros| && zeros[k] <= c < zeros[k] + 10
        ensures exists j :: 0 <= j < |zeros[1..]| && zeros[1..][j] <= c < zeros[1..][j] + 10
      {
        assert k > 0 && zeros[1..][k - 1] == zeros[k];
      }
    }
  }

  /**
   * `Character.digit(c, 10)`: the value of a decimal digit of any script, and
   * -1 for every other char.
   */
  function JavaDigit(c: char): (r: int)
    ensures -1 <= r <= 9
  {
    RunDigit(DigitZeros, c as int)
  }

  /** The ASCII digits are the first run. */
  lemma JavaDigitAscii(c: char)
    requires IsDigit(c)
    ensures JavaDigit(c) == DigitValue(c)
  {
    assert DigitZeros[0] == 0x30;
  }

  predicate AllJavaDigits(s: string) {
    forall i :: 0 <= i < |s| ==> JavaDigit(s[i]) >= 0
  }

  /** The value of a string of decimal digits of any script, most significant first. */
  function JavaDigitsValue(s: string): nat
    requires AllJavaDigits(s)
  {
    if s == [] then 0 else JavaDigitsValue(s[..|s| - 1]) * 10 + JavaDigit(s[|s| - 1])
  }

  /** ASCII digits are decimal digits with their usual values. */
  lemma {:induction false} AsciiDigitsValue(s: string)
    requires AllDigits(s)
    ensures AllJavaDigits(s) && JavaDigitsValue(s) == DigitsValue(s)
  {
    if s != [] {
      AsciiDigitsValue(s[..|s| - 1]);
      JavaDigitAscii(s[|s| - 1]);
      forall i | 0 <= i < |s|
        ensures JavaDigit(s[i]) >= 0
      {
        JavaDigitAscii(s[i]);
      }
    }
  }

  /**
   * `Long.parseLong(s)`: an optional `+` or `-`, then one or more decimal
   * digits whose value fits in a `long`; anything else is a
   * NumberFormatException (None).
   */
  function ParseLong(s: string): (r: Option<int>)
    ensures r.Some? ==> InLongRange(r.value)
  {
    if s == [] then None
    else
      var negative := s[0] == '-';
      var digits := if s[0] == '-' || s[0] == '+' then s[1..] else s;
      if digits == [] || !AllJavaDigits(digits) then None
      else
        var v: int := if negative then -(JavaDigitsValue(digits) as int) else JavaDigitsValue(digits);
        if InLongRange(v) then Some(v) else None
  }

  /** Unsigned digits parse to their value when it is in range. */
  lemma ParseUnsigned(s: string)
    requires s != [] && AllDigits(s) && InLongRange(DigitsValue(s))
    ensures ParseLong(s) == Some(DigitsValue(s) as int)
  {
    assert IsDigit(s[0]);
    AsciiDigitsValue(s);
  }

  /** A minus sign followed by digits parses to the negated value when it is in range. */
  lemma ParseNegative(d: string)
    requires d != [] && AllDigits(d) && InLongRange(-(DigitsValue(d) as int))
    ensures ParseLong("-" + d) == Some(-(DigitsValue(d) as int))
  {
    var s := "-" + d;
    assert s[0] == '-';
    assert s[1..] == d;
    AsciiDigitsValue(d);
  }

  /** Runs that end before `c` can be skipped. */
  lemma {:induction false} RunDigitSkip(zeros: seq<int>, k: nat, c: int)
    requires k <= |zeros|
    requires forall i :: 0 <= i < k ==> zeros[i] + 10 <= c
    ensures RunDigit(zeros, c) == RunDigit(zeros[k..], c)
  {
    if k > 0 {
      RunDigitSkip(zeros[1..], k - 1, c);
      assert zeros[1..][k - 1..] == zeros[k..];
    }
  }

  /** A char below every run is no digit. */
  lemma {:induction false} RunDigitBelow(zeros: seq<int>, c: int)
    requires forall i :: 0 <= i < |zeros| ==> c < zeros[i]
    ensures RunDigit(zeros, c) == -1
  {
    if zeros != [] {
      RunDigitBelow(zeros[1..], c);
    }
  }

  /** The digit runs are in ascending order and do not overlap. */
  lemma DigitZerosAscending()
    ensures forall i :: 0 <= i < |DigitZeros| - 1 ==> DigitZeros[i] + 10 <= DigitZeros[i + 1]
  {
  }

  /** In runs that ascend without overlap, every run before the k-th ends before that run starts. */
  lemma {:induction false} AscendingBefore(zeros: seq<int>, k: nat)
    requires forall i :: 0 <= i < |zeros| - 1 ==> zeros[i] + 10 <= zeros[i + 1]
    requires k < |zeros|
    ensures forall i :: 0 <= i < k ==> zeros[i] + 10 <= zeros[k]
  {
    if k > 0 {
      AscendingBefore(zeros, k - 1);
    }
  }

  /** A char in the k-th run has its offset from that run's zero as its value. */
  lemma JavaDigitInRun(c: char, k: nat)
    requires k < |DigitZeros| && DigitZeros[k] <= c as int < DigitZeros[k] + 10
    ensures JavaDigit(c) == c as int - DigitZeros[k]
  {
    DigitZerosAscending();
    AscendingBefore(DigitZeros, k);
    RunDigitSkip(DigitZeros, k, c as int);
  }

  /** `Character.digit` of Arabic-Indic one, Devanagari four and two, and fullwidth seven. */
  lemma JavaDigitExamples()
    ensures JavaDigit('\U{0661}') == 1
    ensures JavaDigit('\U{096A}') == 4 && JavaDigit('\U{0968}') == 2
    ensures JavaDigit('\U{FF17}') == 7
  {
    JavaDigitInRun('\U{0661}', 1);
    JavaDigitInRun('\U{096A}', 4);
    JavaDigitInRun('\U{0968}', 4);
    JavaDigitInRun('\U{FF17}', 36);
  }

  /** In runs that ascend without overlap, no run after the k-th starts before it. */
  lemma {:induction false} AscendingAfter(zeros: seq<int>, k: nat)
    requires forall i :: 0 <= i < |zeros| - 1 ==> zeros[i] + 10 <= zeros[i + 1]
    requires k < |zeros|
    ensures forall i :: k <= i < |zeros| ==> zeros[k] <= zeros[i]
    decreases |zeros| - k
  {
    if k + 1 < |zeros| {
      AscendingAfter(zeros, k + 1);
    }
  }

  /** A char between the end of one run and the start of the next, or past the last, is no digit. */
  lemma JavaDigitBetweenRuns(c: char, k: nat)
    requires k < |DigitZeros| && DigitZeros[k] + 10 <= c as int
    requires k + 1 < |DigitZeros| ==> c as int < DigitZeros[k + 1]
    ensures JavaDigit(c) == -1
  {
    DigitZerosAscending();
    AscendingBefore(DigitZeros, k);
    RunDigitSkip(DigitZeros, k + 1, c as int);
    if k + 1 < |DigitZeros| {
      AscendingAfter(DigitZeros, k + 1);
      RunDigitBelow(DigitZeros[k + 1..], c as int);
    }
  }

  /** A Latin letter and the supplementary-plane mathematical bold zero are no digits. */
  lemma JavaNonDigitExamples()
    ensures JavaDigit('a') == -1 && JavaDigit('\U{1D7CE}') == -1
  {
    JavaDigitBetweenRuns('a', 0);
    JavaDigitBetweenRuns('\U{1D7CE}', 36);
  }

  /**
   * Digits of other scripts parse like ASCII ones, with either sign; a sign
   * alone, a trailing letter and a supplementary-plane digit do not parse.
   */
  lemma ParseScriptDigits()
    ensures ParseLong("\U{0661}") == Some(1)
    ensures ParseLong("-\U{096A}\U{0968}") == Some(-42)
    ensures ParseLong("+\U{FF17}") == Some(7)
    ensures ParseLong("-") == None && ParseLong("1a") == None
    ensures ParseLong("\U{1D7CE}") == None
  {
    JavaDigitExamples();
    JavaNonDigitExamples();
    var s := "-\U{096A}\U{0968}";
    assert s[1..] == "\U{096A}\U{0968}";
    assert "\U{096A}\U{0968}"[..1] == "\U{096A}";
    var t := "+\U{FF17}";
    assert t[1..] == "\U{FF17}";
    assert !AllJavaDigits("1a") by { assert "1a"[1] == 'a'; }
  }

  /** Parsing text that `Long.toString` printed gives back the number. */
  lemma ParseLongToString(n: int)
    requires InLongRange(n)
    ensures ParseLong(IntToString(n)) == Some(n)
  {
    if n < 0 {
      NatToStringValue(-n);
      ParseNegative(NatToString(-n));
    } else {
      NatToStringValue(n);
      ParseUnsigned(NatToString(n));
    }
  }

  /** Distinct numbers print differently, so a message names its number unambiguously. */
  lemma IntToStringInjective(a: int, b: int)
    requires InLongRange(a) && InLongRange(b)
    requires IntToString(a) == IntToString(b)
    ensures a == b
  {
    ParseLongToString(a);
    ParseLongToString(b);
  }
}
