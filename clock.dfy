/** Clock-time helpers: `HHmm` text to minutes, and minutes back to `HH:MM` text. */
module Clock {
  import opened Wrappers
  import opened Strings
  import SwiftInt

  const MINUTES_PER_DAY: int := 1440

  /** `^\d{4}$` */
  predicate IsFourDigits(s: string) {
    |s| == 4 && IsDigit(s[0]) && IsDigit(s[1]) && IsDigit(s[2]) && IsDigit(s[3])
  }

  /** `Int(...)` of the two-digit string `[a, b]`. */
  function DigitPair(a: char, b: char): int
    requires IsDigit(a) && IsDigit(b)
  {
    10 * DigitValue(a) + DigitValue(b)
  }

  /** Four digits whose hour part is at most 23 and whose minute part is at most 59. */
  predicate IsValidHHmm(s: string) {
    IsFourDigits(s) && DigitPair(s[0], s[1]) <= 23 && DigitPair(s[2], s[3]) <= 59
  }

  /**
    Minutes denoted by an `HHmm` string: hour part times 60 plus minute part, with
    surrounding whitespace ignored. Nothing is range-checked, so "9999" gives 6039.
    The trimmed text is located by its bounds `i..j` rather than copied out.
   */
  function ParseHM(hm: string): (r: Option<int>)
    ensures r.Some? ==> r.value >= 0
  {
    var i, j := SkipLeft(hm, WhitespacesAndNewlines, 0), SkipRight(hm, WhitespacesAndNewlines, |hm|);
    if i + 4 != j || !(IsDigit(hm[i]) && IsDigit(hm[i + 1]) && IsDigit(hm[i + 2]) && IsDigit(hm[i + 3])) then None
    else Some(DigitPair(hm[i], hm[i + 1]) * 60 + DigitPair(hm[i + 2], hm[i + 3]))
  }

  /**
    `parseHM` as the source states it: trim whitespace and newlines, reject anything
    but exactly four digits, then read the first two as hours and the last two as minutes.
   */
  lemma {:induction false} ParseHMSpec(hm: string)
    ensures var s := Trim(hm, WhitespacesAndNewlines);
      ParseHM(hm) == if !IsFourDigits(s) then None else Some(DigitPair(s[0], s[1]) * 60 + DigitPair(s[2], s[3]))
  {
    var i, j := SkipLeft(hm, WhitespacesAndNewlines, 0), SkipRight(hm, WhitespacesAndNewlines, |hm|);
    var s := Trim(hm, WhitespacesAndNewlines);
    if i < j {
      assert s == hm[i..j];
      if i + 4 == j {
        assert s[0] == hm[i] && s[1] == hm[i + 1] && s[2] == hm[i + 2] && s[3] == hm[i + 3];
      }
    }
  }

  /** Without a range check the value of any four digits lies in 0..6039 ("9999"). */
  lemma {:induction false} ParseHMRange(hm: string)
    requires ParseHM(hm).Some?
    ensures 0 <= ParseHM(hm).value <= 99 * 60 + 99
  {
    ParseHMSpec(hm);
  }

  /** A valid `HHmm` string, however padded with whitespace, denotes a minute of the day. */
  lemma {:induction false} ParseHMWithinDay(s: string)
    requires IsValidHHmm(Trim(s, WhitespacesAndNewlines))
    ensures ParseHM(s).Some? && 0 <= ParseHM(s).value < MINUTES_PER_DAY
  {
    ParseHMSpec(s);
  }

  /** Swift's double remainder brings every integer, negative ones included, into the day. */
  lemma {:induction false} ReduceIntoDay(mins: int)
    ensures SwiftInt.Rem(SwiftInt.Rem(mins, 1440) + 1440, 1440) == mins % 1440
  {
    var r1 := SwiftInt.Rem(mins, 1440);
    if mins < 0 {
      var q := (-mins) / 1440;
      var r := (-mins) % 1440;
      assert -mins == q * 1440 + r;
      assert r1 == -r;
      if r == 0 {
        assert mins == (-q) * 1440;
      } else {
        assert mins == (-q - 1) * 1440 + (1440 - r);
      }
    }
  }

  /**
    `HH:MM` text of a minute count taken modulo one day: five characters, a colon in
    the middle, zero-padded hour 00-23 and minute 00-59 denoting `mins % 1440`.
   */
  function HmFromMinutesOfDay(mins: int): (r: string)
    ensures |r| == 5 && r[2] == ':'
    ensures IsDigit(r[0]) && IsDigit(r[1]) && IsDigit(r[3]) && IsDigit(r[4])
    ensures DigitPair(r[0], r[1]) <= 23 && DigitPair(r[3], r[4]) <= 59
    ensures DigitPair(r[0], r[1]) * 60 + DigitPair(r[3], r[4]) == mins % MINUTES_PER_DAY
  {
    var m := SwiftInt.Rem(SwiftInt.Rem(mins, 1440) + 1440, 1440);
    ReduceIntoDay(mins);
    var hh, mm := m / 60, m % 60;
    [DigitChar(hh / 10), DigitChar(hh % 10), ':', DigitChar(mm / 10), DigitChar(mm % 10)]
  }

  /** Formatting repeats every day. */
  lemma {:induction false} HmPeriodic(mins: int)
    ensures HmFromMinutesOfDay(mins + MINUTES_PER_DAY) == HmFromMinutesOfDay(mins)
  {
    ReduceIntoDay(mins);
    ReduceIntoDay(mins + 1440);
    assert (mins + 1440) % 1440 == mins % 1440;
  }

  /** The two digits of a value below 100 are determined by it. */
  lemma {:induction false} DigitPairInjective(a: char, b: char, c: char, d: char)
    requires IsDigit(a) && IsDigit(b) && IsDigit(c) && IsDigit(d)
    requires DigitPair(a, b) == DigitPair(c, d)
    ensures a == c && b == d
  {
  }

  /** Strings whose minute part is at most 59 and that parse to the same value are equal once trimmed. */
  lemma {:induction false} ParseHMInjective(s1: string, s2: string)
    requires ParseHM(s1).Some? && ParseHM(s2).Some?
    requires DigitPair(Trim(s1, WhitespacesAndNewlines)[2], Trim(s1, WhitespacesAndNewlines)[3]) <= 59
    requires DigitPair(Trim(s2, WhitespacesAndNewlines)[2], Trim(s2, WhitespacesAndNewlines)[3]) <= 59
    requires ParseHM(s1) == ParseHM(s2)
    ensures Trim(s1, WhitespacesAndNewlines) == Trim(s2, WhitespacesAndNewlines)
  {
    ParseHMSpec(s1);
    ParseHMSpec(s2);
    var t1, t2 := Trim(s1, WhitespacesAndNewlines), Trim(s2, WhitespacesAndNewlines);
    var h1, m1 := DigitPair(t1[0], t1[1]), DigitPair(t1[2], t1[3]);
    var h2, m2 := DigitPair(t2[0], t2[1]), DigitPair(t2[2], t2[3]);
    assert h1 * 60 + m1 == h2 * 60 + m2;
    assert h1 == h2 && m1 == m2;
    DigitPairInjective(t1[0], t1[1], t2[0], t2[1]);
    DigitPairInjective(t1[2], t1[3], t2[2], t2[3]);
  }

  /** A bare four-digit string parses to its hour part times 60 plus its minute part. */
  lemma {:induction false} ParseHMOfFourDigits(s: string)
    requires IsFourDigits(s)
    ensures ParseHM(s) == Some(DigitPair(s[0], s[1]) * 60 + DigitPair(s[2], s[3]))
  {
    TrimNoop(s, WhitespacesAndNewlines);
    ParseHMSpec(s);
  }

  /** Hours and minutes below 60 are determined by the minute count they make. */
  lemma {:induction false} HourMinuteUnique(h1: int, m1: int, h2: int, m2: int)
    requires 0 <= m1 < 60 && 0 <= m2 < 60
    requires h1 * 60 + m1 == h2 * 60 + m2
    ensures h1 == h2 && m1 == m2
  {
  }

  /** A minute of the day is its own remainder modulo one day. */
  lemma {:induction false} WithinDay(x: int)
    requires 0 <= x < MINUTES_PER_DAY
    ensures x % MINUTES_PER_DAY == x
  {
  }

  /** The text of hour `h` and minute `m` of the day shows `h` and `m`. */
  lemma {:induction false} FormatHourMinute(h: int, m: int)
    requires 0 <= h <= 23 && 0 <= m <= 59
    ensures DigitPair(HmFromMinutesOfDay(h * 60 + m)[0], HmFromMinutesOfDay(h * 60 + m)[1]) == h
    ensures DigitPair(HmFromMinutesOfDay(h * 60 + m)[3], HmFromMinutesOfDay(h * 60 + m)[4]) == m
  {
    var r := HmFromMinutesOfDay(h * 60 + m);
    WithinDay(h * 60 + m);
    HourMinuteUnique(DigitPair(r[0], r[1]), DigitPair(r[3], r[4]), h, m);
  }

  /** Formatting the minutes of a valid hour and minute gives back their digits. */
  lemma {:induction false} FormatDigits(a: char, b: char, c: char, d: char)
    requires IsDigit(a) && IsDigit(b) && IsDigit(c) && IsDigit(d)
    requires DigitPair(a, b) <= 23 && DigitPair(c, d) <= 59
    ensures HmFromMinutesOfDay(DigitPair(a, b) * 60 + DigitPair(c, d)) == [a, b, ':', c, d]
  {
    var h, m := DigitPair(a, b), DigitPair(c, d);
    var r := HmFromMinutesOfDay(h * 60 + m);
    FormatHourMinute(h, m);
    DigitPairInjective(r[0], r[1], a, b);
    DigitPairInjective(r[3], r[4], c, d);
  }

  /** Round trip: parsing a valid `HHmm` string and formatting the minutes gives `HH:MM`. */
  lemma {:induction false} ParseFormatRoundTrip(s: string)
    requires IsValidHHmm(s)
    ensures ParseHM(s).Some?
    ensures HmFromMinutesOfDay(ParseHM(s).value) == [s[0], s[1], ':', s[2], s[3]]
  {
    ParseHMOfFourDigits(s);
    FormatDigits(s[0], s[1], s[2], s[3]);
  }
}
