/**
  The Foundation string operations the flight-schedule code relies on, restricted to
  ASCII: digit and letter classes, case mapping, trimming, splitting on separator
  characters, substring search and removal of characters.
 */
module Strings {
  import opened Wrappers

  predicate IsDigit(c: char) { '0' <= c <= '9' }
  predicate IsUpperLetter(c: char) { 'A' <= c <= 'Z' }
  predicate IsLowerLetter(c: char) { 'a' <= c <= 'z' }
  predicate IsLetter(c: char) { IsUpperLetter(c) || IsLowerLetter(c) }

  predicate AllDigits(s: string) {
    forall i :: 0 <= i < |s| ==> IsDigit(s[i])
  }

  /** `^[A-Za-z]{3}$` */
  predicate IsThreeLetters(s: string) {
    |s| == 3 && forall i :: 0 <= i < 3 ==> IsLetter(s[i])
  }

  /** `^[A-Z]{3}$` */
  predicate IsUpperCode(s: string) {
    |s| == 3 && forall i :: 0 <= i < 3 ==> IsUpperLetter(s[i])
  }

  function DigitValue(c: char): int
    requires IsDigit(c)
  {
    c as int - '0' as int
  }

  function DigitChar(n: int): char
    requires 0 <= n <= 9
  {
    ('0' as int + n) as char
  }

  function UpperChar(c: char): char {
    if IsLowerLetter(c) then (c as int - 32) as char else c
  }

  function LowerChar(c: char): char {
    if IsUpperLetter(c) then (c as int + 32) as char else c
  }

  /** `uppercased()` on ASCII text. */
  function Upper(s: string): string {
    seq(|s|, i requires 0 <= i < |s| => UpperChar(s[i]))
  }

  /** `lowercased()` on ASCII text. */
  function Lower(s: string): string {
    seq(|s|, i requires 0 <= i < |s| => LowerChar(s[i]))
  }

  /** A string of three letters in either case upper-cases to a code of three capitals, and back. */
  lemma {:induction false} UpperCodeIffThreeLetters(s: string)
    ensures IsUpperCode(Upper(s)) <==> IsThreeLetters(s)
  {
    if IsUpperCode(Upper(s)) {
      forall i | 0 <= i < 3 ensures IsLetter(s[i]) {
        assert IsUpperLetter(Upper(s)[i]);
      }
    }
  }

  /** Upper-casing is idempotent. */
  lemma {:induction false} UpperIdempotent(s: string)
    ensures Upper(Upper(s)) == Upper(s)
  {
  }

  /**
    The character classes the code trims and splits on: Foundation's `whitespaces`,
    `newlines` and `whitespacesAndNewlines` (restricted to ASCII blanks and the line
    terminators), and a single separator character.
   */
  datatype CharClass = Whitespaces | Newlines | WhitespacesAndNewlines | Only(c: char)

  predicate IsBlank(c: char) {
    c == ' ' || c == '\t'
  }

  /** U+000A to U+000D, U+0085, U+2028 and U+2029. */
  predicate IsNewline(c: char) {
    c == '\n' || c == '\U{B}' || c == '\U{C}' || c == '\r' || c == '\U{85}' || c == '\U{2028}' || c == '\U{2029}'
  }

  predicate In(c: char, ws: CharClass) {
    match ws
    case Whitespaces => IsBlank(c)
    case Newlines => IsNewline(c)
    case WhitespacesAndNewlines => IsBlank(c) || IsNewline(c)
    case Only(d) => c == d
  }

  /** The first index from `i` on whose character is not in `ws`, or `|s|`. */
  function SkipLeft(s: string, ws: CharClass, i: nat): (k: nat)
    requires i <= |s|
    ensures i <= k <= |s|
    ensures k == |s| || !In(s[k], ws)
    decreases |s| - i
  {
    if i < |s| && In(s[i], ws) then SkipLeft(s, ws, i + 1) else i
  }

  /** The end of `s[..j]` once its trailing characters from `ws` are dropped. */
  function SkipRight(s: string, ws: CharClass, j: nat): (k: nat)
    requires j <= |s|
    ensures k <= j
    ensures k == 0 || !In(s[k - 1], ws)
  {
    if j > 0 && In(s[j - 1], ws) then SkipRight(s, ws, j - 1) else j
  }

  /** Everything `SkipLeft` passes over is in `ws`. */
  lemma {:induction false} SkipLeftSkipped(s: string, ws: CharClass, i: nat)
    requires i <= |s|
    ensures forall m :: i <= m < SkipLeft(s, ws, i) ==> In(s[m], ws)
    decreases |s| - i
  {
    if i < |s| && In(s[i], ws) {
      SkipLeftSkipped(s, ws, i + 1);
    }
  }

  /** Everything `SkipRight` passes over is in `ws`. */
  lemma {:induction false} SkipRightSkipped(s: string, ws: CharClass, j: nat)
    requires j <= |s|
    ensures forall m :: SkipRight(s, ws, j) <= m < j ==> In(s[m], ws)
  {
    if j > 0 && In(s[j - 1], ws) {
      SkipRightSkipped(s, ws, j - 1);
    }
  }

  /** `trimmingCharacters(in:)`: `s` less its leading and trailing characters from `ws`. */
  function Trim(s: string, ws: CharClass): (r: string)
    ensures r == [] || (!In(r[0], ws) && !In(r[|r| - 1], ws))
  {
    var i, j := SkipLeft(s, ws, 0), SkipRight(s, ws, |s|);
    if j <= i then [] else s[i..j]
  }

  /** What trimming removes are characters from `ws`, at both ends only. */
  lemma {:induction false} TrimIsSlice(s: string, ws: CharClass)
    ensures exists i :: SliceAt(s, Trim(s, ws), i)
              && (forall k :: 0 <= k < i ==> In(s[k], ws))
              && (forall k :: i + |Trim(s, ws)| <= k < |s| ==> In(s[k], ws))
  {
    var i, j := SkipLeft(s, ws, 0), SkipRight(s, ws, |s|);
    SkipLeftSkipped(s, ws, 0);
    SkipRightSkipped(s, ws, |s|);
    if j <= i {
      assert Trim(s, ws) == [];
      assert i == |s|;
      assert SliceAt(s, Trim(s, ws), |s|);
    } else {
      assert SliceAt(s, Trim(s, ws), i);
    }
  }

  /** `r` is the piece of `s` that starts at `i`. */
  predicate SliceAt(s: string, r: string, i: int) {
    0 <= i <= |s| - |r| && r == s[i..i + |r|]
  }

  /** Trimming keeps a tail that neither starts nor ends with a character from `ws`. */
  lemma {:induction false} TrimKeepsSuffix(pre: string, tail: string, ws: CharClass)
    requires tail != [] && !In(tail[0], ws) && !In(tail[|tail| - 1], ws)
    ensures |Trim(pre + tail, ws)| >= |tail|
    ensures Trim(pre + tail, ws)[|Trim(pre + tail, ws)| - |tail|..] == tail
  {
    var s := pre + tail;
    var i, j := SkipLeft(s, ws, 0), SkipRight(s, ws, |s|);
    SkipLeftSkipped(s, ws, 0);
    SkipRightSkipped(s, ws, |s|);
    assert s[|s| - 1] == tail[|tail| - 1] && s[|pre|] == tail[0];
    assert j == |s| && i <= |pre|;
    assert Trim(s, ws) == s[i..];
    assert s[i..][|s| - i - |tail|..] == s[|pre|..] == tail;
  }

  /** Trimming leaves a string whose ends are not in `ws` untouched. */
  lemma {:induction false} TrimNoop(s: string, ws: CharClass)
    requires s == [] || (!In(s[0], ws) && !In(s[|s| - 1], ws))
    ensures Trim(s, ws) == s
  {
    if s != [] {
      assert SkipLeft(s, ws, 0) == 0;
      assert SkipRight(s, ws, |s|) == |s|;
    }
  }

  /** A string none of whose characters is in `ws` is its own trim. */
  lemma {:induction false} TrimNoneOf(s: string, ws: CharClass)
    requires forall i :: 0 <= i < |s| ==> !In(s[i], ws)
    ensures Trim(s, ws) == s
  {
    TrimNoop(s, ws);
  }

  /**
    `components(separatedBy:)` / `split(separator:omittingEmptySubsequences: false)`:
    the pieces of `s` between separator characters, empty pieces included.
   */
  function SplitAny(s: string, seps: CharClass): (r: seq<string>)
    ensures |r| >= 1
    ensures forall k, i :: 0 <= k < |r| && 0 <= i < |r[k]| ==> !In(r[k][i], seps)
    decreases |s|
  {
    if s == [] then [""]
    else
      var rest := SplitAny(s[1..], seps);
      if In(s[0], seps) then [""] + rest
      else [[s[0]] + rest[0]] + rest[1..]
  }

  /**
    A separator that occurs in neither head splits two equal strings at the same place:
    the heads agree and so do the tails.
   */
  lemma {:induction false} SplitAtSeparator(x: string, r1: string, y: string, r2: string, sep: char)
    requires sep !in x && sep !in y
    requires x + [sep] + r1 == y + [sep] + r2
    ensures x == y && r1 == r2
  {
    var a, b := x + [sep] + r1, y + [sep] + r2;
    assert a[|x|] == sep && b[|y|] == sep;
    assert |x| >= |y|;
    assert |y| >= |x|;
    assert x == a[..|x|] && y == b[..|y|];
    assert r1 == a[|x| + 1..] && r2 == b[|y| + 1..];
  }

  /** `joined(separator:)` with a one-character separator. */
  function Join(parts: seq<string>, sep: char): string
    requires |parts| >= 1
  {
    if |parts| == 1 then parts[0] else parts[0] + [sep] + Join(parts[1..], sep)
  }

  /** Splitting on one separator and joining back with it loses nothing: there is no quoting. */
  lemma {:induction false} JoinSplit(s: string, sep: char)
    ensures Join(SplitAny(s, Only(sep)), sep) == s
  {
    if s != [] {
      JoinSplit(s[1..], sep);
      var rest := SplitAny(s[1..], Only(sep));
      if s[0] != sep && |rest| > 1 {
        assert Join(rest, sep) == rest[0] + [sep] + Join(rest[1..], sep);
        assert ([s[0]] + rest[0]) + [sep] + Join(rest[1..], sep) == [s[0]] + Join(rest, sep);
      }
    }
  }

  /**
    Foundation's `contains` on strings: `sub` occurs in `s` as a contiguous piece. As
    with `NSString`, the empty string is contained in nothing.
   */
  predicate Contains(s: string, sub: string) {
    |sub| > 0 && exists i :: 0 <= i <= |s| - |sub| && OccursAt(s, sub, i)
  }

  predicate OccursAt(s: string, sub: string, i: int) {
    0 <= i <= |s| - |sub| && s[i..i + |sub|] == sub
  }

  /** `replacingOccurrences(of: "\\D", with: "", options: .regularExpression)`. */
  function DigitsOnly(s: string): (r: string)
    ensures AllDigits(r) && |r| <= |s|
  {
    if s == [] then []
    else (if IsDigit(s[0]) then [s[0]] else []) + DigitsOnly(s[1..])
  }

  /** Keeping the digits of a non-empty string: its first character if a digit, then the rest's digits. */
  lemma {:induction false} DigitsOnlyCons(s: string)
    requires s != []
    ensures DigitsOnly(s) == (if IsDigit(s[0]) then [s[0]] else []) + DigitsOnly(s[1..])
  {
  }

  /** `replacingOccurrences(of: [c], with: "")`. */
  function RemoveChar(s: string, c: char): (r: string)
    ensures |r| <= |s|
  {
    if s == [] then []
    else (if s[0] == c then [] else [s[0]]) + RemoveChar(s[1..], c)
  }

  /** Dropping a non-digit before keeping only digits changes nothing. */
  lemma {:induction false} DigitsOnlyAfterRemoveChar(s: string, c: char)
    requires !IsDigit(c)
    ensures DigitsOnly(RemoveChar(s, c)) == DigitsOnly(s)
  {
    if s != [] {
      DigitsOnlyAfterRemoveChar(s[1..], c);
      var rest := RemoveChar(s[1..], c);
      if s[0] != c {
        var t := [s[0]] + rest;
        assert RemoveChar(s, c) == t;
        assert t[0] == s[0] && t[1..] == rest;
        assert DigitsOnly(t) == (if IsDigit(s[0]) then [s[0]] else []) + DigitsOnly(rest);
      } else {
        assert RemoveChar(s, c) == rest;
        assert DigitsOnly(s) == DigitsOnly(s[1..]);
      }
    }
  }

  /** Keeping only the digits of an all-digit string keeps all of it. */
  lemma {:induction false} DigitsOnlyOfDigits(s: string)
    requires AllDigits(s)
    ensures DigitsOnly(s) == s
  {
    if s != [] {
      DigitsOnlyOfDigits(s[1..]);
    }
  }

  /** `lastIndex(of:)`. */
  function LastIndexOf(s: string, c: char): (r: Option<nat>)
    ensures r.None? <==> c !in s
    ensures r.Some? ==> r.value < |s| && s[r.value] == c && forall k :: r.value < k < |s| ==> s[k] != c
  {
    if s == [] then None
    else if s[|s| - 1] == c then Some(|s| - 1)
    else
      assert forall k :: 0 <= k < |s| - 1 ==> s[k] == s[..|s| - 1][k];
      LastIndexOf(s[..|s| - 1], c)
  }

  predicate NoDuplicates<T(==)>(s: seq<T>) {
    forall i, j :: 0 <= i < j < |s| ==> s[i] != s[j]
  }

  /** The elements of `s`, each once, in order of first occurrence. */
  function Distinct(s: seq<string>): (r: seq<string>)
    ensures NoDuplicates(r)
    ensures forall x :: x in r <==> x in s
  {
    if s == [] then []
    else
      var rest := Distinct(s[..|s| - 1]);
      if s[|s| - 1] in rest then rest else rest + [s[|s| - 1]]
  }
}
