/**
  The per-row helpers of the schedule parser: classifying columns into airport-code
  tokens and time tokens, padding a time token to four digits, finding the time
  token nearest a column, and guessing an airport name from a neighbouring column.
 */
module CsvTokens {
  import opened Wrappers
  import opened Strings
  import opened SwiftInt

  /** A column that upper-cases to three capitals, kept upper-cased with its column index. */
  datatype IataToken = IataToken(code: string, index: nat, raw: string)

  /** A column that looks like a clock time, kept as written with its column index. */
  datatype TimeToken = TimeToken(t: string, index: nat)

  /** A non-empty column whose upper-cased form matches `^[A-Z]{3}$`. */
  predicate IsAirportColumn(c: string) {
    c != [] && IsUpperCode(Upper(c))
  }

  /** `^\d{1,2}:\d{2}$` */
  predicate IsClockText(c: string) {
    || (|c| == 4 && IsDigit(c[0]) && c[1] == ':' && IsDigit(c[2]) && IsDigit(c[3]))
    || (|c| == 5 && IsDigit(c[0]) && IsDigit(c[1]) && c[2] == ':' && IsDigit(c[3]) && IsDigit(c[4]))
  }

  /** `^\d{3,4}$` */
  predicate IsDigitTime(c: string) {
    3 <= |c| <= 4 && AllDigits(c)
  }

  /** A non-empty column that is not an airport code and looks like a clock time. */
  predicate IsTimeColumn(c: string) {
    c != [] && !IsUpperCode(Upper(c)) && (IsClockText(c) || IsDigitTime(c))
  }

  /** The airport tokens among the first `n` columns, in column order. */
  function IataTokens(cols: seq<string>, n: nat): (r: seq<IataToken>)
    requires n <= |cols|
    ensures |r| <= n
    ensures forall k :: 0 <= k < |r| ==> r[k].index < n
  {
    if n == 0 then []
    else
      var prev := IataTokens(cols, n - 1);
      var c := cols[n - 1];
      if IsAirportColumn(c) then prev + [IataToken(Upper(c), n - 1, c)] else prev
  }

  /** The time tokens among the first `n` columns, in column order. */
  function TimeTokens(cols: seq<string>, n: nat): (r: seq<TimeToken>)
    requires n <= |cols|
    ensures |r| <= n
    ensures forall k :: 0 <= k < |r| ==> r[k].index < n
  {
    if n == 0 then []
    else
      var prev := TimeTokens(cols, n - 1);
      var c := cols[n - 1];
      if !IsAirportColumn(c) && IsTimeColumn(c) then prev + [TimeToken(c, n - 1)] else prev
  }

  /** Every airport token is the upper-cased form of the airport column found at its index. */
  lemma {:induction false} IataTokensSound(cols: seq<string>, n: nat, k: nat)
    requires n <= |cols| && k < |IataTokens(cols, n)|
    ensures var t := IataTokens(cols, n)[k];
      && IsAirportColumn(cols[t.index]) && t.raw == cols[t.index]
      && t.code == Upper(t.raw) && IsUpperCode(t.code)
  {
    var prev := IataTokens(cols, n - 1);
    if k < |prev| {
      IataTokensSound(cols, n - 1, k);
    }
  }

  /** Airport tokens in strictly increasing column order. */
  predicate CodesAscending(iata: seq<IataToken>) {
    forall k, l :: 0 <= k < l < |iata| ==> iata[k].index < iata[l].index
  }

  /** Airport tokens come in strictly increasing column order. */
  lemma {:induction false} IataTokensAscending(cols: seq<string>, n: nat)
    requires n <= |cols|
    ensures CodesAscending(IataTokens(cols, n))
  {
    if n > 0 {
      IataTokensAscending(cols, n - 1);
      var prev := IataTokens(cols, n - 1);
      assert forall k :: 0 <= k < |prev| ==> IataTokens(cols, n)[k] == prev[k];
    }
  }

  /** Every airport column among the first `n` has its token. */
  lemma {:induction false} IataTokensComplete(cols: seq<string>, n: nat, i: nat)
    requires i < n <= |cols| && IsAirportColumn(cols[i])
    ensures exists k :: 0 <= k < |IataTokens(cols, n)| && IataTokens(cols, n)[k].index == i
  {
    var prev := IataTokens(cols, n - 1);
    if i < n - 1 {
      IataTokensComplete(cols, n - 1, i);
      var k :| 0 <= k < |prev| && prev[k].index == i;
      assert IataTokens(cols, n)[k] == prev[k];
    } else {
      assert IataTokens(cols, n)[|prev|].index == i;
    }
  }

  /** Every time token is a time column, and not an airport column, found at its index. */
  lemma {:induction false} TimeTokensSound(cols: seq<string>, n: nat, k: nat)
    requires n <= |cols| && k < |TimeTokens(cols, n)|
    ensures var t := TimeTokens(cols, n)[k];
      t.t == cols[t.index] && !IsAirportColumn(t.t) && IsTimeColumn(t.t)
  {
    var prev := TimeTokens(cols, n - 1);
    if k < |prev| {
      TimeTokensSound(cols, n - 1, k);
    }
  }

  /** Time tokens come in strictly increasing column order. */
  lemma {:induction false} TimeTokensAscending(cols: seq<string>, n: nat)
    requires n <= |cols|
    ensures Ascending(TimeTokens(cols, n))
  {
    if n > 0 {
      TimeTokensAscending(cols, n - 1);
    }
  }

  /** Every time column among the first `n` that is not an airport column has its token. */
  lemma {:induction false} TimeTokensComplete(cols: seq<string>, n: nat, i: nat)
    requires i < n <= |cols| && !IsAirportColumn(cols[i]) && IsTimeColumn(cols[i])
    ensures exists k :: 0 <= k < |TimeTokens(cols, n)| && TimeTokens(cols, n)[k].index == i
  {
    var prev := TimeTokens(cols, n - 1);
    if i < n - 1 {
      TimeTokensComplete(cols, n - 1, i);
      var k :| 0 <= k < |prev| && prev[k].index == i;
      assert TimeTokens(cols, n)[k] == prev[k];
    } else {
      assert TimeTokens(cols, n)[|prev|].index == i;
    }
  }

  /** No column is both an airport token and a time token. */
  lemma {:induction false} TokensDisjoint(cols: seq<string>, k: nat, l: nat)
    requires k < |IataTokens(cols, |cols|)| && l < |TimeTokens(cols, |cols|)|
    ensures IataTokens(cols, |cols|)[k].index != TimeTokens(cols, |cols|)[l].index
  {
    IataTokensSound(cols, |cols|, k);
    TimeTokensSound(cols, |cols|, l);
  }

  /** The classification loop: each non-empty column becomes an airport token, a time token or nothing. */
  method ClassifyColumns(cols: seq<string>) returns (iata: seq<IataToken>, times: seq<TimeToken>)
    ensures iata == IataTokens(cols, |cols|)
    ensures times == TimeTokens(cols, |cols|)
  {
    iata, times := [], [];
    for i := 0 to |cols|
      invariant iata == IataTokens(cols, i)
      invariant times == TimeTokens(cols, i)
    {
      var c := cols[i];
      if c == [] {
        continue;
      }
      var up := Upper(c);
      if IsUpperCode(up) {
        iata := iata + [IataToken(up, i, c)];
      } else if IsClockText(c) || IsDigitTime(c) {
        times := times + [TimeToken(c, i)];
      }
    }
  }

  /** `n` zeros. */
  function Zeros(n: nat): (r: string)
    ensures |r| == n && forall i :: 0 <= i < n ==> r[i] == '0'
  {
    if n == 0 then [] else "0" + Zeros(n - 1)
  }

  /**
    `padToken`: "" for an empty token; otherwise the token's digits (colons and every
    other non-digit dropped), left-padded with zeros to at least four characters.
   */
  function Padded(tok: string): string {
    if tok == [] then []
    else
      var d := DigitsOnly(RemoveChar(tok, ':'));
      if |d| < 4 then Zeros(4 - |d|) + d else d
  }

  /**
    A non-empty token pads to a string of digits of length `max(4, digits)` that ends
    with the token's digits, in order, behind leading zeros: nothing is truncated.
   */
  lemma {:induction false} PaddedShape(tok: string)
    requires tok != []
    ensures var r, d := Padded(tok), DigitsOnly(tok);
      && AllDigits(r)
      && |r| == (if |d| < 4 then 4 else |d|)
      && r[|r| - |d|..] == d
      && forall i :: 0 <= i < |r| - |d| ==> r[i] == '0'
  {
    DigitsOnlyAfterRemoveChar(tok, ':');
  }

  /** The padding loop of `padToken`, prepending zeros one at a time. */
  method PadToken(tok: string) returns (r: string)
    ensures r == Padded(tok)
  {
    if tok == [] {
      return [];
    }
    var s := RemoveChar(tok, ':');
    s := DigitsOnly(s);
    ghost var d := s;
    ghost var z := 0;
    while |s| < 4
      invariant s == Zeros(z) + d
      invariant z == 0 || |s| <= 4
      decreases 4 - |s|
    {
      AppendAssoc("0", Zeros(z), d);
      s := "0" + s;
      z := z + 1;
    }
    PaddedZeros(tok, z);
    r := s;
  }

  /** The zeros the loop has prepended once it stops are those `Padded` adds. */
  lemma {:induction false} PaddedZeros(tok: string, z: nat)
    requires tok != []
    requires var d := DigitsOnly(RemoveChar(tok, ':')); z + |d| >= 4 && (z == 0 || z + |d| <= 4)
    ensures Padded(tok) == Zeros(z) + DigitsOnly(RemoveChar(tok, ':'))
  {
    var d := DigitsOnly(RemoveChar(tok, ':'));
    if z == 0 {
      assert Zeros(0) + d == d;
    }
  }

  /** The digits of a clock-shaped or digit-run column number three or four. */
  lemma {:induction false} TimeColumnDigits(c: string)
    requires IsClockText(c) || IsDigitTime(c)
    ensures 3 <= |DigitsOnly(c)| <= 4
  {
    if IsDigitTime(c) {
      DigitsOnlyOfDigits(c);
    } else {
      var m := |c| - 3;
      DigitsOnlyOfDigits(c[m + 1..]);
      DigitsOnlyCons(c[m..]);
      assert c[m..][1..] == c[m + 1..];
      assert |DigitsOnly(c[m..])| == 2;
      DigitsOnlyCons(c);
      assert c[1..][..] == c[1..];
      if m == 2 {
        DigitsOnlyCons(c[1..]);
        assert c[1..][1..] == c[m..];
      } else {
        assert c[1..] == c[m..];
      }
    }
  }

  /** Every time column pads to exactly four digits. */
  lemma {:induction false} TimeColumnPadsToFour(c: string)
    requires IsTimeColumn(c)
    ensures |Padded(c)| == 4 && AllDigits(Padded(c))
  {
    TimeColumnDigits(c);
    PaddedShape(c);
  }

  /** Which way `findNearestTime` looks first. */
  datatype Prefer = Right | Left | Any

  /** `abs(t.index - pos)` */
  function Distance(t: TimeToken, pos: int): nat {
    if t.index >= pos then t.index - pos else pos - t.index
  }

  /** The list position of the first token, from position `i` on, at column `pos` or to its right. */
  function FirstAtOrAfter(times: seq<TimeToken>, pos: int, i: nat): (r: Option<nat>)
    requires i <= |times|
    ensures r.Some? ==> i <= r.value < |times| && times[r.value].index >= pos
    ensures r.Some? ==> forall j :: i <= j < r.value ==> times[j].index < pos
    ensures r.None? ==> forall j :: i <= j < |times| ==> times[j].index < pos
    decreases |times| - i
  {
    if i == |times| then None
    else if times[i].index >= pos then Some(i)
    else FirstAtOrAfter(times, pos, i + 1)
  }

  /** The list position of the last token, among the first `n`, at column `pos` or to its left. */
  function LastAtOrBefore(times: seq<TimeToken>, pos: int, n: nat): (r: Option<nat>)
    requires n <= |times|
    ensures r.Some? ==> r.value < n && times[r.value].index <= pos
    ensures r.Some? ==> forall j :: r.value < j < n ==> times[j].index > pos
    ensures r.None? ==> forall j :: 0 <= j < n ==> times[j].index > pos
  {
    if n == 0 then None
    else if times[n - 1].index <= pos then Some(n - 1)
    else LastAtOrBefore(times, pos, n - 1)
  }

  /** Tokens in strictly increasing column order, as the classification produces them. */
  predicate Ascending(times: seq<TimeToken>) {
    forall k, l :: 0 <= k < l < |times| ==> times[k].index < times[l].index
  }

  /**
    On ascending tokens the `right` choice (filter, sort ascending, take the first) is
    the token with the smallest column index at or after `pos`, and the `left` choice
    (filter, sort descending, take the first) the one with the largest index at or before it.
   */
  lemma {:induction false} PreferredIsExtreme(times: seq<TimeToken>, pos: int)
    requires Ascending(times)
    ensures var r := FirstAtOrAfter(times, pos, 0);
      r.Some? ==> forall j :: 0 <= j < |times| && times[j].index >= pos ==> times[r.value].index <= times[j].index
    ensures var r := LastAtOrBefore(times, pos, |times|);
      r.Some? ==> forall j :: 0 <= j < |times| && times[j].index <= pos ==> times[r.value].index >= times[j].index
  {
  }

  /**
    The nearest-token scan over the first `n` tokens: a token replaces the current best
    only when strictly nearer, starting from a distance of `Int.max`.
   */
  function Closest(times: seq<TimeToken>, pos: int, n: nat): (r: Option<nat>)
    requires n <= |times|
    ensures r.Some? ==> r.value < n
  {
    if n == 0 then None
    else
      var prev := Closest(times, pos, n - 1);
      var minD := if prev.Some? then Distance(times[prev.value], pos) else INT_MAX;
      if Distance(times[n - 1], pos) < minD then Some(n - 1) else prev
  }

  /**
    The scan picks a token of least distance, the earliest one among equals, and finds
    none only when every distance reaches `Int.max`.
   */
  lemma {:induction false} ClosestSpec(times: seq<TimeToken>, pos: int, n: nat)
    requires n <= |times|
    ensures var r := Closest(times, pos, n);
      r.None? <==> forall j :: 0 <= j < n ==> Distance(times[j], pos) >= INT_MAX
    ensures var r := Closest(times, pos, n);
      r.Some? ==> forall j :: 0 <= j < n ==> Distance(times[r.value], pos) <= Distance(times[j], pos)
    ensures var r := Closest(times, pos, n);
      r.Some? ==> forall j :: 0 <= j < r.value ==> Distance(times[r.value], pos) < Distance(times[j], pos)
  {
    if n > 0 {
      ClosestSpec(times, pos, n - 1);
    }
  }

  /**
    `findNearestTime`: "" when there are no time tokens; the first token at or to the
    right of `pos` when preferring right, the last at or to its left when preferring
    left; otherwise, and when the preferred side has none, the scan's pick. The pick
    is padded.
   */
  function NearestTime(times: seq<TimeToken>, pos: int, prefer: Prefer): string {
    if times == [] then []
    else
      var side := match prefer
        case Right => FirstAtOrAfter(times, pos, 0)
        case Left => LastAtOrBefore(times, pos, |times|)
        case Any => None;
      if side.Some? then Padded(times[side.value].t)
      else
        var c := Closest(times, pos, |times|);
        if c.Some? then Padded(times[c.value].t) else Padded([])
  }

  /** `findNearestTime` with its scan loop. */
  method FindNearestTime(times: seq<TimeToken>, pos: int, prefer: Prefer) returns (r: string)
    ensures r == NearestTime(times, pos, prefer)
  {
    if times == [] {
      return [];
    }
    if prefer == Right {
      var best := FirstAtOrAfter(times, pos, 0);
      if best.Some? {
        r := PadToken(times[best.value].t);
        return;
      }
    } else if prefer == Left {
      var best := LastAtOrBefore(times, pos, |times|);
      if best.Some? {
        r := PadToken(times[best.value].t);
        return;
      }
    }
    var best: Option<nat> := None;
    var minD := INT_MAX;
    for i := 0 to |times|
      invariant best == Closest(times, pos, i)
      invariant minD == if best.Some? then Distance(times[best.value], pos) else INT_MAX
    {
      var d := Distance(times[i], pos);
      if d < minD {
        minD := d;
        best := Some(i);
      }
    }
    r := PadToken(if best.Some? then times[best.value].t else []);
  }

  /** When some time token exists and columns are short, the nearest time is four digits. */
  lemma {:induction false} NearestTimeIsFourDigits(cols: seq<string>, pos: nat, prefer: Prefer)
    requires TimeTokens(cols, |cols|) != []
    requires |cols| < INT_MAX && pos < |cols|
    ensures var r := NearestTime(TimeTokens(cols, |cols|), pos, prefer);
      |r| == 4 && AllDigits(r)
  {
    var times := TimeTokens(cols, |cols|);
    ClosestSpec(times, pos, |times|);
    assert Distance(times[0], pos) < INT_MAX;
    var r := NearestTime(times, pos, prefer);
    var side := match prefer
      case Right => FirstAtOrAfter(times, pos, 0)
      case Left => LastAtOrBefore(times, pos, |times|)
      case Any => None;
    if side.Some? {
      TimeTokensSound(cols, |cols|, side.value);
      TimeColumnPadsToFour(times[side.value].t);
    } else {
      var c := Closest(times, pos, |times|);
      TimeTokensSound(cols, |cols|, c.value);
      TimeColumnPadsToFour(times[c.value].t);
    }
  }

  /** `^\d{1,4}(:\d{2})?$` */
  predicate IsNumericLabel(s: string) {
    || (1 <= |s| <= 4 && AllDigits(s))
    || (4 <= |s| <= 7 && AllDigits(s[..|s| - 3]) && s[|s| - 3] == ':' && IsDigit(s[|s| - 2]) && IsDigit(s[|s| - 1]))
  }

  /** A neighbouring column taken as an airport name: neither a code nor a number or time. */
  predicate IsNameColumn(s: string) {
    !IsUpperCode(Upper(s)) && !IsNumericLabel(s)
  }

  /**
    `guessNameNear`: the column right of `idx` when it passes the name test, otherwise
    the column left of it when that one does, otherwise "".
   */
  function GuessNameNear(cols: seq<string>, idx: nat): string
    requires idx < |cols|
  {
    if idx + 1 < |cols| && IsNameColumn(cols[idx + 1]) then cols[idx + 1]
    else if idx >= 1 && IsNameColumn(cols[idx - 1]) then cols[idx - 1]
    else []
  }

  /**
    A guessed name is empty or a neighbouring column that passes the name test: the
    right one whenever it passes, the left one only when the right one is missing or
    fails, and "" when neither passes.
   */
  lemma {:induction false} GuessNameNearNeighbour(cols: seq<string>, idx: nat)
    requires idx < |cols|
    ensures var r := GuessNameNear(cols, idx);
      && (r == [] || IsNameColumn(r))
      && (r != [] ==> (idx + 1 < |cols| && r == cols[idx + 1]) || (idx >= 1 && r == cols[idx - 1]))
    ensures idx + 1 < |cols| && IsNameColumn(cols[idx + 1]) ==> GuessNameNear(cols, idx) == cols[idx + 1]
    ensures !(idx + 1 < |cols| && IsNameColumn(cols[idx + 1])) && idx >= 1 && IsNameColumn(cols[idx - 1]) ==>
      GuessNameNear(cols, idx) == cols[idx - 1]
    ensures !(idx + 1 < |cols| && IsNameColumn(cols[idx + 1])) && !(idx >= 1 && IsNameColumn(cols[idx - 1])) ==>
      GuessNameNear(cols, idx) == []
  {
  }

  /**
    An empty column passes the name test, so an empty column right of `idx` is taken
    and the guess is "", whatever lies to the left.
   */
  lemma {:induction false} EmptyRightHidesLeft(cols: seq<string>, idx: nat)
    requires idx + 1 < |cols| && cols[idx + 1] == []
    ensures GuessNameNear(cols, idx) == []
  {
    assert !IsUpperCode(Upper(cols[idx + 1]));
  }
}
