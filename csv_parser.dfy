/**
  `CSVParser.parse`: schedule text to one record per data row, each with the raw
  named columns and the legs read from the row. Lines are split on newline
  characters and rows on commas; there is no quoting.
 */
module CsvParser {
  import opened Wrappers
  import opened Strings
  import opened Models
  import opened CsvTokens
  import opened SwiftInt
  import Clock

  /**
    The named raw columns of a row (the source's dictionary with twelve fixed keys):
    flight number, operating days, departure code, name and time, arrival time, the
    four transfer columns, and arrival code and name.
   */
  datatype RawRecord = RawRecord(
    flightNo: string,
    days: string,
    depRaw: string,
    depNameRaw: string,
    depTimeRaw: string,
    arrTimeRaw: string,
    viaRaw: string,
    viaNameRaw: string,
    viaDepTimeRaw: string,
    viaArrTimeRaw: string,
    arrRaw: string,
    arrNameRaw: string)

  /** One parsed row: its named raw columns and the legs it yields. */
  datatype FlightRow = FlightRow(raw: RawRecord, legs: seq<Leg>)

  /** `col(i)`: column `i`, or "" past the end of the row. */
  function Col(cols: seq<string>, i: nat): string {
    if i < |cols| then cols[i] else []
  }

  function Record(cols: seq<string>): RawRecord {
    RawRecord(Col(cols, 0), Col(cols, 1), Col(cols, 2), Col(cols, 3), Col(cols, 4), Col(cols, 5),
              Col(cols, 6), Col(cols, 7), Col(cols, 8), Col(cols, 9), Col(cols, 10), Col(cols, 11))
  }

  /** The columns of a line: split on every comma, empty pieces kept, each piece trimmed. */
  function Columns(line: string): (cols: seq<string>)
    ensures |cols| >= 1
  {
    var pieces := SplitAny(line, Only(','));
    seq(|pieces|, i requires 0 <= i < |pieces| => Trim(pieces[i], WhitespacesAndNewlines))
  }

  /** The number of legs the token path builds from `n` airport tokens. */
  function LegCount(n: nat): nat {
    if n < 2 then 0 else if n - 1 < MAX_SEGMENTS then n - 1 else MAX_SEGMENTS
  }

  /** The tokens of a row, airport codes with column indices inside the row. */
  predicate TokensOfRow(cols: seq<string>, iata: seq<IataToken>, times: seq<TimeToken>) {
    && (forall k :: 0 <= k < |iata| ==> iata[k].index < |cols|)
    && (forall k :: 0 <= k < |times| ==> times[k].index < |cols|)
  }

  /**
    Leg `k` of the token path: from airport token `k` to token `k + 1`, departing at the
    nearest time at or right of the departure code and arriving at the nearest time at
    or left of the arrival code. A missing time falls back to the padded departure or
    arrival time column; a missing name to the departure name column for the first leg
    only, and to the arrival name column only when `k + 1` is the last airport token.
   */
  function TokenLeg(cols: seq<string>, iata: seq<IataToken>, times: seq<TimeToken>, k: nat): Leg
    requires k + 1 < |iata| && TokensOfRow(cols, iata, times)
  {
    var rec := Record(cols);
    var depTok, arrTok := iata[k], iata[k + 1];
    var depTime := NearestTime(times, depTok.index, Right);
    var arrTime := NearestTime(times, arrTok.index, Left);
    var depGuess := GuessNameNear(cols, depTok.index);
    var arrGuess := GuessNameNear(cols, arrTok.index);
    Leg(rec.flightNo,
        depTok.code,
        if depGuess == [] then (if k == 0 then rec.depNameRaw else []) else depGuess,
        if depTime == [] then Padded(rec.depTimeRaw) else depTime,
        arrTok.code,
        if arrGuess == [] then (if k == |iata| - 2 then rec.arrNameRaw else []) else arrGuess,
        if arrTime == [] then Padded(rec.arrTimeRaw) else arrTime)
  }

  /** The first `n` legs of the token path. */
  function TokenLegsUpTo(cols: seq<string>, iata: seq<IataToken>, times: seq<TimeToken>, n: nat): (legs: seq<Leg>)
    requires n < |iata| && TokensOfRow(cols, iata, times)
  {
    Tabulate((k: nat) requires k + 1 < |iata| && TokensOfRow(cols, iata, times) => TokenLeg(cols, iata, times, k), n)
  }

  /** Leg `k` of a row with at least two airport tokens is leg `k` of its token path. */
  lemma {:induction false} RowLegAt(cols: seq<string>, k: nat)
    requires |IataTokens(cols, |cols|)| >= 2 && k < LegCount(|IataTokens(cols, |cols|)|)
    ensures var iata, times := IataTokens(cols, |cols|), TimeTokens(cols, |cols|);
      && TokensOfRow(cols, iata, times)
      && |RowLegs(cols)| == LegCount(|iata|)
      && RowLegs(cols)[k] == TokenLeg(cols, iata, times, k)
  {
    var iata, times := IataTokens(cols, |cols|), TimeTokens(cols, |cols|);
    assert TokensOfRow(cols, iata, times);
  }

  /** The legs of the token path: `min(5, n - 1)` of them for `n` airport tokens. */
  function TokenLegs(cols: seq<string>, iata: seq<IataToken>, times: seq<TimeToken>): (legs: seq<Leg>)
    requires |iata| >= 2 && TokensOfRow(cols, iata, times)
    ensures |legs| == LegCount(|iata|)
  {
    TokenLegsUpTo(cols, iata, times, LegCount(|iata|))
  }

  /**
    The fixed-column fallback of a row with fewer than two airport tokens: one leg from
    the departure and arrival columns, taken as written, when either is non-empty.
   */
  function FallbackLegs(rec: RawRecord): (legs: seq<Leg>)
    ensures |legs| <= 1
  {
    if rec.depRaw != [] || rec.arrRaw != [] then
      [Leg(rec.flightNo, rec.depRaw, rec.depNameRaw, Padded(rec.depTimeRaw),
           rec.arrRaw, rec.arrNameRaw, Padded(rec.arrTimeRaw))]
    else []
  }

  /** A leg with both airport codes present. */
  predicate HasEnds(leg: Leg) {
    leg.dep != [] && leg.arr != []
  }

  /** `legs.filter { !$0.dep.isEmpty && !$0.arr.isEmpty }` */
  function KeepWithEnds(legs: seq<Leg>): (r: seq<Leg>)
    ensures |r| <= |legs|
    ensures forall k :: 0 <= k < |r| ==> HasEnds(r[k]) && r[k] in legs
    ensures forall leg :: leg in legs && HasEnds(leg) ==> leg in r
    ensures forall leg :: multiset(r)[leg] == if HasEnds(leg) then multiset(legs)[leg] else 0
  {
    if legs == [] then []
    else
      var rest := KeepWithEnds(legs[1..]);
      assert legs == [legs[0]] + legs[1..];
      if HasEnds(legs[0]) then [legs[0]] + rest else rest
  }

  /** The legs read from a row's columns, before the filter. */
  function RowLegs(cols: seq<string>): seq<Leg> {
    var iata, times := IataTokens(cols, |cols|), TimeTokens(cols, |cols|);
    if |iata| >= 2 then TokenLegs(cols, iata, times) else FallbackLegs(Record(cols))
  }

  /** A data line: its named columns and the legs read from it that have both codes. */
  function RowOf(line: string): (row: FlightRow)
    ensures forall k :: 0 <= k < |row.legs| ==> HasEnds(row.legs[k])
  {
    var cols := Columns(line);
    FlightRow(Record(cols), KeepWithEnds(RowLegs(cols)))
  }

  /** Non-empty strings of `s`, in order. */
  function NonEmpty(s: seq<string>): (r: seq<string>)
    ensures |r| <= |s|
    ensures forall k :: 0 <= k < |r| ==> r[k] != [] && r[k] in s
    ensures forall x :: x in s && x != [] ==> x in r
    ensures multiset(r) == multiset(s)[[] := 0]
  {
    if s == [] then []
    else
      var rest := NonEmpty(s[1..]);
      assert s == [s[0]] + s[1..];
      if s[0] != [] then [s[0]] + rest else rest
  }

  /** The lines of the text: split on newline characters, trimmed, blank ones dropped. */
  function Lines(text: string): seq<string> {
    var pieces := SplitAny(text, Newlines);
    NonEmpty(seq(|pieces|, i requires 0 <= i < |pieces| => Trim(pieces[i], WhitespacesAndNewlines)))
  }

  /** The result of `parse`: one row per line after the first (the header). */
  function ParseSpec(text: string): seq<FlightRow> {
    var lines := Lines(text);
    if |lines| == 0 then [] else MapPrefix(RowOf, lines[1..], |lines| - 1)
  }

  /** The body of the leg-building loop: leg `k` of the token path. */
  method BuildTokenLeg(cols: seq<string>, iata: seq<IataToken>, times: seq<TimeToken>, k: nat) returns (leg: Leg)
    requires k + 1 < |iata| && TokensOfRow(cols, iata, times)
    ensures leg == TokenLeg(cols, iata, times, k)
  {
    var rec := Record(cols);
    var depTok, arrTok := iata[k], iata[k + 1];
    var depTime := FindNearestTime(times, depTok.index, Right);
    var arrTime := FindNearestTime(times, arrTok.index, Left);
    var depGuess := GuessNameNear(cols, depTok.index);
    var arrGuess := GuessNameNear(cols, arrTok.index);
    var depFallback := PadToken(rec.depTimeRaw);
    var arrFallback := PadToken(rec.arrTimeRaw);
    leg := Leg(rec.flightNo,
               depTok.code,
               if depGuess == [] then (if k == 0 then rec.depNameRaw else []) else depGuess,
               if depTime == [] then depFallback else depTime,
               arrTok.code,
               if arrGuess == [] then (if k == |iata| - 2 then rec.arrNameRaw else []) else arrGuess,
               if arrTime == [] then arrFallback else arrTime);
  }

  /** The leg-building of a row: the token path's loop, or the fixed-column fallback. */
  method BuildRowLegs(cols: seq<string>) returns (legs: seq<Leg>)
    ensures legs == RowLegs(cols)
  {
    var rec := Record(cols);
    var iata, times := ClassifyColumns(cols);
    legs := [];
    if |iata| >= 2 {
      var limit := if MAX_SEGMENTS < |iata| - 1 then MAX_SEGMENTS else |iata| - 1;
      for k := 0 to limit
        invariant legs == TokenLegsUpTo(cols, iata, times, k)
      {
        var leg := BuildTokenLeg(cols, iata, times, k);
        legs := legs + [leg];
      }
    } else {
      var depTime := PadToken(rec.depTimeRaw);
      var arrTime := PadToken(rec.arrTimeRaw);
      if rec.depRaw != [] || rec.arrRaw != [] {
        legs := legs + [Leg(rec.flightNo, rec.depRaw, rec.depNameRaw, depTime, rec.arrRaw, rec.arrNameRaw, arrTime)];
      }
    }
  }

  /** The per-row work of `parse`: columns, tokens, and the leg-building loop. */
  method ParseRow(line: string) returns (row: FlightRow)
    ensures row == RowOf(line)
  {
    var cols := Columns(line);
    var legs := BuildRowLegs(cols);
    row := FlightRow(Record(cols), KeepWithEnds(legs));
  }

  /** `CSVParser.parse`: the header line skipped, one row appended per remaining line. */
  method Parse(text: string) returns (flights: seq<FlightRow>)
    ensures flights == ParseSpec(text)
  {
    flights := [];
    var lines := Lines(text);
    if |lines| < 1 {
      return;
    }
    var rows := lines[1..];
    for idx := 0 to |rows|
      invariant flights == MapPrefix(RowOf, rows, idx)
    {
      var row := ParseRow(rows[idx]);
      flights := flights + [row];
    }
  }

  /** One flight record per line after the header, in order. */
  lemma {:induction false} ParseSpecRows(text: string)
    ensures var flights := ParseSpec(text);
      && |flights| == (if |Lines(text)| == 0 then 0 else |Lines(text)| - 1)
      && forall i :: 0 <= i < |flights| ==> flights[i] == RowOf(Lines(text)[i + 1])
  {
  }

  /**
    Every line is non-empty, holds no line terminator and has no whitespace or newline
    at either end.
   */
  lemma {:induction false} LinesShape(text: string, k: nat)
    requires k < |Lines(text)|
    ensures var l := Lines(text)[k];
      && l != []
      && !In(l[0], WhitespacesAndNewlines) && !In(l[|l| - 1], WhitespacesAndNewlines)
      && forall i :: 0 <= i < |l| ==> !In(l[i], Newlines)
  {
    var pieces := SplitAny(text, Newlines);
    LineOfPiece(text, k);
    var j :| 0 <= j < |pieces| && Lines(text)[k] == Trim(pieces[j], WhitespacesAndNewlines);
    TrimmedPiece(pieces[j]);
  }

  /** Every line is a non-empty trimmed piece of the text between line terminators. */
  lemma {:induction false} LineOfPiece(text: string, k: nat)
    requires k < |Lines(text)|
    ensures Lines(text)[k] != []
    ensures exists j :: 0 <= j < |SplitAny(text, Newlines)| && Lines(text)[k] == Trim(SplitAny(text, Newlines)[j], WhitespacesAndNewlines)
  {
    var pieces := SplitAny(text, Newlines);
    var trimmed := seq(|pieces|, i requires 0 <= i < |pieces| => Trim(pieces[i], WhitespacesAndNewlines));
    assert Lines(text) == NonEmpty(trimmed);
    var l := Lines(text)[k];
    assert l in trimmed;
    var j :| 0 <= j < |trimmed| && trimmed[j] == l;
    assert l == Trim(pieces[j], WhitespacesAndNewlines);
  }

  /** A piece without line breaks, trimmed, has none either. */
  lemma {:induction false} TrimmedPiece(piece: string)
    requires forall i :: 0 <= i < |piece| ==> !In(piece[i], Newlines)
    ensures forall i :: 0 <= i < |Trim(piece, WhitespacesAndNewlines)| ==> !In(Trim(piece, WhitespacesAndNewlines)[i], Newlines)
  {
    var l := Trim(piece, WhitespacesAndNewlines);
    TrimIsSlice(piece, WhitespacesAndNewlines);
    var at :| SliceAt(piece, l, at);
    forall i | 0 <= i < |l|
      ensures !In(l[i], Newlines)
    {
      assert l[i] == piece[at + i];
    }
  }

  /** Every `HasEnds` leg survives the filter, so a list of such legs is kept whole. */
  lemma {:induction false} KeepWithEndsAll(legs: seq<Leg>)
    requires forall k :: 0 <= k < |legs| ==> HasEnds(legs[k])
    ensures KeepWithEnds(legs) == legs
  {
    if legs != [] {
      KeepWithEndsAll(legs[1..]);
      assert [legs[0]] + legs[1..] == legs;
    }
  }

  /**
    On the token path, leg `k` carries column 0 as its flight number and runs from
    airport token `k` to airport token `k + 1`; both codes are three upper-case letters.
   */
  lemma {:induction false} TokenPathLeg(cols: seq<string>, k: nat)
    requires |IataTokens(cols, |cols|)| >= 2 && k < LegCount(|IataTokens(cols, |cols|)|)
    ensures var iata, legs := IataTokens(cols, |cols|), RowLegs(cols);
      && |legs| == LegCount(|iata|)
      && legs[k].flightNo == Col(cols, 0)
      && legs[k].dep == iata[k].code && legs[k].arr == iata[k + 1].code
      && IsUpperCode(legs[k].dep) && IsUpperCode(legs[k].arr)
  {
    RowLegAt(cols, k);
    IataTokensSound(cols, |cols|, k);
    IataTokensSound(cols, |cols|, k + 1);
  }

  /** Consecutive legs of the token path chain: each arrives where the next departs. */
  lemma {:induction false} TokenPathChains(cols: seq<string>, k: nat)
    requires |IataTokens(cols, |cols|)| >= 2 && k + 1 < LegCount(|IataTokens(cols, |cols|)|)
    ensures RowLegs(cols)[k].arr == RowLegs(cols)[k + 1].dep
  {
    TokenPathLeg(cols, k);
    TokenPathLeg(cols, k + 1);
  }

  /**
    A row with at least two airport tokens yields `min(5, n - 1)` legs for its `n`
    tokens, none of them dropped by the filter.
   */
  lemma {:induction false} TokenPathRow(line: string)
    requires |IataTokens(Columns(line), |Columns(line)|)| >= 2
    ensures var cols := Columns(line);
      RowOf(line).legs == RowLegs(cols) && |RowOf(line).legs| == LegCount(|IataTokens(cols, |cols|)|)
  {
    var cols := Columns(line);
    var legs := RowLegs(cols);
    forall k | 0 <= k < |legs|
      ensures HasEnds(legs[k])
    {
      TokenPathLeg(cols, k);
    }
    KeepWithEndsAll(legs);
  }

  /**
    The name fallbacks of the token path: a later leg's departure name is only ever the
    guessed neighbour; column 3 stands in for leg 0 alone and column 11 only when the
    arrival is the last airport token, so a row cut at five legs gets no column 11 name.
   */
  lemma {:induction false} TokenLegNames(cols: seq<string>, k: nat)
    requires |IataTokens(cols, |cols|)| >= 2 && k < LegCount(|IataTokens(cols, |cols|)|)
    ensures var iata, leg := IataTokens(cols, |cols|), RowLegs(cols)[k];
      var depGuess, arrGuess := GuessNameNear(cols, iata[k].index), GuessNameNear(cols, iata[k + 1].index);
      && (k > 0 || depGuess != [] ==> leg.depName == depGuess)
      && (k == 0 && depGuess == [] ==> leg.depName == Col(cols, 3))
      && (k + 2 < |iata| || arrGuess != [] ==> leg.arrName == arrGuess)
      && (k + 2 == |iata| && arrGuess == [] ==> leg.arrName == Col(cols, 11))
      && (|iata| > MAX_SEGMENTS + 1 ==> leg.arrName == arrGuess)
  {
    RowLegAt(cols, k);
  }

  /**
    Time fallbacks of the token path: a row without time tokens takes the padded
    departure and arrival time columns; a row with some takes a token for each leg end,
    which is four digits and so a valid `parseHM` input.
   */
  lemma {:induction false} TokenLegTimes(cols: seq<string>, k: nat)
    requires |IataTokens(cols, |cols|)| >= 2 && k < LegCount(|IataTokens(cols, |cols|)|)
    requires |cols| < INT_MAX
    ensures var leg := RowLegs(cols)[k];
      TimeTokens(cols, |cols|) == [] ==>
        leg.depTime == Padded(Col(cols, 4)) && leg.arrTime == Padded(Col(cols, 5))
    ensures var leg := RowLegs(cols)[k];
      TimeTokens(cols, |cols|) != [] ==>
        && Clock.IsFourDigits(leg.depTime) && Clock.IsFourDigits(leg.arrTime)
        && Clock.ParseHM(leg.depTime).Some? && Clock.ParseHM(leg.arrTime).Some?
  {
    var iata, times := IataTokens(cols, |cols|), TimeTokens(cols, |cols|);
    RowLegAt(cols, k);
    var leg := RowLegs(cols)[k];
    if times != [] {
      NearestTimeIsFourDigits(cols, iata[k].index, Right);
      NearestTimeIsFourDigits(cols, iata[k + 1].index, Left);
      assert Clock.IsFourDigits(leg.depTime) && Clock.IsFourDigits(leg.arrTime);
      Clock.ParseHMOfFourDigits(leg.depTime);
      Clock.ParseHMOfFourDigits(leg.arrTime);
    }
  }

  /**
    A row with fewer than two airport tokens yields one leg exactly when both the
    departure column 2 and the arrival column 10 are non-empty: the leg built when either
    is non-empty is dropped by the filter unless both are. Its fields are the fixed
    columns as written, times padded.
   */
  lemma {:induction false} FallbackRow(line: string)
    requires |IataTokens(Columns(line), |Columns(line)|)| < 2
    ensures var cols := Columns(line);
      RowOf(line).legs ==
        if Col(cols, 2) != [] && Col(cols, 10) != [] then
          [Leg(Col(cols, 0), Col(cols, 2), Col(cols, 3), Padded(Col(cols, 4)),
               Col(cols, 10), Col(cols, 11), Padded(Col(cols, 5)))]
        else []
  {
    var cols := Columns(line);
    var legs := FallbackLegs(Record(cols));
    assert RowLegs(cols) == legs;
    if legs != [] {
      assert legs[1..] == [];
    }
  }
}
