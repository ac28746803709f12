# Flight schedule loading and itinerary search, in Dafny

This project models the core of a small flight-planning app. The app loads an
airline schedule from comma-separated text and builds lookup tables from it.
It resolves what the user typed into airport codes. It then searches the
schedule for itineraries of up to five legs. Each itinerary is placed on one
absolute minute timeline, priced, de-duplicated and ranked.

The model follows the three core source files:

- `Utils.swift` becomes module `Clock`. It holds `parseHM`, which reads a local
  `HHmm` time as minutes, and `hmFromMinutesOfDay`, which formats minutes as
  `HH:mm`. Swift's truncating `/` and `%` are written out in module `SwiftInt`.
- `CSVParser.swift` becomes two modules. `CsvTokens` covers column
  classification, `padToken`, `findNearestTime` and `guessNameNear`. `CsvParser`
  covers the line and row loops and the building of legs, either along the
  airport tokens of a row or from its fixed columns.
- `SearchEngine.swift` becomes five modules:
  - `Normalizer`: `normalizeLegTimes`.
  - `Itinerary`: the depth-first search and pricing.
  - `Ranking`: de-duplication by leg signature, the cheapest tier and the ordering
    by elapsed time.
  - `FlightIndex` and `Resolve`: `buildIndices` and `resolveInputToIata`.
  - `Engine`: the `SearchEngine` class and the methods that run the loops.

`Models` holds the shared records (`Leg`, `NormalizedLeg`, `CandidateItinerary`)
and the limits (`MAX_SEGMENTS`, `MIN_CONNECTION`, `MAX_CONNECTION_MINUTES`).
`Strings` and `Wrappers` are small libraries: ASCII trimming, case mapping,
splitting and substring search, and an `Option` type.

Each loop of the source is a method proved against a specification function.
The properties of the system are lemmas about those functions:

- the search finds exactly the walkable paths;
- normalisation fails exactly when a time does not parse;
- the 48-hour and 7-day guards of `normalizeLegTimes` can never fire. They stand
  as `assert false` branches that the verifier proves unreachable;
- every leg built along a row's tokens runs between two upper-case codes and
  chains with the next one;
- the results are the cheapest tier, ordered by elapsed minutes.

`parseHM` does not check ranges, so `"9999"` reads as 6039 minutes. A leg's
duration can then be negative through Swift's truncating remainder. The
normaliser's guards are dead for these inputs too.

## Model

| member | source | states |
|---|---|---|
| Clock.ParseHM | Utils.swift:4-13 | A parsed time is never a negative number of minutes. |
| Clock.ParseHMSpec | Utils.swift:4-13 | The text is trimmed of whitespace and newlines. Parsing fails unless exactly four ASCII digits remain. Otherwise the value is hours times 60 plus minutes. |
| Clock.ParseHMRange | Utils.swift:6-12 | Without a range check, any accepted text reads as 0 to 6039 minutes. |
| Clock.ParseHMWithinDay | Utils.swift:4-13 | A valid `HHmm` time, blanks around it allowed, parses to a minute within the day. |
| Clock.ParseHMOfFourDigits | Utils.swift:6-12 | Four digits parse to their hours and minutes reading. |
| Clock.ParseHMInjective | Utils.swift:9-12 | If two texts parse to the same value and both minute fields are at most 59, they are the same text once trimmed. |
| Clock.HmFromMinutesOfDay | Utils.swift:15-20 | The output is always five characters `HH:mm`, with hour at most 23 and minute at most 59. It denotes the input minutes modulo one day, negative inputs included. |
| Clock.ReduceIntoDay | Utils.swift:16 | The double truncating remainder equals the mathematical remainder modulo 1440. |
| Clock.HmPeriodic | Utils.swift:15-20 | Formatting is periodic with a period of one day. |
| Clock.FormatHourMinute | Utils.swift:17-19 | Hour h and minute m within range format as the digit pairs of h and m. |
| Clock.FormatDigits | Utils.swift:15-20 | Digits of a valid hour and minute, in minutes, format back to those same digits around a colon. |
| Clock.ParseFormatRoundTrip | Utils.swift:4-20 | Round trip: formatting what a valid `HHmm` parses to gives `HH:mm` with the same digits. |
| CsvTokens.ClassifyColumns | CSVParser.swift:21-31 | The classification loop returns exactly the airport tokens and time tokens of the row's specification. |
| CsvTokens.IsAirportColumn | CSVParser.swift:25-26 | A column is an airport column when, upper-cased, it is three letters `^[A-Z]{3}$`. |
| CsvTokens.IsTimeColumn | CSVParser.swift:24-28 | A time column is non-empty, is not an airport code once upper-cased, and reads `^\d{1,2}:\d{2}$` or `^\d{3,4}$`. |
| CsvTokens.IataTokens | CSVParser.swift:21-31 | There are no more tokens than columns scanned, each at a scanned index. |
| CsvTokens.IataTokensSound | CSVParser.swift:25-27 | Each airport token is an airport column at its own index. Its raw text is the column, and its code is that text upper-cased: three capital letters. |
| CsvTokens.IataTokensAscending | CSVParser.swift:23-27 | Airport tokens come in strictly increasing column order. |
| CsvTokens.IataTokensComplete | CSVParser.swift:23-27 | Every airport column gets a token. |
| CsvTokens.TimeTokens | CSVParser.swift:21-31 | There are no more tokens than columns scanned, each at a scanned index. |
| CsvTokens.TimeTokensSound | CSVParser.swift:28-29 | Each time token is a time column, and not an airport column, at its own index. |
| CsvTokens.TimeTokensAscending | CSVParser.swift:23-30 | Time tokens come in strictly increasing column order. |
| CsvTokens.TimeTokensComplete | CSVParser.swift:28-29 | Every time column that is not an airport column gets a token. |
| CsvTokens.TokensDisjoint | CSVParser.swift:26-29 | No column is both an airport token and a time token. |
| CsvTokens.PadToken | CSVParser.swift:33-39 | The padding loop computes the padded form of the token. |
| CsvTokens.Padded | CSVParser.swift:33-39 | `padToken`: "" for an empty token. Otherwise the token's digits, with `:` and every other non-digit removed, left-padded with zeros to at least four characters. |
| CsvTokens.PaddedShape | CSVParser.swift:33-39 | A non-empty token pads to all digits, of length max(4, digit count). The token's digits come last and in order, behind leading zeros. Nothing is truncated. |
| CsvTokens.TimeColumnDigits | CSVParser.swift:28 | A clock-like or digit-only time column holds 3 or 4 digits. |
| CsvTokens.TimeColumnPadsToFour | CSVParser.swift:33-39 | A time column pads to exactly four digits. |
| CsvTokens.FirstAtOrAfter | CSVParser.swift:44 | Returns the first token at or right of the position, or reports that there is none. |
| CsvTokens.LastAtOrBefore | CSVParser.swift:46 | Returns the last token at or left of the position, or reports that there is none. |
| CsvTokens.PreferredIsExtreme | CSVParser.swift:43-46 | On ascending tokens, filtering then sorting picks the least index at or after the position ("right"). It picks the greatest index at or before the position ("left"). |
| CsvTokens.Closest | CSVParser.swift:48-53 | The scan over the time tokens, replacing the best only on a strictly smaller distance, starting from `Int.max`. It picks one of the tokens scanned, or none. |
| CsvTokens.NearestTime | CSVParser.swift:41-55 | `findNearestTime`: "" without time tokens. With "right" ("left") preferred, the first token at or right of (the last at or left of) the position, when there is one. Otherwise the scan's pick. The result is padded. |
| CsvTokens.ClosestSpec | CSVParser.swift:48-53 | The scan picks a token of least distance, the earliest among equals. It picks none only when every distance reaches `Int.max`. |
| CsvTokens.FindNearestTime | CSVParser.swift:41-55 | The method, with its scan loop, returns the specified nearest padded time. |
| CsvTokens.NearestTimeIsFourDigits | CSVParser.swift:41-55 | When the row has a time token, the nearest time is four digits for every preference. |
| CsvTokens.IsNameColumn | CSVParser.swift:60-61 | The name test: not three letters once upper-cased, and not a number or clock time `^\d{1,4}(:\d{2})?$`. |
| CsvTokens.GuessNameNear | CSVParser.swift:57-73 | `guessNameNear`: the column right of the index when it exists and passes the name test, else the column left of it when that exists and passes, else "". |
| CsvTokens.GuessNameNearNeighbour | CSVParser.swift:57-73 | A guessed name is empty or a neighbouring column that passes the name test. A right column that passes is always taken. The left column is taken only when the right one is missing or fails and the left one passes. When neither passes the guess is "". |
| CsvTokens.EmptyRightHidesLeft | CSVParser.swift:58-63 | An empty column right of the index passes the name test, so the guess is empty even when a good name lies to the left. |
| CsvParser.NonEmpty | CSVParser.swift:6 | Blank lines are dropped and every non-blank line is kept, as often as it occurs: the result's multiset is the input's with the empty string removed. |
| CsvParser.Lines | CSVParser.swift:6 | The text split at every newline character, each piece trimmed of whitespace and newlines, blank pieces dropped, in order. |
| CsvParser.ParseSpec | CSVParser.swift:4-104 | `parse`: no records when the text has no lines. Otherwise one record per line after the first (the header), built by `RowOf`, in order. |
| CsvParser.Columns | CSVParser.swift:11 | A line split at every comma, empty pieces kept, each piece trimmed. There is always at least one column. |
| CsvParser.Col | CSVParser.swift:13 | `col(i)`: column i, or "" past the end of the row. |
| CsvParser.Record | CSVParser.swift:14-19 | The twelve named raw columns, columns 0 to 11 in the source's order. |
| Strings.JoinSplit | CSVParser.swift:11 | Splitting on a one-character separator and joining back with it gives the text back. With no quoting, the comma split of a line loses nothing. |
| CsvParser.LegCount | CSVParser.swift:76-77 | The legs built from n airport tokens: none below two, else min(5, n - 1). |
| CsvParser.TokenLeg | CSVParser.swift:79-88 | Leg k of the token path: column 0 as flight number, from token k's code to token k + 1's code. Departure time is the nearest time preferring right, arrival preferring left, each falling back to the padded column 4 or 5. Departure name is the guess, else column 3 for k = 0 only, else "". Arrival name is the guess, else column 11 when k + 1 is the last token only, else "". |
| CsvParser.FallbackLegs | CSVParser.swift:91-100 | At most one leg: built from columns 0, 2, 3, 10 and 11 with padded times 4 and 5, when column 2 or column 10 is non-empty. |
| CsvParser.RowLegs | CSVParser.swift:75-100 | The token path's legs when a row has two or more airport tokens, else the fallback leg. |
| CsvParser.KeepWithEnds | CSVParser.swift:101 | The filter keeps exactly the legs with both codes, each as often as it occurs, and nothing else. |
| CsvParser.TokenLegs | CSVParser.swift:76-78 | A row with n airport tokens yields min(5, n - 1) token legs. |
| CsvParser.RowOf | CSVParser.swift:11-101 | Every leg of a parsed row has both a departure code and an arrival code. |
| CsvParser.BuildTokenLeg | CSVParser.swift:79-89 | The loop body builds leg k of the token path as specified. |
| CsvParser.BuildRowLegs | CSVParser.swift:75-100 | The leg-building loop, or the fallback, yields the specified legs of the row. |
| CsvParser.ParseRow | CSVParser.swift:11-101 | Returns the row's named columns and its filtered legs. |
| CsvParser.Parse | CSVParser.swift:4-104 | `parse` returns the specified records for any text. |
| CsvParser.ParseSpecRows | CSVParser.swift:6-10 | There is one record per non-blank line after the header, in order. A text without lines gives none. |
| CsvParser.LinesShape | CSVParser.swift:6 | Every line is non-empty, holds no line terminator, and has no blank at either end. |
| CsvParser.LineOfPiece | CSVParser.swift:6 | Every line is a trimmed piece of the text between line terminators. |
| CsvParser.RowLegAt | CSVParser.swift:76-90 | With two or more airport tokens, leg k of a row is leg k of its token path. |
| CsvParser.KeepWithEndsAll | CSVParser.swift:101 | The filter keeps legs that all have both codes unchanged. |
| CsvParser.TokenPathLeg | CSVParser.swift:79-88 | Token leg k carries column 0 as its flight number. It runs from airport token k to token k + 1, both three capital letters. |
| CsvParser.TokenPathChains | CSVParser.swift:79 | Consecutive token legs chain: each arrives where the next departs. |
| CsvParser.TokenPathRow | CSVParser.swift:76-101 | A row with two or more airport tokens keeps all its min(5, n - 1) token legs through the filter. |
| CsvParser.TokenLegNames | CSVParser.swift:84-87 | Column 3 names only leg 0's departure. Column 11 names only the last token's arrival. A row cut at five legs gets arrival names from guesses alone. |
| CsvParser.TokenLegTimes | CSVParser.swift:80-88 | A row without time tokens uses padded columns 4 and 5. A row with some gets four-digit times that `parseHM` accepts. |
| CsvParser.FallbackRow | CSVParser.swift:91-101 | Below two airport tokens, a row yields one leg exactly when columns 2 and 10 are both non-empty. The leg holds the fixed columns, with times padded. |
| Normalizer.SegmentDurationBounds | SearchEngine.swift:183-184 | A leg lasts less than a day either way, and exactly a day when its times coincide. For in-day times it lasts 1 to 1440 minutes and lands on the arrival clock time. |
| Normalizer.LegTimes | SearchEngine.swift:180-182 | Both local times of a leg when both parse with `parseHM`, else nothing. |
| Normalizer.SegmentDuration | SearchEngine.swift:183-184 | `(arrM - depM + 1440) % 1440` with Swift's truncating remainder, replaced by 1440 when it is 0 and the two times are equal. |
| Normalizer.EarliestDeparture | SearchEngine.swift:193-199 | The local departure itself when it is not before the bound, else the departure shifted forward by the number of whole days that first reaches the bound. |
| Normalizer.Entry | SearchEngine.swift:200-203 | A leg placed at a departure minute: arrival one segment duration later, and day offsets as the truncating quotients by 1440. |
| Normalizer.Timeline | SearchEngine.swift:179-207 | The entries of the first n legs: the first departs at its local minute, each later one at the earliest departure at least 30 minutes after the previous arrival. It has exactly n entries. |
| Normalizer.Normalizes | SearchEngine.swift:176-182 | The success condition: the path is non-empty and both times of every leg parse. |
| Normalizer.EarliestDepartureSpec | SearchEngine.swift:193-199 | The rolled-forward departure is a whole-day shift of the local time. It is not before the bound and is the least such shift. It is under a day past the bound when rolled. |
| Normalizer.EarliestDepartureUnique | SearchEngine.swift:193-199 | A shift that reaches the bound while the shift one day earlier does not is the earliest departure. |
| Normalizer.TimelineSamePrefix | SearchEngine.swift:179-207 | The timeline of the first n legs depends on those legs alone. |
| Normalizer.TimelinePrefix | SearchEngine.swift:179-207 | A prefix of a timeline is the timeline of the prefix. |
| Normalizer.TimelineEntry | SearchEngine.swift:185-205 | The first entry departs at its local minute. Each later entry departs at the earliest shift after the previous arrival plus the connection time. |
| Normalizer.TimelineInDay | SearchEngine.swift:185-205 | For in-day times, every entry's absolute minutes are non-negative and fall on its clock times. Each leg lasts 1 to 1440 minutes, and its day offsets are the day quotients. Each entry departs 30 to 1469 minutes after the one before lands. |
| Normalizer.Normalize | SearchEngine.swift:175-210 | On success there is one entry per leg and the path is non-empty. |
| Normalizer.RollForward | SearchEngine.swift:193-199 | The roll-forward loop finds the earliest departure at least 30 minutes after the previous arrival. Its 48-hour exit is proved unreachable. |
| Normalizer.ParseLegTimes | SearchEngine.swift:180-182 | The guard yields both local times of a leg exactly when both parse. |
| Normalizer.PlaceLeg | SearchEngine.swift:183-205 | The first leg departs at its local minute. A later leg departs at the rolled-forward departure. The missing-previous and 7-day guards are proved unreachable. |
| Normalizer.AppendLeg | SearchEngine.swift:185-205 | One pass of the loop extends the timeline by the next leg and remembers its arrival. |
| Normalizer.NormalizeLegTimes | SearchEngine.swift:175-210 | `normalizeLegTimes` returns the specified normalisation for every path. |
| Normalizer.NormalizesIff | SearchEngine.swift:176-182 | Normalisation succeeds exactly when the path is non-empty and every time on it parses. |
| Normalizer.NormalizeFailsAt | SearchEngine.swift:180-182 | One unparsable time anywhere makes normalisation fail. |
| Normalizer.NormalizeFailsIff | SearchEngine.swift:176-182 | Normalisation fails exactly for the empty path or a path with an unparsable time. |
| Normalizer.NormalizeEntry | SearchEngine.swift:185-205 | On success, each entry arrives one segment duration after it departs. The first departs at its local minute. Each later one departs at the earliest shift leaving the minimum connection. |
| Normalizer.NormalizeTimes | SearchEngine.swift:180-203 | On success, each entry carries the parsed local times of its own leg. |
| Normalizer.NormalizeTotal | SearchEngine.swift:208-209 | The total is the span from the first departure to the last arrival. |
| Normalizer.NormalizeInDay | SearchEngine.swift:183-205 | A path whose times are all valid in-day times normalises. Each entry falls on its clock times and lasts 1 to 1440 minutes. Each departs 30 to 1469 minutes after the one before lands. |
| Normalizer.NormalizeIncreasing | SearchEngine.swift:183-205 | For such a path, each leg lands after it departs and before any later leg departs. |
| Normalizer.NormalizePrefix | SearchEngine.swift:179-207 | Normalising a prefix gives the prefix of the normalisation. |
| Itinerary.FlightNos | SearchEngine.swift:137 | Collects exactly the flight numbers of the first n legs. |
| Itinerary.PriceOf | SearchEngine.swift:137-138 | `min(10, distinct flight numbers) * 70`. |
| Itinerary.PriceRange | SearchEngine.swift:137-138 | A path of 1 to 5 legs costs 70 per distinct flight number, between 70 and 350. The cap of ten never applies. |
| Itinerary.SingleFlightPrice | SearchEngine.swift:137-138 | A path flown on one flight number costs 70, whatever its length. |
| Itinerary.Candidate | SearchEngine.swift:135-139 | A recorded path keeps its legs, its elapsed minutes and its price. |
| Itinerary.Here | SearchEngine.swift:133-141 | What `dfs` records where it stands: the path, once, when it is non-empty, its last arrival code upper-cased is the destination, and it normalises; else nothing. |
| Itinerary.Explore | SearchEngine.swift:131-155 | `dfs`: what it records where it stands, then, below five legs, what the loop over the departure index entry of the current airport records. |
| Itinerary.ExploreLegs | SearchEngine.swift:145-154 | The loop of `dfs` over the first n next legs, their findings concatenated in index order. |
| Itinerary.ExploreStep | SearchEngine.swift:146-153 | One pass of that loop: nothing for a visited arrival code or a path that stops normalising, else the search from the leg's arrival with the path extended and the arrival visited. |
| Itinerary.ExploreUnfold | SearchEngine.swift:131-155 | The search records where it stands. Below five legs, it then records what its loop over the next legs records. |
| Itinerary.PathExtend | SearchEngine.swift:145-153 | Taking an accepted leg keeps the invariant of the recursive call: where the path stands and what it has visited. |
| Itinerary.HereSound | SearchEngine.swift:133-141 | A walkable path that arrives at the destination is a candidate. |
| Itinerary.ExploreSound | SearchEngine.swift:131-157 | Every recorded itinerary is a walkable path from the origin ending at the destination. It is priced and timed. |
| Itinerary.ExploreComplete | SearchEngine.swift:131-157 | Every walkable path that ends at the destination and extends the current path is recorded. |
| Itinerary.SearchExact | SearchEngine.swift:131-157 | The search from the origin records exactly the candidates, both directions. |
| Itinerary.IsPathPrefix | SearchEngine.swift:145-153 | Every prefix of a walkable path is walkable. |
| Itinerary.IsPathNormalizes | SearchEngine.swift:147-150 | A non-empty walkable path normalises. |
| Itinerary.IsPathStep | SearchEngine.swift:145-153 | Each leg of a walkable path is one the search accepts at that point. |
| Itinerary.NextDeparts | SearchEngine.swift:144 | In a well-indexed table, a leg taken from the entry of an airport departs from it, upper-cased. |
| Itinerary.IsPathChains | SearchEngine.swift:143-153 | A walkable path has at most five legs and departs from the origin. Each later leg departs where the one before arrived. |
| Itinerary.IsPathChained | SearchEngine.swift:143-153 | The same fact, as the chained-path predicate. |
| Itinerary.IsPathSimple | SearchEngine.swift:146-152 | No leg arrives back at the origin, and no two legs arrive at the same code. |
| Itinerary.IsPathPrefixesNormalize | SearchEngine.swift:133-150 | Every non-empty prefix normalises, so the check at recording time always passes. |
| Itinerary.NoPassThrough | SearchEngine.swift:134-152 | With upper-cased arrival codes, only the last leg reaches the destination. A recorded path never passes through it. |
| Ranking.DedupKeys | SearchEngine.swift:158-163 | The kept itineraries cover every leg signature seen, each exactly once. |
| Ranking.DedupKeepsOnlyFirsts | SearchEngine.swift:158-163 | Every kept itinerary is the first one with its signature. |
| Ranking.DedupKeepsFirsts | SearchEngine.swift:158-163 | Every first occurrence of a signature is kept. |
| Ranking.DedupNoRepeats | SearchEngine.swift:158-163 | With distinct signatures, nothing is dropped. |
| Ranking.LegSignature | SearchEngine.swift:161 | A leg's signature `dep|depTime|arr|arrTime|flightNo`, character for character the interpolated string of line 161. |
| Ranking.PathKeyUpTo | SearchEngine.swift:161 | The signatures of the first n legs joined with `->`, as `joined(separator: "->")` does. |
| Ranking.Key | SearchEngine.swift:161 | The de-duplication key of a recorded path: the signatures of all its legs joined. |
| Ranking.SignatureInjective | SearchEngine.swift:161 | When no field but the flight number holds a `|`, two legs share a signature exactly when their codes, times and flight numbers agree. Airport names do not enter the key. |
| Ranking.Dedup | SearchEngine.swift:158-163 | The recorded paths with every path whose key was seen before dropped, in the order found. |
| Ranking.DedupResults | SearchEngine.swift:158-163 | The de-duplication loop computes the specified de-duplicated list. |
| Ranking.LeastPrice | SearchEngine.swift:168 | The least price among the first n is attained by one of them and is at most every price. |
| Ranking.MinPrice | SearchEngine.swift:168 | The minimum price, or 0 for an empty list. |
| Ranking.PricedAt | SearchEngine.swift:169 | The filter keeps exactly the itineraries at the given price, with their multiplicities. |
| Ranking.CheapestTier | SearchEngine.swift:168-169 | The cheapest tier of a non-empty list is non-empty. It holds exactly the least-priced itineraries, and none is dearer than any other. |
| Ranking.InsertBy | SearchEngine.swift:170 | Inserting into a sorted list keeps it sorted and adds exactly that element. |
| Ranking.Duration | SearchEngine.swift:170 | The sort key `totalMinutes ?? Int.max`. |
| Ranking.SortByDuration | SearchEngine.swift:170 | The output is sorted by elapsed minutes and is a permutation of the input. |
| Ranking.CheapestByDuration | SearchEngine.swift:168-171 | The results are exactly the cheapest tier, as a permutation, ordered by elapsed minutes. |
| FlightIndex.ValuesOf | SearchEngine.swift:52 | The values filed under a key are exactly those paired with it. |
| FlightIndex.GroupSpec | SearchEngine.swift:52 | Grouping files every key seen, and only those. Under each it lists the paired values in order. |
| FlightIndex.GroupStep | SearchEngine.swift:52 | One append under a key with a default of empty. |
| FlightIndex.FirstSeenStep | SearchEngine.swift:53-54 | A key is written only when it is absent. |
| FlightIndex.FirstSeenKeys | SearchEngine.swift:53-54 | The first-seen table has exactly the keys seen. |
| FlightIndex.FirstSeenValues | SearchEngine.swift:53-54 | Each value in the first-seen table was paired with its key. |
| FlightIndex.FirstSeenFirst | SearchEngine.swift:53-54 | The first pairing of each key wins. |
| FlightIndex.AllLegsUpTo | SearchEngine.swift:49 | The flattened legs are exactly the legs of the records. |
| FlightIndex.AllLegs | SearchEngine.swift:49 | `flightsRaw.flatMap { $0.1 }`: the legs of every record, in record order. |
| FlightIndex.Group | SearchEngine.swift:52 | The table that `[key, default: []].append(value)` builds over the first n pairs. |
| FlightIndex.DepIndexOf | SearchEngine.swift:50-52 | The departure index: every leg appended under its upper-cased departure code. |
| FlightIndex.FirstSeen | SearchEngine.swift:53-54 | The table that writes a value only when its key is absent, over the first n pairs. |
| FlightIndex.Label | SearchEngine.swift:53-59 | An airport's label: its name, or its code when the name is empty. |
| FlightIndex.AirportNames | SearchEngine.swift:53-54 | The code-to-name table: each departure and then arrival code of every leg, in order, with the label seen first. |
| FlightIndex.NameGroups | SearchEngine.swift:56-60 | The name table before de-duplication: each leg's departure and then arrival code appended under its label trimmed of blanks. |
| FlightIndex.IsNameTable | SearchEngine.swift:56-64 | A name table after `Array(Set(...))`: the same names, each with the same codes and none repeated. |
| FlightIndex.DepIndexSpec | SearchEngine.swift:50-52 | The departure index has exactly the upper-cased departure codes as keys. Under each it holds that code's legs in load order, and every leg is found under its code. |
| FlightIndex.DepIndexSound | SearchEngine.swift:50-52 | Every indexed leg is a loaded leg filed under its own upper-cased departure code. |
| FlightIndex.SightingsAt | SearchEngine.swift:53-54 | Leg i contributes its departure and then its arrival, each labelled with its name, or its code when the name is empty. |
| FlightIndex.AirportNamesSpec | SearchEngine.swift:53-54 | The code-to-name table holds exactly the codes that some leg departs from or arrives at. |
| FlightIndex.LabelsNonEmpty | SearchEngine.swift:53-54 | When every leg has both codes, no airport's label is empty. |
| FlightIndex.NameEntriesAt | SearchEngine.swift:56-60 | Leg i files its departure code and then its arrival code under the label trimmed of blanks. |
| FlightIndex.NameTableSpec | SearchEngine.swift:56-64 | The name table lists a code under a name exactly when some leg end pairs them. |
| FlightIndex.NameTableLists | SearchEngine.swift:56-64 | Both airports of every leg can be found under their trimmed labels. |
| Resolve.Parenthesised | SearchEngine.swift:108-109 | What it returns is the text strictly between a `(` and a later `)` of the input. |
| Resolve.DirectCode | SearchEngine.swift:104-113 | A direct code is always three capital letters. |
| Resolve.Query | SearchEngine.swift:104-114 | The query the name loop uses: the input trimmed of whitespace and newlines, then lower-cased. |
| Resolve.Matches | SearchEngine.swift:116-117 | An entry answers the query when its lower-cased name equals it, or contains it, or its lower-cased code contains it. |
| Resolve.IsResolution | SearchEngine.swift:103-120 | What `resolveInputToIata` may return: the direct code if the input gives one. Otherwise a code whose entry matches the query, as long as one does. Otherwise "". |
| Resolve.DirectCodeIdempotent | SearchEngine.swift:104-113 | A resolved code resolves to itself. |
| Resolve.ThreeLettersResolve | SearchEngine.swift:104-107 | Three letters in either case, blanks around them allowed, resolve to the letters upper-cased and to nothing else. |
| Resolve.ParenthesisedSuffix | SearchEngine.swift:108-113 | Text ending in `(XYZ)` names the code XYZ. |
| Resolve.SuggestionResolves | SearchEngine.swift:108-113 | A suggestion `name (CODE)` resolves to CODE upper-cased, whatever the name. |
| Resolve.BlankUnresolved | SearchEngine.swift:103-119 | When every airport label is non-empty, blank input resolves to the empty string and nothing else. |
| Engine.ResolveInputToIata | SearchEngine.swift:103-120 | Returns the direct code when the text gives one. Otherwise it returns a code whose entry matches the query, when one does, else the empty string. |
| Engine.FindByName | SearchEngine.swift:114-119 | Returns a matching code whenever some entry matches, and the empty string when none does. |
| Engine.DistinctCodes | SearchEngine.swift:62-64 | Same names. Each name's list holds the same codes, each exactly once. |
| Engine.FileByDeparture | SearchEngine.swift:51-52 | One loop pass files leg i under its upper-cased departure code. |
| Engine.NoteAirports | SearchEngine.swift:53-54 | One loop pass notes both airports of leg i when they are unnamed so far. |
| Engine.ListUnderNames | SearchEngine.swift:56-60 | One loop pass lists both codes of leg i under their trimmed labels. |
| Engine.IndexLegs | SearchEngine.swift:49-61 | The loop builds the departure index, the code-to-name table and the name table specified over all legs. |
| Engine.RecordArrival | SearchEngine.swift:133-141 | Records the path exactly when its last leg reaches the destination and it normalises. |
| Engine.StillNormalizes | SearchEngine.swift:147-150 | The extended path is kept exactly when it normalises. |
| Engine.TryLeg | SearchEngine.swift:146-153 | One pass of the loop appends what the search records through that leg. |
| Engine.DfsLegs | SearchEngine.swift:144-154 | The loop over the next legs appends what the search records through each of them, in order. |
| Engine.Dfs | SearchEngine.swift:131-155 | `dfs` appends exactly what the search specification records. |
| Engine.SearchBetween | SearchEngine.swift:130-172 | Walk, de-duplicate and rank. No itinerary gives the no-match message. Otherwise the result is the cheapest tier ordered by elapsed minutes, with its count. |
| Engine.Search | SearchEngine.swift:122-173 | Both inputs are resolved. A missing code gives no results and the fill-in message. Otherwise the outcome is the ranking of the de-duplicated search. |
| Engine.SearchEngine.constructor | SearchEngine.swift:9-21 | A fresh engine has no records, consistent empty indices, empty inputs, no results and the opening prompt. |
| Engine.SearchEngine.LoadCsv | SearchEngine.swift:39-43 | The records are the parse of the text, the indices are rebuilt from them, and the message reports the record count. |
| Engine.SearchEngine.BuildIndices | SearchEngine.swift:45-65 | The flattened legs, departure index, code-to-name table and name table are those of the loaded records. |
| Engine.SearchEngine.SearchFlights | SearchEngine.swift:122-173 | The results and the message are the outcome of the search for the two inputs over the current indices. |

## Left out

- `bootstrap`: reading the bundled schedule file is I/O. `LoadCsv` takes the text instead.
- `saveItinerary` and `loadSavedData`: persistence and clock reads. With them go `StorageManager`, `ItineraryItem`, `HistoryItem`, `NormalizedResult` and the saved and history fields of the engine.
- `suggestedFrom` and `suggestedTo`: their order comes from dictionary iteration, and the first 60 are cut from it. Only `Resolve.SuggestionResolves` states how a suggestion resolves.
- The shared singleton, the `@Published` observers and the Combine subscriptions: these are concurrency and UI plumbing.
- The `weekday` field of the engine: nothing in the core reads it. The operating-days column is kept in the raw record.
- The `id: UUID` of `Leg` and `CandidateItinerary`: two legs with equal fields are equal in the model.
- The raw dictionary of each row: it becomes a record with one field per fixed key. Its Chinese keys and the messages' Chinese texts become names (`Message`).
- Swift `Int` overflow: integers are unbounded. `Int.max` is a constant that bounds the nearest-time scan.
- Unicode: trimming, case mapping, `\d` and `[A-Za-z]` are modelled on ASCII.
- ICU's `$` also matches before a final newline. That behaviour is not modelled. Trimmed lines and columns never end in a newline, so the CSV side is unaffected. In `resolveInputToIata` the text inside the parentheses is not trimmed, so the source accepts `"Beijing (PEK\n)"`. It returns `"PEK\n"`, newline included. `Resolve.DirectCode` rejects that text, and the model goes on to the name lookup.
- Foundation's `contains` on an empty query: modelled as `NSString` does, where the empty string is contained in nothing.
- Engine.ResolveInputToIata: the source returns the first matching airport in dictionary iteration order. The model returns some matching airport, because that order is unspecified.
- Engine.FindByName: the same. The loop picks the codes in an unspecified order.
- Engine.DistinctCodes: `Array(Set(...))` has an unspecified order. Each list is stated as the same codes without repeats, not in a particular order.
- Ranking.SortByDuration: Swift's sort is not stable. The order among itineraries of equal elapsed time is left open, and the result is stated as a sorted permutation.
- Engine.Dfs: `dfs` is a nested function that appends to a captured array. It is modelled as a module-level method over the departure index that receives and returns the array.
- Engine.SearchEngine.SearchFlights: the two resolved codes are returned as ghost values so that the outcome can be stated. The source keeps them local.
