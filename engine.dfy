/**
  The `SearchEngine` object: the loaded schedule and its indices, the two query
  inputs, and the results and status message of the last search.
 */
module Engine {
  import opened Wrappers
  import opened Strings
  import opened Models
  import opened CsvParser
  import opened Normalizer
  import opened Itinerary
  import opened Ranking
  import opened FlightIndex
  import opened Resolve

  /** The status line shown to the user. */
  datatype Message =
    | Prompt              // load a CSV or enter a query
    | Loaded(records: nat) // the CSV is loaded, with this many flight records
    | FillIn              // fill in and pick both airports
    | NoMatch             // no matching flights
    | Found(count: nat)   // this many itineraries, the cheapest ones

  class SearchEngine {
    var flightsRaw: seq<FlightRow>
    var legsAll: seq<Leg>
    var legIndexByDep: DepIndex
    var airportMap: map<string, string>
    var airportNameToIatas: map<string, seq<string>>
    var fromInput: string
    var toInput: string
    var results: seq<CandidateItinerary>
    var message: Message

    /** The indices are those of the loaded schedule. */
    predicate Indexed()
      reads this`flightsRaw, this`legsAll, this`legIndexByDep, this`airportMap, this`airportNameToIatas
    {
      && legsAll == AllLegs(flightsRaw)
      && legIndexByDep == DepIndexOf(legsAll)
      && airportMap == AirportNames(legsAll)
      && IsNameTable(airportNameToIatas, legsAll)
    }

    /** An engine with nothing loaded, empty inputs and the opening prompt. */
    constructor ()
      ensures flightsRaw == [] && Indexed()
      ensures fromInput == [] && toInput == [] && results == [] && message == Prompt
    {
      flightsRaw := [];
      legsAll := [];
      legIndexByDep := map[];
      airportMap := map[];
      airportNameToIatas := map[];
      fromInput := [];
      toInput := [];
      results := [];
      message := Prompt;
    }

    /** `loadCsv(from:)`: parse the text, rebuild the indices, report the record count. */
    method LoadCsv(text: string)
      modifies this`flightsRaw, this`legsAll, this`legIndexByDep, this`airportMap, this`airportNameToIatas, this`message
      ensures flightsRaw == ParseSpec(text) && Indexed()
      ensures message == Loaded(|flightsRaw|)
    {
      flightsRaw := Parse(text);
      BuildIndices();
      message := Loaded(|flightsRaw|);
    }

    /**
      `buildIndices()`: one pass over every leg fills the departure index, the
      code-to-name table and the name-to-codes table; a second pass over the names
      drops repeated codes.
     */
    method BuildIndices()
      modifies this`legsAll, this`legIndexByDep, this`airportMap, this`airportNameToIatas
      ensures Indexed()
    {
      legsAll := AllLegs(flightsRaw);
      var byDep, names, codes := IndexLegs(legsAll);
      codes := DistinctCodes(codes);
      legIndexByDep, airportMap, airportNameToIatas := byDep, names, codes;
    }

    /**
      `searchFlights()`: resolve both inputs against the code-to-name table, search the
      departure index and show the outcome. The resolved codes are returned for the
      statement of the outcome.
     */
    method SearchFlights() returns (ghost origin: string, ghost dest: string)
      modifies this`results, this`message
      ensures IsOutcome(legIndexByDep, airportMap, fromInput, toInput, origin, dest, results, message)
    {
      results, message, origin, dest := Search(legIndexByDep, airportMap, fromInput, toInput);
    }
  }

  /**
    What `searchFlights()` leaves behind for the inputs `fromText` and `toText`, given
    the codes `origin` and `dest` they resolve to: without both codes, no results and
    the fill-in prompt; else the ranking of the itineraries the search finds, one per
    leg signature.
   */
  ghost predicate IsOutcome(index: DepIndex, names: map<string, string>, fromText: string, toText: string,
                            origin: string, dest: string, results: seq<CandidateItinerary>, message: Message)
  {
    && IsResolution(names, fromText, origin) && IsResolution(names, toText, dest)
    && (origin == [] || dest == [] ==> results == [] && message == FillIn)
    && (origin != [] && dest != [] ==> IsRanking(Dedup(Explore(index, dest, origin, [], {origin})), results, message))
  }

  /**
    The results and message shown for the itineraries `found`: the no-match message when
    there are none, else the cheapest of them ordered by elapsed minutes, and their count.
   */
  ghost predicate IsRanking(found: seq<CandidateItinerary>, results: seq<CandidateItinerary>, message: Message) {
    && (found == [] ==> results == [] && message == NoMatch)
    && (found != [] ==> && SortedByDuration(results)
                         && multiset(results) == multiset(PricedAt(found, MinPrice(found), |found|))
                         && message == Found(|results|))
  }

  /** The body of `searchFlights()` over the departure index and the code-to-name table. */
  method Search(index: DepIndex, names: map<string, string>, fromText: string, toText: string)
    returns (results: seq<CandidateItinerary>, message: Message, ghost origin: string, ghost dest: string)
    ensures IsOutcome(index, names, fromText, toText, origin, dest, results, message)
  {
    var originIata := ResolveInputToIata(names, fromText);
    var destIata := ResolveInputToIata(names, toText);
    origin, dest := originIata, destIata;
    if originIata == [] || destIata == [] {
      return [], FillIn, origin, dest;
    }
    results, message := SearchBetween(index, originIata, destIata);
  }

  /** The search proper, from `origin` to `dest`: walk, drop repeated signatures, rank. */
  method SearchBetween(index: DepIndex, origin: string, dest: string) returns (results: seq<CandidateItinerary>, message: Message)
    ensures IsRanking(Dedup(Explore(index, dest, origin, [], {origin})), results, message)
  {
    var resultsTmp := Dfs(index, dest, origin, [], {origin}, []);
    assert resultsTmp == Explore(index, dest, origin, [], {origin});
    var filtered := DedupResults(resultsTmp);
    if filtered == [] {
      return [], NoMatch;
    }
    results := CheapestByDuration(filtered);
    message := Found(|results|);
  }

  /**
    `resolveInputToIata(_:)`: a direct code when the text gives one, else the first
    airport, in the table's iteration order, whose entry matches the query, else the
    empty string.
   */
  method ResolveInputToIata(names: map<string, string>, display: string) returns (iata: string)
    ensures IsResolution(names, display, iata)
  {
    var v := Trim(display, WhitespacesAndNewlines);
    if |v| == 3 && IsThreeLetters(v) {
      return Upper(v);
    }
    var start, end := LastIndexOf(v, '('), LastIndexOf(v, ')');
    if start.Some? && end.Some? && end.value > start.value {
      var sub := v[start.value + 1..end.value];
      if IsThreeLetters(sub) {
        return Upper(sub);
      }
    }
    assert DirectCode(display).None?;
    iata := FindByName(names, Lower(v));
  }

  /**
    The loop of `resolveInputToIata(_:)` over the code-to-name table: the first code, in
    the table's iteration order, whose entry matches the query `low`, else the empty string.
   */
  method FindByName(names: map<string, string>, low: string) returns (iata: string)
    ensures (exists code :: code in names && Matches(code, names[code], low)) ==> iata in names && Matches(iata, names[iata], low)
    ensures (forall code :: code in names ==> !Matches(code, names[code], low)) ==> iata == []
  {
    var pending := names.Keys;
    while pending != {}
      invariant pending <= names.Keys
      invariant forall code :: code in names && code !in pending ==> !Matches(code, names[code], low)
      decreases |pending|
    {
      var code :| code in pending;
      var name := names[code];
      if Lower(name) == low {
        return code;
      }
      if Contains(Lower(name), low) || Contains(Lower(code), low) {
        return code;
      }
      pending := pending - {code};
    }
    return "";
  }

  /** `Array(Set(codes))` for every name of the table: the same codes, each once. */
  method DistinctCodes(table: map<string, seq<string>>) returns (r: map<string, seq<string>>)
    ensures r.Keys == table.Keys
    ensures forall name :: name in r ==>
      && NoDuplicates(r[name])
      && (forall code :: code in r[name] ==> code in table[name])
      && (forall code :: code in table[name] ==> code in r[name])
  {
    r := table;
    var pending := table.Keys;
    while pending != {}
      invariant pending <= table.Keys && r.Keys == table.Keys
      invariant forall name :: name in pending ==> r[name] == table[name]
      invariant forall name :: name in r && name !in pending ==>
        && NoDuplicates(r[name])
        && (forall code :: code in r[name] ==> code in table[name])
        && (forall code :: code in table[name] ==> code in r[name])
      decreases |pending|
    {
      var name :| name in pending;
      r := r[name := Distinct(r[name])];
      pending := pending - {name};
    }
  }

  /**
    `dfs(currentAirport:pathLegs:visitedAirports:)` over the departure index, with the
    results collected so far passed in and handed back: it appends what the search
    specification records.
   */
  method Dfs(index: DepIndex, dest: string, current: string, path: seq<Leg>, visited: set<string>,
             acc: seq<CandidateItinerary>)
    returns (found: seq<CandidateItinerary>)
    ensures found == acc + Explore(index, dest, current, path, visited)
    decreases MAX_SEGMENTS - |path|, 2
  {
    var here := RecordArrival(dest, path);
    ExploreUnfold(index, dest, current, path, visited);
    if |path| >= MAX_SEGMENTS {
      return acc + here;
    }
    found := DfsLegs(index, dest, path, visited, Next(index, current), acc + here);
    AppendAssoc(acc, here, ExploreLegs(index, dest, path, visited, Next(index, current), |Next(index, current)|));
  }

  /** The loop of `dfs` over the legs leaving where it stands, below five legs. */
  method DfsLegs(index: DepIndex, dest: string, path: seq<Leg>, visited: set<string>, nextLegs: seq<Leg>,
                 acc: seq<CandidateItinerary>)
    returns (found: seq<CandidateItinerary>)
    requires |path| < MAX_SEGMENTS
    ensures found == acc + ExploreLegs(index, dest, path, visited, nextLegs, |nextLegs|)
    decreases MAX_SEGMENTS - |path|, 1
  {
    found := acc;
    for i := 0 to |nextLegs|
      invariant found == acc + ExploreLegs(index, dest, path, visited, nextLegs, i)
    {
      ExploreLegsSnoc(index, dest, path, visited, nextLegs, i + 1);
      AppendAssoc(acc, ExploreLegs(index, dest, path, visited, nextLegs, i), ExploreStep(index, dest, path, visited, nextLegs[i]));
      found := TryLeg(index, dest, path, visited, nextLegs[i], found);
    }
  }

  /** One turn of the loop of `dfs`: skip a visited arrival or a path that stops normalising, else go down the leg. */
  method TryLeg(index: DepIndex, dest: string, path: seq<Leg>, visited: set<string>, leg: Leg,
                acc: seq<CandidateItinerary>)
    returns (found: seq<CandidateItinerary>)
    requires |path| < MAX_SEGMENTS
    ensures found == acc + ExploreStep(index, dest, path, visited, leg)
    decreases MAX_SEGMENTS - |path|, 0
  {
    if leg.arr in visited {
      return acc;
    }
    var tentative := path + [leg];
    var ok := StillNormalizes(tentative);
    if !ok {
      return acc;
    }
    found := Dfs(index, dest, leg.arr, tentative, visited + {leg.arr}, acc);
  }

  /** The recording step of `dfs`: the path, priced and timed, when it has arrived and normalises. */
  method RecordArrival(dest: string, path: seq<Leg>) returns (here: seq<CandidateItinerary>)
    ensures here == Here(dest, path)
  {
    here := [];
    if path != [] && Upper(path[|path| - 1].arr) == dest {
      var normRes := NormalizeLegTimes(path);
      NormalizesIff(path);
      if normRes.NormOk? {
        here := [CandidateItinerary(path, Some(normRes.totalMinutes), PriceOf(path))];
      }
    }
  }

  /** The pruning test of `dfs`: does the tentative path still normalise? */
  method StillNormalizes(tentative: seq<Leg>) returns (ok: bool)
    ensures ok == Normalizes(tentative)
  {
    var norm := NormalizeLegTimes(tentative);
    NormalizesIff(tentative);
    ok := norm.NormOk?;
  }

  /** The first pass of `buildIndices()` over every leg, filling the three tables. */
  method IndexLegs(legs: seq<Leg>) returns (byDep: DepIndex, names: map<string, string>, codes: map<string, seq<string>>)
    ensures byDep == DepIndexOf(legs) && names == AirportNames(legs) && codes == NameGroups(legs)
  {
    byDep, names, codes := map[], map[], map[];
    for i := 0 to |legs|
      invariant byDep == Group(DepEntries(legs), i)
      invariant names == FirstSeen(Sightings(legs), 2 * i)
      invariant codes == Group(NameEntries(legs), 2 * i)
    {
      byDep := FileByDeparture(byDep, legs, i);
      names := NoteAirports(names, legs, i);
      codes := ListUnderNames(codes, legs, i);
    }
  }

  /** `legIndexByDep[leg.dep.uppercased(), default: []].append(leg)` for leg `i`. */
  method FileByDeparture(byDep: DepIndex, legs: seq<Leg>, i: nat) returns (r: DepIndex)
    requires i < |legs| && byDep == Group(DepEntries(legs), i)
    ensures r == Group(DepEntries(legs), i + 1)
  {
    var leg := legs[i];
    var key := Upper(leg.dep);
    GroupStep(DepEntries(legs), i, key, leg);
    r := byDep[key := Next(byDep, key) + [leg]];
  }

  /** Record the labels of the two airports of leg `i` unless they are known already. */
  method NoteAirports(names: map<string, string>, legs: seq<Leg>, i: nat) returns (r: map<string, string>)
    requires i < |legs| && names == FirstSeen(Sightings(legs), 2 * i)
    ensures r == FirstSeen(Sightings(legs), 2 * (i + 1))
  {
    var leg := legs[i];
    SightingsAt(legs, i);
    FirstSeenStep(Sightings(legs), 2 * i, leg.dep, Label(leg.dep, leg.depName));
    FirstSeenStep(Sightings(legs), 2 * i + 1, leg.arr, Label(leg.arr, leg.arrName));
    r := names;
    if leg.dep !in r {
      r := r[leg.dep := Label(leg.dep, leg.depName)];
    }
    if leg.arr !in r {
      r := r[leg.arr := Label(leg.arr, leg.arrName)];
    }
    assert 2 * i + 1 + 1 == 2 * (i + 1);
  }

  /** List the two codes of leg `i` under their trimmed labels. */
  method ListUnderNames(codes: map<string, seq<string>>, legs: seq<Leg>, i: nat) returns (r: map<string, seq<string>>)
    requires i < |legs| && codes == Group(NameEntries(legs), 2 * i)
    ensures r == Group(NameEntries(legs), 2 * (i + 1))
  {
    var leg := legs[i];
    var depName := Trim(Label(leg.dep, leg.depName), Whitespaces);
    var arrName := Trim(Label(leg.arr, leg.arrName), Whitespaces);
    NameEntriesAt(legs, i);
    GroupStep(NameEntries(legs), 2 * i, depName, leg.dep);
    GroupStep(NameEntries(legs), 2 * i + 1, arrName, leg.arr);
    r := codes[depName := (if depName in codes then codes[depName] else []) + [leg.dep]];
    r := r[arrName := (if arrName in r then r[arrName] else []) + [leg.arr]];
    assert 2 * i + 1 + 1 == 2 * (i + 1);
  }
}
