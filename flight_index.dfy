/**
  What `SearchEngine.buildIndices` derives from the parsed schedule: the flat list of
  legs, the departure index the search walks, the code-to-name table and the
  name-to-codes table.
 */
module FlightIndex {
  import opened Wrappers
  import opened Strings
  import opened Models
  import opened CsvParser
  import opened Itinerary

  // ---------------------------------------------------------------------------
  // Folds over key/value pairs

  /**
    `m[key, default: []].append(value)` for each of the first `n` pairs: the values of
    each key, in the order they came.
   */
  function Group<K(==), V>(pairs: seq<(K, V)>, n: nat): map<K, seq<V>>
    requires n <= |pairs|
  {
    if n == 0 then map[]
    else
      var m := Group(pairs, n - 1);
      var key := pairs[n - 1].0;
      m[key := (if key in m then m[key] else []) + [pairs[n - 1].1]]
  }

  /** The values of `key` among the first `n` pairs, in order. */
  function ValuesOf<K(==), V(!new)>(pairs: seq<(K, V)>, key: K, n: nat): (vs: seq<V>)
    requires n <= |pairs|
    ensures |vs| <= n
    ensures forall v :: v in vs <==> exists j :: 0 <= j < n && pairs[j].0 == key && pairs[j].1 == v
  {
    if n == 0 then []
    else ValuesOf(pairs, key, n - 1) + if pairs[n - 1].0 == key then [pairs[n - 1].1] else []
  }

  /**
    Grouping keeps exactly the keys that occur, and under each the values that came
    with it, in their order and with repetitions.
   */
  lemma {:induction false} GroupSpec<K, V(!new)>(pairs: seq<(K, V)>, n: nat)
    requires n <= |pairs|
    ensures forall key :: key in Group(pairs, n) <==> exists j :: 0 <= j < n && pairs[j].0 == key
    ensures forall key :: key in Group(pairs, n) ==> Group(pairs, n)[key] == ValuesOf(pairs, key, n)
  {
    if n > 0 {
      GroupSpec(pairs, n - 1);
      var m, last := Group(pairs, n - 1), pairs[n - 1];
      if last.0 !in m {
        ValuesOfAbsent(pairs, last.0, n - 1);
      }
    }
  }

  /** A key that does not occur has no values. */
  lemma {:induction false} ValuesOfAbsent<K, V(!new)>(pairs: seq<(K, V)>, key: K, n: nat)
    requires n <= |pairs| && forall j :: 0 <= j < n ==> pairs[j].0 != key
    ensures ValuesOf(pairs, key, n) == []
  {
    if n > 0 {
      ValuesOfAbsent(pairs, key, n - 1);
    }
  }

  /** `if m[key] == nil { m[key] = value }` for each of the first `n` pairs. */
  function FirstSeen<K(==), V>(pairs: seq<(K, V)>, n: nat): map<K, V>
    requires n <= |pairs|
  {
    if n == 0 then map[]
    else
      var m := FirstSeen(pairs, n - 1);
      if pairs[n - 1].0 in m then m else m[pairs[n - 1].0 := pairs[n - 1].1]
  }

  /** Pair `j` is the first of the pairs whose key is its key. */
  predicate FirstOfItsKey<K(==), V>(pairs: seq<(K, V)>, j: nat)
    requires j < |pairs|
  {
    forall l :: 0 <= l < j ==> pairs[l].0 != pairs[j].0
  }

  /** One more pair appends its value under its key. */
  lemma {:induction false} GroupStep<K, V>(pairs: seq<(K, V)>, n: nat, key: K, value: V)
    requires n < |pairs| && pairs[n] == (key, value)
    ensures Group(pairs, n + 1) == Group(pairs, n)[key := (if key in Group(pairs, n) then Group(pairs, n)[key] else []) + [value]]
  {
  }

  /** One more pair adds its key with its value, unless the key is already there. */
  lemma {:induction false} FirstSeenStep<K, V>(pairs: seq<(K, V)>, n: nat, key: K, value: V)
    requires n < |pairs| && pairs[n] == (key, value)
    ensures FirstSeen(pairs, n + 1) == if key in FirstSeen(pairs, n) then FirstSeen(pairs, n) else FirstSeen(pairs, n)[key := value]
  {
  }

  /** First-seen keeps every key that occurs, and only those. */
  lemma {:induction false} FirstSeenKeys<K, V>(pairs: seq<(K, V)>, n: nat)
    requires n <= |pairs|
    ensures forall key :: key in FirstSeen(pairs, n) <==> exists j :: 0 <= j < n && pairs[j].0 == key
  {
    if n > 0 {
      FirstSeenKeys(pairs, n - 1);
    }
  }

  /** Every key is kept with the value of one of its pairs. */
  lemma {:induction false} FirstSeenValues<K, V>(pairs: seq<(K, V)>, n: nat)
    requires n <= |pairs|
    ensures forall key :: key in FirstSeen(pairs, n) ==> exists j :: 0 <= j < n && pairs[j] == (key, FirstSeen(pairs, n)[key])
  {
    if n > 0 {
      FirstSeenValues(pairs, n - 1);
    }
  }

  /** The first value wins: a key is kept with the value of its first pair. */
  lemma {:induction false} FirstSeenFirst<K, V>(pairs: seq<(K, V)>, n: nat)
    requires n <= |pairs|
    ensures forall j :: 0 <= j < n && FirstOfItsKey(pairs, j) ==> pairs[j].0 in FirstSeen(pairs, n) && FirstSeen(pairs, n)[pairs[j].0] == pairs[j].1
  {
    if n > 0 {
      FirstSeenFirst(pairs, n - 1);
      FirstSeenKeys(pairs, n - 1);
      var m, last := FirstSeen(pairs, n - 1), pairs[n - 1];
      forall j | 0 <= j < n && FirstOfItsKey(pairs, j)
        ensures pairs[j].0 in FirstSeen(pairs, n) && FirstSeen(pairs, n)[pairs[j].0] == pairs[j].1
      {
        if j == n - 1 {
          assert last.0 !in m;
        } else if last.0 !in m {
          assert pairs[j].0 in m;
        }
      }
    }
  }

  // ---------------------------------------------------------------------------
  // The legs and the departure index

  /** `flightsRaw.flatMap { $0.1 }` over the first `n` rows. */
  function AllLegsUpTo(rows: seq<FlightRow>, n: nat): (legs: seq<Leg>)
    requires n <= |rows|
    ensures forall l :: l in legs <==> exists i :: 0 <= i < n && l in rows[i].legs
  {
    if n == 0 then []
    else AllLegsUpTo(rows, n - 1) + rows[n - 1].legs
  }

  /** Every leg of every row, row by row. */
  function AllLegs(rows: seq<FlightRow>): seq<Leg> {
    AllLegsUpTo(rows, |rows|)
  }

  /** Each leg filed under its upper-cased departure code. */
  function DepEntries(legs: seq<Leg>): (entries: seq<(string, Leg)>)
    ensures |entries| == |legs|
  {
    seq(|legs|, k requires 0 <= k < |legs| => (Upper(legs[k].dep), legs[k]))
  }

  /** `legIndexByDep` built from `legs`. */
  function DepIndexOf(legs: seq<Leg>): DepIndex {
    Group(DepEntries(legs), |legs|)
  }

  /**
    The departure index has an entry for exactly the upper-cased departure codes of
    the schedule; each entry lists, in load order, the legs departing there, so every
    leg is filed under the code the search looks it up by.
   */
  lemma {:induction false} DepIndexSpec(legs: seq<Leg>)
    ensures forall key :: key in DepIndexOf(legs) <==> exists k :: 0 <= k < |legs| && Upper(legs[k].dep) == key
    ensures forall key :: key in DepIndexOf(legs) ==> DepIndexOf(legs)[key] == ValuesOf(DepEntries(legs), key, |legs|)
    ensures forall k :: 0 <= k < |legs| ==> legs[k] in Next(DepIndexOf(legs), Upper(legs[k].dep))
  {
    var entries: seq<(string, Leg)> := DepEntries(legs);
    GroupSpec(entries, |legs|);
    forall k | 0 <= k < |legs|
      ensures legs[k] in Next(DepIndexOf(legs), Upper(legs[k].dep))
    {
      assert entries[k].0 == Upper(legs[k].dep) && entries[k].1 == legs[k];
    }
  }

  /** Each entry of the departure index holds legs of the schedule departing from its key. */
  lemma {:induction false} DepIndexSound(legs: seq<Leg>)
    ensures WellIndexed(DepIndexOf(legs))
    ensures forall key, l :: key in DepIndexOf(legs) && l in DepIndexOf(legs)[key] ==> l in legs
  {
    var entries: seq<(string, Leg)> := DepEntries(legs);
    GroupSpec(entries, |legs|);
    var index: DepIndex := DepIndexOf(legs);
    forall key, l | key in index && l in index[key]
      ensures Upper(l.dep) == key && l in legs
    {
      var j :| 0 <= j < |legs| && entries[j].0 == key && entries[j].1 == l;
    }
  }

  // ---------------------------------------------------------------------------
  // The airport tables

  /** What a code is displayed as: its name, or the code itself when the name is empty. */
  function Label(code: string, name: string): string {
    if name == [] then code else name
  }

  /** The departure end of a leg, as code and label. */
  function DepSighting(leg: Leg): (string, string) {
    (leg.dep, Label(leg.dep, leg.depName))
  }

  /** The arrival end of a leg, as code and label. */
  function ArrSighting(leg: Leg): (string, string) {
    (leg.arr, Label(leg.arr, leg.arrName))
  }

  /**
    Something about each end of the first `n` legs, in the order the loop meets them:
    departure, then arrival, leg after leg.
   */
  function BothEnds<P>(legs: seq<Leg>, n: nat, dep: Leg -> P, arr: Leg -> P): (s: seq<P>)
    requires n <= |legs|
    ensures |s| == 2 * n
  {
    if n == 0 then [] else BothEnds(legs, n - 1, dep, arr) + [dep(legs[n - 1]), arr(legs[n - 1])]
  }

  /** Entries `2k` and `2k + 1` are about the departure and the arrival of leg `k`. */
  lemma {:induction false} BothEndsAt<P>(legs: seq<Leg>, n: nat, dep: Leg -> P, arr: Leg -> P, k: nat)
    requires k < n <= |legs|
    ensures BothEnds(legs, n, dep, arr)[2 * k] == dep(legs[k])
    ensures BothEnds(legs, n, dep, arr)[2 * k + 1] == arr(legs[k])
  {
    if k < n - 1 {
      BothEndsAt(legs, n - 1, dep, arr, k);
    }
  }

  /** Entry `j` is about an end of leg `j / 2`: its departure when `j` is even, else its arrival. */
  lemma {:induction false} BothEndsIndex<P>(legs: seq<Leg>, n: nat, dep: Leg -> P, arr: Leg -> P, j: nat)
    requires j < 2 * n && n <= |legs|
    ensures j / 2 < n
    ensures BothEnds(legs, n, dep, arr)[j] == if j % 2 == 0 then dep(legs[j / 2]) else arr(legs[j / 2])
  {
    BothEndsAt(legs, n, dep, arr, j / 2);
  }

  /** The airports of the schedule in the order the loop meets them, as code and label. */
  function Sightings(legs: seq<Leg>): seq<(string, string)> {
    BothEnds(legs, |legs|, DepSighting, ArrSighting)
  }

  /** Sightings `2i` and `2i + 1` are the two airports of leg `i` with their labels. */
  lemma {:induction false} SightingsAt(legs: seq<Leg>, i: nat)
    requires i < |legs|
    ensures Sightings(legs)[2 * i] == (legs[i].dep, Label(legs[i].dep, legs[i].depName))
    ensures Sightings(legs)[2 * i + 1] == (legs[i].arr, Label(legs[i].arr, legs[i].arrName))
  {
    BothEndsAt(legs, |legs|, DepSighting, ArrSighting, i);
  }

  /** `airportMap` built from `legs`: each code with the label it was first seen with. */
  function AirportNames(legs: seq<Leg>): map<string, string> {
    FirstSeen(Sightings(legs), 2 * |legs|)
  }

  /** A code of the schedule is an airport some leg departs from or arrives at. */
  predicate IsAirportOf(legs: seq<Leg>, code: string) {
    exists k :: 0 <= k < |legs| && (legs[k].dep == code || legs[k].arr == code)
  }

  /**
    The code-to-name table names exactly the airports of the schedule; by
    `FirstSeenFirst`, each with the label of its first sighting.
   */
  lemma {:induction false} AirportNamesSpec(legs: seq<Leg>)
    ensures forall code :: code in AirportNames(legs) <==> IsAirportOf(legs, code)
  {
    var s := Sightings(legs);
    FirstSeenKeys(s, 2 * |legs|);
    forall code
      ensures code in AirportNames(legs) <==> IsAirportOf(legs, code)
    {
      if code in AirportNames(legs) {
        var j :| 0 <= j < 2 * |legs| && s[j].0 == code;
        BothEndsIndex(legs, |legs|, DepSighting, ArrSighting, j);
        assert legs[j / 2].dep == code || legs[j / 2].arr == code;
      }
      if IsAirportOf(legs, code) {
        var k :| 0 <= k < |legs| && (legs[k].dep == code || legs[k].arr == code);
        BothEndsAt(legs, |legs|, DepSighting, ArrSighting, k);
        assert s[2 * k].0 == legs[k].dep && s[2 * k + 1].0 == legs[k].arr;
      }
    }
  }

  /** A sighting as an entry of the name table: the trimmed label, and the code. */
  function NameEntry(sighting: (string, string)): (string, string) {
    (Trim(sighting.1, Whitespaces), sighting.0)
  }

  /** The name-table entry of a leg's departure. */
  function DepNameEntry(leg: Leg): (string, string) {
    NameEntry(DepSighting(leg))
  }

  /** The name-table entry of a leg's arrival. */
  function ArrNameEntry(leg: Leg): (string, string) {
    NameEntry(ArrSighting(leg))
  }

  /** The entries of the name table, before duplicates are dropped. */
  function NameEntries(legs: seq<Leg>): seq<(string, string)> {
    BothEnds(legs, |legs|, DepNameEntry, ArrNameEntry)
  }

  /** Entries `2i` and `2i + 1` of the name table list the two codes of leg `i` under their trimmed labels. */
  lemma {:induction false} NameEntriesAt(legs: seq<Leg>, i: nat)
    requires i < |legs|
    ensures NameEntries(legs)[2 * i] == (Trim(Label(legs[i].dep, legs[i].depName), Whitespaces), legs[i].dep)
    ensures NameEntries(legs)[2 * i + 1] == (Trim(Label(legs[i].arr, legs[i].arrName), Whitespaces), legs[i].arr)
  {
    BothEndsAt(legs, |legs|, DepNameEntry, ArrNameEntry, i);
  }

  /** The name table with every code listed as often as it was sighted. */
  function NameGroups(legs: seq<Leg>): map<string, seq<string>> {
    Group(NameEntries(legs), 2 * |legs|)
  }

  /**
    `airportNameToIatas` once `Array(Set(...))` has run over each entry: the same
    names, each with the same codes, none twice, in an order that is not specified.
   */
  predicate IsNameTable(table: map<string, seq<string>>, legs: seq<Leg>) {
    var groups := NameGroups(legs);
    && table.Keys == groups.Keys
    && forall name :: name in table ==>
         && NoDuplicates(table[name])
         && (forall code :: code in table[name] ==> code in groups[name])
         && (forall code :: code in groups[name] ==> code in table[name])
  }

  /**
    The name table lists under a name exactly the codes sighted with that label, once
    trimmed of blanks: every airport can be found by its trimmed label.
   */
  lemma {:induction false} NameTableSpec(table: map<string, seq<string>>, legs: seq<Leg>)
    requires IsNameTable(table, legs)
    ensures forall name, code :: name in table && code in table[name]
              <==> exists j :: 0 <= j < 2 * |legs| && NameEntries(legs)[j] == (name, code)
  {
    var entries := NameEntries(legs);
    GroupSpec(entries, 2 * |legs|);
    forall name, code
      ensures name in table && code in table[name] <==> exists j :: 0 <= j < 2 * |legs| && entries[j] == (name, code)
    {
      if exists j :: 0 <= j < 2 * |legs| && entries[j] == (name, code) {
        var j :| 0 <= j < 2 * |legs| && entries[j] == (name, code);
        assert entries[j].0 == name && entries[j].1 == code;
      }
    }
  }

  /** Each leg's departure is listed under its trimmed departure label, and its arrival likewise. */
  lemma {:induction false} NameTableLists(table: map<string, seq<string>>, legs: seq<Leg>, k: nat)
    requires IsNameTable(table, legs) && k < |legs|
    ensures Trim(Label(legs[k].dep, legs[k].depName), Whitespaces) in table
    ensures legs[k].dep in table[Trim(Label(legs[k].dep, legs[k].depName), Whitespaces)]
    ensures Trim(Label(legs[k].arr, legs[k].arrName), Whitespaces) in table
    ensures legs[k].arr in table[Trim(Label(legs[k].arr, legs[k].arrName), Whitespaces)]
  {
    NameTableSpec(table, legs);
    BothEndsAt(legs, |legs|, DepNameEntry, ArrNameEntry, k);
  }

  /**
    When every leg has both codes, as the loader guarantees, every airport has a
    non-empty label: an empty query can then match no airport name.
   */
  lemma {:induction false} LabelsNonEmpty(legs: seq<Leg>)
    requires forall k :: 0 <= k < |legs| ==> HasEnds(legs[k])
    ensures forall code :: code in AirportNames(legs) ==> AirportNames(legs)[code] != []
  {
    var s := Sightings(legs);
    FirstSeenValues(s, 2 * |legs|);
    forall code | code in AirportNames(legs)
      ensures AirportNames(legs)[code] != []
    {
      var j :| 0 <= j < 2 * |legs| && s[j] == (code, AirportNames(legs)[code]);
      BothEndsIndex(legs, |legs|, DepSighting, ArrSighting, j);
      assert HasEnds(legs[j / 2]);
    }
  }
}
