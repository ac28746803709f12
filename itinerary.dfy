/**
  The itinerary search of `SearchEngine.searchFlights`: a depth-first walk over the
  departure index that records every path ending at the destination, then pricing,
  de-duplication by leg signature, the cheapest tier and the ranking by elapsed time.
 */
module Itinerary {
  import opened Wrappers
  import opened Strings
  import opened Models
  import opened Normalizer

  /** The departure index: upper-cased departure code to the legs leaving there, in load order. */
  type DepIndex = map<string, seq<Leg>>

  /** `legIndexByDep[current] ?? []` */
  function Next(index: DepIndex, current: string): seq<Leg> {
    if current in index then index[current] else []
  }

  // ---------------------------------------------------------------------------
  // Pricing

  /** The flight numbers of the first `n` legs. */
  function FlightNos(legs: seq<Leg>, n: nat): (nos: set<string>)
    requires n <= |legs|
    ensures |nos| <= n
    ensures forall k :: 0 <= k < n ==> legs[k].flightNo in nos
    ensures forall f :: f in nos ==> exists k :: 0 <= k < n && legs[k].flightNo == f
  {
    if n == 0 then {} else FlightNos(legs, n - 1) + {legs[n - 1].flightNo}
  }

  /** `min(10, Set(path.map { $0.flightNo }).count) * 70` */
  function PriceOf(legs: seq<Leg>): int {
    var distinct := |FlightNos(legs, |legs|)|;
    (if distinct < 10 then distinct else 10) * 70
  }

  /**
    A path of one to five legs costs 70 per distinct flight number: at least 70 and at
    most 350, so the cap of ten flight numbers never applies.
   */
  lemma {:induction false} PriceRange(legs: seq<Leg>)
    requires 1 <= |legs| <= MAX_SEGMENTS
    ensures PriceOf(legs) == 70 * |FlightNos(legs, |legs|)|
    ensures 70 <= PriceOf(legs) <= 350
  {
    var nos := FlightNos(legs, |legs|);
    assert legs[0].flightNo in nos;
    assert |nos| >= 1 by {
      assert nos != {};
    }
  }

  /** A path flown on one flight number costs 70 whatever its length. */
  lemma {:induction false} SingleFlightPrice(legs: seq<Leg>)
    requires 1 <= |legs|
    requires forall k :: 0 <= k < |legs| ==> legs[k].flightNo == legs[0].flightNo
    ensures PriceOf(legs) == 70
  {
    var nos := FlightNos(legs, |legs|);
    assert nos == {legs[0].flightNo};
  }

  // ---------------------------------------------------------------------------
  // The depth-first search

  /** A recorded path: its legs, the elapsed minutes of its normalisation, and its price. */
  function Candidate(legs: seq<Leg>): (c: CandidateItinerary)
    requires Normalizes(legs)
    ensures c.legs == legs && c.totalMinutes.Some? && c.price == PriceOf(legs)
  {
    NormalizesIff(legs);
    CandidateItinerary(legs, Some(Normalize(legs).totalMinutes), PriceOf(legs))
  }

  /** The arrival codes of the first `n` legs. */
  function Arrivals(legs: seq<Leg>, n: nat): (codes: set<string>)
    requires n <= |legs|
    ensures forall c :: c in codes <==> exists k :: 0 <= k < n && legs[k].arr == c
  {
    if n == 0 then {} else Arrivals(legs, n - 1) + {legs[n - 1].arr}
  }

  /**
    `dfs(currentAirport:pathLegs:visitedAirports:)`: record the path when its last leg
    arrives at `dest` and it normalises; stop at five legs; otherwise try each leg
    leaving `current`, in index order, whose arrival is unvisited and which keeps the
    path normalisable.
   */
  function Explore(index: DepIndex, dest: string, current: string, path: seq<Leg>, visited: set<string>): seq<CandidateItinerary>
    decreases MAX_SEGMENTS - |path|, 1, 0
  {
    var here := Here(dest, path);
    if |path| >= MAX_SEGMENTS then here
    else here + ExploreLegs(index, dest, path, visited, Next(index, current), |Next(index, current)|)
  }

  /** What `dfs` records where it stands: the path, when its last leg arrives at `dest` and it normalises. */
  function Here(dest: string, path: seq<Leg>): seq<CandidateItinerary> {
    if path != [] && Upper(path[|path| - 1].arr) == dest && Normalizes(path) then [Candidate(path)] else []
  }

  /** The search where it stands: what it records there, then, below five legs, what the loop over the next legs records. */
  lemma {:induction false} ExploreUnfold(index: DepIndex, dest: string, current: string, path: seq<Leg>, visited: set<string>)
    ensures |path| >= MAX_SEGMENTS ==> Explore(index, dest, current, path, visited) == Here(dest, path)
    ensures |path| < MAX_SEGMENTS ==>
      Explore(index, dest, current, path, visited)
        == Here(dest, path) + ExploreLegs(index, dest, path, visited, Next(index, current), |Next(index, current)|)
  {
  }

  /** The loop of `dfs` over the first `n` of the next legs. */
  function ExploreLegs(index: DepIndex, dest: string, path: seq<Leg>, visited: set<string>, next: seq<Leg>, n: nat): seq<CandidateItinerary>
    requires |path| < MAX_SEGMENTS && n <= |next|
    decreases MAX_SEGMENTS - |path|, 0, n
  {
    if n == 0 then []
    else ExploreLegs(index, dest, path, visited, next, n - 1) + ExploreStep(index, dest, path, visited, next[n - 1])
  }

  /** One turn of that loop: skip a visited arrival or a path that stops normalising, else recurse. */
  function ExploreStep(index: DepIndex, dest: string, path: seq<Leg>, visited: set<string>, leg: Leg): seq<CandidateItinerary>
    requires |path| < MAX_SEGMENTS
    decreases MAX_SEGMENTS - |path|, 0, 0
  {
    if leg.arr in visited || !Normalizes(path + [leg]) then []
    else Explore(index, dest, leg.arr, path + [leg], visited + {leg.arr})
  }

  /** Each index entry holds only legs whose upper-cased departure code is its key. */
  predicate WellIndexed(index: DepIndex) {
    forall key :: key in index ==> forall l :: l in index[key] ==> Upper(l.dep) == key
  }

  /** Where a path from `origin` stands: its last arrival code, or the origin itself. */
  function Current(origin: string, path: seq<Leg>): string {
    if path == [] then origin else path[|path| - 1].arr
  }

  /**
    A path the search may walk from `origin`, leg by leg: each leg is taken from the
    index entry of where the path stands, keeps it at five legs or fewer, arrives at
    neither the origin nor an earlier arrival code, and leaves the path normalisable.
   */
  predicate IsPath(index: DepIndex, origin: string, legs: seq<Leg>)
    decreases |legs|
  {
    if legs == [] then true
    else
      IsPath(index, origin, legs[..|legs| - 1]) && Accepts(index, origin, legs[..|legs| - 1], legs[|legs| - 1])
  }

  /**
    The search, standing where `path` leaves it, goes on with `leg`: the path is below
    five legs, `leg` is in the index entry of where it stands, arrives at neither the
    origin nor an earlier arrival code, and the extended path normalises.
   */
  predicate Accepts(index: DepIndex, origin: string, path: seq<Leg>, leg: Leg) {
    && |path| < MAX_SEGMENTS
    && leg in Next(index, Current(origin, path))
    && leg.arr != origin && leg.arr !in Arrivals(path, |path|)
    && Normalizes(path + [leg])
  }

  /** A search result: a non-empty path whose last leg arrives at `dest`, priced and timed. */
  predicate IsCandidate(index: DepIndex, origin: string, dest: string, c: CandidateItinerary) {
    && c.legs != []
    && IsPath(index, origin, c.legs)
    && Upper(c.legs[|c.legs| - 1].arr) == dest
    && Normalizes(c.legs)
    && c == Candidate(c.legs)
  }

  /** The state `dfs` is called in: where the path stands and what it has visited. */
  predicate AtPath(index: DepIndex, origin: string, current: string, path: seq<Leg>, visited: set<string>) {
    && IsPath(index, origin, path)
    && current == Current(origin, path)
    && visited == {origin} + Arrivals(path, |path|)
  }

  /** A walkable path extended by a leg the search accepts is still walkable. */
  lemma {:induction false} PathExtend(index: DepIndex, origin: string, current: string, path: seq<Leg>, visited: set<string>, leg: Leg)
    requires AtPath(index, origin, current, path, visited) && |path| < MAX_SEGMENTS
    requires leg in Next(index, current) && leg.arr !in visited && Normalizes(path + [leg])
    ensures AtPath(index, origin, leg.arr, path + [leg], visited + {leg.arr})
  {
    var p := path + [leg];
    assert p[..|p| - 1] == path;
    ArrivalsSnoc(path, leg);
  }

  /** The arrivals of an extended path. */
  lemma {:induction false} ArrivalsSnoc(path: seq<Leg>, leg: Leg)
    ensures Arrivals(path + [leg], |path| + 1) == Arrivals(path, |path|) + {leg.arr}
  {
    var p := path + [leg];
    forall c
      ensures c in Arrivals(p, |path|) <==> c in Arrivals(path, |path|)
    {
      if c in Arrivals(p, |path|) {
        var k :| 0 <= k < |path| && p[k].arr == c;
        assert path[k].arr == c;
      }
      if c in Arrivals(path, |path|) {
        var k :| 0 <= k < |path| && path[k].arr == c;
        assert p[k].arr == c;
      }
    }
  }

  /** A walkable path that arrives at `dest` is recorded as a candidate. */
  lemma {:induction false} HereSound(index: DepIndex, origin: string, dest: string, path: seq<Leg>)
    requires IsPath(index, origin, path) && path != [] && Upper(path[|path| - 1].arr) == dest
    requires Normalizes(path)
    ensures IsCandidate(index, origin, dest, Candidate(path))
  {
  }

  /** Every element of `cs` is a candidate. */
  predicate AllCandidates(index: DepIndex, origin: string, dest: string, cs: seq<CandidateItinerary>) {
    forall c :: c in cs ==> IsCandidate(index, origin, dest, c)
  }

  lemma {:induction false} AllCandidatesConcat(index: DepIndex, origin: string, dest: string, a: seq<CandidateItinerary>, b: seq<CandidateItinerary>)
    ensures AllCandidates(index, origin, dest, a) && AllCandidates(index, origin, dest, b) ==> AllCandidates(index, origin, dest, a + b)
  {
  }

  /** Every path the search records is a candidate: walkable, ending at `dest`, priced and timed. */
  lemma {:induction false} ExploreSound(index: DepIndex, origin: string, dest: string, current: string, path: seq<Leg>,
                                         visited: set<string>)
    requires AtPath(index, origin, current, path, visited)
    ensures AllCandidates(index, origin, dest, Explore(index, dest, current, path, visited))
    decreases MAX_SEGMENTS - |path|, 1, 0
  {
    var here := Here(dest, path);
    if here != [] {
      HereSound(index, origin, dest, path);
    }
    if |path| < MAX_SEGMENTS {
      var next := Next(index, current);
      forall k | 0 <= k < |next|
        ensures AllCandidates(index, origin, dest, ExploreStep(index, dest, path, visited, next[k]))
      {
        StepSound(index, origin, dest, current, path, visited, next[k]);
      }
      ExploreLegsAll(index, origin, dest, path, visited, next, |next|);
      AllCandidatesConcat(index, origin, dest, here, ExploreLegs(index, dest, path, visited, next, |next|));
    }
  }

  /** The loop over the next legs records only what its turns record. */
  lemma {:induction false} ExploreLegsAll(index: DepIndex, origin: string, dest: string, path: seq<Leg>, visited: set<string>,
                                           next: seq<Leg>, n: nat)
    requires |path| < MAX_SEGMENTS && n <= |next|
    requires forall k :: 0 <= k < n ==> AllCandidates(index, origin, dest, ExploreStep(index, dest, path, visited, next[k]))
    ensures AllCandidates(index, origin, dest, ExploreLegs(index, dest, path, visited, next, n))
  {
    if n > 0 {
      ExploreLegsAll(index, origin, dest, path, visited, next, n - 1);
      AllCandidatesConcat(index, origin, dest, ExploreLegs(index, dest, path, visited, next, n - 1),
                          ExploreStep(index, dest, path, visited, next[n - 1]));
    }
  }

  /** The same for the candidates found through one next leg. */
  lemma {:induction false} StepSound(index: DepIndex, origin: string, dest: string, current: string, path: seq<Leg>,
                                      visited: set<string>, leg: Leg)
    requires AtPath(index, origin, current, path, visited) && |path| < MAX_SEGMENTS
    requires leg in Next(index, current)
    ensures AllCandidates(index, origin, dest, ExploreStep(index, dest, path, visited, leg))
    decreases MAX_SEGMENTS - |path|, 0
  {
    if leg.arr !in visited && Normalizes(path + [leg]) {
      PathExtend(index, origin, current, path, visited, leg);
      ExploreSound(index, origin, dest, leg.arr, path + [leg], visited + {leg.arr});
    }
  }

  /** Every prefix of a walkable path is walkable. */
  lemma {:induction false} IsPathPrefix(index: DepIndex, origin: string, p: seq<Leg>, m: nat)
    requires IsPath(index, origin, p) && m <= |p|
    ensures IsPath(index, origin, p[..m])
    decreases |p|
  {
    if m < |p| {
      var q := p[..|p| - 1];
      IsPathPrefix(index, origin, q, m);
      assert q[..m] == p[..m];
    } else {
      assert p[..m] == p;
    }
  }

  /** A non-empty walkable path normalises. */
  lemma {:induction false} IsPathNormalizes(index: DepIndex, origin: string, p: seq<Leg>)
    requires IsPath(index, origin, p) && p != []
    ensures Normalizes(p)
  {
    assert p[..|p| - 1] + [p[|p| - 1]] == p;
  }

  /** The leg after the first `m` legs of a walkable path is one the search accepts there. */
  lemma {:induction false} IsPathStep(index: DepIndex, origin: string, p: seq<Leg>, m: nat)
    requires IsPath(index, origin, p) && m < |p|
    ensures Accepts(index, origin, p[..m], p[m])
  {
    IsPathPrefix(index, origin, p, m + 1);
    var r := p[..m + 1];
    assert r[..|r| - 1] == p[..m] && r[|r| - 1] == p[m];
    assert Accepts(index, origin, r[..|r| - 1], r[|r| - 1]);
  }

  /** What one turn of the loop records, the loop records. */
  lemma {:induction false} ExploreLegsIncludes(index: DepIndex, dest: string, path: seq<Leg>, visited: set<string>,
                                                next: seq<Leg>, n: nat, k: nat, c: CandidateItinerary)
    requires |path| < MAX_SEGMENTS && k < n <= |next|
    requires c in ExploreStep(index, dest, path, visited, next[k])
    ensures c in ExploreLegs(index, dest, path, visited, next, n)
  {
    ExploreLegsSnoc(index, dest, path, visited, next, n);
    if k < n - 1 {
      ExploreLegsIncludes(index, dest, path, visited, next, n - 1, k, c);
    }
  }

  /** The loop over the first `n` next legs is the loop over the first `n - 1` and one more turn. */
  lemma {:induction false} ExploreLegsSnoc(index: DepIndex, dest: string, path: seq<Leg>, visited: set<string>,
                                            next: seq<Leg>, n: nat)
    requires |path| < MAX_SEGMENTS && 0 < n <= |next|
    ensures ExploreLegs(index, dest, path, visited, next, n)
         == ExploreLegs(index, dest, path, visited, next, n - 1) + ExploreStep(index, dest, path, visited, next[n - 1])
  {
  }

  /** A prefix of `p` extended by the next leg of `p` is again a prefix of `p`. */
  lemma {:induction false} PrefixSnoc<T>(p: seq<T>, q: seq<T>)
    requires |q| < |p| && p[..|q|] == q
    ensures p[..|q| + 1] == q + [p[|q|]]
  {
  }

  /** A path arriving at `dest` is recorded when the search stands on it. */
  lemma {:induction false} HereIncludes(index: DepIndex, dest: string, current: string, path: seq<Leg>, visited: set<string>)
    requires path != [] && Upper(path[|path| - 1].arr) == dest && Normalizes(path)
    ensures Candidate(path) in Explore(index, dest, current, path, visited)
  {
  }

  /** What the search records after taking an accepted leg, it records before taking it. */
  lemma {:induction false} StepIncludes(index: DepIndex, dest: string, current: string, path: seq<Leg>, visited: set<string>,
                                         leg: Leg, c: CandidateItinerary)
    requires |path| < MAX_SEGMENTS && leg in Next(index, current)
    requires leg.arr !in visited && Normalizes(path + [leg])
    requires c in Explore(index, dest, leg.arr, path + [leg], visited + {leg.arr})
    ensures c in Explore(index, dest, current, path, visited)
  {
    var next := Next(index, current);
    var k :| 0 <= k < |next| && next[k] == leg;
    ExploreLegsIncludes(index, dest, path, visited, next, |next|, k, c);
  }

  /**
    Every walkable path from `origin` that extends the current one and whose last leg
    arrives at `dest` is recorded, priced and timed.
   */
  lemma {:induction false} ExploreComplete(index: DepIndex, origin: string, dest: string, current: string, path: seq<Leg>,
                                            visited: set<string>, p: seq<Leg>)
    requires AtPath(index, origin, current, path, visited)
    requires IsPath(index, origin, p) && p != [] && Upper(p[|p| - 1].arr) == dest
    requires |path| <= |p| && p[..|path|] == path
    ensures Normalizes(p) && Candidate(p) in Explore(index, dest, current, path, visited)
    decreases |p| - |path|
  {
    IsPathNormalizes(index, origin, p);
    if |path| == |p| {
      assert path == p;
      HereIncludes(index, dest, current, path, visited);
    } else {
      IsPathStep(index, origin, p, |path|);
      var leg := p[|path|];
      PrefixSnoc(p, path);
      PathExtend(index, origin, current, path, visited, leg);
      ExploreComplete(index, origin, dest, leg.arr, path + [leg], visited + {leg.arr}, p);
      StepIncludes(index, dest, current, path, visited, leg, Candidate(p));
    }
  }

  /**
    The search from `origin` records exactly the candidates: each recorded itinerary is
    a walkable path ending at `dest`, and each such path is recorded.
   */
  lemma {:induction false} SearchExact(index: DepIndex, origin: string, dest: string, c: CandidateItinerary)
    ensures c in Explore(index, dest, origin, [], {origin}) <==> IsCandidate(index, origin, dest, c)
  {
    assert AtPath(index, origin, origin, [], {origin});
    if c in Explore(index, dest, origin, [], {origin}) {
      ExploreSound(index, origin, dest, origin, [], {origin});
    }
    if IsCandidate(index, origin, dest, c) {
      ExploreComplete(index, origin, dest, origin, [], {origin}, c.legs);
    }
  }

  // ---------------------------------------------------------------------------
  // The shape of a walkable path

  /**
    In an index that files each leg under its upper-cased departure code, a walkable
    path departs from the origin and each later leg departs from where the one before
    it arrived; it has at most five legs.
   */
  lemma {:induction false} IsPathChains(index: DepIndex, origin: string, p: seq<Leg>)
    requires WellIndexed(index) && IsPath(index, origin, p)
    ensures |p| <= MAX_SEGMENTS
    ensures p != [] ==> Upper(p[0].dep) == origin
    ensures forall k :: 0 < k < |p| ==> Upper(p[k].dep) == p[k - 1].arr
  {
    IsPathChained(index, origin, p);
    ChainedLinks(origin, p);
  }

  /** Each leg departs, upper-cased, from where the legs before it stand. */
  predicate Chained(origin: string, p: seq<Leg>) {
    p == [] || (Chained(origin, p[..|p| - 1]) && Upper(p[|p| - 1].dep) == Current(origin, p[..|p| - 1]))
  }

  /** A walkable path in a well-indexed index is chained and at most five legs long. */
  lemma {:induction false} IsPathChained(index: DepIndex, origin: string, p: seq<Leg>)
    requires WellIndexed(index) && IsPath(index, origin, p)
    ensures |p| <= MAX_SEGMENTS && Chained(origin, p)
    decreases |p|
  {
    if p != [] {
      var q := p[..|p| - 1];
      IsPathChained(index, origin, q);
      NextDeparts(index, Current(origin, q), p[|p| - 1]);
    }
  }

  /** A chained path, read leg by leg from the front. */
  lemma {:induction false} ChainedLinks(origin: string, p: seq<Leg>)
    requires Chained(origin, p)
    ensures p != [] ==> Upper(p[0].dep) == origin
    ensures forall k :: 0 < k < |p| ==> Upper(p[k].dep) == p[k - 1].arr
    decreases |p|
  {
    if p != [] {
      var q := p[..|p| - 1];
      ChainedLinks(origin, q);
      forall k | 0 < k < |p|
        ensures Upper(p[k].dep) == p[k - 1].arr
      {
        if k < |q| {
          assert p[k] == q[k] && p[k - 1] == q[k - 1];
        }
      }
    }
  }

  /** A leg taken from the index entry of `current` departs from `current`, upper-cased. */
  lemma {:induction false} NextDeparts(index: DepIndex, current: string, leg: Leg)
    requires WellIndexed(index) && leg in Next(index, current)
    ensures Upper(leg.dep) == current
  {
  }

  /** The last leg of a walkable path extends a walkable path and arrives at a new code other than the origin. */
  lemma {:induction false} IsPathLast(index: DepIndex, origin: string, p: seq<Leg>)
    requires IsPath(index, origin, p) && p != []
    ensures IsPath(index, origin, p[..|p| - 1])
    ensures p[|p| - 1].arr != origin
    ensures forall k :: 0 <= k < |p| - 1 ==> p[k].arr != p[|p| - 1].arr
  {
    var q := p[..|p| - 1];
    forall k | 0 <= k < |q|
      ensures q[k].arr != p[|p| - 1].arr
    {
      assert q[k].arr in Arrivals(q, |q|);
    }
  }

  /** No leg of `p` arrives at `origin`, and no two legs arrive at the same code. */
  predicate SimpleFrom(origin: string, p: seq<Leg>) {
    && (forall k :: 0 <= k < |p| ==> p[k].arr != origin)
    && (forall i, j :: 0 <= i < j < |p| ==> p[i].arr != p[j].arr)
  }

  /** A leg arriving at a new code other than the origin keeps a path simple. */
  lemma {:induction false} SimpleFromSnoc(origin: string, q: seq<Leg>, leg: Leg)
    requires SimpleFrom(origin, q) && leg.arr != origin
    requires forall k :: 0 <= k < |q| ==> q[k].arr != leg.arr
    ensures SimpleFrom(origin, q + [leg])
  {
    var p := q + [leg];
    forall i, j | 0 <= i < j < |p|
      ensures p[i].arr != p[j].arr
    {
      assert p[i] == q[i];
      if j < |q| {
        assert p[j] == q[j];
      }
    }
    forall k | 0 <= k < |q|
      ensures p[k].arr != origin
    {
      assert p[k] == q[k];
    }
  }

  /** No leg of a walkable path arrives at the origin, and no two legs arrive at the same code. */
  lemma {:induction false} IsPathSimple(index: DepIndex, origin: string, p: seq<Leg>)
    requires IsPath(index, origin, p)
    ensures SimpleFrom(origin, p)
    decreases |p|
  {
    if p != [] {
      var q, leg := p[..|p| - 1], p[|p| - 1];
      IsPathLast(index, origin, p);
      IsPathSimple(index, origin, q);
      SimpleFromSnoc(origin, q, leg);
      SplitLast(p);
    }
  }

  /** Every non-empty prefix of a walkable path normalises, so the check made when a path is recorded always passes. */
  lemma {:induction false} IsPathPrefixesNormalize(index: DepIndex, origin: string, p: seq<Leg>)
    requires IsPath(index, origin, p)
    ensures forall k :: 0 < k <= |p| ==> Normalizes(p[..k])
  {
    forall k | 0 < k <= |p|
      ensures Normalizes(p[..k])
    {
      IsPathPrefix(index, origin, p, k);
      IsPathNormalizes(index, origin, p[..k]);
    }
  }

  /**
    When every arrival code on a walkable path is stored upper-cased, only its last leg
    can arrive at the destination: a recorded path never passes through it.
   */
  lemma {:induction false} NoPassThrough(index: DepIndex, origin: string, dest: string, p: seq<Leg>)
    requires IsPath(index, origin, p) && p != [] && Upper(p[|p| - 1].arr) == dest
    requires forall k :: 0 <= k < |p| ==> Upper(p[k].arr) == p[k].arr
    ensures forall k :: 0 <= k < |p| - 1 ==> Upper(p[k].arr) != dest
  {
    IsPathSimple(index, origin, p);
  }
}
