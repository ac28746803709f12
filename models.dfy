/**
  The records the schedule loader and the itinerary search exchange, and the search
  limits they share.
 */
module Models {
  import opened Wrappers

  /** Longest itinerary, counted in legs; also the most legs one schedule row yields. */
  const MAX_SEGMENTS: nat := 5
  /** Shortest allowed gap, in minutes, between an arrival and the next departure. */
  const MIN_CONNECTION: int := 30
  /** Longest allowed gap, in minutes, between an arrival and the next departure. */
  const MAX_CONNECTION_MINUTES: int := 48 * 60

  /**
    One non-stop flight. `dep` and `arr` are airport codes, `depTime` and `arrTime`
    local clock times written `HHmm`; the names may be empty.
   */
  datatype Leg = Leg(
    flightNo: string,
    dep: string,
    depName: string,
    depTime: string,
    arr: string,
    arrName: string,
    arrTime: string)

  /**
    A leg placed on the absolute minute timeline of its itinerary: local minutes of
    day, absolute minutes from midnight of the first departure's day, and the day
    offsets of the absolute values.
   */
  datatype NormalizedLeg = NormalizedLeg(
    depM: int,
    arrM: int,
    depAbs: int,
    arrAbs: int,
    depDayOffset: int,
    arrDayOffset: int)

  /** A path found by the search, with its elapsed minutes and its price. */
  datatype CandidateItinerary = CandidateItinerary(
    legs: seq<Leg>,
    totalMinutes: Option<int>,
    price: int)
}
