/**
  The time normaliser: places the legs of a candidate path on one absolute minute
  timeline, rolling each later departure forward by whole days until it leaves at
  least the minimum connection time after the previous arrival.
 */
module Normalizer {
  import opened Wrappers
  import opened Models
  import opened Clock
  import SwiftInt

  /** Outcome of normalisation: the Swift tuple `(ok, legsAbs, totalMinutes)`. */
  datatype Normalization = NormFail | NormOk(legsAbs: seq<NormalizedLeg>, totalMinutes: int)

  /** The local departure and arrival minutes of one leg. */
  datatype LocalTimes = LocalTimes(depM: int, arrM: int)

  /** Both times of a leg, when both parse. */
  function LegTimes(leg: Leg): Option<LocalTimes> {
    var d, a := ParseHM(leg.depTime), ParseHM(leg.arrTime);
    if d.Some? && a.Some? then Some(LocalTimes(d.value, a.value)) else None
  }

  /** The local times of every leg of a path, each present when both its times parse. */
  function AllLegTimes(legs: seq<Leg>): (os: seq<Option<LocalTimes>>)
    ensures |os| == |legs|
  {
    seq(|legs|, j requires 0 <= j < |legs| => LegTimes(legs[j]))
  }

  /** Entry `j` of the collected times is the times of leg `j`. */
  lemma {:induction false} AllLegTimesAt(legs: seq<Leg>)
    ensures forall j :: 0 <= j < |legs| ==> AllLegTimes(legs)[j] == LegTimes(legs[j])
  {
  }

  /**
    Minutes flown on one leg: the forward clock distance from departure to arrival, a
    full day when the two times coincide. For times within the day it is 1..1440 and
    lands on the arrival clock time.
   */
  function SegmentDuration(depM: int, arrM: int): int {
    var d := SwiftInt.Rem(arrM - depM + 1440, 1440);
    if d == 0 && depM == arrM then 24 * 60 else d
  }

  /** A leg lasts less than a day either way, a full day when its times coincide, and within the day lands on its arrival time. */
  lemma {:induction false} SegmentDurationBounds(depM: int, arrM: int)
    ensures var d := SegmentDuration(depM, arrM);
      && -MINUTES_PER_DAY < d <= MINUTES_PER_DAY
      && (depM == arrM ==> d == MINUTES_PER_DAY)
      && (0 <= depM < MINUTES_PER_DAY && 0 <= arrM < MINUTES_PER_DAY ==>
            1 <= d && (depM + d) % MINUTES_PER_DAY == arrM)
  {
  }

  /** The local departure time `depM` moved forward by `k` whole days. */
  function DayShift(depM: int, k: int): int {
    depM + MINUTES_PER_DAY * k
  }

  /**
    The earliest departure `depM + 1440·k`, `k >= 0`, that is not before `bound`. When
    the local time itself is too early, the result is less than a day after `bound`.
   */
  function EarliestDeparture(depM: int, bound: int): int {
    if depM >= bound then depM
    else DayShift(depM, (bound - depM + 1439) / 1440)
  }

  /**
    `EarliestDeparture` is a day shift of the local time, not before `bound`, no later
    than any other such shift, and less than a day after `bound` when the local time
    itself is too early.
   */
  lemma {:induction false} EarliestDepartureSpec(depM: int, bound: int)
    ensures var r := EarliestDeparture(depM, bound);
      && (exists k :: k >= 0 && r == DayShift(depM, k))
      && r >= bound
      && (forall k :: k >= 0 && DayShift(depM, k) >= bound ==> r <= DayShift(depM, k))
      && (depM < bound ==> r < bound + MINUTES_PER_DAY)
  {
    if depM >= bound {
      assert depM == DayShift(depM, 0);
    } else {
      var n := bound - depM;
      var q := (n + 1439) / 1440;
      assert 1440 * q <= n + 1439 < 1440 * q + 1440;
      assert forall k :: k >= 0 && DayShift(depM, k) >= bound ==> q <= k;
      assert EarliestDeparture(depM, bound) == DayShift(depM, q);
    }
  }

  /** A day shift that reaches `bound` while the shift one day earlier does not is the earliest. */
  lemma {:induction false} EarliestDepartureUnique(depM: int, bound: int, k: int)
    requires k >= 0 && DayShift(depM, k) >= bound
    requires k == 0 || DayShift(depM, k - 1) < bound
    ensures DayShift(depM, k) == EarliestDeparture(depM, bound)
  {
    EarliestDepartureSpec(depM, bound);
    var r := EarliestDeparture(depM, bound);
    var k' :| k' >= 0 && r == DayShift(depM, k');
  }

  /** One leg on the timeline, departing at absolute minute `depAbs`. */
  function Entry(lt: LocalTimes, depAbs: int): NormalizedLeg {
    var arrAbs := depAbs + SegmentDuration(lt.depM, lt.arrM);
    NormalizedLeg(lt.depM, lt.arrM, depAbs, arrAbs, SwiftInt.Div(depAbs, 1440), SwiftInt.Div(arrAbs, 1440))
  }

  /**
    The timeline of the first `n` legs of a path given by its local times: the first
    leg departs at its local minute, every later one at the earliest day shift that
    leaves `MIN_CONNECTION` minutes after the previous arrival.
   */
  function Timeline(ts: seq<LocalTimes>, n: nat): (t: seq<NormalizedLeg>)
    requires 0 < n <= |ts|
    ensures |t| == n
  {
    var lt := ts[n - 1];
    if n == 1 then
      [Entry(lt, lt.depM)]
    else
      var prev := Timeline(ts, n - 1);
      prev + [Entry(lt, EarliestDeparture(lt.depM, prev[n - 2].arrAbs + MIN_CONNECTION))]
  }

  /** The timeline of the first `n` legs depends on those legs only. */
  lemma {:induction false} TimelineSamePrefix(ts: seq<LocalTimes>, us: seq<LocalTimes>, n: nat)
    requires 0 < n <= |ts| && n <= |us|
    requires forall j :: 0 <= j < n ==> ts[j] == us[j]
    ensures Timeline(ts, n) == Timeline(us, n)
  {
    if n > 1 {
      TimelineSamePrefix(ts, us, n - 1);
    }
  }

  /** Appending a leg appends its entry, placed after the last arrival, to the timeline. */
  lemma {:induction false} TimelineSnoc(ts: seq<LocalTimes>, lt: LocalTimes)
    requires |ts| > 0
    ensures Timeline(ts + [lt], |ts| + 1)
              == Timeline(ts, |ts|) + [Entry(lt, EarliestDeparture(lt.depM, Timeline(ts, |ts|)[|ts| - 1].arrAbs + MIN_CONNECTION))]
  {
    var us, n := ts + [lt], |ts|;
    assert us[n] == lt;
    TimelineSamePrefix(ts, us, n);
  }

  /** The timeline of a single leg departs at its local minute. */
  lemma {:induction false} TimelineFirst(ts: seq<LocalTimes>, lt: LocalTimes)
    requires ts == []
    ensures Timeline(ts + [lt], 1) == [Entry(lt, lt.depM)]
  {
    assert (ts + [lt])[0] == lt;
  }

  /** The first `m` entries of a timeline are the timeline of the first `m` legs. */
  lemma {:induction false} TimelinePrefix(ts: seq<LocalTimes>, m: nat, n: nat)
    requires 0 < m <= n <= |ts|
    ensures Timeline(ts, n)[..m] == Timeline(ts, m)
    decreases n
  {
    if m < n {
      TimelinePrefix(ts, m, n - 1);
      var t := Timeline(ts, n);
      assert t[..n - 1] == Timeline(ts, n - 1);
      assert t[..m] == t[..n - 1][..m];
    }
  }

  /**
    Entry `i` of a timeline: the first leg departs at its local minute, every later
    one at the earliest day shift of its local minute that leaves `MIN_CONNECTION`
    minutes after the arrival before it.
   */
  lemma {:induction false} TimelineEntry(ts: seq<LocalTimes>, n: nat, i: nat)
    requires i < n <= |ts|
    ensures i == 0 ==> Timeline(ts, n)[0] == Entry(ts[0], ts[0].depM)
    ensures i > 0 ==>
              Timeline(ts, n)[i] == Entry(ts[i], EarliestDeparture(ts[i].depM, Timeline(ts, n)[i - 1].arrAbs + MIN_CONNECTION))
  {
    TimelinePrefix(ts, i + 1, n);
    var t := Timeline(ts, n);
    assert t[i] == t[..i + 1][i];
    if i > 0 {
      assert t[i - 1] == t[..i + 1][i - 1];
    }
  }

  /** Local times that are minutes of the day. */
  predicate InDay(lt: LocalTimes) {
    0 <= lt.depM < MINUTES_PER_DAY && 0 <= lt.arrM < MINUTES_PER_DAY
  }

  /**
    An entry placed within the day's arithmetic: non-negative absolute minutes
    congruent to its local times, a duration of 1..1440 minutes, and day offsets equal
    to its absolute minutes divided by 1440.
   */
  predicate PlacedInDay(e: NormalizedLeg) {
    && e.depAbs >= 0 && 1 <= e.arrAbs - e.depAbs <= MINUTES_PER_DAY
    && e.depAbs % MINUTES_PER_DAY == e.depM && e.arrAbs % MINUTES_PER_DAY == e.arrM
    && e.depDayOffset == e.depAbs / MINUTES_PER_DAY && e.arrDayOffset == e.arrAbs / MINUTES_PER_DAY
  }

  /** `next` departs 30 to 1469 minutes after `prev` arrives. */
  predicate Connects(prev: NormalizedLeg, next: NormalizedLeg) {
    MIN_CONNECTION <= next.depAbs - prev.arrAbs < MIN_CONNECTION + MINUTES_PER_DAY
  }

  /** A leg placed at a day shift of its local minute, for times within the day. */
  lemma {:induction false} EntryInDay(lt: LocalTimes, k: int)
    requires InDay(lt) && k >= 0
    ensures PlacedInDay(Entry(lt, DayShift(lt.depM, k)))
  {
    var e := Entry(lt, DayShift(lt.depM, k));
    var d := SegmentDuration(lt.depM, lt.arrM);
    SegmentDurationBounds(lt.depM, lt.arrM);
    ShiftedInDay(lt.depM, lt.arrM, d, k);
    SwiftInt.AgreeOnNonNegative(e.depAbs, 1440);
    SwiftInt.AgreeOnNonNegative(e.arrAbs, 1440);
  }

  /** Whole days added to a leg within the day keep its times of day. */
  lemma {:induction false} ShiftedInDay(depM: int, arrM: int, d: int, k: int)
    requires 0 <= depM < MINUTES_PER_DAY && k >= 0 && (depM + d) % MINUTES_PER_DAY == arrM
    ensures DayShift(depM, k) % MINUTES_PER_DAY == depM
    ensures (DayShift(depM, k) + d) % MINUTES_PER_DAY == arrM
  {
    assert DayShift(depM, k) + d == (depM + d) + MINUTES_PER_DAY * k;
  }

  /**
    For times within the day, every entry of a timeline lies on non-negative absolute
    minutes congruent to its local times, lasts 1..1440 minutes, has day offsets that
    are its absolute minutes divided by 1440, and departs 30 to 1469 minutes after the
    arrival before it; so the timeline is strictly increasing.
   */
  lemma {:induction false} TimelineInDay(ts: seq<LocalTimes>, n: nat, i: nat)
    requires i < n <= |ts|
    requires forall j :: 0 <= j < |ts| ==> InDay(ts[j])
    ensures PlacedInDay(Timeline(ts, n)[i])
    ensures i > 0 ==> Connects(Timeline(ts, n)[i - 1], Timeline(ts, n)[i])
  {
    var t := Timeline(ts, n);
    var lt := ts[i];
    TimelineEntry(ts, n, i);
    if i == 0 {
      assert lt.depM == DayShift(lt.depM, 0);
      EntryInDay(lt, 0);
    } else {
      TimelineInDay(ts, n, i - 1);
      var bound := t[i - 1].arrAbs + MIN_CONNECTION;
      var r := EarliestDeparture(lt.depM, bound);
      EarliestDepartureSpec(lt.depM, bound);
      var k :| k >= 0 && r == DayShift(lt.depM, k);
      EntryInDay(lt, k);
    }
  }

  /** Normalisation of a path: it fails exactly when the path is empty or some time does not parse. */
  function Normalize(legs: seq<Leg>): (r: Normalization)
    ensures r.NormOk? ==> |r.legsAbs| == |legs| > 0
  {
    if legs == [] then NormFail
    else
      match AllPresent(AllLegTimes(legs), |legs|)
      case None => NormFail
      case Some(ts) =>
        var t := Timeline(ts, |ts|);
        NormOk(t, t[|t| - 1].arrAbs - t[0].depAbs)
  }

  /**
    The inner loop of `normalizeLegTimes`: starting from the day shift just below the
    previous arrival, move the departure a day at a time until it leaves the minimum
    connection time. The source gives up once the gap exceeds 48 hours; that branch is
    dead (each step leaves the gap under a day plus `MIN_CONNECTION`).
   */
  method RollForward(depM: int, prev: int) returns (candidate: int)
    ensures candidate == EarliestDeparture(depM, prev + MIN_CONNECTION)
  {
    var k := if SwiftInt.Div(prev - depM, 1440) > 0 then SwiftInt.Div(prev - depM, 1440) else 0;
    candidate := depM + k * 1440;
    while candidate < prev + MIN_CONNECTION
      invariant k >= 0 && candidate == DayShift(depM, k)
      invariant k == 0 || DayShift(depM, k - 1) < prev + MIN_CONNECTION
      decreases prev + MIN_CONNECTION - candidate
    {
      k := k + 1;
      candidate := depM + k * 1440;
      if candidate - prev > MAX_CONNECTION_MINUTES {
        assert false;
      }
    }
    EarliestDepartureUnique(depM, prev + MIN_CONNECTION, k);
  }

  /** The `guard let` of the loop: both times of one leg, when both parse. */
  method ParseLegTimes(leg: Leg) returns (r: Option<LocalTimes>)
    ensures r == LegTimes(leg)
  {
    var depParsed, arrParsed := ParseHM(leg.depTime), ParseHM(leg.arrTime);
    if depParsed.None? || arrParsed.None? {
      return None;
    }
    return Some(LocalTimes(depParsed.value, arrParsed.value));
  }

  /**
    One pass of the loop once the times have parsed: the first leg departs at its
    local minute, a later one at the departure `RollForward` finds after the previous
    arrival. The guards for a missing previous arrival and for a leg over 7 days are
    dead and stand as `assert false`.
   */
  method PlaceLeg(first: bool, lt: LocalTimes, prevArrAbs: Option<int>) returns (nl: NormalizedLeg)
    requires first <==> prevArrAbs.None?
    ensures first ==> nl == Entry(lt, lt.depM)
    ensures !first ==> nl == Entry(lt, EarliestDeparture(lt.depM, prevArrAbs.value + MIN_CONNECTION))
  {
    var depM, arrM := lt.depM, lt.arrM;
    var segDur := SwiftInt.Rem(arrM - depM + 1440, 1440);
    if segDur == 0 && depM == arrM {
      segDur := 24 * 60;
    }
    var depAbs;
    if first {
      depAbs := depM;
    } else {
      if prevArrAbs.None? {
        assert false;
      }
      var prev := prevArrAbs.value;
      depAbs := RollForward(depM, prev);
      if segDur > 7 * 24 * 60 {
        assert false;
      }
    }
    var arrAbs := depAbs + segDur;
    nl := NormalizedLeg(depM, arrM, depAbs, arrAbs, SwiftInt.Div(depAbs, 1440), SwiftInt.Div(arrAbs, 1440));
  }

  /** `normalizeLegTimes` succeeds: the path is non-empty and every time on it parses. */
  predicate Normalizes(legs: seq<Leg>) {
    legs != [] && forall i {:trigger LegTimes(legs[i])} :: 0 <= i < |legs| ==> LegTimes(legs[i]).Some?
  }

  lemma {:induction false} NormalizesIff(legs: seq<Leg>)
    ensures Normalize(legs).NormOk? <==> Normalizes(legs)
  {
    NormalizeFailsIff(legs);
  }

  /** A path one of whose legs has a time that does not parse fails to normalise. */
  lemma {:induction false} NormalizeFailsAt(legs: seq<Leg>, i: nat)
    requires i < |legs| && LegTimes(legs[i]).None?
    ensures Normalize(legs) == NormFail
  {
    AllLegTimesAt(legs);
    AllPresentIff(AllLegTimes(legs), |legs|);
  }

  /** Normalisation fails exactly on the empty path and on a path with a time that does not parse. */
  lemma {:induction false} NormalizeFailsIff(legs: seq<Leg>)
    ensures Normalize(legs).NormFail? <==> legs == [] || exists i :: 0 <= i < |legs| && LegTimes(legs[i]).None?
  {
    AllLegTimesAt(legs);
    AllPresentIff(AllLegTimes(legs), |legs|);
  }

  /**
    Entry `i` of a timeline `t` is placed as `normalizeLegTimes` places it: the first
    departs at its local minute, each later one at the earliest day shift leaving
    `MIN_CONNECTION` minutes after the arrival before it, and each arrives
    `SegmentDuration` after it departs.
   */
  predicate PlacedAsNormalized(t: seq<NormalizedLeg>, i: nat)
    requires i < |t|
  {
    && t[i].arrAbs == t[i].depAbs + SegmentDuration(t[i].depM, t[i].arrM)
    && (i == 0 ==> t[0].depAbs == t[0].depM)
    && (i > 0 ==> t[i].depAbs == EarliestDeparture(t[i].depM, t[i - 1].arrAbs + MIN_CONNECTION))
  }

  /** On success every entry is placed as described by `PlacedAsNormalized`. */
  lemma {:induction false} NormalizeEntry(legs: seq<Leg>, i: nat)
    requires Normalize(legs).NormOk? && i < |legs|
    ensures PlacedAsNormalized(Normalize(legs).legsAbs, i)
  {
    var ts := AllPresent(AllLegTimes(legs), |legs|).value;
    NormalizeIsTimeline(legs);
    TimelineEntryFields(ts, |legs|, i);
  }

  /** On success every entry carries the local times of its leg. */
  lemma {:induction false} NormalizeTimes(legs: seq<Leg>, i: nat)
    requires Normalize(legs).NormOk? && i < |legs|
    ensures LegTimes(legs[i]) == Some(LocalTimes(Normalize(legs).legsAbs[i].depM, Normalize(legs).legsAbs[i].arrM))
  {
    var ts := AllPresent(AllLegTimes(legs), |legs|).value;
    NormalizeIsTimeline(legs);
    ParsedTimesAt(legs, i);
    TimelineEntryFields(ts, |legs|, i);
  }

  /** `TimelineEntry`, field by field. */
  lemma {:induction false} TimelineEntryFields(ts: seq<LocalTimes>, n: nat, i: nat)
    requires i < n <= |ts|
    ensures ts[i] == LocalTimes(Timeline(ts, n)[i].depM, Timeline(ts, n)[i].arrM)
    ensures PlacedAsNormalized(Timeline(ts, n), i)
  {
    TimelineEntry(ts, n, i);
  }

  /** On success the total is the span from the first departure to the last arrival. */
  lemma {:induction false} NormalizeTotal(legs: seq<Leg>)
    requires Normalize(legs).NormOk?
    ensures var r := Normalize(legs);
      r.totalMinutes == r.legsAbs[|legs| - 1].arrAbs - r.legsAbs[0].depAbs
  {
    NormalizeIsTimeline(legs);
  }

  /** A path that normalises is placed on the timeline of its local times. */
  lemma {:induction false} NormalizeIsTimeline(legs: seq<Leg>)
    requires Normalize(legs).NormOk?
    ensures AllPresent(AllLegTimes(legs), |legs|).Some?
    ensures var t := Timeline(AllPresent(AllLegTimes(legs), |legs|).value, |legs|);
      Normalize(legs) == NormOk(t, t[|legs| - 1].arrAbs - t[0].depAbs)
  {
  }

  /** When every time of a path parses, the collected local times are those of its legs. */
  lemma {:induction false} ParsedTimesAt(legs: seq<Leg>, i: nat)
    requires AllPresent(AllLegTimes(legs), |legs|).Some? && i < |legs|
    ensures LegTimes(legs[i]) == Some(AllPresent(AllLegTimes(legs), |legs|).value[i])
  {
    AllPresentValues(AllLegTimes(legs), |legs|);
  }

  /** Both times of a leg parse to minutes of the day. */
  predicate TimesInDay(leg: Leg) {
    LegTimes(leg).Some? && InDay(LegTimes(leg).value)
  }

  /** When every leg's times are minutes of the day, they all parse, to minutes of the day. */
  lemma {:induction false} ParsedInDay(legs: seq<Leg>)
    requires forall j :: 0 <= j < |legs| ==> TimesInDay(legs[j])
    ensures AllPresent(AllLegTimes(legs), |legs|).Some?
    ensures forall j :: 0 <= j < |legs| ==> InDay(AllPresent(AllLegTimes(legs), |legs|).value[j])
  {
    var os := AllLegTimes(legs);
    AllPresentIff(os, |legs|);
    AllPresentValues(os, |legs|);
  }

  /**
    A path whose times are all minutes of the day normalises, and every entry lies on
    non-negative absolute minutes congruent to its local times, lasts 1..1440 minutes,
    has day offsets equal to its absolute minutes divided by 1440, and departs 30 to
    1469 minutes after the previous arrival.
   */
  lemma {:induction false} NormalizeInDay(legs: seq<Leg>, i: nat)
    requires i < |legs|
    requires forall j :: 0 <= j < |legs| ==> TimesInDay(legs[j])
    ensures Normalize(legs).NormOk?
    ensures PlacedInDay(Normalize(legs).legsAbs[i])
    ensures i > 0 ==> Connects(Normalize(legs).legsAbs[i - 1], Normalize(legs).legsAbs[i])
  {
    ParsedInDay(legs);
    var ts := AllPresent(AllLegTimes(legs), |legs|).value;
    TimelineInDay(ts, |ts|, i);
  }

  /** The timeline is strictly increasing: each leg arrives after it departs and before the next departs. */
  lemma {:induction false} NormalizeIncreasing(legs: seq<Leg>, i: nat, j: nat)
    requires i < j < |legs|
    requires forall k :: 0 <= k < |legs| ==> TimesInDay(legs[k])
    ensures Normalize(legs).NormOk?
    ensures Normalize(legs).legsAbs[i].depAbs < Normalize(legs).legsAbs[i].arrAbs < Normalize(legs).legsAbs[j].depAbs
    decreases j - i
  {
    NormalizeInDay(legs, i);
    NormalizeInDay(legs, i + 1);
    if i + 1 < j {
      NormalizeIncreasing(legs, i + 1, j);
    }
  }

  /** Every non-empty prefix of a path that normalises normalises too, to a prefix of the timeline. */
  lemma {:induction false} NormalizePrefix(legs: seq<Leg>, k: nat)
    requires 0 < k <= |legs| && Normalize(legs).NormOk?
    ensures Normalize(legs[..k]).NormOk?
    ensures Normalize(legs[..k]).legsAbs == Normalize(legs).legsAbs[..k]
  {
    var os, ps := AllLegTimes(legs), AllLegTimes(legs[..k]);
    var ts := AllPresent(os, |legs|).value;
    AllPresentTake(os, k, |legs|);
    AllPresentSamePrefix(os, ps, k);
    var us := AllPresent(ps, k).value;
    assert us == ts[..k];
    TimelineSamePrefix(us, ts, k);
    TimelinePrefix(ts, k, |ts|);
  }

  /** One pass of the loop: the leg is placed after the timeline so far, whose last arrival it remembers. */
  method AppendLeg(first: bool, ghost ts: seq<LocalTimes>, lt: LocalTimes, entries: seq<NormalizedLeg>, prevArrAbs: Option<int>)
    returns (entries': seq<NormalizedLeg>, prevArrAbs': Option<int>)
    requires first <==> ts == []
    requires ts == [] ==> entries == [] && prevArrAbs.None?
    requires ts != [] ==> entries == Timeline(ts, |ts|) && prevArrAbs == Some(entries[|ts| - 1].arrAbs)
    ensures entries' == Timeline(ts + [lt], |ts| + 1) && prevArrAbs' == Some(entries'[|ts|].arrAbs)
  {
    var nl := PlaceLeg(first, lt, prevArrAbs);
    if ts == [] {
      TimelineFirst(ts, lt);
    } else {
      TimelineSnoc(ts, lt);
    }
    entries' := entries + [nl];
    prevArrAbs' := Some(nl.arrAbs);
  }

  /** `normalizeLegTimes`: the legs of a path placed on one timeline, or failure. */
  method NormalizeLegTimes(legs: seq<Leg>) returns (r: Normalization)
    ensures r == Normalize(legs)
  {
    if legs == [] {
      return NormFail;
    }
    ghost var os := AllLegTimes(legs);
    var entries: seq<NormalizedLeg> := [];
    var prevArrAbs: Option<int> := None;
    ghost var ts: seq<LocalTimes> := [];
    var i := 0;
    while i < |legs|
      invariant 0 <= i <= |legs|
      invariant AllPresent(os, i) == Some(ts) && |ts| == i
      invariant i == 0 ==> entries == [] && prevArrAbs.None?
      invariant i > 0 ==> entries == Timeline(ts, i) && prevArrAbs == Some(entries[i - 1].arrAbs)
    {
      var parsed := ParseLegTimes(legs[i]);
      if parsed.None? {
        NormalizeFailsAt(legs, i);
        return NormFail;
      }
      var lt := parsed.value;
      assert AllPresent(os, i + 1) == Some(ts + [lt]) by {
        AllPresentSnoc(os, i, ts);
      }
      entries, prevArrAbs := AppendLeg(i == 0, ts, lt, entries, prevArrAbs);
      ts := ts + [lt];
      i := i + 1;
    }
    var total := entries[|entries| - 1].arrAbs - entries[0].depAbs;
    return NormOk(entries, total);
  }
}
