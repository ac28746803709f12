/**
  What `searchFlights` does with the paths the search recorded: drop every path whose
  leg signature was seen before, keep the cheapest price tier, and order it by
  elapsed minutes.
 */
module Ranking {
  import opened Wrappers
  import opened Models
  import opened SwiftInt
  import Strings

  // ---------------------------------------------------------------------------
  // De-duplication by leg signature

  /** One leg's signature: departure code, departure time, arrival code, arrival time and flight number, `|`-separated. */
  function LegSignature(leg: Leg): string {
    leg.dep + "|" + leg.depTime + "|" + leg.arr + "|" + leg.arrTime + "|" + leg.flightNo
  }

  /** None of the `|`-separated fields before the flight number holds a `|`. */
  predicate Unbarred(leg: Leg) {
    '|' !in leg.dep && '|' !in leg.depTime && '|' !in leg.arr && '|' !in leg.arrTime
  }

  /**
    When no field but the flight number holds a `|`, two legs share a signature exactly
    when their codes, times and flight numbers agree: the signature ignores only the
    airport names.
   */
  lemma {:induction false} SignatureInjective(a: Leg, b: Leg)
    requires Unbarred(a) && Unbarred(b)
    ensures LegSignature(a) == LegSignature(b) <==>
      a.dep == b.dep && a.depTime == b.depTime && a.arr == b.arr && a.arrTime == b.arrTime && a.flightNo == b.flightNo
  {
    if LegSignature(a) == LegSignature(b) {
      var ta, tb := a.arrTime + "|" + a.flightNo, b.arrTime + "|" + b.flightNo;
      var sa, sb := a.arr + "|" + ta, b.arr + "|" + tb;
      var qa, qb := a.depTime + "|" + sa, b.depTime + "|" + sb;
      assert LegSignature(a) == a.dep + "|" + qa;
      assert LegSignature(b) == b.dep + "|" + qb;
      Strings.SplitAtSeparator(a.dep, qa, b.dep, qb, '|');
      Strings.SplitAtSeparator(a.depTime, sa, b.depTime, sb, '|');
      Strings.SplitAtSeparator(a.arr, ta, b.arr, tb, '|');
      Strings.SplitAtSeparator(a.arrTime, a.flightNo, b.arrTime, b.flightNo, '|');
    }
  }

  /** The signatures of the first `n` legs joined by `->`. */
  function PathKeyUpTo(legs: seq<Leg>, n: nat): string
    requires n <= |legs|
  {
    if n == 0 then ""
    else if n == 1 then LegSignature(legs[0])
    else PathKeyUpTo(legs, n - 1) + "->" + LegSignature(legs[n - 1])
  }

  /** The de-duplication key of a recorded path. */
  function Key(c: CandidateItinerary): string {
    PathKeyUpTo(c.legs, |c.legs|)
  }

  /** The keys of a list. */
  function KeysOf<T(==), K(==)>(key: T -> K, cs: seq<T>): set<K> {
    set c | c in cs :: key(c)
  }

  /** The keys of a list extended by one element. */
  lemma {:induction false} KeysSnoc<T, K>(key: T -> K, cs: seq<T>, x: T)
    ensures KeysOf(key, cs + [x]) == KeysOf(key, cs) + {key(x)}
  {
    assert forall c :: c in cs + [x] <==> c in cs || c == x;
  }

  /** Only the first element of each key among the first `n`, in their order. */
  function DedupBy<T(==), K(==)>(key: T -> K, rs: seq<T>, n: nat): seq<T>
    requires n <= |rs|
  {
    if n == 0 then []
    else
      var prev := DedupBy(key, rs, n - 1);
      if key(rs[n - 1]) in KeysOf(key, prev) then prev else prev + [rs[n - 1]]
  }

  /** No key occurs twice. */
  predicate DistinctKeys<T, K(==)>(key: T -> K, cs: seq<T>) {
    forall i, j :: 0 <= i < j < |cs| ==> key(cs[i]) != key(cs[j])
  }

  /** `rs[j]` is the first element of its key: no element before it has that key. */
  predicate FirstOfKey<T(==), K(==)>(key: T -> K, rs: seq<T>, j: nat)
    requires j < |rs|
  {
    key(rs[j]) !in KeysOf(key, rs[..j])
  }

  /** De-duplication keeps every key that occurs and no key twice. */
  lemma {:induction false} DedupKeys<T, K>(key: T -> K, rs: seq<T>, n: nat)
    requires n <= |rs|
    ensures KeysOf(key, DedupBy(key, rs, n)) == KeysOf(key, rs[..n])
    ensures DistinctKeys(key, DedupBy(key, rs, n))
  {
    if n > 0 {
      DedupKeys(key, rs, n - 1);
      assert rs[..n] == rs[..n - 1] + [rs[n - 1]];
      KeysSnoc(key, rs[..n - 1], rs[n - 1]);
      var prev := DedupBy(key, rs, n - 1);
      if key(rs[n - 1]) !in KeysOf(key, prev) {
        KeysSnoc(key, prev, rs[n - 1]);
        var kept := prev + [rs[n - 1]];
        forall i, j | 0 <= i < j < |kept|
          ensures key(kept[i]) != key(kept[j])
        {
          if j == |prev| {
            assert kept[i] in prev;
          } else {
            assert kept[i] == prev[i] && kept[j] == prev[j];
          }
        }
      }
    }
  }

  /** Every element de-duplication keeps is the first of its key. */
  lemma {:induction false} DedupKeepsOnlyFirsts<T, K>(key: T -> K, rs: seq<T>, n: nat)
    requires n <= |rs|
    ensures forall c :: c in DedupBy(key, rs, n) ==> exists j :: 0 <= j < n && rs[j] == c && FirstOfKey(key, rs, j)
  {
    if n > 0 {
      DedupKeepsOnlyFirsts(key, rs, n - 1);
      var prev, r := DedupBy(key, rs, n - 1), rs[n - 1];
      if key(r) !in KeysOf(key, prev) {
        DedupKeys(key, rs, n - 1);
        forall l | 0 <= l < n - 1
          ensures key(rs[l]) != key(r)
        {
          assert rs[..n - 1][l] == rs[l];
        }
        assert FirstOfKey(key, rs, n - 1);
      }
    }
  }

  /** The first element of its key brings a key not seen before it. */
  lemma {:induction false} FirstKeyIsNew<T, K>(key: T -> K, rs: seq<T>, n: nat)
    requires 0 < n <= |rs| && FirstOfKey(key, rs, n - 1)
    ensures key(rs[n - 1]) !in KeysOf(key, rs[..n - 1])
  {
    forall c | c in rs[..n - 1]
      ensures key(c) != key(rs[n - 1])
    {
      var l :| 0 <= l < n - 1 && rs[..n - 1][l] == c;
    }
  }

  /** De-duplication keeps the first element of every key. */
  lemma {:induction false} DedupKeepsFirsts<T, K>(key: T -> K, rs: seq<T>, n: nat)
    requires n <= |rs|
    ensures forall j :: 0 <= j < n && FirstOfKey(key, rs, j) ==> rs[j] in DedupBy(key, rs, n)
  {
    if n > 0 {
      DedupKeepsFirsts(key, rs, n - 1);
      forall j | 0 <= j < n && FirstOfKey(key, rs, j)
        ensures rs[j] in DedupBy(key, rs, n)
      {
        if j < n - 1 {
          DedupGrows(key, rs, n, rs[j]);
        } else {
          DedupKeepsLast(key, rs, n);
        }
      }
    }
  }

  /** One more element keeps what de-duplication kept. */
  lemma {:induction false} DedupGrows<T, K>(key: T -> K, rs: seq<T>, n: nat, c: T)
    requires 0 < n <= |rs| && c in DedupBy(key, rs, n - 1)
    ensures c in DedupBy(key, rs, n)
  {
  }

  /** The first element of its key is kept. */
  lemma {:induction false} DedupKeepsLast<T, K>(key: T -> K, rs: seq<T>, n: nat)
    requires 0 < n <= |rs| && FirstOfKey(key, rs, n - 1)
    ensures rs[n - 1] in DedupBy(key, rs, n)
  {
    DedupKeys(key, rs, n - 1);
    FirstKeyIsNew(key, rs, n);
  }

  /** A list without repeated keys comes through de-duplication unchanged. */
  lemma {:induction false} DedupNoRepeats<T, K>(key: T -> K, rs: seq<T>, n: nat)
    requires n <= |rs| && DistinctKeys(key, rs[..n])
    ensures DedupBy(key, rs, n) == rs[..n]
  {
    if n > 0 {
      var init := rs[..n - 1];
      assert DistinctKeys(key, init) by {
        forall i, j | 0 <= i < j < |init|
          ensures key(init[i]) != key(init[j])
        {
          assert rs[..n][i] == init[i] && rs[..n][j] == init[j];
        }
      }
      DedupNoRepeats(key, rs, n - 1);
      assert key(rs[n - 1]) !in KeysOf(key, init);
      assert rs[..n] == init + [rs[n - 1]];
    }
  }

  /** The paths kept by `searchFlights`: the first of each leg signature, in the order found. */
  function Dedup(rs: seq<CandidateItinerary>): seq<CandidateItinerary> {
    DedupBy(Key, rs, |rs|)
  }

  /** The de-duplication loop: a set of seen keys and the paths kept so far. */
  method DedupResults(rs: seq<CandidateItinerary>) returns (filtered: seq<CandidateItinerary>)
    ensures filtered == Dedup(rs)
  {
    var uniq: set<string> := {};
    filtered := [];
    for i := 0 to |rs|
      invariant filtered == DedupBy(Key, rs, i)
      invariant uniq == KeysOf(Key, filtered)
    {
      var key := Key(rs[i]);
      if key !in uniq {
        KeysSnoc(Key, filtered, rs[i]);
        uniq := uniq + {key};
        filtered := filtered + [rs[i]];
      }
    }
  }

  // ---------------------------------------------------------------------------
  // The cheapest tier

  /** The least price among the first `n` paths. */
  function LeastPrice(cs: seq<CandidateItinerary>, n: nat): (m: int)
    requires 0 < n <= |cs|
    ensures exists i :: 0 <= i < n && cs[i].price == m
    ensures forall i :: 0 <= i < n ==> m <= cs[i].price
  {
    if n == 1 then cs[0].price
    else
      var m := LeastPrice(cs, n - 1);
      if cs[n - 1].price < m then cs[n - 1].price else m
  }

  /** The least price of a list, or 0 for an empty one. */
  function MinPrice(cs: seq<CandidateItinerary>): (m: int)
    ensures cs == [] ==> m == 0
    ensures cs != [] ==> (exists i :: 0 <= i < |cs| && cs[i].price == m) && forall i :: 0 <= i < |cs| ==> m <= cs[i].price
  {
    if cs == [] then 0 else LeastPrice(cs, |cs|)
  }

  /** The paths among the first `n` whose price is `p`, in their order. */
  function PricedAt(cs: seq<CandidateItinerary>, p: int, n: nat): (r: seq<CandidateItinerary>)
    requires n <= |cs|
    ensures |r| <= n
    ensures forall c :: c in r ==> c.price == p
    ensures forall c :: multiset(r)[c] == if c.price == p then multiset(cs[..n])[c] else 0
  {
    if n == 0 then []
    else
      assert cs[..n] == cs[..n - 1] + [cs[n - 1]];
      var prev := PricedAt(cs, p, n - 1);
      if cs[n - 1].price == p then prev + [cs[n - 1]] else prev
  }

  /** The cheapest tier of a non-empty list is non-empty and holds exactly its paths of least price. */
  lemma {:induction false} CheapestTier(cs: seq<CandidateItinerary>)
    requires cs != []
    ensures var tier := PricedAt(cs, MinPrice(cs), |cs|);
      && tier != []
      && (forall c :: c in tier <==> c in cs && c.price == MinPrice(cs))
      && (forall c, d :: c in tier && d in cs ==> c.price <= d.price)
  {
    var m := MinPrice(cs);
    var tier := PricedAt(cs, m, |cs|);
    assert cs[..|cs|] == cs;
    forall c
      ensures c in tier <==> c in cs && c.price == m
    {
      assert c in tier <==> multiset(tier)[c] > 0;
      assert c in cs <==> multiset(cs)[c] > 0;
    }
    var i :| 0 <= i < |cs| && cs[i].price == m;
    assert cs[i] in tier;
    forall c, d | c in tier && d in cs
      ensures c.price <= d.price
    {
      var j :| 0 <= j < |cs| && cs[j] == d;
    }
  }

  // ---------------------------------------------------------------------------
  // Ordering by elapsed minutes

  /** The sort key: elapsed minutes, with an unknown duration ranked last. */
  function Duration(c: CandidateItinerary): int {
    c.totalMinutes.GetOr(INT_MAX)
  }

  /** Non-decreasing elapsed minutes. */
  predicate SortedByDuration(s: seq<CandidateItinerary>) {
    SortedBy(Duration, s)
  }

  /** Non-decreasing `key`. */
  predicate SortedBy<T>(key: T -> int, s: seq<T>) {
    forall i, j :: 0 <= i < j < |s| ==> key(s[i]) <= key(s[j])
  }

  /** No element's `key` exceeds `b`. */
  predicate AtMost<T>(key: T -> int, s: seq<T>, b: int) {
    forall k :: 0 <= k < |s| ==> key(s[k]) <= b
  }

  /** Reordering keeps a bound. */
  lemma {:induction false} AtMostPermutation<T>(key: T -> int, s: seq<T>, t: seq<T>, b: int)
    requires multiset(s) == multiset(t) && AtMost(key, s, b)
    ensures AtMost(key, t, b)
  {
    forall k | 0 <= k < |t|
      ensures key(t[k]) <= b
    {
      assert t[k] in multiset(s);
      var l :| 0 <= l < |s| && s[l] == t[k];
    }
  }

  /** `x` placed into a list sorted by `key`, after every element whose key is not greater. */
  function InsertBy<T>(key: T -> int, s: seq<T>, x: T): (r: seq<T>)
    requires SortedBy(key, s)
    ensures SortedBy(key, r)
    ensures multiset(r) == multiset(s) + multiset{x}
    decreases |s|
  {
    if s == [] then [x]
    else
      var init, last := s[..|s| - 1], s[|s| - 1];
      assert s == init + [last];
      LastIsGreatest(key, s);
      if key(last) <= key(x) then
        AppendSorted(key, s, x);
        s + [x]
      else
        var t := InsertBy(key, init, x);
        AtMostPermutation(key, init + [x], t, key(last));
        AppendSorted(key, t, last);
        t + [last]
  }

  /** The last element of a sorted list has the greatest key. */
  lemma {:induction false} LastIsGreatest<T>(key: T -> int, s: seq<T>)
    requires SortedBy(key, s) && s != []
    ensures AtMost(key, s, key(s[|s| - 1]))
    ensures SortedBy(key, s[..|s| - 1])
  {
  }

  /** An element no smaller than every key extends a sorted list. */
  lemma {:induction false} AppendSorted<T>(key: T -> int, s: seq<T>, y: T)
    requires SortedBy(key, s) && AtMost(key, s, key(y))
    ensures SortedBy(key, s + [y])
  {
  }

  /**
    `lowest.sort { duration < duration }`: the paths ordered by non-decreasing elapsed
    minutes, none lost and none added.
   */
  method SortByDuration(s: seq<CandidateItinerary>) returns (r: seq<CandidateItinerary>)
    ensures SortedByDuration(r)
    ensures multiset(r) == multiset(s)
  {
    r := [];
    for i := 0 to |s|
      invariant SortedByDuration(r)
      invariant multiset(r) == multiset(s[..i])
    {
      assert s[..i + 1] == s[..i] + [s[i]];
      r := InsertBy(Duration, r, s[i]);
    }
    assert s[..|s|] == s;
  }

  /** The last step of `searchFlights`: the paths at the least price, ordered by elapsed minutes. */
  method CheapestByDuration(filtered: seq<CandidateItinerary>) returns (lowest: seq<CandidateItinerary>)
    ensures SortedByDuration(lowest)
    ensures multiset(lowest) == multiset(PricedAt(filtered, MinPrice(filtered), |filtered|))
  {
    var minPrice := MinPrice(filtered);
    lowest := PricedAt(filtered, minPrice, |filtered|);
    lowest := SortByDuration(lowest);
  }
}
