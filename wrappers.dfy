/** The optional value that stands for Swift's `T?`. */
module Wrappers {

  datatype Option<+T> = None | Some(value: T) {

    /** The wrapped value, or `default` when there is none (Swift's `??`). */
    function GetOr(default: T): T {
      match this
      case Some(v) => v
      case None => default
    }
  }

  /**
    The values of the first `n` options, or `None` when one of them is missing: the
    shape of a loop that returns early at the first `guard let` that fails.
   */
  function AllPresent<T>(os: seq<Option<T>>, n: nat): (r: Option<seq<T>>)
    requires n <= |os|
    ensures r.Some? ==> |r.value| == n
  {
    if n == 0 then Some([])
    else
      match AllPresent(os, n - 1)
      case None => None
      case Some(vs) => if os[n - 1].Some? then Some(vs + [os[n - 1].value]) else None
  }

  /** The first `n` options are all present exactly when `AllPresent` succeeds. */
  lemma {:induction false} AllPresentIff<T>(os: seq<Option<T>>, n: nat)
    requires n <= |os|
    ensures AllPresent(os, n).Some? <==> forall j :: 0 <= j < n ==> os[j].Some?
  {
    if n > 0 {
      AllPresentIff(os, n - 1);
    }
  }

  /** On success, `AllPresent` yields the values of the options, in order. */
  lemma {:induction false} AllPresentValues<T>(os: seq<Option<T>>, n: nat)
    requires n <= |os| && AllPresent(os, n).Some?
    ensures forall j :: 0 <= j < n ==> os[j] == Some(AllPresent(os, n).value[j])
  {
    if n > 0 {
      AllPresentValues(os, n - 1);
      var vs := AllPresent(os, n - 1).value;
      assert AllPresent(os, n).value == vs + [os[n - 1].value];
    }
  }

  /** One more present value extends the collected values by it. */
  lemma {:induction false} AllPresentSnoc<T>(os: seq<Option<T>>, n: nat, vs: seq<T>)
    requires n < |os| && AllPresent(os, n) == Some(vs) && os[n].Some?
    ensures AllPresent(os, n + 1) == Some(vs + [os[n].value])
  {
  }

  /** `AllPresent` over the first `n` options looks at those options only. */
  lemma {:induction false} AllPresentSamePrefix<T>(os: seq<Option<T>>, us: seq<Option<T>>, n: nat)
    requires n <= |os| && n <= |us|
    requires forall j :: 0 <= j < n ==> os[j] == us[j]
    ensures AllPresent(os, n) == AllPresent(us, n)
  {
    if n > 0 {
      AllPresentSamePrefix(os, us, n - 1);
    }
  }

  /** When all of the first `n` options are present, so are the first `m`, with the prefix of the values. */
  lemma {:induction false} AllPresentTake<T>(os: seq<Option<T>>, m: nat, n: nat)
    requires m <= n <= |os| && AllPresent(os, n).Some?
    ensures AllPresent(os, m) == Some(AllPresent(os, n).value[..m])
    decreases n
  {
    if m < n {
      AllPresentTake(os, m, n - 1);
      var vs := AllPresent(os, n - 1).value;
      assert AllPresent(os, n).value[..n - 1] == vs;
      assert AllPresent(os, n).value[..m] == vs[..m];
    } else {
      assert AllPresent(os, n).value[..m] == AllPresent(os, n).value;
    }
  }

  /** `f` applied to each of the first `n` elements of `s`, in order. */
  function MapPrefix<A, B>(f: A -> B, s: seq<A>, n: nat): (r: seq<B>)
    requires n <= |s|
    ensures |r| == n
    ensures forall i :: 0 <= i < n ==> r[i] == f(s[i])
  {
    if n == 0 then [] else MapPrefix(f, s, n - 1) + [f(s[n - 1])]
  }

  /** A non-empty list is its front followed by its last element. */
  lemma {:induction false} SplitLast<T>(s: seq<T>)
    requires s != []
    ensures s == s[..|s| - 1] + [s[|s| - 1]]
  {
  }

  /** Concatenation is associative. */
  lemma {:induction false} AppendAssoc<T>(a: seq<T>, b: seq<T>, c: seq<T>)
    ensures (a + b) + c == a + (b + c)
  {
  }

  /** `[f(0), ..., f(n - 1)]`. */
  function Tabulate<T>(f: nat --> T, n: nat): (r: seq<T>)
    requires forall k :: 0 <= k < n ==> f.requires(k)
    ensures |r| == n
    ensures forall k :: 0 <= k < n ==> r[k] == f(k)
  {
    if n == 0 then [] else Tabulate(f, n - 1) + [f(n - 1)]
  }
}
