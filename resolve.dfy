/**
  How `SearchEngine.resolveInputToIata` turns what the user typed into an airport
  code: three letters stand for themselves, a suggestion `name (CODE)` stands for the
  code in its last parentheses, and anything else is looked up among the airport
  names.
 */
module Resolve {
  import opened Wrappers
  import opened Strings

  /** The text strictly between the last `(` and the last `)` of `v`, when that `)` comes after that `(`. */
  function Parenthesised(v: string): (r: Option<string>)
    ensures r.Some? ==> exists i :: 0 <= i && i + |r.value| + 1 < |v| && v[i] == '(' && v[i + |r.value| + 1] == ')'
                                     && r.value == v[i + 1..i + |r.value| + 1]
  {
    match (LastIndexOf(v, '('), LastIndexOf(v, ')'))
    case (Some(start), Some(end)) => if end > start then Some(v[start + 1..end]) else None
    case _ => None
  }

  /**
    The code the display text names outright, upper-cased: the trimmed text itself when
    it is three letters, else the three letters in its last parentheses.
   */
  function DirectCode(display: string): (r: Option<string>)
    ensures r.Some? ==> IsUpperCode(r.value)
  {
    var v := Trim(display, WhitespacesAndNewlines);
    if IsThreeLetters(v) then
      UpperCodeIffThreeLetters(v);
      Some(Upper(v))
    else
      match Parenthesised(v)
      case Some(sub) =>
        if IsThreeLetters(sub) then
          UpperCodeIffThreeLetters(sub);
          Some(Upper(sub))
        else None
      case None => None
  }

  /** An airport entry answers the lower-cased query: its name is it, or its name or code contains it. */
  predicate Matches(iata: string, name: string, low: string) {
    Lower(name) == low || Contains(Lower(name), low) || Contains(Lower(iata), low)
  }

  /** The trimmed, lower-cased query the airport names are searched with. */
  function Query(display: string): string {
    Lower(Trim(display, WhitespacesAndNewlines))
  }

  /**
    `r` is what `resolveInputToIata(display)` may return over `names`: the direct code
    if there is one; else a code whose entry matches the query, as long as one does
    (which one depends on the dictionary's iteration order); else the empty string.
   */
  predicate IsResolution(names: map<string, string>, display: string, r: string) {
    match DirectCode(display)
    case Some(code) => r == code
    case None =>
      if exists iata :: iata in names && Matches(iata, names[iata], Query(display)) then
        r in names && Matches(r, names[r], Query(display))
      else r == ""
  }

  /** A resolved code is three capitals that resolve to themselves: resolving is idempotent. */
  lemma {:induction false} DirectCodeIdempotent(display: string)
    requires DirectCode(display).Some?
    ensures DirectCode(DirectCode(display).value) == DirectCode(display)
  {
    var code := DirectCode(display).value;
    UpperCodeIffThreeLetters(code);
    assert Upper(code) == code;
    TrimNoneOf(code, WhitespacesAndNewlines);
  }

  /** Typing three letters in either case, with blanks around them, resolves to them upper-cased. */
  lemma {:induction false} ThreeLettersResolve(names: map<string, string>, display: string, r: string)
    requires IsThreeLetters(Trim(display, WhitespacesAndNewlines))
    ensures IsResolution(names, display, r) <==> r == Upper(Trim(display, WhitespacesAndNewlines))
  {
  }

  /** A suggestion `name (CODE)` with a three-letter code resolves to the code, whatever the name. */
  lemma {:induction false} SuggestionResolves(name: string, code: string)
    requires IsThreeLetters(code)
    ensures DirectCode(name + " (" + code + ")") == Some(Upper(code))
  {
    var tail := "(" + code + ")";
    assert name + " (" + code + ")" == (name + " ") + tail;
    TrimKeepsSuffix(name + " ", tail, WhitespacesAndNewlines);
    ParenthesisedSuffix(Trim((name + " ") + tail, WhitespacesAndNewlines), code);
  }

  /** Text ending in a three-letter code in parentheses names that code. */
  lemma {:induction false} ParenthesisedSuffix(v: string, code: string)
    requires IsThreeLetters(code) && |v| >= 5 && v[|v| - 5..] == "(" + code + ")"
    ensures !IsThreeLetters(v) && Parenthesised(v) == Some(code)
  {
    var n := |v|;
    var tail := "(" + code + ")";
    assert v[n - 5] == tail[0] == '(';
    assert v[n - 4] == tail[1] == code[0];
    assert v[n - 3] == tail[2] == code[1];
    assert v[n - 2] == tail[3] == code[2];
    assert v[n - 1] == tail[4] == ')';
    assert LastIndexOf(v, '(') == Some(n - 5);
    assert LastIndexOf(v, ')') == Some(n - 1);
    assert v[n - 4..n - 1] == code;
  }

  /**
    A blank input resolves to nothing when every airport has a non-empty name: there
    is no direct code and an empty query matches no entry.
   */
  lemma {:induction false} BlankUnresolved(names: map<string, string>, display: string, r: string)
    requires Trim(display, WhitespacesAndNewlines) == []
    requires forall iata :: iata in names ==> names[iata] != []
    ensures IsResolution(names, display, r) <==> r == ""
  {
    assert Parenthesised([]) == None;
    forall iata | iata in names
      ensures !Matches(iata, names[iata], [])
    {
      assert |Lower(names[iata])| > 0;
    }
  }
}
