/**
  Python's `re` module on the one pattern shape the release handler uses:
  `O(.+?)C`, where `O` is a literal string and `C` a literal character.
  Both patterns in app/app.py have this shape: `\[release:(.+?)\]` (O = `[release:`,
  C = `]`) and `__version__ = \"(.+?)\"` (O = `__version__ = "`, C = `"`).

  Without the DOTALL flag `.` matches every character except a newline, and the lazy
  `.+?` takes one character and then stops at the first `C` after it. So a match at
  index `i` is `O` at `i`, then at least one character, then the first `C` that
  follows the first of those characters, with no newline on the way.
 */
module LazyRegex {
  import opened Optional

  /** One match: the index where `O` starts and the index of the closing `C`. */
  datatype Found = Found(start: nat, close: nat)

  /** `O(.+?)C` matches `s` at index `i`, and its closing `C` is at index `k`. */
  predicate IsMatch(s: string, open: string, close: char, i: nat, k: nat)
  {
    && i + |open| < k < |s|
    && s[i..i + |open|] == open
    && s[k] == close
    && (forall m :: i + |open| <= m < k ==> s[m] != '\n')
    && (forall m :: i + |open| < m < k ==> s[m] != close)
  }

  /** A match at a given index has only one possible end. */
  lemma MatchUnique(s: string, open: string, close: char, i: nat, k1: nat, k2: nat)
    requires IsMatch(s, open, close, i, k1) && IsMatch(s, open, close, i, k2)
    ensures k1 == k2
  {
  }

  /**
    The lazy `.+?C` from index `k` on: the first `C` at or after `k`, unless a newline
    or the end of the text comes first.
   */
  function CloseFrom(s: string, k: nat, close: char): (r: Option<nat>)
    requires k <= |s|
    ensures r.Some? ==> k <= r.value < |s| && s[r.value] == close
    ensures r.Some? ==> forall m :: k <= m < r.value ==> s[m] != close && s[m] != '\n'
    ensures r.None? ==>
      forall m :: k <= m < |s| && s[m] == close ==> exists n :: k <= n < m && s[n] == '\n'
    decreases |s| - k
  {
    if k == |s| then None
    else if s[k] == close then Some(k)
    else if s[k] == '\n' then None
    else CloseFrom(s, k + 1, close)
  }

  /** The regex engine's attempt at index `i`: the index of the closing `C`, if it matches. */
  function MatchAt(s: string, open: string, close: char, i: nat): (r: Option<nat>)
    ensures r.Some? ==> IsMatch(s, open, close, i, r.value)
    ensures r.None? ==> forall k :: !IsMatch(s, open, close, i, k)
  {
    var j := i + |open|;
    if j < |s| && s[i..j] == open && s[j] != '\n' then CloseFrom(s, j + 1, close) else None
  }

  /** The pattern matches at no index in `[lo, hi)`. */
  ghost predicate NoMatchIn(s: string, open: string, close: char, lo: nat, hi: nat)
  {
    forall i: nat, k :: lo <= i < hi ==> !IsMatch(s, open, close, i, k)
  }

  /**
    `ms` is the leftmost, non-overlapping list of matches from index `from` on: each
    is a match, they come in order without overlapping, and the pattern matches
    nowhere before the first of them, in no gap between two of them and nowhere
    after the last of them.
   */
  ghost predicate LeftmostMatches(s: string, open: string, close: char, from: nat, ms: seq<Found>)
  {
    && (forall t :: 0 <= t < |ms| ==>
          from <= ms[t].start && IsMatch(s, open, close, ms[t].start, ms[t].close))
    && (forall t :: 0 < t < |ms| ==> ms[t - 1].close < ms[t].start)
    && NoMatchIn(s, open, close, from, if ms == [] then |s| else ms[0].start)
    && (forall t :: 0 < t < |ms| ==> NoMatchIn(s, open, close, ms[t - 1].close + 1, ms[t].start))
    && (ms != [] ==> NoMatchIn(s, open, close, ms[|ms| - 1].close + 1, |s|))
  }

  /** A match at `from` followed by the leftmost matches after its end. */
  lemma LeftmostMatchesCons(s: string, open: string, close: char, from: nat, k: nat, rest: seq<Found>)
    requires IsMatch(s, open, close, from, k)
    requires LeftmostMatches(s, open, close, k + 1, rest)
    ensures LeftmostMatches(s, open, close, from, [Found(from, k)] + rest)
  {
    var ms := [Found(from, k)] + rest;
    forall t | 0 < t < |ms| ensures ms[t] == rest[t - 1] && from < ms[t].start {
    }
    forall t | 0 < t < |ms|
      ensures ms[t - 1].close < ms[t].start
      ensures NoMatchIn(s, open, close, ms[t - 1].close + 1, ms[t].start)
    {
      if t > 1 {
        assert ms[t - 1] == rest[t - 2];
      }
    }
    if rest == [] {
      assert ms[|ms| - 1].close + 1 == k + 1;
    } else {
      assert ms[|ms| - 1] == rest[|rest| - 1];
    }
  }

  /** No match at `from`: the leftmost matches from `from + 1` on are those from `from` on. */
  lemma LeftmostMatchesSkip(s: string, open: string, close: char, from: nat, ms: seq<Found>)
    requires forall k :: !IsMatch(s, open, close, from, k)
    requires LeftmostMatches(s, open, close, from + 1, ms)
    ensures LeftmostMatches(s, open, close, from, ms)
  {
  }

  /**
    The scan `re.findall` makes from index `from`: the matches whose groups it
    returns, in order (`FindAllLeftmost` below says which ones they are).
   */
  function FindAll(s: string, open: string, close: char, from: nat): (ms: seq<Found>)
    requires from <= |s|
    ensures forall t :: 0 <= t < |ms| ==> from <= ms[t].start && ms[t].start + |open| < ms[t].close < |s|
    decreases |s| - from
  {
    if from == |s| then []
    else match MatchAt(s, open, close, from)
      case Some(k) => [Found(from, k)] + FindAll(s, open, close, k + 1)
      case None => FindAll(s, open, close, from + 1)
  }

  /** `re.findall` returns the leftmost, non-overlapping matches, in order. */
  lemma {:induction false} FindAllLeftmost(s: string, open: string, close: char, from: nat)
    requires from <= |s|
    ensures LeftmostMatches(s, open, close, from, FindAll(s, open, close, from))
    decreases |s| - from
  {
    if from == |s| {
    } else {
      match MatchAt(s, open, close, from)
      case Some(k) =>
        var rest := FindAll(s, open, close, k + 1);
        assert FindAll(s, open, close, from) == [Found(from, k)] + rest;
        FindAllLeftmost(s, open, close, k + 1);
        LeftmostMatchesCons(s, open, close, from, k, rest);
      case None =>
        var rest := FindAll(s, open, close, from + 1);
        assert FindAll(s, open, close, from) == rest;
        FindAllLeftmost(s, open, close, from + 1);
        LeftmostMatchesSkip(s, open, close, from, rest);
    }
  }

  /** The scan passes over a stretch of text in which the opener's first character does not occur. */
  lemma {:induction false} FindAllSkips(s: string, open: string, close: char, from: nat, to: nat)
    requires |open| > 0 && from <= to <= |s|
    requires forall i :: from <= i < to ==> s[i] != open[0]
    ensures FindAll(s, open, close, from) == FindAll(s, open, close, to)
    decreases |s| - from
  {
    if from < to {
      assert MatchAt(s, open, close, from).None? by {
        if from + |open| <= |s| {
          assert s[from..from + |open|][0] == s[from];
        }
      }
      FindAllSkips(s, open, close, from + 1, to);
    }
  }

  /** Every element `re.findall` returns is a match. */
  lemma FindAllMatch(s: string, open: string, close: char, from: nat, t: nat)
    requires from <= |s| && t < |FindAll(s, open, close, from)|
    ensures var f := FindAll(s, open, close, from)[t]; IsMatch(s, open, close, f.start, f.close)
  {
    FindAllLeftmost(s, open, close, from);
  }

  /** `re.search` from index `from`: the leftmost match, if there is one. */
  function Search(s: string, open: string, close: char, from: nat): (r: Option<Found>)
    requires from <= |s|
    ensures r.Some? ==>
      && from <= r.value.start
      && IsMatch(s, open, close, r.value.start, r.value.close)
      && forall i: nat, k :: from <= i < r.value.start ==> !IsMatch(s, open, close, i, k)
    ensures r.None? ==> forall i: nat, k :: from <= i ==> !IsMatch(s, open, close, i, k)
    decreases |s| - from
  {
    if from == |s| then None
    else match MatchAt(s, open, close, from)
      case Some(k) => Some(Found(from, k))
      case None => Search(s, open, close, from + 1)
  }

  /** The captured group `(.+?)` of a match. */
  function Group(s: string, open: string, f: Found): (g: string)
    requires f.start + |open| <= f.close <= |s|
    ensures |g| == f.close - f.start - |open|
  {
    s[f.start + |open|..f.close]
  }

  /** `re.search` finds the first match `re.findall` finds, and nothing when that finds none. */
  lemma SearchIsFirstOfFindAll(s: string, open: string, close: char, from: nat)
    requires from <= |s|
    ensures var ms := FindAll(s, open, close, from);
      Search(s, open, close, from) == if ms == [] then None else Some(ms[0])
  {
    var ms := FindAll(s, open, close, from);
    var r := Search(s, open, close, from);
    FindAllLeftmost(s, open, close, from);
    if ms != [] {
      var f := ms[0];
      assert IsMatch(s, open, close, f.start, f.close);
      var g := r.value;
      assert g.start == f.start;
      MatchUnique(s, open, close, f.start, f.close, g.close);
    }
  }
}
