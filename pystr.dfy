/**
  The few methods of Python's `str` that the release handler relies on:
  `isspace` (per character), `strip()` with no argument, `endswith` and `replace`.
  Strings are sequences of Unicode code points, as Python 3 `str` values are.
 */
module PyStr {

  /** Python's `str.isspace` on one character: the characters `strip()` removes. */
  predicate IsSpace(c: char)
  {
    var n := c as int;
    (0x09 <= n <= 0x0D) || (0x1C <= n <= 0x20) || n == 0x85 || n == 0xA0 || n == 0x1680
    || (0x2000 <= n <= 0x200A) || n == 0x2028 || n == 0x2029 || n == 0x202F || n == 0x205F
    || n == 0x3000
  }

  /** `s.lstrip()`: the suffix of `s` left after its leading whitespace. */
  function TrimStart(s: string): (r: string)
    ensures |r| <= |s| && r == s[|s| - |r|..]
    ensures forall m :: 0 <= m < |s| - |r| ==> IsSpace(s[m])
    ensures r != [] ==> !IsSpace(r[0])
  {
    if s != [] && IsSpace(s[0]) then TrimStart(s[1..]) else s
  }

  /** `s.rstrip()`: the prefix of `s` left before its trailing whitespace. */
  function TrimEnd(s: string): (r: string)
    ensures |r| <= |s| && r == s[..|r|]
    ensures forall m :: |r| <= m < |s| ==> IsSpace(s[m])
    ensures r != [] ==> !IsSpace(r[|r| - 1])
  {
    if s != [] && IsSpace(s[|s| - 1]) then TrimEnd(s[..|s| - 1]) else s
  }

  /** The number of leading whitespace characters of `s`. */
  function LeadingSpaces(s: string): (n: nat)
    ensures n <= |s|
  {
    |s| - |TrimStart(s)|
  }

  /**
    `s.strip()`: the slice of `s` that starts after its leading whitespace, ends before
    its trailing whitespace, and neither starts nor ends with whitespace itself.
   */
  function Strip(s: string): (r: string)
    ensures LeadingSpaces(s) + |r| <= |s|
    ensures r == s[LeadingSpaces(s)..LeadingSpaces(s) + |r|]
    ensures forall m :: 0 <= m < LeadingSpaces(s) ==> IsSpace(s[m])
    ensures forall m :: LeadingSpaces(s) + |r| <= m < |s| ==> IsSpace(s[m])
    ensures r != [] ==> !IsSpace(r[0]) && !IsSpace(r[|r| - 1])
  {
    var t := TrimStart(s);
    var r := TrimEnd(t);
    assert r != [] ==> r[0] == t[0];
    r
  }

  /** A string with no whitespace at either end is left alone by `strip()`. */
  lemma StripClean(s: string)
    requires s != [] ==> !IsSpace(s[0]) && !IsSpace(s[|s| - 1])
    ensures Strip(s) == s
  {
  }

  /** `strip()` is idempotent. */
  lemma StripIdempotent(s: string)
    ensures Strip(Strip(s)) == Strip(s)
  {
    StripClean(Strip(s));
  }

  /** `s.endswith(suffix)`. */
  predicate EndsWith(s: string, suffix: string)
  {
    |suffix| <= |s| && s[|s| - |suffix|..] == suffix
  }

  /** `s.endswith(suffix)` holds exactly when `s` is some string followed by `suffix`. */
  lemma EndsWithIff(s: string, suffix: string)
    ensures EndsWith(s, suffix) <==> exists head :: head + suffix == s
  {
    if EndsWith(s, suffix) {
      var head := s[..|s| - |suffix|];
      assert head + suffix == s;
    }
  }

  /** `w` occurs in `s` at index `i`. */
  predicate StartsAt(s: string, i: nat, w: string)
  {
    i + |w| <= |s| && s[i..i + |w|] == w
  }

  /** `w in s` for strings: `w` occurs somewhere in `s`. */
  ghost predicate Occurs(s: string, w: string)
  {
    exists i: nat :: StartsAt(s, i, w)
  }

  /**
    `s.replace(pat, rep)`: every occurrence of `pat`, found left to right without
    overlap, is replaced by `rep`; an empty `pat` inserts `rep` before every character
    and at the end, as Python does.
   */
  function ReplaceAll(s: string, pat: string, rep: string): (r: string)
    decreases |s|
  {
    if |pat| == 0 then
      if s == [] then rep else rep + [s[0]] + ReplaceAll(s[1..], pat, rep)
    else if s == [] then []
    else if StartsAt(s, 0, pat) then rep + ReplaceAll(s[|pat|..], pat, rep)
    else [s[0]] + ReplaceAll(s[1..], pat, rep)
  }

  /** Replacing a string by itself changes nothing. */
  lemma {:induction false} ReplaceAllSame(s: string, pat: string)
    ensures ReplaceAll(s, pat, pat) == s
    decreases |s|
  {
    if |pat| == 0 {
      if s != [] {
        ReplaceAllSame(s[1..], pat);
      }
    } else if s == [] {
    } else if StartsAt(s, 0, pat) {
      ReplaceAllSame(s[|pat|..], pat);
      assert s == pat + s[|pat|..];
    } else {
      ReplaceAllSame(s[1..], pat);
      assert s == [s[0]] + s[1..];
    }
  }

  /** Replacing a string that does not occur changes nothing. */
  lemma {:induction false} ReplaceAllAbsent(s: string, pat: string, rep: string)
    requires |pat| > 0 && !Occurs(s, pat)
    ensures ReplaceAll(s, pat, rep) == s
    decreases |s|
  {
    if s != [] {
      assert !StartsAt(s, 0, pat);
      forall i: nat | StartsAt(s[1..], i, pat) ensures StartsAt(s, i + 1, pat) {
        assert s[i + 1..i + 1 + |pat|] == s[1..][i..i + |pat|];
      }
      ReplaceAllAbsent(s[1..], pat, rep);
      assert s == [s[0]] + s[1..];
    }
  }

  /** An occurrence in `s` after its first index is an occurrence in the tail `s[1..]`. */
  lemma StartsAtInTail(s: string, pat: string, i: nat)
    requires 0 < i && StartsAt(s, i, pat)
    ensures StartsAt(s[1..], i - 1, pat)
  {
    assert s[1..][i - 1..i - 1 + |pat|] == s[i..i + |pat|];
  }

  /**
    When no occurrence of `pat` starts before index `n`, the first `n` characters are
    copied unchanged: `s.replace(pat, rep)` is `s[..n] + s[n..].replace(pat, rep)`.
   */
  lemma {:induction false} ReplaceAllCopiesPrefix(s: string, pat: string, rep: string, n: nat)
    requires |pat| > 0 && n <= |s|
    requires forall i :: 0 <= i < n ==> !StartsAt(s, i, pat)
    ensures ReplaceAll(s, pat, rep) == s[..n] + ReplaceAll(s[n..], pat, rep)
    decreases n
  {
    if n == 0 {
      assert s[..0] == [] && s[0..] == s;
    } else {
      assert !StartsAt(s, 0, pat);
      NoStartInTail(s, pat, n);
      ReplaceAllCopiesPrefix(s[1..], pat, rep, n - 1);
      ConsSplit(s, n, ReplaceAll(s[n..], pat, rep));
    }
  }

  /** No occurrence of `pat` starting before index `n` of `s`: none before `n - 1` of its tail. */
  lemma NoStartInTail(s: string, pat: string, n: nat)
    requires 0 < n <= |s|
    requires forall i :: 0 <= i < n ==> !StartsAt(s, i, pat)
    ensures forall i :: 0 <= i < n - 1 ==> !StartsAt(s[1..], i, pat)
  {
    forall i | 0 <= i < n - 1 ensures !StartsAt(s[1..], i, pat) {
      assert !StartsAt(s, i + 1, pat);
      if i + |pat| <= |s| - 1 {
        assert s[1..][i..i + |pat|] == s[i + 1..i + 1 + |pat|];
      }
    }
  }

  /** Splitting off the first character of `s[..n] + r`. */
  lemma ConsSplit(s: string, n: nat, r: string)
    requires 0 < n <= |s|
    ensures s[..n] + r == [s[0]] + (s[1..][..n - 1] + r)
    ensures s[1..][n - 1..] == s[n..]
  {
    assert s[..n] == [s[0]] + s[1..][..n - 1];
  }

  /** `replace` grows the text when `rep` is longer than `pat`, and shrinks it when shorter. */
  lemma {:induction false} ReplaceAllLength(s: string, pat: string, rep: string)
    requires |pat| > 0
    ensures |rep| >= |pat| ==> |ReplaceAll(s, pat, rep)| >= |s|
    ensures |rep| <= |pat| ==> |ReplaceAll(s, pat, rep)| <= |s|
    decreases |s|
  {
    if s == [] {
    } else if StartsAt(s, 0, pat) {
      ReplaceAllLength(s[|pat|..], pat, rep);
    } else {
      ReplaceAllLength(s[1..], pat, rep);
    }
  }

  /** Replacing a non-empty string that occurs by a different one changes the text. */
  lemma {:induction false} ReplaceAllDiffers(s: string, pat: string, rep: string)
    requires |pat| > 0 && Occurs(s, pat) && rep != pat
    ensures ReplaceAll(s, pat, rep) != s
    decreases |s|
  {
    var r := ReplaceAll(s, pat, rep);
    if StartsAt(s, 0, pat) {
      var rest := s[|pat|..];
      assert r == rep + ReplaceAll(rest, pat, rep);
      ReplaceAllLength(rest, pat, rep);
      assert s == pat + rest;
      if |rep| == |pat| {
        assert r[..|pat|] == rep;
        assert s[..|pat|] == pat;
      }
    } else {
      var i: nat :| StartsAt(s, i, pat);
      StartsAtInTail(s, pat, i);
      ReplaceAllDiffers(s[1..], pat, rep);
      assert r == [s[0]] + ReplaceAll(s[1..], pat, rep);
      assert s == [s[0]] + s[1..];
    }
  }

  /**
    When a non-empty `pat` occurs in `s`, `s.replace(pat, rep)` equals `s`
    exactly when `rep` equals `pat`.
   */
  lemma ReplaceAllChanges(s: string, pat: string, rep: string)
    requires |pat| > 0 && Occurs(s, pat)
    ensures ReplaceAll(s, pat, rep) == s <==> rep == pat
  {
    if rep == pat {
      ReplaceAllSame(s, pat);
    } else {
      ReplaceAllDiffers(s, pat, rep);
    }
  }
}
