/**
  `get_command` of app/app.py: the release directive written into a commit message as
  `[prefix:value]`. The handler asks for the prefix `release`.
 */
module Command {
  import opened Optional
  import opened PyStr
  import opened LazyRegex

  /**
    The literal start `[prefix:` of the pattern `\[{prefix}:(.+?)\]`. The prefix is
    placed into the pattern unescaped; it is modelled as plain text, i.e. as a prefix
    without regex metacharacters.
   */
  function Opener(prefix: string): (o: string)
  {
    "[" + prefix + ":"
  }

  /**
    `text` contains `[prefix:X]` for some non-empty `X` without a newline
    (`X` may itself contain `]`).
   */
  ghost predicate HasDirective(text: string, prefix: string)
  {
    exists i: nat, k ::
      && StartsAt(text, i, Opener(prefix))
      && i + |Opener(prefix)| < k < |text|
      && text[k] == ']'
      && forall m :: i + |Opener(prefix)| <= m < k ==> text[m] != '\n'
  }

  /**
    A value `get_command` can return: no whitespace at either end, no newline, and no
    `]` except possibly as its first character (the lazy `.+?` stops at the first `]`
    after the first character of the value).
   */
  predicate CleanCommand(v: string)
  {
    && (v != [] ==> !IsSpace(v[0]) && !IsSpace(v[|v| - 1]))
    && (forall t :: 0 <= t < |v| ==> v[t] != '\n')
    && (forall t :: 0 < t < |v| ==> v[t] != ']')
  }

  /**
    `get_command(text, prefix)`: `re.findall` of `\[{prefix}:(.+?)\]`, then the last
    group found, stripped; `None` when nothing is found.
   */
  function GetCommand(text: string, prefix: string): (r: Option<string>)
  {
    var found := FindAll(text, Opener(prefix), ']', 0);
    if found == [] then None
    else Some(Strip(Group(text, Opener(prefix), found[|found| - 1])))
  }

  /** At an index where `[prefix:X]` is written out, the pattern matches. */
  lemma DirectiveMatches(text: string, prefix: string, i: nat, k: nat)
    requires StartsAt(text, i, Opener(prefix))
    requires i + |Opener(prefix)| < k < |text| && text[k] == ']'
    requires forall m :: i + |Opener(prefix)| <= m < k ==> text[m] != '\n'
    ensures MatchAt(text, Opener(prefix), ']', i).Some?
  {
    var j := i + |Opener(prefix)|;
    assert text[i..j] == Opener(prefix);
  }

  /**
    `get_command` returns `None` exactly when the text holds no `[prefix:X]` with
    `X` non-empty and free of newlines.
   */
  lemma GetCommandNoneIff(text: string, prefix: string)
    ensures GetCommand(text, prefix).None? <==> !HasDirective(text, prefix)
  {
    var open := Opener(prefix);
    var found := FindAll(text, open, ']', 0);
    FindAllLeftmost(text, open, ']', 0);
    if found == [] {
      if HasDirective(text, prefix) {
        var i: nat, k :| StartsAt(text, i, open) && i + |open| < k < |text| && text[k] == ']'
          && forall m :: i + |open| <= m < k ==> text[m] != '\n';
        DirectiveMatches(text, prefix, i, k);
      }
    } else {
      var f := found[0];
      assert IsMatch(text, open, ']', f.start, f.close);
      assert StartsAt(text, f.start, open);
    }
  }

  /** The captured group of a match of `\[{prefix}:(.+?)\]` has no newline and `]` at most first. */
  lemma GroupShape(text: string, prefix: string, f: Found)
    requires IsMatch(text, Opener(prefix), ']', f.start, f.close)
    ensures var g := Group(text, Opener(prefix), f);
      && |g| > 0
      && (forall t :: 0 <= t < |g| ==> g[t] != '\n')
      && (forall t :: 0 < t < |g| ==> g[t] != ']')
  {
    var j := f.start + |Opener(prefix)|;
    var g := Group(text, Opener(prefix), f);
    forall t | 0 <= t < |g| ensures g[t] == text[j + t] {
    }
  }

  /** Stripping a group of that shape leaves a value of the shape `CleanCommand` describes. */
  lemma StripGroupClean(g: string)
    requires forall t :: 0 <= t < |g| ==> g[t] != '\n'
    requires forall t :: 0 < t < |g| ==> g[t] != ']'
    ensures CleanCommand(Strip(g))
  {
    var v := Strip(g);
    var lead := LeadingSpaces(g);
    assert v == g[lead..lead + |v|];
    forall t | 0 <= t < |v| ensures v[t] != '\n' && (t > 0 ==> v[t] != ']') {
      assert v[t] == g[lead + t];
    }
  }

  /** Every value `get_command` returns has the shape `CleanCommand` describes. */
  lemma GetCommandClean(text: string, prefix: string)
    requires GetCommand(text, prefix).Some?
    ensures CleanCommand(GetCommand(text, prefix).value)
  {
    var found := FindAll(text, Opener(prefix), ']', 0);
    FindAllMatch(text, Opener(prefix), ']', 0, |found| - 1);
    var f := found[|found| - 1];
    GroupShape(text, prefix, f);
    StripGroupClean(Group(text, Opener(prefix), f));
  }

  /** `[prefix:x]` written out. */
  function Directive(prefix: string, x: string): (d: string)
    ensures |d| == |Opener(prefix)| + |x| + 1
  {
    Opener(prefix) + x + "]"
  }

  /** A value that `[prefix:x]` delimits exactly: non-empty, no newline, no `]` after its first character. */
  predicate PlainValue(x: string)
  {
    |x| > 0 && (forall t :: 0 <= t < |x| ==> x[t] != '\n') && (forall t :: 0 < t < |x| ==> x[t] != ']')
  }

  /** Text between directives that the scan passes over: it holds no `[`. */
  predicate Filler(f: string)
  {
    '[' !in f
  }

  /**
    A commit message with directives in it: the filler `fs[0]`, the directive
    `[prefix:xs[0]]`, the filler `fs[1]`, and so on, ending with the filler `fs[|xs|]`.
   */
  function Message(prefix: string, xs: seq<string>, fs: seq<string>): (m: string)
    requires |fs| == |xs| + 1
    decreases |xs|
  {
    if xs == [] then fs[0] else fs[0] + Directive(prefix, xs[0]) + Message(prefix, xs[1..], fs[1..])
  }

  /** The values are delimited exactly by their directives, and there is one filler more than values. */
  predicate WellFormed(xs: seq<string>, fs: seq<string>)
  {
    && |fs| == |xs| + 1
    && (forall t :: 0 <= t < |xs| ==> PlainValue(xs[t]))
    && (forall t :: 0 <= t < |fs| ==> Filler(fs[t]))
  }

  /** A directive written out at index `i` is matched there, up to its own `]`. */
  lemma DirectiveMatchesExactly(text: string, prefix: string, x: string, i: nat)
    requires PlainValue(x)
    requires StartsAt(text, i, Directive(prefix, x))
    ensures IsMatch(text, Opener(prefix), ']', i, i + |Directive(prefix, x)| - 1)
  {
    var d := Directive(prefix, x);
    var o := Opener(prefix);
    forall m | 0 <= m < |d| ensures text[i + m] == d[m] {
      assert text[i..i + |d|][m] == d[m];
    }
    assert text[i..i + |o|] == o by {
      forall m | 0 <= m < |o| ensures text[i..i + |o|][m] == o[m] {
        assert d[m] == o[m];
      }
    }
    forall m | i + |o| <= m < i + |d| - 1 ensures text[m] == x[m - i - |o|] {
      assert d[m - i] == x[m - i - |o|];
    }
  }

  /** A list with one more element in front: its length, first and last elements. */
  lemma ConsParts(a: seq<Found>, f: Found, b: seq<Found>)
    requires a == [f] + b
    ensures |a| == |b| + 1 && a[0] == f
    ensures b != [] ==> a[|b|] == b[|b| - 1]
  {
  }

  /**
    At a directive written out from `from` up to `next`, the scan takes that directive
    as one match, closed at `next - 1`, and goes on at `next`.
   */
  lemma FindAllAtDirective(text: string, prefix: string, x: string, from: nat, next: nat)
    requires PlainValue(x)
    requires StartsAt(text, from, Directive(prefix, x))
    requires next == from + |Directive(prefix, x)|
    ensures FindAll(text, Opener(prefix), ']', from)
      == [Found(from, next - 1)] + FindAll(text, Opener(prefix), ']', next)
  {
    var o := Opener(prefix);
    DirectiveMatchesExactly(text, prefix, x, from);
    MatchUnique(text, o, ']', from, next - 1, MatchAt(text, o, ']', from).value);
  }

  /** The length, first and last match of the scan at a directive, in terms of the scan after it. */
  lemma ScanAtDirective(text: string, prefix: string, x: string, from: nat, next: nat)
    requires PlainValue(x)
    requires StartsAt(text, from, Directive(prefix, x))
    requires next == from + |Directive(prefix, x)|
    ensures |FindAll(text, Opener(prefix), ']', from)| == |FindAll(text, Opener(prefix), ']', next)| + 1
    ensures FindAll(text, Opener(prefix), ']', from)[0] == Found(from, next - 1)
    ensures FindAll(text, Opener(prefix), ']', next) != [] ==>
      FindAll(text, Opener(prefix), ']', from)[|FindAll(text, Opener(prefix), ']', next)|]
        == FindAll(text, Opener(prefix), ']', next)[|FindAll(text, Opener(prefix), ']', next)| - 1]
  {
    FindAllAtDirective(text, prefix, x, from, next);
    ConsParts(FindAll(text, Opener(prefix), ']', from), Found(from, next - 1),
      FindAll(text, Opener(prefix), ']', next));
  }

  /** The group of a directive written out from `from` up to `next` is its value. */
  lemma DirectiveGroup(text: string, prefix: string, x: string, from: nat, next: nat)
    requires StartsAt(text, from, Directive(prefix, x))
    requires next == from + |Directive(prefix, x)|
    ensures Group(text, Opener(prefix), Found(from, next - 1)) == x
  {
    var d := Directive(prefix, x);
    var o := Opener(prefix);
    assert text[from..from + |d|] == d;
    forall m | 0 <= m < |x| ensures text[from + |o| + m] == x[m] {
      assert text[from..from + |d|][|o| + m] == d[|o| + m];
    }
  }

  /** A message from `from` on: its first filler, its first directive, then the rest of the message. */
  lemma MessageAt(text: string, prefix: string, xs: seq<string>, fs: seq<string>, from: nat, start: nat, next: nat)
    requires xs != [] && |fs| == |xs| + 1
    requires from <= |text| && text[from..] == Message(prefix, xs, fs)
    requires start == from + |fs[0]| && next == start + |Directive(prefix, xs[0])|
    ensures start <= |text| && text[from..start] == fs[0]
    ensures StartsAt(text, start, Directive(prefix, xs[0]))
    ensures next <= |text| && text[next..] == Message(prefix, xs[1..], fs[1..])
  {
    var d := Directive(prefix, xs[0]);
    var rest := Message(prefix, xs[1..], fs[1..]);
    assert text[from..] == fs[0] + d + rest;
    SplitThree(text, from, fs[0], d, rest);
  }

  /** A text that reads `a + b + c` from `from` on: where each of the three parts lies. */
  lemma SplitThree(t: string, from: nat, a: string, b: string, c: string)
    requires from <= |t| && t[from..] == a + b + c
    ensures t[from..from + |a|] == a
    ensures t[from + |a|..from + |a| + |b|] == b
    ensures t[from + |a| + |b|..] == c
  {
    var u := t[from..];
    assert u[..|a|] == a && u[|a|..|a| + |b|] == b && u[|a| + |b|..] == c;
    assert t[from..from + |a|] == u[..|a|];
    assert t[from + |a|..from + |a| + |b|] == u[|a|..|a| + |b|];
    assert t[from + |a| + |b|..] == u[|a| + |b|..];
  }

  /** The scan passes over a filler. */
  lemma FillerSkip(text: string, prefix: string, from: nat, to: nat)
    requires from <= to <= |text| && Filler(text[from..to])
    ensures FindAll(text, Opener(prefix), ']', from) == FindAll(text, Opener(prefix), ']', to)
  {
    var o := Opener(prefix);
    forall i | from <= i < to ensures text[i] != o[0] {
      assert text[from..to][i - from] == text[i];
    }
    FindAllSkips(text, o, ']', from, to);
  }

  /** The values and fillers after the first directive are well formed too. */
  lemma WellFormedTail(xs: seq<string>, fs: seq<string>)
    requires xs != [] && WellFormed(xs, fs)
    ensures WellFormed(xs[1..], fs[1..])
  {
    forall t | 0 <= t < |xs[1..]| ensures PlainValue(xs[1..][t]) {
      assert xs[1..][t] == xs[t + 1];
    }
    forall t | 0 <= t < |fs[1..]| ensures Filler(fs[1..][t]) {
      assert fs[1..][t] == fs[t + 1];
    }
  }

  /**
    The scan over a message from `from` on: it passes over the first filler, takes the
    first directive as one match, whose group is the directive's value, and goes on at
    `next`, where the rest of the message begins.
   */
  lemma ScanAtMessage(text: string, prefix: string, xs: seq<string>, fs: seq<string>, from: nat, next: nat)
    requires xs != [] && WellFormed(xs, fs)
    requires from <= |text| && text[from..] == Message(prefix, xs, fs)
    requires next == from + |fs[0]| + |Directive(prefix, xs[0])|
    ensures next <= |text| && text[next..] == Message(prefix, xs[1..], fs[1..])
    ensures WellFormed(xs[1..], fs[1..])
    ensures |FindAll(text, Opener(prefix), ']', from)| == |FindAll(text, Opener(prefix), ']', next)| + 1
    ensures FindAll(text, Opener(prefix), ']', from)[0] == Found(from + |fs[0]|, next - 1)
    ensures FindAll(text, Opener(prefix), ']', next) != [] ==>
      FindAll(text, Opener(prefix), ']', from)[|FindAll(text, Opener(prefix), ']', next)|]
        == FindAll(text, Opener(prefix), ']', next)[|FindAll(text, Opener(prefix), ']', next)| - 1]
    ensures Group(text, Opener(prefix), Found(from + |fs[0]|, next - 1)) == xs[0]
  {
    var start := from + |fs[0]|;
    MessageAt(text, prefix, xs, fs, from, start, next);
    assert Filler(fs[0]);
    FillerSkip(text, prefix, from, start);
    ScanAtDirective(text, prefix, xs[0], start, next);
    DirectiveGroup(text, prefix, xs[0], start, next);
    WellFormedTail(xs, fs);
  }

  /** The scan over a message finds one match per directive. */
  lemma {:induction false} FindAllMessageCount(text: string, prefix: string, xs: seq<string>, fs: seq<string>, from: nat)
    requires WellFormed(xs, fs)
    requires from <= |text| && text[from..] == Message(prefix, xs, fs)
    ensures |FindAll(text, Opener(prefix), ']', from)| == |xs|
    decreases |xs|
  {
    if xs == [] {
      assert text[from..|text|] == fs[0];
      FillerSkip(text, prefix, from, |text|);
    } else {
      var next := from + |fs[0]| + |Directive(prefix, xs[0])|;
      ScanAtMessage(text, prefix, xs, fs, from, next);
      FindAllMessageCount(text, prefix, xs[1..], fs[1..], next);
    }
  }

  /** The last match of that scan delimits the last value. */
  lemma {:induction false} FindAllMessageLast(text: string, prefix: string, xs: seq<string>, fs: seq<string>, from: nat)
    requires xs != [] && WellFormed(xs, fs)
    requires from <= |text| && text[from..] == Message(prefix, xs, fs)
    ensures |FindAll(text, Opener(prefix), ']', from)| == |xs|
    ensures Group(text, Opener(prefix), FindAll(text, Opener(prefix), ']', from)[|xs| - 1]) == xs[|xs| - 1]
    decreases |xs|
  {
    var next := from + |fs[0]| + |Directive(prefix, xs[0])|;
    ScanAtMessage(text, prefix, xs, fs, from, next);
    FindAllMessageCount(text, prefix, xs[1..], fs[1..], next);
    var rest := FindAll(text, Opener(prefix), ']', next);
    var m := |xs| - 1;
    assert |rest| == m;
    if m > 0 {
      FindAllMessageLast(text, prefix, xs[1..], fs[1..], next);
      assert xs[1..][m - 1] == xs[m];
    }
  }

  /** When the last of the `n` matches the scan finds captures `x`, `get_command` returns `x` stripped. */
  lemma LastFoundIsCommand(text: string, prefix: string, n: nat, x: string)
    requires n > 0 && |FindAll(text, Opener(prefix), ']', 0)| == n
    requires Group(text, Opener(prefix), FindAll(text, Opener(prefix), ']', 0)[n - 1]) == x
    ensures GetCommand(text, prefix) == Some(Strip(x))
  {
  }

  /**
    With several directives in one message, the last one wins:
    `get_command(f0 + "[p:x1]" + f1 + ... + "[p:xn]" + fn, "p")` is `xn` stripped, when
    no filler `fi` holds a `[`.
   */
  lemma LastDirectiveWins(prefix: string, xs: seq<string>, fs: seq<string>)
    requires xs != [] && WellFormed(xs, fs)
    ensures GetCommand(Message(prefix, xs, fs), prefix) == Some(Strip(xs[|xs| - 1]))
  {
    var text := Message(prefix, xs, fs);
    assert text[0..] == text;
    FindAllMessageLast(text, prefix, xs, fs, 0);
    LastFoundIsCommand(text, prefix, |xs|, xs[|xs| - 1]);
  }

  /** A message that is one directive `[prefix:x]` yields `x`, stripped. */
  lemma OnlyDirective(prefix: string, x: string)
    requires PlainValue(x)
    ensures GetCommand(Directive(prefix, x), prefix) == Some(Strip(x))
  {
    var text := Directive(prefix, x);
    assert StartsAt(text, 0, text);
    ScanAtDirective(text, prefix, x, 0, |text|);
    DirectiveGroup(text, prefix, x, 0, |text|);
  }

  /** A message that is only filler holds no directive. */
  lemma FillerNoCommand(text: string, prefix: string)
    requires Filler(text)
    ensures GetCommand(text, prefix) == None
  {
    assert text[0..|text|] == text;
    FillerSkip(text, prefix, 0, |text|);
  }

  /** A text in which `[prefix:` never occurs holds no directive for that prefix. */
  lemma NoOpenerNoCommand(text: string, prefix: string)
    requires !Occurs(text, Opener(prefix))
    ensures GetCommand(text, prefix) == None
  {
    GetCommandNoneIff(text, prefix);
  }

  /** Wherever the opener `[prefix:` occurs, the first character of `prefix` occurs too. */
  lemma OpenerHasPrefixChar(text: string, prefix: string)
    requires prefix != []
    ensures Occurs(text, Opener(prefix)) ==> prefix[0] in text
  {
    var o := Opener(prefix);
    if Occurs(text, o) {
      var i: nat :| StartsAt(text, i, o);
      assert text[i..i + |o|][1] == o[1];
      assert text[i + 1] == prefix[0];
    }
  }

  /**
    A text that lacks the first character of `prefix` holds no directive for it: the
    opener `[prefix:` cannot occur there.
   */
  lemma MissingPrefixCharNoCommand(text: string, prefix: string)
    requires prefix != [] && prefix[0] !in text
    ensures GetCommand(text, prefix) == None
  {
    OpenerHasPrefixChar(text, prefix);
    NoOpenerNoCommand(text, prefix);
  }
}
