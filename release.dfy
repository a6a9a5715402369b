/**
  The push-event handler `release` of app/app.py. A push carries commits; the first
  commit whose message holds a non-empty `[release:...]` directive fixes the version to
  release. When the pushed ref does not end with the name of the default branch, the
  handler reads `app/__init__.py` from the base branch of the pull request, replaces the
  version it declares by the directive, and writes the result to the pushed ref, unless
  nothing changed.

  The GitHub objects become plain values: the repository's default branch, the base
  branch of the pull request the pushed commit belongs to, the version file's content on
  that branch, and the sha of the version file on the pushed branch. The calls the handler
  makes are returned as a trace.
 */
module Release {
  import opened Optional
  import opened PyStr
  import opened LazyRegex
  import opened Command

  /** The file that declares the version. */
  const VersionFilePath: string := "app/__init__.py"

  /** The directive prefix the handler asks for: `[release:...]`. */
  const ReleasePrefix: string := "release"

  /** The literal start of the pattern `__version__ = \"(.+?)\"`. */
  const VersionOpener: string := "__version__ = \""

  datatype Commit = Commit(message: string)

  datatype PushEvent = PushEvent(ref: string, after: string, commits: seq<Commit>)

  /**
    What the handler reads from GitHub: the default branch, the base branch of the
    first pull request of the pushed commit, the version file's content on that base
    branch and the sha of the version file on the pushed branch.
   */
  datatype Repository = Repository(
    defaultBranch: string,
    pullBaseRef: string,
    baseContent: string,
    featureSha: string)

  /** The arguments of `repository.update_file`. */
  datatype FileUpdate = FileUpdate(path: string, message: string, content: string, sha: string, branch: string)

  /** A call into the GitHub API. */
  datatype ApiCall =
    | GetPullBase(sha: string)                // get_commit(sha).get_pulls()[0].base.ref
    | GetContents(path: string, ref: string)  // get_contents(path, ref=...)
    | UpdateFile(update: FileUpdate)          // update_file(...)

  /** How a call of the handler ends. */
  datatype Outcome =
    | NoDirective            // no commit carried a directive: return at once
    | DefaultBranch          // the ref ends with the default branch's name: the release-creation stub
    | VersionNotFound        // `re.search(...)` found no version: `.group` on `None` raises
    | UpToDate               // replacing the version changed nothing: no write
    | Updated(update: FileUpdate)

  /** Python truthiness of an optional string: `None` and `""` are false. */
  predicate Truthy(o: Option<string>)
  {
    o.Some? && o.value != ""
  }

  /** Python's `a or b`: `a` if it is truthy, else `b`. */
  function Or(a: Option<string>, b: Option<string>): (r: Option<string>)
  {
    if Truthy(a) then a else b
  }

  /** `get_command(commit.message, "release")`. */
  function CommitDirective(c: Commit): (r: Option<string>)
  {
    GetCommand(c.message, ReleasePrefix)
  }

  /**
    The value of `last_command` after the loop has seen `commits`: the loop folds
    `last_command = last_command or get_command(...)` over them from the left.
   */
  function EffectiveDirective(commits: seq<Commit>): (r: Option<string>)
  {
    if commits == [] then None
    else Or(EffectiveDirective(commits[..|commits| - 1]), CommitDirective(commits[|commits| - 1]))
  }

  /**
    The same value read from the front: the directive of the first commit whose
    directive is non-empty, or else whatever the last commit yields.
   */
  function FirstDirective(commits: seq<Commit>): (r: Option<string>)
  {
    if commits == [] then None
    else if |commits| == 1 || Truthy(CommitDirective(commits[0])) then CommitDirective(commits[0])
    else FirstDirective(commits[1..])
  }

  /** Reading one more commit from the back, the front-first search behaves like `or`. */
  lemma {:induction false} FirstDirectiveSnoc(commits: seq<Commit>, c: Commit)
    ensures FirstDirective(commits + [c]) == Or(FirstDirective(commits), CommitDirective(c))
    decreases |commits|
  {
    var s := commits + [c];
    if commits == [] {
      assert s == [c];
    } else if |commits| == 1 {
      assert s[0] == commits[0] && s[1..] == [c];
    } else if !Truthy(CommitDirective(commits[0])) {
      assert s[0] == commits[0] && s[1..] == commits[1..] + [c];
      FirstDirectiveSnoc(commits[1..], c);
    } else {
      assert s[0] == commits[0];
    }
  }

  /** The loop's left fold and the front-first search agree on every commit sequence. */
  lemma {:induction false} EffectiveIsFirst(commits: seq<Commit>)
    ensures EffectiveDirective(commits) == FirstDirective(commits)
    decreases |commits|
  {
    if commits != [] {
      var init := commits[..|commits| - 1];
      var last := commits[|commits| - 1];
      assert init + [last] == commits;
      EffectiveLast(commits);
      EffectiveIsFirst(init);
      FirstDirectiveSnoc(init, last);
    }
  }

  /**
    The first commit, in order, whose directive is non-empty decides the release:
    when commit `i` has one and no commit before it has, the effective directive is
    commit `i`'s.
   */
  lemma {:induction false} FirstNonEmptyWins(commits: seq<Commit>, i: nat)
    requires i < |commits| && Truthy(CommitDirective(commits[i]))
    requires forall j :: 0 <= j < i ==> !Truthy(CommitDirective(commits[j]))
    ensures EffectiveDirective(commits) == CommitDirective(commits[i])
  {
    EffectiveIsFirst(commits);
    FrontSearchFinds(commits, i);
  }

  /** The front-first search stops at the first commit with a non-empty directive. */
  lemma {:induction false} FrontSearchFinds(commits: seq<Commit>, i: nat)
    requires i < |commits| && Truthy(CommitDirective(commits[i]))
    requires forall j :: 0 <= j < i ==> !Truthy(CommitDirective(commits[j]))
    ensures FirstDirective(commits) == CommitDirective(commits[i])
    decreases i
  {
    if i > 0 {
      var rest := commits[1..];
      assert |commits| > 1 && !Truthy(CommitDirective(commits[0]));
      assert FirstDirective(commits) == FirstDirective(rest);
      assert rest[i - 1] == commits[i];
      forall j | 0 <= j < i - 1 ensures !Truthy(CommitDirective(rest[j])) {
        assert rest[j] == commits[j + 1];
      }
      FrontSearchFinds(rest, i - 1);
    }
  }

  /**
    When no commit has a non-empty directive, the effective directive is what the last
    commit yields: `None`, or `""` for a blank `[release: ]`.
   */
  lemma {:induction false} NoNonEmptyTakesLast(commits: seq<Commit>)
    requires commits != []
    requires forall j :: 0 <= j < |commits| ==> !Truthy(CommitDirective(commits[j]))
    ensures EffectiveDirective(commits) == CommitDirective(commits[|commits| - 1])
  {
    var init := commits[..|commits| - 1];
    if init != [] {
      forall j | 0 <= j < |init| ensures !Truthy(CommitDirective(init[j])) {
        assert init[j] == commits[j];
      }
      NoNonEmptyTakesLast(init);
    }
  }

  /** The loop's last turn: the effective directive of the commits but the last, `or` the last one's. */
  lemma EffectiveLast(commits: seq<Commit>)
    requires commits != []
    ensures EffectiveDirective(commits)
      == Or(EffectiveDirective(commits[..|commits| - 1]), CommitDirective(commits[|commits| - 1]))
  {
  }

  /** Two commits: the first one's directive `or` the second one's. */
  lemma EffectiveOfTwo(a: Commit, b: Commit)
    ensures EffectiveDirective([a, b]) == Or(CommitDirective(a), CommitDirective(b))
  {
    var both := [a, b];
    assert both[..1] == [a];
    EffectiveLast(both);
    assert [a][..0] == [];
    EffectiveLast([a]);
    assert EffectiveDirective([a]) == Or(None, CommitDirective(a));
  }

  /** Once some commit has fixed a non-empty directive, later commits never override it. */
  lemma {:induction false} LaterNeverOverride(seen: seq<Commit>, later: seq<Commit>)
    requires Truthy(EffectiveDirective(seen))
    ensures EffectiveDirective(seen + later) == EffectiveDirective(seen)
    decreases |later|
  {
    if later == [] {
      assert seen + later == seen;
    } else {
      var init := later[..|later| - 1];
      LaterNeverOverride(seen, init);
      var all := seen + later;
      assert all[..|all| - 1] == seen + init;
      EffectiveLast(all);
    }
  }

  /** Commit `i` has a non-empty directive: `f` is the first commit, at or before `i`, that has one. */
  lemma {:induction false} FirstTruthy(commits: seq<Commit>, i: nat) returns (f: nat)
    requires i < |commits| && Truthy(CommitDirective(commits[i]))
    ensures f <= i && Truthy(CommitDirective(commits[f]))
    ensures forall j :: 0 <= j < f ==> !Truthy(CommitDirective(commits[j]))
    decreases i
  {
    if exists j :: 0 <= j < i && Truthy(CommitDirective(commits[j])) {
      var j :| 0 <= j < i && Truthy(CommitDirective(commits[j]));
      f := FirstTruthy(commits, j);
    } else {
      f := i;
    }
  }

  /** The effective directive is non-empty exactly when some commit's directive is. */
  lemma EffectiveTruthyIff(commits: seq<Commit>)
    ensures Truthy(EffectiveDirective(commits))
      <==> exists i :: 0 <= i < |commits| && Truthy(CommitDirective(commits[i]))
  {
    if exists i :: 0 <= i < |commits| && Truthy(CommitDirective(commits[i])) {
      var i :| 0 <= i < |commits| && Truthy(CommitDirective(commits[i]));
      i := FirstTruthy(commits, i);
      FirstNonEmptyWins(commits, i);
    } else if commits != [] {
      NoNonEmptyTakesLast(commits);
    }
  }

  /**
    `re.search(r"__version__ = \"(.+?)\"", content).group(1)`: the version the content
    declares first, or `None` when it declares none.
   */
  function FindVersion(content: string): (r: Option<string>)
  {
    match Search(content, VersionOpener, '"', 0)
    case None => None
    case Some(f) => Some(Group(content, VersionOpener, f))
  }

  /**
    A version found in the content is non-empty, free of newlines, has no double quote
    after its first character (the lazy `.+?` takes one character before it looks for
    the closing `"`), and occurs in the content.
   */
  lemma FindVersionShape(content: string)
    ensures FindVersion(content).Some? ==>
      var v := FindVersion(content).value;
      && |v| > 0
      && Occurs(content, v)
      && (forall t :: 0 <= t < |v| ==> v[t] != '\n')
      && (forall t :: 0 < t < |v| ==> v[t] != '"')
  {
    match Search(content, VersionOpener, '"', 0)
    case None =>
    case Some(f) =>
      var j := f.start + |VersionOpener|;
      var v := Group(content, VersionOpener, f);
      assert StartsAt(content, j, v);
      forall t | 0 <= t < |v| ensures v[t] == content[j + t] {
      }
  }

  /** No version is found exactly when `__version__ = "X"` (non-empty `X`, one line) occurs nowhere. */
  lemma FindVersionNoneIff(content: string)
    ensures FindVersion(content).None? <==>
      forall i: nat, k :: !IsMatch(content, VersionOpener, '"', i, k)
  {
  }

  /**
    With a version found, the replaced content differs from the base content exactly
    when the directive differs from that version.
   */
  lemma WriteIffDirectiveDiffers(content: string, directive: string)
    requires FindVersion(content).Some?
    ensures ReplaceAll(content, FindVersion(content).value, directive) != content
      <==> directive != FindVersion(content).value
  {
    FindVersionShape(content);
    ReplaceAllChanges(content, FindVersion(content).value, directive);
  }

  /** The calls made before the version is looked up: the pull request's base, then its version file. */
  function BaseReads(event: PushEvent, repo: Repository): (calls: seq<ApiCall>)
  {
    [GetPullBase(event.after), GetContents(VersionFilePath, repo.pullBaseRef)]
  }

  /** The calls made before the write: the base reads, then the version file on the pushed branch. */
  function AllReads(event: PushEvent, repo: Repository): (calls: seq<ApiCall>)
  {
    BaseReads(event, repo) + [GetContents(VersionFilePath, event.ref)]
  }

  /** The call of `update_file` that sets the version to `directive`. */
  function ReleaseUpdate(event: PushEvent, repo: Repository, directive: string, version: string): (u: FileUpdate)
  {
    FileUpdate(VersionFilePath, "Release " + directive,
      ReplaceAll(repo.baseContent, version, directive), repo.featureSha, event.ref)
  }

  /** A run of the handler: the calls it makes, in order, and how it ends. */
  datatype Run = Run(calls: seq<ApiCall>, outcome: Outcome)

  /** What `release(event)` does once the loop has fixed `directive`, as a value. */
  function Decide(event: PushEvent, repo: Repository, directive: Option<string>): (run: Run)
  {
    if directive.None? then Run([], NoDirective)
    else if EndsWith(event.ref, repo.defaultBranch) then Run([], DefaultBranch)
    else match FindVersion(repo.baseContent)
      case None => Run(BaseReads(event, repo), VersionNotFound)
      case Some(version) =>
        var update := ReleaseUpdate(event, repo, directive.value, version);
        if update.content != repo.baseContent then
          Run(AllReads(event, repo) + [UpdateFile(update)], Updated(update))
        else Run(AllReads(event, repo), UpToDate)
  }

  /** What `release(event)` does, as a value. */
  function Handle(event: PushEvent, repo: Repository): (run: Run)
  {
    Decide(event, repo, EffectiveDirective(event.commits))
  }

  /** The value of `last_command` after one more turn of the loop. */
  lemma EffectiveStep(commits: seq<Commit>, n: nat)
    requires n < |commits|
    ensures EffectiveDirective(commits[..n + 1])
      == Or(EffectiveDirective(commits[..n]), CommitDirective(commits[n]))
  {
    assert commits[..n + 1][..n] == commits[..n];
    assert commits[..n + 1][n] == commits[n];
  }

  /**
    The body of `release(event)`: the loop over the commits, the early returns, the
    version lookup, the replacement and the write. It makes the calls and ends the way
    `Handle` describes; the lemmas below say what that means.
   */
  method Release(event: PushEvent, repo: Repository) returns (calls: seq<ApiCall>, outcome: Outcome)
    ensures Run(calls, outcome) == Handle(event, repo)
  {
    var commits := event.commits;
    var lastCommand: Option<string> := None;
    for n := 0 to |commits|
      invariant lastCommand == EffectiveDirective(commits[..n])
    {
      EffectiveStep(commits, n);
      lastCommand := Or(lastCommand, CommitDirective(commits[n]));
    }
    assert commits[..|commits|] == commits;
    if lastCommand.None? {
      return [], NoDirective;
    }
    if EndsWith(event.ref, repo.defaultBranch) {
      return [], DefaultBranch;
    }
    calls := [GetPullBase(event.after), GetContents(VersionFilePath, repo.pullBaseRef)];
    var originalContent := repo.baseContent;
    var currentVersion := FindVersion(originalContent);
    if currentVersion.None? {
      return calls, VersionNotFound;
    }
    calls := calls + [GetContents(VersionFilePath, event.ref)];
    var newContent := ReplaceAll(originalContent, currentVersion.value, lastCommand.value);
    if newContent != originalContent {
      var update := FileUpdate(VersionFilePath, "Release " + lastCommand.value, newContent,
        repo.featureSha, event.ref);
      calls := calls + [UpdateFile(update)];
      outcome := Updated(update);
    } else {
      outcome := UpToDate;
    }
  }

  /**
    Without a directive nothing is read or written, and neither is anything when the
    pushed ref ends with the default branch's name (so `refs/heads/remaster` is skipped
    like `refs/heads/master` when the default branch is `master`).
   */
  lemma HandleNothingToDo(event: PushEvent, repo: Repository)
    ensures EffectiveDirective(event.commits).None? ==> Handle(event, repo) == Run([], NoDirective)
    ensures EffectiveDirective(event.commits).Some? && EndsWith(event.ref, repo.defaultBranch) ==>
      Handle(event, repo) == Run([], DefaultBranch)
  {
  }

  /**
    For any other ref the base branch's version file is read first; without a declared
    version the handler fails right after, before it reads anything else.
   */
  lemma HandleVersionNotFound(event: PushEvent, repo: Repository)
    ensures EffectiveDirective(event.commits).Some? && !EndsWith(event.ref, repo.defaultBranch) ==>
      |Handle(event, repo).calls| >= 2 && Handle(event, repo).calls[..2] == BaseReads(event, repo)
    ensures Handle(event, repo).outcome == VersionNotFound <==>
      && EffectiveDirective(event.commits).Some?
      && !EndsWith(event.ref, repo.defaultBranch)
      && FindVersion(repo.baseContent).None?
    ensures Handle(event, repo).outcome == VersionNotFound ==>
      Handle(event, repo).calls == BaseReads(event, repo)
  {
    var r := Handle(event, repo);
    if EffectiveDirective(event.commits).Some? && !EndsWith(event.ref, repo.defaultBranch)
      && FindVersion(repo.baseContent).Some?
    {
      assert r.calls[..2] == BaseReads(event, repo);
    }
  }

  /** A write happens exactly when the directive differs from the version the base content declares. */
  lemma HandleWritesIffDiffers(event: PushEvent, repo: Repository)
    ensures Handle(event, repo).outcome.Updated? <==>
      && EffectiveDirective(event.commits).Some?
      && !EndsWith(event.ref, repo.defaultBranch)
      && FindVersion(repo.baseContent).Some?
      && EffectiveDirective(event.commits).value != FindVersion(repo.baseContent).value
  {
    if FindVersion(repo.baseContent).Some? && EffectiveDirective(event.commits).Some? {
      WriteIffDirectiveDiffers(repo.baseContent, EffectiveDirective(event.commits).value);
    }
  }

  /**
    The write: `app/__init__.py` on the pushed branch, with message `Release <directive>`,
    the base content with every occurrence of the version replaced by the directive
    (which differs from the base content), and the pushed file's sha; it comes after the
    three reads.
   */
  lemma HandleWrite(event: PushEvent, repo: Repository)
    requires Handle(event, repo).outcome.Updated?
    ensures var d := EffectiveDirective(event.commits).value;
      var v := FindVersion(repo.baseContent).value;
      var u := Handle(event, repo).outcome.update;
      && u.path == VersionFilePath
      && u.message == "Release " + d
      && u.content == ReplaceAll(repo.baseContent, v, d)
      && u.content != repo.baseContent
      && u.sha == repo.featureSha
      && u.branch == event.ref
      && Handle(event, repo).calls == AllReads(event, repo) + [UpdateFile(u)]
  {
    var d := EffectiveDirective(event.commits);
    assert d.Some? && !EndsWith(event.ref, repo.defaultBranch);
    var v := FindVersion(repo.baseContent);
    assert v.Some?;
    var u := ReleaseUpdate(event, repo, d.value, v.value);
    assert Handle(event, repo) == Run(AllReads(event, repo) + [UpdateFile(u)], Updated(u));
  }

  /** Without a write, the replacement left the base content as it was, after the three reads. */
  lemma HandleUpToDate(event: PushEvent, repo: Repository)
    requires Handle(event, repo).outcome == UpToDate
    ensures ReplaceAll(repo.baseContent, FindVersion(repo.baseContent).value,
      EffectiveDirective(event.commits).value) == repo.baseContent
    ensures Handle(event, repo).calls == AllReads(event, repo)
  {
  }

  /** Every write in `calls` is its last call, and it is the write `outcome` reports. */
  predicate WritesLast(calls: seq<ApiCall>, outcome: Outcome)
  {
    forall t :: 0 <= t < |calls| && calls[t].UpdateFile? ==>
      t == |calls| - 1 && outcome.Updated? && calls[t].update == outcome.update
  }

  /** The traces the handler can leave: nothing, the base reads, all reads, or all reads and the write. */
  lemma HandleTraces(event: PushEvent, repo: Repository)
    ensures var r := Handle(event, repo);
      || (r.calls == [] && !r.outcome.Updated?)
      || (r.calls == BaseReads(event, repo) && !r.outcome.Updated?)
      || (r.calls == AllReads(event, repo) && !r.outcome.Updated?)
      || (r.outcome.Updated? && r.calls == AllReads(event, repo) + [UpdateFile(r.outcome.update)])
  {
  }

  /** Three reads and then the write: the write is last. */
  lemma WriteAfterReads(a: ApiCall, b: ApiCall, c: ApiCall, update: FileUpdate)
    requires !a.UpdateFile? && !b.UpdateFile? && !c.UpdateFile?
    ensures WritesLast([a, b, c, UpdateFile(update)], Updated(update))
  {
  }

  /** The handler writes at most once, as its last call. */
  lemma HandleWritesLast(event: PushEvent, repo: Repository)
    ensures WritesLast(Handle(event, repo).calls, Handle(event, repo).outcome)
  {
    var r := Handle(event, repo);
    HandleTraces(event, repo);
    var base := [GetPullBase(event.after), GetContents(VersionFilePath, repo.pullBaseRef)];
    var all := base + [GetContents(VersionFilePath, event.ref)];
    assert BaseReads(event, repo) == base && AllReads(event, repo) == all;
    if r.outcome.Updated? {
      WriteAfterReads(all[0], all[1], all[2], r.outcome.update);
      assert r.calls == [all[0], all[1], all[2], UpdateFile(r.outcome.update)];
    } else {
      assert forall t :: 0 <= t < |all| ==> !all[t].UpdateFile?;
      assert forall t :: 0 <= t < |base| ==> !base[t].UpdateFile?;
    }
  }

  /** A version `__version__ = "X"` captures exactly: non-empty, no double quote, no newline. */
  predicate PlainVersion(v: string)
  {
    |v| > 0 && forall t :: 0 <= t < |v| ==> v[t] != '"' && v[t] != '\n'
  }

  /** The version file reduced to its declaration: `__version__ = "v"`. */
  function VersionLine(v: string): (line: string)
    ensures |line| == |VersionOpener| + |v| + 1
  {
    VersionOpener + v + "\""
  }

  /** The declaration `__version__ = "v"` declares `v`. */
  lemma FindVersionLine(v: string)
    requires PlainVersion(v)
    ensures FindVersion(VersionLine(v)) == Some(v)
  {
    var line := VersionLine(v);
    var o := VersionOpener;
    var k := |o| + |v|;
    assert line[..|o|] == o;
    forall m | |o| <= m < k ensures line[m] == v[m - |o|] {
    }
    assert IsMatch(line, o, '"', 0, k);
    MatchUnique(line, o, '"', 0, k, MatchAt(line, o, '"', 0).value);
    assert line[|o|..k] == v;
  }

  /**
    No occurrence of `v` starts inside the opener of `__version__ = "v"`, so that
    `str.replace` leaves `__version__ = "` alone.
   */
  predicate OpenerApart(v: string)
  {
    forall i :: 0 <= i < |VersionOpener| ==> !StartsAt(VersionLine(v), i, v)
  }

  /** A version that does not begin with a character of `__version__ = "` (a digit, say) is apart from the opener. */
  lemma OpenerApartByFirst(v: string)
    requires |v| > 0 && v[0] !in VersionOpener
    ensures OpenerApart(v)
  {
    var line := VersionLine(v);
    var o := VersionOpener;
    assert line[..|o|] == o;
    forall i | 0 <= i < |o| ensures !StartsAt(line, i, v) {
      assert line[i] == o[i];
      if i + |v| <= |line| {
        assert line[i..i + |v|][0] == line[i];
      }
    }
  }

  /** Releasing `d` over `v"` gives `d"`. */
  lemma ReplaceClosing(v: string, d: string)
    requires PlainVersion(v)
    ensures ReplaceAll(v + "\"", v, d) == d + "\""
  {
    var tail := v + "\"";
    assert tail[..|v|] == v && tail[|v|..] == "\"";
    assert !StartsAt("\"", 0, v) by {
      if |v| <= 1 {
        assert v[0] != '"';
      }
    }
    assert ReplaceAll("\"", v, d) == "\"";
  }

  /**
    Releasing `d` over the declaration `__version__ = "v"` yields `__version__ = "d"`,
    when no occurrence of `v` starts inside `__version__ = "`.
   */
  lemma ReplaceVersionLine(v: string, d: string)
    requires PlainVersion(v) && OpenerApart(v)
    ensures ReplaceAll(VersionLine(v), v, d) == VersionLine(d)
  {
    var o := VersionOpener;
    var line := VersionLine(v);
    assert line == o + (v + "\"");
    assert line[..|o|] == o;
    assert line[|o|..] == v + "\"";
    ReplaceAllCopiesPrefix(line, v, d, |o|);
    ReplaceClosing(v, d);
    assert VersionLine(d) == o + (d + "\"");
  }

  /**
    The whole bump on a version file that is just `__version__ = "v"`: the version is
    found, and the content written declares the directive instead.
   */
  lemma VersionBump(v: string, d: string)
    requires PlainVersion(v) && OpenerApart(v)
    ensures FindVersion(VersionLine(v)) == Some(v)
    ensures ReplaceAll(VersionLine(v), v, d) == VersionLine(d)
    ensures PlainVersion(d) ==> FindVersion(ReplaceAll(VersionLine(v), v, d)) == Some(d)
  {
    FindVersionLine(v);
    ReplaceVersionLine(v, d);
    if PlainVersion(d) {
      FindVersionLine(d);
    }
  }
}
