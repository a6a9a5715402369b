/**
  The release handler on concrete pushes, derived from the general lemmas of module
  `Release`.
 */
module ReleaseExamples {
  import opened Optional
  import opened PyStr
  import opened Command
  import opened Release

  /**
    With the default branch `master`, `refs/heads/master` ends with its name and
    `refs/heads/issue-42` does not; so does `refs/heads/remaster`, another branch.
   */
  lemma BranchExamples()
    ensures EndsWith("refs/heads/master", "master")
    ensures !EndsWith("refs/heads/issue-42", "master")
    ensures EndsWith("refs/heads/remaster", "master")
  {
  }

  /** A commit whose message is the one directive `[release:x]` carries `x`, stripped. */
  lemma CommitOfDirective(x: string, message: string)
    requires PlainValue(x) && message == Directive(ReleasePrefix, x)
    ensures CommitDirective(Commit(message)) == Some(Strip(x))
  {
    OnlyDirective(ReleasePrefix, x);
  }

  /** `[release:command1]` written out; `command1` is delimited exactly and already stripped. */
  lemma Command1Facts()
    ensures PlainValue("command1") && Strip("command1") == "command1"
    ensures Directive(ReleasePrefix, "command1") == "[release:command1]"
  {
    StripClean("command1");
  }

  /** `[release:command2]` written out; `command2` is delimited exactly and already stripped. */
  lemma Command2Facts()
    ensures PlainValue("command2") && Strip("command2") == "command2"
    ensures Directive(ReleasePrefix, "command2") == "[release:command2]"
  {
    StripClean("command2");
  }

  /** `[release: ]` written out; its value is a single space, which strips to nothing. */
  lemma BlankFacts()
    ensures PlainValue(" ") && Strip(" ") == ""
    ensures Directive(ReleasePrefix, " ") == "[release: ]"
  {
  }

  /** The commit `[release:command1]` carries `command1`. */
  lemma Command1Commit()
    ensures CommitDirective(Commit("[release:command1]")) == Some("command1")
  {
    Command1Facts();
    CommitOfDirective("command1", "[release:command1]");
  }

  /** The commit `[release:command2]` carries `command2`. */
  lemma Command2Commit()
    ensures CommitDirective(Commit("[release:command2]")) == Some("command2")
  {
    Command2Facts();
    CommitOfDirective("command2", "[release:command2]");
  }

  /** The commit `[release: ]` carries the empty directive. */
  lemma BlankCommit()
    ensures CommitDirective(Commit("[release: ]")) == Some("")
  {
    BlankFacts();
    CommitOfDirective(" ", "[release: ]");
  }

  /** The commit `fix typo` carries no directive: it has no `r`. */
  lemma FixTypoNone()
    ensures CommitDirective(Commit("fix typo")) == None
  {
    MissingPrefixCharNoCommand("fix typo", "release");
  }

  /** Across commits the first directive wins: `[release:command1]` then `[release:command2]` releases `command1`. */
  lemma FirstCommitWins()
    ensures EffectiveDirective([Commit("[release:command1]"), Commit("[release:command2]")]) == Some("command1")
  {
    EffectiveOfTwo(Commit("[release:command1]"), Commit("[release:command2]"));
    Command1Commit();
  }

  /** A commit without a directive does not hide a later one. */
  lemma LaterCommitFills()
    ensures EffectiveDirective([Commit("fix typo"), Commit("[release:command2]")]) == Some("command2")
  {
    EffectiveOfTwo(Commit("fix typo"), Commit("[release:command2]"));
    FixTypoNone();
    Command2Commit();
  }

  /** A blank directive `[release: ]` in the last commit gives the empty directive, which still proceeds. */
  lemma BlankDirectiveLast()
    ensures EffectiveDirective([Commit("[release: ]")]) == Some("")
  {
    BlankCommit();
  }

  /**
    A lone blank directive on a ref that does not end with the default branch's name
    writes, whenever the base content declares a version: the found version is never
    empty, so `""` differs from it, and the commit message is `Release `.
   */
  lemma BlankDirectiveWrites(event: PushEvent, repo: Repository)
    requires event.commits == [Commit("[release: ]")]
    requires !EndsWith(event.ref, repo.defaultBranch) && FindVersion(repo.baseContent).Some?
    ensures Handle(event, repo).outcome.Updated?
    ensures Handle(event, repo).outcome.update.message == "Release "
  {
    BlankDirectiveLast();
    FindVersionShape(repo.baseContent);
    HandleWritesIffDiffers(event, repo);
    HandleWrite(event, repo);
  }

  /**
    With the default branch `master`, a directive pushed to `refs/heads/remaster` is
    skipped like one pushed to `refs/heads/master`: nothing is read or written.
   */
  lemma RemasterSkipped(after: string, repo: Repository)
    requires repo.defaultBranch == "master"
    ensures Handle(PushEvent("refs/heads/remaster", after, [Commit("[release:command1]")]), repo)
      == Run([], DefaultBranch)
  {
    var event := PushEvent("refs/heads/remaster", after, [Commit("[release:command1]")]);
    Command1Commit();
    assert EffectiveDirective(event.commits) == Some("command1");
    BranchExamples();
    HandleNothingToDo(event, repo);
  }

  /** A blank directive followed by a commit without one gives no directive at all. */
  lemma BlankDirectiveThenNone()
    ensures EffectiveDirective([Commit("[release: ]"), Commit("fix typo")]) == None
  {
    EffectiveOfTwo(Commit("[release: ]"), Commit("fix typo"));
    BlankCommit();
    FixTypoNone();
  }

  /** The declaration `__version__ = "0.1"` written out. */
  lemma VersionLine01()
    ensures VersionLine("0.1") == "__version__ = \"0.1\""
  {
  }

  /** The declaration `__version__ = "0.2"` written out. */
  lemma VersionLine02()
    ensures VersionLine("0.2") == "__version__ = \"0.2\""
  {
  }

  /** In `__version__ = "v1.0"` the version starts only where it is declared: the `v` of `__version__` is followed by `e`. */
  lemma VPrefixedApart()
    ensures OpenerApart("v1.0")
  {
    var v := "v1.0";
    var line := VersionLine(v);
    VPrefixedFacts();
    forall i | 0 <= i < |VersionOpener| ensures !StartsAt(line, i, v) {
      if i + |v| <= |line| {
        assert line[i..i + |v|][0] == line[i] && line[i..i + |v|][1] == line[i + 1];
      }
    }
  }

  /** `__version__ = "0.1"` released as `0.2` becomes `__version__ = "0.2"`. */
  lemma BumpExample()
    ensures FindVersion("__version__ = \"0.1\"") == Some("0.1")
    ensures ReplaceAll("__version__ = \"0.1\"", "0.1", "0.2") == "__version__ = \"0.2\""
  {
    OpenerApartByFirst("0.1");
    VersionBump("0.1", "0.2");
    VersionLine01();
    VersionLine02();
  }

  /** A version beginning with `v`, a character of `__version__`, is bumped as well. */
  lemma VPrefixedBump()
    ensures ReplaceAll("__version__ = \"v1.0\"", "v1.0", "2.0") == "__version__ = \"2.0\""
  {
    VPrefixedApart();
    VPrefixedFacts();
    ReplaceVersionLine("v1.0", "2.0");
  }

  /** `__version__ = "v1.0"` and `__version__ = "2.0"` written out; `v1.0` is a plain version. */
  lemma VPrefixedFacts()
    ensures PlainVersion("v1.0")
    ensures VersionLine("v1.0") == "__version__ = \"v1.0\""
    ensures VersionLine("2.0") == "__version__ = \"2.0\""
  {
  }
}
