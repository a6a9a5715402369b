/**
  The behaviour of `get_command` on the inputs its unit tests use
  (tests/test_app.py), and on a message with text around its directives, derived
  from the general lemmas of module `Command`.
 */
module CommandExamples {
  import opened Optional
  import opened PyStr
  import opened Command

  /** The directive `[release:command]` written out. */
  lemma SingleText()
    ensures Directive("release", "command") == "[release:command]"
  {
  }

  /** `command` is delimited exactly by its directive, and stripping leaves it as it is. */
  lemma SingleValues()
    ensures PlainValue("command") && Strip("command") == "command"
  {
    StripClean("command");
  }

  /** `get_command("[release:command]", "release")` is `"command"`. */
  lemma GetCommandSingle()
    ensures GetCommand("[release:command]", "release") == Some("command")
  {
    SingleValues();
    OnlyDirective("release", "command");
    SingleText();
  }

  /** `get_command("[release:command]", "prefix")` is `None`. */
  lemma GetCommandOtherPrefix()
    ensures GetCommand("[release:command]", "prefix") == None
  {
    MissingPrefixCharNoCommand("[release:command]", "prefix");
  }

  /** Two directives back to back are a message with empty fillers. */
  lemma TwoAsMessage(prefix: string, a: string, b: string)
    ensures Message(prefix, [a, b], ["", "", ""]) == Directive(prefix, a) + Directive(prefix, b)
  {
    var xs := [a, b];
    var fs := ["", "", ""];
    var da := Directive(prefix, a);
    var db := Directive(prefix, b);
    assert xs[1..] == [b] && fs[1..] == ["", ""];
    assert [b][1..] == [] && ["", ""][1..] == [""];
    assert Message(prefix, [], [""]) == "";
    assert Message(prefix, [b], ["", ""]) == "" + db + "";
    assert Message(prefix, xs, fs) == "" + da + Message(prefix, [b], ["", ""]);
    assert "" + db + "" == db;
    assert "" + da + db == da + db;
  }

  /** Two plain values with empty fillers are well formed. */
  lemma TwoWellFormed(a: string, b: string)
    requires PlainValue(a) && PlainValue(b)
    ensures WellFormed([a, b], ["", "", ""])
  {
  }

  /** Two directives back to back: the second one is returned, stripped. */
  lemma LastOfTwo(prefix: string, a: string, b: string)
    requires PlainValue(a) && PlainValue(b)
    ensures GetCommand(Directive(prefix, a) + Directive(prefix, b), prefix) == Some(Strip(b))
  {
    TwoAsMessage(prefix, a, b);
    TwoWellFormed(a, b);
    LastDirectiveWins(prefix, [a, b], ["", "", ""]);
  }

  /** The directives `[release:command1][release:command2]` written out. */
  lemma MultipleText()
    ensures Directive("release", "command1") + Directive("release", "command2")
      == "[release:command1][release:command2]"
  {
  }

  /** Both values are delimited exactly by their directives, and stripping leaves the second as it is. */
  lemma MultipleValues()
    ensures PlainValue("command1") && PlainValue("command2")
    ensures Strip("command2") == "command2"
  {
    StripClean("command2");
  }

  /** `get_command("[release:command1][release:command2]", "release")` is `"command2"`. */
  lemma GetCommandMultiple()
    ensures GetCommand("[release:command1][release:command2]", "release") == Some("command2")
  {
    MultipleValues();
    LastOfTwo("release", "command1", "command2");
    MultipleText();
  }

  /** The message `Bump`, a newline, `[release:1.0] then [release:2.0]`, as fillers and directives. */
  lemma AmidText()
    ensures Message("release", ["1.0", "2.0"], ["Bump\n", " then ", ""])
      == "Bump\n[release:1.0] then [release:2.0]"
  {
  }

  /** Its values are delimited exactly, its fillers hold no `[`, and `2.0` is stripped already. */
  lemma AmidValues()
    ensures WellFormed(["1.0", "2.0"], ["Bump\n", " then ", ""])
    ensures Strip("2.0") == "2.0"
  {
    StripClean("2.0");
  }

  /** Text around and between the directives does not matter: the last one wins. */
  lemma GetCommandAmidText()
    ensures GetCommand("Bump\n[release:1.0] then [release:2.0]", "release") == Some("2.0")
  {
    AmidValues();
    LastDirectiveWins("release", ["1.0", "2.0"], ["Bump\n", " then ", ""]);
    AmidText();
  }
}
