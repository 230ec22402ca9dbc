/**
  The expectations of the module's test suite, as facts about the model:
  the suite's identities match a mask when it equals their nick, its only
  administrator is "admin", its channel test is "starts with #", and the
  capabilities module is not loaded.
 */
module Scenarios {
  import opened PhpText
  import opened Types
  import opened Directory
  import opened Commands

  function IsHashChannel(s: string): bool
  {
    |s| >= 1 && s[0] == '#'
  }

  function SuiteIdentity(nick: string): Identity
  {
    Identity(nick, mask => mask == nick)
  }

  /** Only "admin" passes the gate; "foo", the other sender of the suite, does not. */
  lemma SuiteGate()
    ensures Authorized(["admin"], SuiteIdentity("admin"))
    ensures !Authorized(["admin"], SuiteIdentity("foo"))
  {
    assert SuiteIdentity("admin").matches(["admin"][0]);
  }

  /*
    Each request text below is a parameter pinned by its requires: stated
    on the literal itself, the verifier would try to evaluate the word
    splitting of the literal character by character.
   */

  /** "!part" leaves the current channel with no message. */
  lemma SuitePartBare(text: string)
    requires text == "!part"
    ensures PartLine(ParsePart(text, "#test", IsHashChannel)) == "PART #test :"
  {
    PartBare("!part", "#test", IsHashChannel);
    SuitePartLines();
  }

  /** "!part Part message" leaves the current channel with that message. */
  lemma SuitePartCurrent(text: string)
    requires text == "!part Part message"
    ensures PartLine(ParsePart(text, "#test", IsHashChannel)) == "PART #test :Part message"
  {
    assert ParsePart(text, "#test", IsHashChannel) == PartRequest("#test", "Part message") by {
      assert "!part" + " " + "Part" == "!part Part";
      assert "!part Part" + " " + "message" == text;
      PartCurrentWithMessage("!part", "Part", "message", "#test", IsHashChannel);
    }
    SuitePartLines();
  }

  /** "!part #test" leaves #test with no message. */
  lemma SuitePartNamed(text: string)
    requires text == "!part #test"
    ensures PartLine(ParsePart(text, "#test", IsHashChannel)) == "PART #test :"
  {
    assert "!part" + " " + "#test" == text;
    assert FirstChar("#test") == "#";
    PartNamedChannel("!part", "#test", "", "#test", IsHashChannel);
    SuitePartLines();
  }

  /** "!part #test Part message" leaves #test with that message. */
  lemma SuitePartNamedMessage(text: string)
    requires text == "!part #test Part message"
    ensures PartLine(ParsePart(text, "#test", IsHashChannel)) == "PART #test :Part message"
  {
    assert ParsePart(text, "#test", IsHashChannel) == PartRequest("#test", "Part message") by {
      assert "!part" + " " + "#test" == "!part #test";
      assert "!part #test" + " " + "Part message" == text;
      PartNamedChannel("!part", "#test", "Part message", "#test", IsHashChannel);
    }
    SuitePartLines();
  }

  /** "!part *" leaves every channel with no message. */
  lemma SuitePartEverywhere(text: string)
    requires text == "!part *"
    ensures PartLine(ParsePart(text, "#test", IsHashChannel)) == "PART 0 :"
  {
    assert "!part" + " *" == text;
    PartEverywhere("!part", "", "#test", IsHashChannel);
    SuitePartLines();
  }

  /** "!part * Part message" leaves every channel with that message. */
  lemma SuitePartEverywhereMessage(text: string)
    requires text == "!part * Part message"
    ensures PartLine(ParsePart(text, "#test", IsHashChannel)) == "PART 0 :Part message"
  {
    assert "!part" + " * " + "Part message" == text;
    PartEverywhere("!part", "Part message", "#test", IsHashChannel);
    SuitePartLines();
  }

  /** The PART lines the suite expects, spelled out. */
  lemma SuitePartLines()
    ensures PartLine(PartRequest("#test", "")) == "PART #test :"
    ensures PartLine(PartRequest("#test", "Part message")) == "PART #test :Part message"
    ensures PartLine(PartRequest("0", "")) == "PART 0 :"
    ensures PartLine(PartRequest("0", "Part message")) == "PART 0 :Part message"
  {
  }

  /** The suite's quit request disconnects with its message. */
  lemma SuiteQuit()
    ensures QuitMessage("!quit Quit message") == Some("Quit message")
  {
    var message := "Quit message";
    assert "!quit" + " " + message == "!quit Quit message";
    assert !IsBlank(message[0]);
    QuitMessageOf("!quit", message);
  }

  /** The suite's join request joins verbatim. */
  lemma SuiteJoin()
    ensures JoinLine("!join #foo bar") == "JOIN #foo bar"
  {
    var arguments := "#foo bar";
    assert "!join" + " " + arguments == "!join #foo bar";
    JoinVerbatim("!join", arguments);
    assert "JOIN " + arguments == "JOIN #foo bar";
  }

  /** "!voice" voices the sender. */
  lemma SuiteVoiceSelf()
    ensures ModeEffects("#test", "admin", "!voice", ModeOf(Grant(Voice)), ProbeMissing, false)
      == [SendCommand("MODE #test +v :admin")]
  {
    ModeFanOut("!voice", [], "#test", "admin", ModeOf(Grant(Voice)), ProbeMissing, false);
    SuiteModeLines();
  }

  /** "!voice bar baz" voices bar, then baz. */
  lemma SuiteVoiceTwo(text: string)
    requires text == "!voice bar baz"
    ensures ModeEffects("#test", "admin", text, ModeOf(Grant(Voice)), ProbeMissing, false)
      == [SendCommand("MODE #test +v :bar"), SendCommand("MODE #test +v :baz")]
  {
    var nicks := ["bar", "baz"];
    assert "!voice" + " " + Implode(nicks, ' ') == text by {
      assert Implode(nicks, ' ') == "bar baz";
    }
    var e := ModeEffects("#test", "admin", text, ModeOf(Grant(Voice)), ProbeMissing, false);
    assert |e| == 2 && e[0] == SendCommand("MODE #test +v :bar") && e[1] == SendCommand("MODE #test +v :baz") by {
      ModeFanOut("!voice", nicks, "#test", "admin", ModeOf(Grant(Voice)), ProbeMissing, false);
      SuiteModeLines();
    }
  }

  /** The MODE lines the suite expects on #test, spelled out. */
  lemma SuiteModeLines()
    ensures "MODE " + "#test" + " " + ModeOf(Grant(Voice)).ToString() + " :" + "admin" == "MODE #test +v :admin"
    ensures "MODE " + "#test" + " " + ModeOf(Grant(Voice)).ToString() + " :" + "bar" == "MODE #test +v :bar"
    ensures "MODE " + "#test" + " " + ModeOf(Grant(Voice)).ToString() + " :" + "baz" == "MODE #test +v :baz"
  {
  }
}
