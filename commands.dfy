/**
  The protocol lines the admin commands build from the text of a request
  (RFC 1459 section 4.2.2 PART, 4.2.1 JOIN, 4.1.6 QUIT, 4.2.3 MODE), and the
  privilege check that comes before a MODE change. The first word of the
  text is the trigger; the words after it are the command's arguments.
 */
module Commands {
  import opened PhpText
  import opened Types

  /** Where a PART goes and with what message. */
  datatype PartRequest = PartRequest(target: string, message: string)

  /**
    handlePart's reading of a request: "*" leaves every channel (target "0"),
    a word that starts like a channel name is the channel to leave, and
    otherwise the channel the request came from is left with everything
    after the trigger as the message.
   */
  function ParsePart(text: string, chan: string, isChannel: string -> bool): (r: PartRequest)
    ensures r.target == "0" || r.target == chan || isChannel(FirstChar(r.target))
    ensures r.message == TokensFrom(Explode(text), 1) || r.message == TokensFrom(Explode(text), 2)
  {
    var words := Explode(text);
    var first := TokenRange(words, 1, 1);
    if first == "*" then PartRequest("0", TokensFrom(words, 2))
    else if isChannel(FirstChar(first)) then PartRequest(first, TokensFrom(words, 2))
    else PartRequest(chan, TokensFrom(words, 1))
  }

  function PartLine(p: PartRequest): string
  {
    "PART " + p.target + " :" + p.message
  }

  /** The words of a trigger followed by a space and some text. */
  lemma WordsAfterTrigger(trigger: string, rest: string)
    requires ' ' !in trigger
    ensures Explode(trigger + " " + rest) == [trigger] + Explode(rest)
  {
    ExplodeAppend(trigger, rest);
    ExplodeWord(trigger);
  }

  /** "trigger *" and "trigger * message" leave every channel. */
  lemma PartEverywhere(trigger: string, message: string, chan: string, isChannel: string -> bool)
    requires ' ' !in trigger
    ensures ParsePart(trigger + " *", chan, isChannel) == PartRequest("0", "")
    ensures ParsePart(trigger + " * " + message, chan, isChannel) == PartRequest("0", message)
  {
    assert ParsePart(trigger + " *", chan, isChannel) == PartRequest("0", "") by {
      WordsAfterTrigger(trigger, "*");
      ExplodeWord("*");
      assert trigger + " *" == trigger + " " + "*";
      var words := [trigger, "*"];
      assert words[1..2] == ["*"];
    }
    var text := trigger + " * " + message;
    assert ParsePart(text, chan, isChannel) == PartRequest("0", message) by {
      assert text == trigger + " " + ("*" + " " + message);
      WordsAfterTrigger(trigger, "*" + " " + message);
      ExplodeAppend("*", message);
      ExplodeWord("*");
      var words := [trigger] + (["*"] + Explode(message));
      assert Explode(text) == words;
      assert words[1..2] == ["*"] && words[2..] == Explode(message);
      ImplodeExplode(message);
    }
  }

  /** "trigger #chan" and "trigger #chan message" leave that channel. */
  lemma PartNamedChannel(trigger: string, target: string, message: string, chan: string, isChannel: string -> bool)
    requires ' ' !in trigger && ' ' !in target
    requires target != "*" && isChannel(FirstChar(target))
    ensures ParsePart(trigger + " " + target, chan, isChannel) == PartRequest(target, "")
    ensures ParsePart(trigger + " " + target + " " + message, chan, isChannel) == PartRequest(target, message)
  {
    assert ParsePart(trigger + " " + target, chan, isChannel) == PartRequest(target, "") by {
      WordsAfterTrigger(trigger, target);
      ExplodeWord(target);
      var words := [trigger, target];
      assert words[1..2] == [target];
    }
    var text := trigger + " " + target + " " + message;
    assert ParsePart(text, chan, isChannel) == PartRequest(target, message) by {
      assert text == trigger + " " + (target + " " + message);
      WordsAfterTrigger(trigger, target + " " + message);
      ExplodeAppend(target, message);
      ExplodeWord(target);
      var words := [trigger] + ([target] + Explode(message));
      assert Explode(text) == words;
      assert words[1..2] == [target] && words[2..] == Explode(message);
      ImplodeExplode(message);
    }
  }

  /** Without a channel word, the current channel is left and all the text after the trigger is the message. */
  lemma PartCurrentChannel(trigger: string, rest: string, chan: string, isChannel: string -> bool)
    requires ' ' !in trigger
    requires Explode(rest)[0] != "*" && !isChannel(FirstChar(Explode(rest)[0]))
    ensures ParsePart(trigger + " " + rest, chan, isChannel) == PartRequest(chan, rest)
  {
    WordsAfterTrigger(trigger, rest);
    var words := [trigger] + Explode(rest);
    assert words[1..2] == [Explode(rest)[0]] && words[1..] == Explode(rest);
    ImplodeExplode(rest);
  }

  /** A message whose first word is neither "*" nor a channel name is a message for the current channel, kept whole. */
  lemma PartCurrentWithMessage(trigger: string, first: string, rest: string, chan: string, isChannel: string -> bool)
    requires ' ' !in trigger && ' ' !in first
    requires first != "*" && !isChannel(FirstChar(first))
    ensures ParsePart(trigger + " " + first + " " + rest, chan, isChannel) == PartRequest(chan, first + " " + rest)
  {
    WordsAfterTrigger(first, rest);
    assert trigger + " " + first + " " + rest == trigger + " " + (first + " " + rest);
    PartCurrentChannel(trigger, first + " " + rest, chan, isChannel);
  }

  /** The trigger alone leaves the current channel with an empty message. */
  lemma PartBare(trigger: string, chan: string, isChannel: string -> bool)
    requires ' ' !in trigger && !isChannel("")
    ensures ParsePart(trigger, chan, isChannel) == PartRequest(chan, "")
  {
    ExplodeWord(trigger);
  }

  /** handleJoin's line: JOIN and the words after the trigger. */
  function JoinLine(text: string): (r: string)
    ensures |r| >= 5 && r[..5] == "JOIN "
  {
    "JOIN " + TokensFrom(Explode(text), 1)
  }

  /** The arguments of a join request reach the JOIN line verbatim. */
  lemma JoinVerbatim(trigger: string, arguments: string)
    requires ' ' !in trigger
    ensures JoinLine(trigger + " " + arguments) == "JOIN " + arguments
  {
    WordsAfterTrigger(trigger, arguments);
    assert ([trigger] + Explode(arguments))[1..] == Explode(arguments);
    ImplodeExplode(arguments);
  }

  /** handleQuit's message: the words after the trigger, or none when they are blank. */
  function QuitMessage(text: string): (m: Option<string>)
    ensures m.Some? ==> exists i :: 0 <= i < |m.value| && !IsBlank(m.value[i])
  {
    var message := TokensFrom(Explode(text), 1);
    var kept := TrimEnd(message);
    if kept == "" then None
    else
      assert message[|kept| - 1] == kept[|kept| - 1];
      Some(message)
  }

  /** A quit message with something in it is kept verbatim; a blank one becomes no message. */
  lemma QuitMessageOf(trigger: string, message: string)
    requires ' ' !in trigger
    ensures QuitMessage(trigger) == None
    ensures (exists i :: 0 <= i < |message| && !IsBlank(message[i])) ==>
      QuitMessage(trigger + " " + message) == Some(message)
    ensures (forall i :: 0 <= i < |message| ==> IsBlank(message[i])) ==>
      QuitMessage(trigger + " " + message) == None
  {
    ExplodeWord(trigger);
    WordsAfterTrigger(trigger, message);
    assert ([trigger] + Explode(message))[1..] == Explode(message);
    ImplodeExplode(message);
    TrimEndEmpty(message);
  }

  /** What the privilege check decides for a mode letter. */
  datatype Verdict = Proceed | Reject | Abort

  /**
    The privilege check of a mode change: the capabilities module decides
    when it is loaded; without it only the RFC 1459 letters o and v are
    allowed; a letter it calls invalid aborts the request.
   */
  function CheckPrivilege(probe: Probe, letter: char): (v: Verdict)
    ensures v == Proceed <==> probe == Supported || (probe == ProbeMissing && (letter == 'o' || letter == 'v'))
    ensures v == Abort <==> probe == InvalidValue
  {
    match probe
    case ProbeMissing => if letter == 'o' || letter == 'v' then Proceed else Reject
    case Supported => Proceed
    case Unsupported => Reject
    case InvalidValue => Abort
  }

  /** The nicks a mode change applies to: the words after the trigger, or the sender when there are none. */
  function ModeTargets(words: seq<string>, nick: string): seq<string>
    requires |words| >= 1
  {
    if |words| - 1 == 0 then [nick] else words[1..]
  }

  function ModeLine(chan: string, mode: ModeChange, nick: string): string
  {
    "MODE " + chan + " " + mode.ToString() + " :" + nick
  }

  /** One MODE command per target, in the targets' order. */
  function ModeSends(chan: string, mode: ModeChange, targets: seq<string>): seq<Effect>
  {
    seq(|targets|, i requires 0 <= i < |targets| => SendCommand(ModeLine(chan, mode, targets[i])))
  }

  /** One more target is one more MODE command at the end. */
  lemma ModeSendsSnoc(chan: string, mode: ModeChange, targets: seq<string>, nick: string)
    ensures ModeSends(chan, mode, targets + [nick]) == ModeSends(chan, mode, targets) + [SendCommand(ModeLine(chan, mode, nick))]
  {
  }

  /**
    What an administrator's mode request does: nothing when the check
    aborts; on a rejection a "not supported" message to the channel when
    notify is set and nothing otherwise; else one MODE command per target.
   */
  function ModeEffects(chan: string, sender: string, text: string, mode: ModeChange, probe: Probe, notify: bool): (r: seq<Effect>)
    ensures CheckPrivilege(probe, mode.letter) == Proceed ==> |r| >= 1 && forall i :: 0 <= i < |r| ==> r[i].SendCommand?
    ensures CheckPrivilege(probe, mode.letter) != Proceed ==> |r| <= 1 && forall i :: 0 <= i < |r| ==> !r[i].SendCommand?
  {
    match CheckPrivilege(probe, mode.letter)
    case Abort => []
    case Reject => if notify then [SendMessage(chan, NotSupported)] else []
    case Proceed => ModeSends(chan, mode, ModeTargets(Explode(text), sender))
  }

  /**
    With nicks after the trigger, an allowed mode change sends exactly one
    MODE command per nick, in order; with none, exactly one for the sender.
   */
  lemma ModeFanOut(trigger: string, nicks: seq<string>, chan: string, sender: string, mode: ModeChange, probe: Probe, notify: bool)
    requires ' ' !in trigger
    requires forall i :: 0 <= i < |nicks| ==> ' ' !in nicks[i]
    requires CheckPrivilege(probe, mode.letter) == Proceed
    ensures var e := ModeEffects(chan, sender, trigger, mode, probe, notify);
      e == [SendCommand("MODE " + chan + " " + mode.ToString() + " :" + sender)]
    ensures |nicks| >= 1 ==>
      var e := ModeEffects(chan, sender, trigger + " " + Implode(nicks, ' '), mode, probe, notify);
      |e| == |nicks| &&
      forall i :: 0 <= i < |nicks| ==> e[i] == SendCommand("MODE " + chan + " " + mode.ToString() + " :" + nicks[i])
  {
    ExplodeWord(trigger);
    if |nicks| >= 1 {
      WordsAfterTrigger(trigger, Implode(nicks, ' '));
      ExplodeImplode(nicks);
      assert ([trigger] + nicks)[1..] == nicks;
    }
  }

  /**
    A rejected or aborted mode change sends no MODE command: an abort sends
    nothing, a rejection sends the "not supported" message to the channel
    when notify is set and nothing otherwise.
   */
  lemma ModeRefused(chan: string, sender: string, text: string, mode: ModeChange, probe: Probe, notify: bool)
    requires CheckPrivilege(probe, mode.letter) != Proceed
    ensures forall e :: e in ModeEffects(chan, sender, text, mode, probe, notify) ==> !e.SendCommand?
    ensures ModeEffects(chan, sender, text, mode, probe, notify) == if notify && probe != InvalidValue then [SendMessage(chan, NotSupported)] else []
  {
  }
}
