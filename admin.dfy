/**
  The current revision of the admin module, the class Erebot\Module\Admin.
  Its state is the two tables a reload fills, the administrators' masks,
  and the calls it has made on its collaborators (the connection, the
  trigger registry, the bot), in order.
 */
module Admin {
  import opened PhpText
  import opened Types
  import opened Directory
  import opened Commands
  import opened Bindings

  /** The class name getHelp compares the first help word against. */
  const ModuleClassName: string := "Erebot\\Module\\Admin"

  /** Where help goes: to the sender of a private message, else to the channel. */
  function HelpTarget(event: TextEvent): string
  {
    match event
    case PrivateText(source, _) => source.nick
    case ChanText(_, chan, _) => chan
  }

  class AdminModule {
    var triggers: map<Command, Option<Token>>
    var handlers: map<Command, Binding>
    var admins: seq<string>
    var effects: seq<Effect>

    /** A module that has not been loaded yet: no bindings, no administrators, no calls made. */
    constructor ()
      ensures triggers == map[] && handlers == map[] && admins == [] && effects == []
    {
      triggers, handlers, admins, effects := map[], map[], [], [];
    }

    /**
      reload: with the handlers flag, release the live bindings (unless this
      is the first load), empty the tables, register the fourteen commands in
      order and, when all of them registered, read the administrators' masks.
      A registration that comes back null stops the reload with an error;
      what was registered before it stays, and the masks are not re-read.
     */
    method Reload(flags: ReloadFlags, config: map<string, string>, registry: string -> Option<Token>) returns (status: ReloadStatus)
      modifies this
      ensures !flags.handlers ==>
        status == Done && triggers == old(triggers) && handlers == old(handlers) && admins == old(admins) && effects == old(effects)
      ensures flags.handlers ==>
        var p := Registration(AllCommands, config, registry);
        && triggers == p.triggers
        && handlers == p.handlers
        && effects == old(effects) + (if flags.init then [] else Teardown(old(triggers), old(handlers), AllCommands)) + p.effects
        && (p.failed.None? ==> status == Done && admins == ParseAdmins(AdminsSetting(config)))
        && (p.failed.Some? ==> status == CouldNotRegister(p.failed.value) && admins == old(admins))
      ensures flags.handlers ==> Consistent(triggers, handlers)
      ensures flags.handlers && status == Done ==> FullyBound(triggers, handlers)
    {
      status := Done;
      if !flags.handlers {
        return;
      }
      ghost var released := if flags.init then [] else Teardown(triggers, handlers, AllCommands);
      if !flags.init {
        ReleaseAll(AllCommands);
      }
      assert effects == old(effects) + released;
      triggers, handlers := map[], map[];
      var failed := RegisterAll(AllCommands, config, registry);
      ghost var p := Registration(AllCommands, config, registry);
      assert effects == old(effects) + released + p.effects;
      ReloadConsistent(config, registry);
      ReloadBound(config, registry);
      if failed.Some? {
        status := CouldNotRegister(failed.value);
        return;
      }
      admins := ParseAdmins(AdminsSetting(config));
    }

    /** The teardown loop of reload: for each entry, in the order of cmds, remove its handler and free its token. */
    method ReleaseAll(cmds: seq<Command>)
      modifies this`effects
      ensures effects == old(effects) + Teardown(triggers, handlers, cmds)
    {
      var i := 0;
      while i < |cmds|
        invariant 0 <= i <= |cmds|
        invariant effects == old(effects) + Teardown(triggers, handlers, cmds[..i])
      {
        var c := cmds[i];
        assert cmds[..i + 1][..i] == cmds[..i];
        if c in triggers {
          effects := effects + [RemoveEventHandler(Lookup(handlers, c)), FreeTriggers(triggers[c])];
        }
        i := i + 1;
      }
      assert cmds[..|cmds|] == cmds;
    }

    /**
      The registration loop of reload, from empty tables: for each of cmds
      in order, register its phrase and store the token; stop at a null
      token, else install the command's handler. The tables are built in
      locals and stored when the loop ends or stops; nothing reads them in
      between.
     */
    method RegisterAll(cmds: seq<Command>, config: map<string, string>, registry: string -> Option<Token>) returns (failed: Option<Command>)
      requires triggers == map[] && handlers == map[]
      modifies this`triggers, this`handlers, this`effects
      ensures triggers == Registration(cmds, config, registry).triggers
      ensures handlers == Registration(cmds, config, registry).handlers
      ensures effects == old(effects) + Registration(cmds, config, registry).effects
      ensures failed == Registration(cmds, config, registry).failed
    {
      var t, h, added := triggers, handlers, [];
      var j := 0;
      while j < |cmds|
        invariant 0 <= j <= |cmds|
        invariant Registration(cmds[..j], config, registry) == Pass(t, h, added, None)
        invariant effects == old(effects)
      {
        var c := cmds[j];
        RegistrationNext(cmds, j, config, registry);
        var phrase := Phrase(config, c);
        var token := registry(phrase);
        if token.None? {
          StepFails(Pass(t, h, added, None), c, config, registry);
          RegistrationStopped(cmds, j + 1, config, registry);
          triggers, handlers, effects := t[c := token], h, effects + (added + [RegisterTriggers(phrase)]);
          return Some(c);
        }
        StepBinds(Pass(t, h, added, None), c, config, registry);
        t := t[c := token];
        added := added + [RegisterTriggers(phrase)];
        var b := BindingFor(c, phrase);
        h := h[c := b];
        added := added + [AddEventHandler(b)];
        j := j + 1;
      }
      assert cmds[..|cmds|] == cmds;
      triggers, handlers, effects := t, h, effects + added;
      failed := None;
    }

    /** isAdmin: the sender is an administrator exactly when one of the masks matches it. */
    method IsAdmin(who: Identity) returns (r: bool)
      ensures r <==> Authorized(admins, who)
    {
      var i := 0;
      while i < |admins|
        invariant 0 <= i <= |admins|
        invariant forall k :: 0 <= k < i ==> !who.matches(admins[k])
      {
        if who.matches(admins[i]) {
          return true;
        }
        i := i + 1;
      }
      return false;
    }

    /**
      getHelp: answers only when the first word is this module's class name;
      with that word alone, one help message to the sender of a private
      message or to the channel. Longer requests get no answer (null).
     */
    method GetHelp(event: TextEvent, words: string) returns (answer: Option<bool>)
      modifies this`effects
      ensures Explode(words)[0] != ModuleClassName ==> answer == Some(false) && effects == old(effects)
      ensures Explode(words)[0] == ModuleClassName && |Explode(words)| == 1 ==>
        answer == Some(true) && effects == old(effects) + [SendMessage(HelpTarget(event), ModuleHelp)]
      ensures Explode(words)[0] == ModuleClassName && |Explode(words)| > 1 ==>
        answer == None && effects == old(effects)
    {
      var target := HelpTarget(event);
      var w := Explode(words);
      if w[0] != ModuleClassName {
        return Some(false);
      }
      if |w| == 1 {
        effects := effects + [SendMessage(target, ModuleHelp)];
        return Some(true);
      }
      answer := None;
    }

    /** handlePart: for an administrator, one PART line built from the request; for anyone else, nothing. */
    method HandlePart(event: TextEvent, isChannel: string -> bool)
      requires event.ChanText?
      modifies this`effects
      ensures effects == old(effects) +
        if Authorized(admins, event.source) then [SendCommand(PartLine(ParsePart(event.text, event.chan, isChannel)))] else []
    {
      var ok := IsAdmin(event.source);
      if !ok {
        return;
      }
      var request := ParsePart(event.text, event.chan, isChannel);
      effects := effects + [SendCommand(PartLine(request))];
    }

    /**
      handleQuit: for an administrator, dispatch the disconnection event and,
      unless a listener prevented it, disconnect with the quit message.
     */
    method HandleQuit(event: TextEvent, prevented: bool)
      modifies this`effects
      ensures effects == old(effects) +
        if Authorized(admins, event.source) then
          [DispatchDisconnect] + if prevented then [] else [Disconnect(QuitMessage(event.text))]
        else []
    {
      var ok := IsAdmin(event.source);
      if !ok {
        return;
      }
      var message := QuitMessage(event.text);
      effects := effects + [DispatchDisconnect];
      if !prevented {
        effects := effects + [Disconnect(message)];
      }
    }

    /**
      setMode: for an administrator, the privilege check and then one MODE
      line per nick after the trigger (or one for the sender); a rejected
      letter gets a "not supported" message on the channel.
     */
    method SetMode(event: TextEvent, mode: ModeChange, probe: Probe)
      requires event.ChanText?
      modifies this`effects
      ensures effects == old(effects) +
        if Authorized(admins, event.source) then ModeEffects(event.chan, event.source.nick, event.text, mode, probe, true) else []
    {
      var ok := IsAdmin(event.source);
      if !ok {
        return;
      }
      var verdict := CheckPrivilege(probe, mode.letter);
      if verdict == Abort {
        return;
      }
      if verdict == Reject {
        effects := effects + [SendMessage(event.chan, NotSupported)];
        return;
      }
      var words := Explode(event.text);
      var nbNicks := |words| - 1;
      var prefix := "MODE " + event.chan + " " + mode.ToString() + " :";
      if nbNicks == 0 {
        effects := effects + [SendCommand(prefix + event.source.nick)];
        return;
      }
      var i := 1;
      while i <= nbNicks
        invariant 1 <= i <= nbNicks + 1
        invariant effects == old(effects) + ModeSends(event.chan, mode, words[1..i])
      {
        assert words[1..i + 1] == words[1..i] + [words[i]];
        ModeSendsSnoc(event.chan, mode, words[1..i], words[i]);
        effects := effects + [SendCommand(prefix + words[i])];
        i := i + 1;
      }
      assert words[1..i] == words[1..];
    }

    /** The ten mode handlers (handleVoice ... handleDeOwner): setMode with the handler's fixed mode. */
    method HandleMode(which: ModeCommand, event: TextEvent, probe: Probe)
      requires event.ChanText?
      modifies this`effects
      ensures effects == old(effects) +
        if Authorized(admins, event.source) then ModeEffects(event.chan, event.source.nick, event.text, ModeOf(which), probe, true) else []
    {
      SetMode(event, ModeOf(which), probe);
    }

    /** handleJoin: for an administrator, JOIN with the words after the trigger. */
    method HandleJoin(event: TextEvent)
      modifies this`effects
      ensures effects == old(effects) + if Authorized(admins, event.source) then [SendCommand(JoinLine(event.text))] else []
    {
      var ok := IsAdmin(event.source);
      if !ok {
        return;
      }
      effects := effects + [SendCommand(JoinLine(event.text))];
    }

    /** handleReload: for an administrator, ask the bot to reload. */
    method HandleReload(event: TextEvent)
      modifies this`effects
      ensures effects == old(effects) + if Authorized(admins, event.source) then [ReloadBot] else []
    {
      var ok := IsAdmin(event.source);
      if !ok {
        return;
      }
      effects := effects + [ReloadBot];
    }
  }
}
