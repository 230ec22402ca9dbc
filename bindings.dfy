/**
  What a reload with the handlers flag does to the module's two tables:
  `triggers` (command -> registration token, possibly null) and `handlers`
  (command -> event handler). First every live entry is released (handler
  removed, token freed) in AllCommands order, which is also the order of
  the tables, since both are always rebuilt from empty in that order. Then
  the tables are emptied and the commands are registered one by one, in
  AllCommands order, until one registration comes back null.
 */
module Bindings {
  import opened Types

  /** The trigger phrase for a command: setting "trigger_<name>", by default the name itself. */
  function Phrase(config: map<string, string>, c: Command): (p: string)
    ensures p == Name(c) || p in config.Values
    ensures ("trigger_" + Name(c)) in config ==> p == config["trigger_" + Name(c)]
    ensures ("trigger_" + Name(c)) !in config ==> p == Name(c)
  {
    var key := "trigger_" + Name(c);
    if key in config then config[key] else Name(c)
  }

  /** The registry's answer for a command's phrase: a token, or null when the phrase cannot be registered. */
  function TokenFor(config: map<string, string>, registry: string -> Option<Token>, c: Command): Option<Token>
  {
    registry(Phrase(config, c))
  }

  /** The event handler a reload installs for a command with the given phrase. */
  function BindingFor(c: Command, phrase: string): (b: Binding)
    ensures b.handler == c
  {
    match c
    case Join => Binding(c, TextWithArguments(phrase))
    case Reload => Binding(c, TextTrigger(phrase))
    case _ => Binding(c, ChanTextTrigger(phrase))
  }

  function Lookup(handlers: map<Command, Binding>, c: Command): Option<Binding>
  {
    if c in handlers then Some(handlers[c]) else None
  }

  /** The release calls for the entries of triggers whose commands are in cmds, in cmds order. */
  function Teardown(triggers: map<Command, Option<Token>>, handlers: map<Command, Binding>, cmds: seq<Command>): (r: seq<Effect>)
    ensures |r| % 2 == 0 && |r| <= 2 * |cmds|
  {
    if cmds == [] then []
    else
      var c := cmds[|cmds| - 1];
      Teardown(triggers, handlers, cmds[..|cmds| - 1]) +
        if c in triggers then [RemoveEventHandler(Lookup(handlers, c)), FreeTriggers(triggers[c])] else []
  }

  predicate IsRelease(e: Effect)
  {
    e.RemoveEventHandler? || e.FreeTriggers?
  }

  predicate IsAcquire(e: Effect)
  {
    e.RegisterTriggers? || e.AddEventHandler?
  }

  /** The state after registering a list of commands: the tables, the calls made, and the command whose registration failed. */
  datatype Pass = Pass(
    triggers: map<Command, Option<Token>>,
    handlers: map<Command, Binding>,
    effects: seq<Effect>,
    failed: Option<Command>)

  /**
    Registration of the commands of cmds, in order, starting from empty
    tables: for each, register its phrase, store the token; on a null token
    stop (the entry stays, with no handler); otherwise install its handler.
   */
  function Registration(cmds: seq<Command>, config: map<string, string>, registry: string -> Option<Token>): (p: Pass)
    ensures |p.effects| <= 2 * |cmds|
  {
    if cmds == [] then Pass(map[], map[], [], None)
    else Step(Registration(cmds[..|cmds| - 1], config, registry), cmds[|cmds| - 1], config, registry)
  }

  /** One iteration of the registration loop, skipped once a registration has failed. */
  function Step(p: Pass, c: Command, config: map<string, string>, registry: string -> Option<Token>): Pass
  {
    if p.failed.Some? then p
    else
      var phrase := Phrase(config, c);
      var token := TokenFor(config, registry, c);
      if token.None? then
        Pass(p.triggers[c := None], p.handlers, p.effects + [RegisterTriggers(phrase)], Some(c))
      else
        var b := BindingFor(c, phrase);
        Pass(p.triggers[c := token], p.handlers[c := b], p.effects + [RegisterTriggers(phrase), AddEventHandler(b)], None)
  }

  /** A step whose phrase registers stores the token, installs the handler and records both calls. */
  lemma StepBinds(p: Pass, c: Command, config: map<string, string>, registry: string -> Option<Token>)
    requires p.failed.None? && TokenFor(config, registry, c).Some?
    ensures Step(p, c, config, registry) == Pass(
      p.triggers[c := TokenFor(config, registry, c)],
      p.handlers[c := BindingFor(c, Phrase(config, c))],
      p.effects + [RegisterTriggers(Phrase(config, c))] + [AddEventHandler(BindingFor(c, Phrase(config, c)))],
      None)
  {
    var e := [RegisterTriggers(Phrase(config, c))];
    var h := [AddEventHandler(BindingFor(c, Phrase(config, c)))];
    assert p.effects + e + h == p.effects + (e + h);
  }

  /** A step whose phrase does not register stores a null token, records the call and fails. */
  lemma StepFails(p: Pass, c: Command, config: map<string, string>, registry: string -> Option<Token>)
    requires p.failed.None? && TokenFor(config, registry, c).None?
    ensures Step(p, c, config, registry) ==
      Pass(p.triggers[c := None], p.handlers, p.effects + [RegisterTriggers(Phrase(config, c))], Some(c))
  {
  }

  /** One more command of the list is one more step of the pass. */
  lemma RegistrationNext(cmds: seq<Command>, j: nat, config: map<string, string>, registry: string -> Option<Token>)
    requires j < |cmds|
    ensures Registration(cmds[..j + 1], config, registry) == Step(Registration(cmds[..j], config, registry), cmds[j], config, registry)
  {
    assert cmds[..j + 1][..j] == cmds[..j];
  }

  /** The tables agree: a command has a handler exactly when its stored token is not null, and it is that command's handler. */
  predicate Consistent(triggers: map<Command, Option<Token>>, handlers: map<Command, Binding>)
  {
    && handlers.Keys <= triggers.Keys
    && (forall c :: c in triggers ==> (triggers[c].Some? <==> c in handlers))
    && (forall c :: c in handlers ==> handlers[c].handler == c)
  }

  /** Every command has a live token and a handler: fourteen entries in each table. */
  ghost predicate FullyBound(triggers: map<Command, Option<Token>>, handlers: map<Command, Binding>)
  {
    && (forall c :: c in triggers && c in handlers && triggers[c].Some?)
    && |triggers| == 14
    && |handlers| == 14
  }

  predicate Distinct(cmds: seq<Command>)
  {
    forall i, j :: 0 <= i < j < |cmds| ==> cmds[i] != cmds[j]
  }

  /** The commands of a list, as a set. */
  function Members(cmds: seq<Command>): set<Command>
  {
    if cmds == [] then {} else Members(cmds[..|cmds| - 1]) + {cmds[|cmds| - 1]}
  }

  lemma {:induction false} MembersAre(cmds: seq<Command>)
    ensures forall c :: c in Members(cmds) <==> c in cmds
  {
    if cmds != [] {
      MembersAre(cmds[..|cmds| - 1]);
      assert cmds == cmds[..|cmds| - 1] + [cmds[|cmds| - 1]];
    }
  }

  /** A list without repetitions has as many members as entries. */
  lemma {:induction false} DistinctCount(cmds: seq<Command>)
    requires Distinct(cmds)
    ensures |Members(cmds)| == |cmds|
  {
    if cmds != [] {
      var init := cmds[..|cmds| - 1];
      DistinctCount(init);
      MembersAre(init);
    }
  }

  /** A registration pass over distinct commands leaves consistent tables, keyed by those commands. */
  lemma {:induction false} RegistrationConsistent(cmds: seq<Command>, config: map<string, string>, registry: string -> Option<Token>)
    requires Distinct(cmds)
    ensures var p := Registration(cmds, config, registry);
      && Consistent(p.triggers, p.handlers)
      && p.triggers.Keys <= Members(cmds)
  {
    if cmds != [] {
      var init := cmds[..|cmds| - 1];
      RegistrationConsistent(init, config, registry);
      MembersAre(init);
      var p := Registration(init, config, registry);
      assert cmds[|cmds| - 1] !in p.triggers;
      StepConsistent(p, cmds[|cmds| - 1], config, registry);
    }
  }

  /** One step on a command without an entry keeps the tables consistent and adds only that command's entry. */
  lemma StepConsistent(p: Pass, c: Command, config: map<string, string>, registry: string -> Option<Token>)
    requires Consistent(p.triggers, p.handlers)
    requires c !in p.triggers
    ensures Consistent(Step(p, c, config, registry).triggers, Step(p, c, config, registry).handlers)
    ensures Step(p, c, config, registry).triggers.Keys <= p.triggers.Keys + {c}
  {
  }

  /** A registration pass makes only acquiring calls. */
  lemma {:induction false} RegistrationOnlyAcquires(cmds: seq<Command>, config: map<string, string>, registry: string -> Option<Token>)
    ensures forall i :: 0 <= i < |Registration(cmds, config, registry).effects| ==> IsAcquire(Registration(cmds, config, registry).effects[i])
  {
    if cmds != [] {
      var p := Registration(cmds[..|cmds| - 1], config, registry);
      RegistrationOnlyAcquires(cmds[..|cmds| - 1], config, registry);
      var q := Step(p, cmds[|cmds| - 1], config, registry);
      assert q.effects[..|p.effects|] == p.effects;
      forall i | 0 <= i < |q.effects| ensures IsAcquire(q.effects[i]) {
        if i < |p.effects| {
          assert q.effects[i] == p.effects[i];
        }
      }
    }
  }

  /**
    When every phrase registers, the pass ends without failure, with an
    entry and a handler for every command of cmds and nothing else, each
    with its registry token and the handler for its phrase.
   */
  lemma {:induction false} RegistrationSucceeds(cmds: seq<Command>, config: map<string, string>, registry: string -> Option<Token>)
    requires AllRegister(cmds, config, registry)
    ensures var p := Registration(cmds, config, registry);
      && p.failed == None
      && p.triggers.Keys == Members(cmds)
      && p.handlers.Keys == Members(cmds)
      && (forall c :: c in p.triggers ==> p.triggers[c] == TokenFor(config, registry, c))
      && (forall c :: c in p.handlers ==> p.handlers[c] == BindingFor(c, Phrase(config, c)))
      && |p.effects| == 2 * |cmds|
  {
    if cmds != [] {
      AllRegisterLast(cmds, config, registry);
      RegistrationSucceeds(cmds[..|cmds| - 1], config, registry);
      StepBinds(Registration(cmds[..|cmds| - 1], config, registry), cmds[|cmds| - 1], config, registry);
    }
  }

  /** The pass stopped at cmds[k]: every earlier command registered and kept its entry and handler; cmds[k] kept a null entry and no handler. */
  predicate FailedAt(p: Pass, cmds: seq<Command>, k: nat, config: map<string, string>, registry: string -> Option<Token>)
    requires k < |cmds|
  {
    && p.failed == Some(cmds[k])
    && TokenFor(config, registry, cmds[k]).None?
    && (forall j :: 0 <= j < k ==> TokenFor(config, registry, cmds[j]).Some?)
    && p.triggers.Keys == Members(cmds[..k]) + {cmds[k]}
    && p.handlers.Keys == Members(cmds[..k])
    && p.triggers[cmds[k]] == None
  }

  /** Every phrase of cmds registers. */
  predicate AllRegister(cmds: seq<Command>, config: map<string, string>, registry: string -> Option<Token>)
  {
    forall i :: 0 <= i < |cmds| ==> TokenFor(config, registry, cmds[i]).Some?
  }

  /** Every phrase of a list registers exactly when every phrase of its prefix and its last phrase do. */
  lemma AllRegisterLast(cmds: seq<Command>, config: map<string, string>, registry: string -> Option<Token>)
    requires cmds != []
    ensures AllRegister(cmds, config, registry) <==>
      AllRegister(cmds[..|cmds| - 1], config, registry) && TokenFor(config, registry, cmds[|cmds| - 1]).Some?
  {
    var init := cmds[..|cmds| - 1];
    assert forall i :: 0 <= i < |init| ==> cmds[i] == init[i];
  }

  /** The pass over a non-empty list has failed exactly when the pass over its prefix had, or the last phrase did not register. */
  lemma RegistrationLastFailed(cmds: seq<Command>, config: map<string, string>, registry: string -> Option<Token>)
    requires cmds != []
    ensures Registration(cmds, config, registry).failed.None? <==>
      Registration(cmds[..|cmds| - 1], config, registry).failed.None? && TokenFor(config, registry, cmds[|cmds| - 1]).Some?
  {
  }

  /** A pass fails exactly when some phrase of cmds does not register. */
  lemma {:induction false} RegistrationFailsIff(cmds: seq<Command>, config: map<string, string>, registry: string -> Option<Token>)
    ensures Registration(cmds, config, registry).failed.None? <==> AllRegister(cmds, config, registry)
  {
    if cmds != [] {
      RegistrationFailsIff(cmds[..|cmds| - 1], config, registry);
      RegistrationLastFailed(cmds, config, registry);
      AllRegisterLast(cmds, config, registry);
    }
  }

  /**
    A failed pass stopped at the first command whose phrase did not
    register (FailedAt): nothing after it was attempted and nothing before
    it was undone.
   */
  lemma {:induction false} RegistrationFails(cmds: seq<Command>, config: map<string, string>, registry: string -> Option<Token>)
    ensures var p := Registration(cmds, config, registry);
      p.failed.Some? ==> exists k :: 0 <= k < |cmds| && FailedAt(p, cmds, k, config, registry)
  {
    if cmds != [] {
      var init := cmds[..|cmds| - 1];
      var c := cmds[|cmds| - 1];
      var p := Registration(init, config, registry);
      assert Registration(cmds, config, registry) == Step(p, c, config, registry);
      if p.failed.Some? {
        RegistrationFails(init, config, registry);
        var k :| 0 <= k < |init| && FailedAt(p, init, k, config, registry);
        FailedAtExtends(p, cmds, k, config, registry);
      } else if TokenFor(config, registry, c).None? {
        FailedAtLast(cmds, config, registry);
      }
    }
  }

  /** A failure found in a prefix is a failure of the whole list. */
  lemma FailedAtExtends(p: Pass, cmds: seq<Command>, k: nat, config: map<string, string>, registry: string -> Option<Token>)
    requires k < |cmds| - 1
    requires FailedAt(p, cmds[..|cmds| - 1], k, config, registry)
    ensures FailedAt(p, cmds, k, config, registry)
  {
    var init := cmds[..|cmds| - 1];
    assert cmds[..k] == init[..k];
    assert forall j :: 0 <= j <= k ==> cmds[j] == init[j];
  }

  /** When every command before the last registered and the last does not, the pass fails at the last. */
  lemma FailedAtLast(cmds: seq<Command>, config: map<string, string>, registry: string -> Option<Token>)
    requires cmds != []
    requires Registration(cmds[..|cmds| - 1], config, registry).failed.None?
    requires TokenFor(config, registry, cmds[|cmds| - 1]).None?
    ensures FailedAt(Registration(cmds, config, registry), cmds, |cmds| - 1, config, registry)
  {
    var k := |cmds| - 1;
    var init := cmds[..k];
    var p := Registration(init, config, registry);
    assert AllRegister(init, config, registry) && p.triggers.Keys == Members(init) && p.handlers.Keys == Members(init) by {
      RegistrationFailsIff(init, config, registry);
      RegistrationSucceeds(init, config, registry);
    }
    StepFails(p, cmds[k], config, registry);
    var q := Registration(cmds, config, registry);
    assert q == Pass(p.triggers[cmds[k] := None], p.handlers, p.effects + [RegisterTriggers(Phrase(config, cmds[k]))], Some(cmds[k]));
    assert forall j :: 0 <= j < k ==> TokenFor(config, registry, cmds[j]).Some? by {
      assert forall j :: 0 <= j < k ==> cmds[j] == init[j];
    }
    assert q.triggers.Keys == Members(init) + {cmds[k]};
  }

  /** Registration of a list whose prefix already failed is that prefix's result. */
  lemma {:induction false} RegistrationStopped(cmds: seq<Command>, k: nat, config: map<string, string>, registry: string -> Option<Token>)
    requires k <= |cmds|
    requires Registration(cmds[..k], config, registry).failed.Some?
    ensures Registration(cmds, config, registry) == Registration(cmds[..k], config, registry)
  {
    if k < |cmds| {
      assert cmds[..|cmds| - 1][..k] == cmds[..k];
      RegistrationStopped(cmds[..|cmds| - 1], k, config, registry);
    } else {
      assert cmds[..k] == cmds;
    }
  }

  /**
    The teardown releases every entry of the table exactly once: one
    handler removal and one token release per entry, so twice as many calls
    as entries, and no acquiring call.
   */
  lemma TeardownReleasesAll(triggers: map<Command, Option<Token>>, handlers: map<Command, Binding>, cmds: seq<Command>)
    requires Distinct(cmds)
    ensures var t := Teardown(triggers, handlers, cmds);
      && |t| == 2 * |triggers.Keys * Members(cmds)|
      && (forall i :: 0 <= i < |t| ==> IsRelease(t[i]))
      && (forall c :: c in triggers && c in Members(cmds) ==>
            FreeTriggers(triggers[c]) in t && RemoveEventHandler(Lookup(handlers, c)) in t)
  {
    TeardownLength(triggers, handlers, cmds);
    TeardownOnlyReleases(triggers, handlers, cmds);
    TeardownVisits(triggers, handlers, cmds);
  }

  lemma {:induction false} TeardownLength(triggers: map<Command, Option<Token>>, handlers: map<Command, Binding>, cmds: seq<Command>)
    requires Distinct(cmds)
    ensures |Teardown(triggers, handlers, cmds)| == 2 * |triggers.Keys * Members(cmds)|
  {
    if cmds != [] {
      var init := cmds[..|cmds| - 1];
      var c := cmds[|cmds| - 1];
      TeardownLength(triggers, handlers, init);
      LastNotEarlier(cmds);
      LiveStep(triggers.Keys, Members(init), c);
    }
  }

  /** In a list without repetitions the last command is not among the earlier ones. */
  lemma LastNotEarlier(cmds: seq<Command>)
    requires cmds != [] && Distinct(cmds)
    ensures cmds[|cmds| - 1] !in Members(cmds[..|cmds| - 1])
  {
    MembersAre(cmds[..|cmds| - 1]);
  }

  /** Adding a new command to a set adds one live entry when the command has one, and none otherwise. */
  lemma LiveStep(keys: set<Command>, seen: set<Command>, c: Command)
    requires c !in seen
    ensures |keys * (seen + {c})| == |keys * seen| + if c in keys then 1 else 0
  {
    if c in keys {
      assert keys * (seen + {c}) == (keys * seen) + {c};
    } else {
      assert keys * (seen + {c}) == keys * seen;
    }
  }

  lemma {:induction false} TeardownOnlyReleases(triggers: map<Command, Option<Token>>, handlers: map<Command, Binding>, cmds: seq<Command>)
    ensures forall i :: 0 <= i < |Teardown(triggers, handlers, cmds)| ==> IsRelease(Teardown(triggers, handlers, cmds)[i])
  {
    if cmds != [] {
      var init := cmds[..|cmds| - 1];
      TeardownOnlyReleases(triggers, handlers, init);
      var t0 := Teardown(triggers, handlers, init);
      var t := Teardown(triggers, handlers, cmds);
      var c := cmds[|cmds| - 1];
      var tail := if c in triggers then [RemoveEventHandler(Lookup(handlers, c)), FreeTriggers(triggers[c])] else [];
      assert t == t0 + tail;
      forall i | 0 <= i < |t| ensures IsRelease(t[i]) {
        if i < |t0| {
          assert t[i] == t0[i];
        } else {
          assert t[i] == tail[i - |t0|];
        }
      }
    }
  }

  lemma {:induction false} TeardownVisits(triggers: map<Command, Option<Token>>, handlers: map<Command, Binding>, cmds: seq<Command>)
    ensures var t := Teardown(triggers, handlers, cmds);
      forall c :: c in triggers && c in Members(cmds) ==>
        FreeTriggers(triggers[c]) in t && RemoveEventHandler(Lookup(handlers, c)) in t
  {
    if cmds != [] {
      var init := cmds[..|cmds| - 1];
      TeardownVisits(triggers, handlers, init);
      var t0 := Teardown(triggers, handlers, init);
      var t := Teardown(triggers, handlers, cmds);
      assert forall e :: e in t0 ==> e in t;
    }
  }

  /** A call is never both a release and an acquisition. */
  lemma ReleaseNotAcquire(e: Effect)
    ensures !(IsRelease(e) && IsAcquire(e))
  {
  }

  /**
    Over the whole table: the teardown makes two release calls per entry,
    and every release call comes before every call of the registration
    pass that follows it.
   */
  lemma ReleasesPrecedeRegistrations(triggers: map<Command, Option<Token>>, handlers: map<Command, Binding>,
                                      config: map<string, string>, registry: string -> Option<Token>)
    ensures var trace := Teardown(triggers, handlers, AllCommands) + Registration(AllCommands, config, registry).effects;
      forall i, j :: 0 <= i < |trace| && 0 <= j < |trace| && IsRelease(trace[i]) && IsAcquire(trace[j]) ==> i < j
    ensures |Teardown(triggers, handlers, AllCommands)| == 2 * |triggers|
  {
    TeardownOnlyReleases(triggers, handlers, AllCommands);
    RegistrationOnlyAcquires(AllCommands, config, registry);
    ReleasesBeforeAcquires(Teardown(triggers, handlers, AllCommands), Registration(AllCommands, config, registry).effects);
    TeardownCoversTable(triggers, handlers);
  }

  /** The teardown over all fourteen commands makes two calls per entry of the table. */
  lemma TeardownCoversTable(triggers: map<Command, Option<Token>>, handlers: map<Command, Binding>)
    ensures |Teardown(triggers, handlers, AllCommands)| == 2 * |triggers|
  {
    AllCommandsDistinct();
    TeardownLength(triggers, handlers, AllCommands);
    MembersAre(AllCommands);
    assert triggers.Keys * Members(AllCommands) == triggers.Keys by {
      forall c | c in triggers ensures c in Members(AllCommands) { AllCommandsComplete(c); }
    }
  }

  /** In a list of releases followed by a list of acquisitions, every release comes first. */
  lemma ReleasesBeforeAcquires(t: seq<Effect>, r: seq<Effect>)
    requires forall i :: 0 <= i < |t| ==> IsRelease(t[i])
    requires forall i :: 0 <= i < |r| ==> IsAcquire(r[i])
    ensures forall i, j :: 0 <= i < |t + r| && 0 <= j < |t + r| && IsRelease((t + r)[i]) && IsAcquire((t + r)[j]) ==> i < j
  {
    var trace := t + r;
    forall i, j | 0 <= i < |trace| && 0 <= j < |trace| && IsRelease(trace[i]) && IsAcquire(trace[j])
      ensures i < j
    {
      if j < |t| {
        assert trace[j] == t[j];
        ReleaseNotAcquire(trace[j]);
      }
    }
  }

  /**
    A reload in which every phrase registers leaves exactly one entry and
    one handler for each of the fourteen commands.
   */
  lemma ReloadBindsEveryCommand(config: map<string, string>, registry: string -> Option<Token>)
    requires forall c :: TokenFor(config, registry, c).Some?
    ensures var p := Registration(AllCommands, config, registry);
      p.failed == None && FullyBound(p.triggers, p.handlers)
  {
    RegistrationSucceeds(AllCommands, config, registry);
    AllCommandsDistinct();
    MembersAre(AllCommands);
    forall c ensures c in Members(AllCommands) { AllCommandsComplete(c); }
    DistinctCount(AllCommands);
  }

  /**
    After a failed pass, the next reload's teardown still visits the entry
    of the command that failed: it removes a handler that does not exist
    (null) and frees a null token.
   */
  lemma TeardownAfterFailedPass(config: map<string, string>, registry: string -> Option<Token>)
    requires Registration(AllCommands, config, registry).failed.Some?
    ensures var p := Registration(AllCommands, config, registry);
      var t := Teardown(p.triggers, p.handlers, AllCommands);
      RemoveEventHandler(None) in t && FreeTriggers(None) in t
  {
    var p := Registration(AllCommands, config, registry);
    RegistrationFails(AllCommands, config, registry);
    var k :| 0 <= k < |AllCommands| && FailedAt(p, AllCommands, k, config, registry);
    var c := AllCommands[k];
    AllCommandsDistinct();
    MembersAre(AllCommands[..k]);
    assert c !in p.handlers;
    TeardownReleasesAll(p.triggers, p.handlers, AllCommands);
    MembersAre(AllCommands);
    assert c in p.triggers && c in Members(AllCommands);
  }

  /** A reload's registration pass leaves tables that agree with each other, whatever the registry answers. */
  lemma ReloadConsistent(config: map<string, string>, registry: string -> Option<Token>)
    ensures var p := Registration(AllCommands, config, registry);
      Consistent(p.triggers, p.handlers)
  {
    AllCommandsDistinct();
    RegistrationConsistent(AllCommands, config, registry);
  }

  /** A reload's registration pass that did not fail has bound all fourteen commands. */
  lemma ReloadBound(config: map<string, string>, registry: string -> Option<Token>)
    ensures var p := Registration(AllCommands, config, registry);
      p.failed.None? ==> FullyBound(p.triggers, p.handlers)
  {
    RegistrationFailsIff(AllCommands, config, registry);
    if Registration(AllCommands, config, registry).failed.None? {
      forall c ensures TokenFor(config, registry, c).Some? {
        AllCommandsComplete(c);
      }
      ReloadBindsEveryCommand(config, registry);
    }
  }
}
