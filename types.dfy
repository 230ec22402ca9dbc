/**
  The values the admin module works with: its commands, the identities and
  text events it receives, the answers of its collaborators, and the calls it
  makes on them, recorded in order as effects.
 */
module Types {

  datatype Option<+T> = None | Some(value: T)

  /** A channel privilege a mode command grants or revokes. */
  datatype Privilege = Voice | HalfOp | Op | Protect | Owner

  /** One of the ten mode commands: grant (voice, op, ...) or revoke (devoice, deop, ...). */
  datatype ModeCommand = Grant(privilege: Privilege) | Revoke(privilege: Privilege)

  /** The fourteen commands of the module. */
  datatype Command = Part | Quit | Mode(mode: ModeCommand) | Join | Reload

  function PrivilegeName(p: Privilege): string
  {
    match p
    case Voice => "voice"
    case HalfOp => "halfop"
    case Op => "op"
    case Protect => "protect"
    case Owner => "owner"
  }

  /** The command's name: its key in the tables and its default trigger phrase. */
  function Name(c: Command): string
  {
    match c
    case Part => "part"
    case Quit => "quit"
    case Mode(Grant(p)) => PrivilegeName(p)
    case Mode(Revoke(p)) => "de" + PrivilegeName(p)
    case Join => "join"
    case Reload => "reload"
  }

  /** The commands in the order a reload registers them. */
  const AllCommands: seq<Command> := [
    Part, Quit,
    Mode(Grant(Voice)), Mode(Revoke(Voice)),
    Mode(Grant(HalfOp)), Mode(Revoke(HalfOp)),
    Mode(Grant(Op)), Mode(Revoke(Op)),
    Mode(Grant(Protect)), Mode(Revoke(Protect)),
    Mode(Grant(Owner)), Mode(Revoke(Owner)),
    Join, Reload
  ]

  /** The names of AllCommands, in order. */
  lemma AllCommandNames()
    ensures |AllCommands| == 14
    ensures forall i :: 0 <= i < |AllCommands| ==> Name(AllCommands[i]) == CommandNameTable[i]
  {
  }

  const CommandNameTable: seq<string> := [
    "part", "quit", "voice", "devoice", "halfop", "dehalfop", "op", "deop",
    "protect", "deprotect", "owner", "deowner", "join", "reload"
  ]

  /** Every command is in AllCommands. */
  lemma AllCommandsComplete(c: Command)
    ensures c in AllCommands
  {
    match c
    case Part => assert AllCommands[0] == c;
    case Quit => assert AllCommands[1] == c;
    case Mode(Grant(Voice)) => assert AllCommands[2] == c;
    case Mode(Revoke(Voice)) => assert AllCommands[3] == c;
    case Mode(Grant(HalfOp)) => assert AllCommands[4] == c;
    case Mode(Revoke(HalfOp)) => assert AllCommands[5] == c;
    case Mode(Grant(Op)) => assert AllCommands[6] == c;
    case Mode(Revoke(Op)) => assert AllCommands[7] == c;
    case Mode(Grant(Protect)) => assert AllCommands[8] == c;
    case Mode(Revoke(Protect)) => assert AllCommands[9] == c;
    case Mode(Grant(Owner)) => assert AllCommands[10] == c;
    case Mode(Revoke(Owner)) => assert AllCommands[11] == c;
    case Join => assert AllCommands[12] == c;
    case Reload => assert AllCommands[13] == c;
  }

  /** No command occurs twice in AllCommands. */
  lemma AllCommandsDistinct()
    ensures forall i, j :: 0 <= i < j < |AllCommands| ==> AllCommands[i] != AllCommands[j]
  {
  }

  /** A sign and a letter, as in "+v" or "-o". */
  datatype ModeChange = ModeChange(grant: bool, letter: char)
  {
    function ToString(): string
    {
      [if grant then '+' else '-', letter]
    }
  }

  function PrivilegeLetter(p: Privilege): char
  {
    match p
    case Voice => 'v'
    case HalfOp => 'h'
    case Op => 'o'
    case Protect => 'a'
    case Owner => 'q'
  }

  /** The fixed mode each of the ten mode commands asks for. */
  function ModeOf(m: ModeCommand): (change: ModeChange)
    ensures change.grant <==> m.Grant?
  {
    ModeChange(m.Grant?, PrivilegeLetter(m.privilege))
  }

  /** The mode string each of the ten mode handlers passes on. */
  lemma HandlerModes()
    ensures ModeOf(Grant(Voice)).ToString() == "+v" && ModeOf(Revoke(Voice)).ToString() == "-v"
    ensures ModeOf(Grant(HalfOp)).ToString() == "+h" && ModeOf(Revoke(HalfOp)).ToString() == "-h"
    ensures ModeOf(Grant(Op)).ToString() == "+o" && ModeOf(Revoke(Op)).ToString() == "-o"
    ensures ModeOf(Grant(Protect)).ToString() == "+a" && ModeOf(Revoke(Protect)).ToString() == "-a"
    ensures ModeOf(Grant(Owner)).ToString() == "+q" && ModeOf(Revoke(Owner)).ToString() == "-q"
  {
  }

  /** An opaque registration token handed out by the trigger registry. */
  datatype Token = Token(id: nat)

  /** Who sent a message: a nick and the identity's mask test (with the connection's collator). */
  datatype Identity = Identity(nick: string, matches: string -> bool)

  /** A text message addressed to the bot, on a channel or in private. */
  datatype TextEvent =
    | ChanText(source: Identity, chan: string, text: string)
    | PrivateText(source: Identity, text: string)

  /** The answer for a mode letter from the server capabilities module. */
  datatype Probe =
    | ProbeMissing   // the module is not loaded
    | Supported      // isChannelPrivilege(letter) is true
    | Unsupported    // isChannelPrivilege(letter) is false
    | InvalidValue   // isChannelPrivilege(letter) throws

  /** Which events an event handler of the module accepts. */
  datatype Filter =
    /** channel messages that are the phrase, or the phrase, a space and anything */
    | ChanTextTrigger(phrase: string)
    /** any text message that is the phrase followed by at least one argument */
    | TextWithArguments(phrase: string)
    /** any text message that is the phrase, or the phrase, a space and anything */
    | TextTrigger(phrase: string)

  datatype Binding = Binding(handler: Command, filter: Filter)

  /** The messages the module may send; their wording is translated and is not modelled. */
  datatype Notice = NotSupported | ModuleHelp

  /** A call the module makes on one of its collaborators. */
  datatype Effect =
    | RegisterTriggers(phrase: string)
    | AddEventHandler(binding: Binding)
    | RemoveEventHandler(removed: Option<Binding>)
    | FreeTriggers(token: Option<Token>)
    | SendCommand(line: string)
    | SendMessage(target: string, notice: Notice)
    | DispatchDisconnect
    | Disconnect(message: Option<string>)
    | ReloadBot

  /** The bits of a reload's flags that the module looks at. */
  datatype ReloadFlags = ReloadFlags(handlers: bool, init: bool)

  /** How a reload ended: normally, or with the exception for a trigger already taken. */
  datatype ReloadStatus = Done | CouldNotRegister(command: Command)
}
