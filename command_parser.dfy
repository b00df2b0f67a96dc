/**
 * The command registry and the line interpreter (src/lib/command_parser.ts):
 * a line is trimmed and split on single spaces, the first token names the
 * command and the rest are its arguments; the result is recorded with the
 * prompt directory shown before the command ran.
 */
module CommandParser {
  import opened Maybe
  import opened JsString
  import opened State
  import opened StateUtil
  import Cd
  import Echo
  import Pwd
  import Ls
  import Cat
  import Rm

  /** What each registry entry runs. */
  datatype Action = Nothing | Help | CdAction | EchoAction | PwdAction | LsAction | CatAction | RmAction

  /** A registry entry: its key, the description `help` shows, whether `help` hides it, and its action. */
  datatype Command = Command(name: string, description: string, hide: bool, action: Action)

  const EmptyEntry := Command("", "No command entered.", true, Nothing)
  const HelpEntry := Command("help", "List available commands.", false, Help)
  const CdEntry := Command("cd", "Set the shell's current directory.", false, CdAction)
  const EchoEntry := Command("echo", "Output to the terminal.", false, EchoAction)
  const PwdEntry := Command("pwd", "Print the current working directory.", false, PwdAction)
  const LsEntry := Command("ls", "List directory contents.", false, LsAction)
  const CatEntry := Command("cat", "Display the contents of a file.", false, CatAction)
  const RmEntry := Command("rm", "Remove a file or directory.", false, RmAction)

  /** The `commands` record, in the order its keys are written (the order `Object.entries` gives them). */
  function Registry(): seq<Command>
  {
    [EmptyEntry, HelpEntry, CdEntry, EchoEntry, PwdEntry, LsEntry, CatEntry, RmEntry]
  }

  /** The keys of an object literal are distinct, so each name finds at most one entry. */
  lemma RegistryKeysDistinct()
    ensures forall i, j :: 0 <= i < j < |Registry()| ==> Registry()[i].name != Registry()[j].name
  {
  }

  /** The first entry of `entries` with key `name`. */
  function FindEntry(entries: seq<Command>, name: string): (r: Option<Command>)
    ensures r.None? <==> forall i :: 0 <= i < |entries| ==> entries[i].name != name
    ensures r.Some? ==> r.value in entries && r.value.name == name
  {
    if entries == [] then None
    else if entries[0].name == name then Some(entries[0])
    else FindEntry(entries[1..], name)
  }

  /** An own property of `commands` named `name`, if there is one. */
  function FindCommand(name: string): (r: Option<Command>)
    ensures r.None? <==> forall i :: 0 <= i < |Registry()| ==> Registry()[i].name != name
    ensures r.Some? ==> r.value in Registry() && r.value.name == name
  {
    FindEntry(Registry(), name)
  }

  /** The line `help` shows for an entry. */
  function HelpLine(c: Command): string
  {
    c.name + ": " + c.description
  }

  /** The lines of the entries `help` does not hide, in order. */
  function HelpLines(entries: seq<Command>): seq<string>
  {
    if entries == [] then []
    else if entries[0].hide then HelpLines(entries[1..])
    else [HelpLine(entries[0])] + HelpLines(entries[1..])
  }

  /** Every entry `help` does not hide has its line, and every line belongs to such an entry. */
  lemma {:induction false} HelpLinesVisible(entries: seq<Command>)
    ensures forall e :: e in entries && !e.hide ==> HelpLine(e) in HelpLines(entries)
    ensures forall l :: l in HelpLines(entries) ==> exists e :: e in entries && !e.hide && l == HelpLine(e)
  {
    if entries != [] {
      HelpLinesVisible(entries[1..]);
      assert forall e :: e in entries[1..] ==> e in entries;
      assert forall e :: e in entries ==> e == entries[0] || e in entries[1..];
    }
  }

  /** What `help` prints. */
  function HelpText(): string
  {
    "Available commands:\n" + Join(HelpLines(Registry()), "\n")
  }

  /**
   * `help` prints one line for each of the seven visible commands, in
   * registry order, after its heading; the hidden empty command has none.
   */
  lemma HelpListsCommands()
    ensures HelpLines(Registry()) == [HelpLine(HelpEntry), HelpLine(CdEntry), HelpLine(EchoEntry), HelpLine(PwdEntry),
                                      HelpLine(LsEntry), HelpLine(CatEntry), HelpLine(RmEntry)]
  {
    var r := Registry();
    assert r[7..][1..] == [];
    var l7 := [HelpLine(RmEntry)];
    assert HelpLines(r[7..]) == l7;
    var l6 := [HelpLine(CatEntry)] + l7;
    assert HelpLines(r[6..]) == l6 by { assert r[6..][1..] == r[7..]; }
    var l5 := [HelpLine(LsEntry)] + l6;
    assert HelpLines(r[5..]) == l5 by { assert r[5..][1..] == r[6..]; }
    var l4 := [HelpLine(PwdEntry)] + l5;
    assert HelpLines(r[4..]) == l4 by { assert r[4..][1..] == r[5..]; }
    var l3 := [HelpLine(EchoEntry)] + l4;
    assert HelpLines(r[3..]) == l3 by { assert r[3..][1..] == r[4..]; }
    var l2 := [HelpLine(CdEntry)] + l3;
    assert HelpLines(r[2..]) == l2 by { assert r[2..][1..] == r[3..]; }
    var l1 := [HelpLine(HelpEntry)] + l2;
    assert HelpLines(r[1..]) == l1 by { assert r[1..][1..] == r[2..]; }
    assert HelpLines(r) == l1 by { assert r[1..] == r[1..]; }
  }

  /** No key of the registry is longer than four characters, so no longer name is found. */
  lemma LongNamesNotFound(name: string)
    ensures |name| > 4 ==> FindCommand(name).None?
  {
    var r := Registry();
    assert forall i :: 0 <= i < |r| ==> |r[i].name| <= 4;
  }

  /** `echo` is the fourth key. */
  lemma EchoIsRegistered()
    ensures FindCommand("echo") == Some(EchoEntry)
  {
    var r := Registry();
    assert r[0].name != "echo" && r[2].name != "echo";
    assert r[1].name != "echo" by {
      assert r[1].name[0] == 'h';
    }
    assert r[3].name == "echo";
  }

  /** The message for a name that is not a key of the registry. */
  function NotFound(name: string): string
  {
    "oli-shell: command not found: " + name
  }

  /** What running an entry prints and leaves. */
  function RunEntry(s: Snapshot, c: Command, args: seq<string>): (e: Effect)
    requires ValidTree(s.fileSystem)
    ensures ValidTree(e.state.fileSystem) && e.state.homeDirectory == s.homeDirectory
  {
    match c.action
    case Nothing => Effect("", s)
    case Help => Effect(HelpText(), s)
    case CdAction => Cd.CdEffect(s, args)
    case EchoAction => Effect(Echo.Echo(args), s)
    case PwdAction => Effect(Pwd.Pwd(s, args), s)
    case LsAction => Effect(Ls.Ls(s, args), s)
    case CatAction => Effect(Cat.Cat(s, args), s)
    case RmAction => Rm.RmEffect(s, args)
  }

  /** `runCommand(commandName, args, systemState)`, looking the name up among the registry's own keys. */
  function RunEffect(s: Snapshot, name: string, args: seq<string>): (e: Effect)
    requires ValidTree(s.fileSystem)
    ensures ValidTree(e.state.fileSystem) && e.state.homeDirectory == s.homeDirectory
  {
    match FindCommand(name)
    case None => Effect(NotFound(name), s)
    case Some(c) => RunEntry(s, c, args)
  }

  /** `runCommand`, running the stateful commands on the session object. */
  method RunCommand(name: string, args: seq<string>, st: SystemState) returns (output: string)
    requires st.Valid()
    modifies st`fileSystem, st`currentDirectory
    ensures st.Valid()
    ensures Effect(output, st.View()) == RunEffect(old(st.View()), name, args)
  {
    var command := FindCommand(name);
    if command.None? {
      return NotFound(name);
    }
    match command.value.action {
      case Nothing => output := "";
      case Help => output := HelpText();
      case CdAction => output := Cd.Cd(args, st);
      case EchoAction => output := Echo.Echo(args);
      case PwdAction => output := Pwd.Pwd(st.View(), args);
      case LsAction => output := Ls.Ls(st.View(), args);
      case CatAction => output := Cat.Cat(st.View(), args);
      case RmAction => output := Rm.Rm(args, st);
    }
  }

  /**
   * `input.trim().split(' ')`: one token per single space, empty tokens
   * included. No token holds a space, so the tokens are the words of the
   * trimmed line.
   */
  function Tokens(input: string): (r: seq<string>)
    ensures |r| >= 1 && Join(r, " ") == Trim(input)
    ensures forall i :: 0 <= i < |r| ==> ' ' !in r[i]
  {
    Split(Trim(input), ' ')
  }

  /** What `executeCommand` runs for a line: the first token with the remaining tokens as arguments. */
  function LineEffect(s: Snapshot, input: string): (e: Effect)
    requires ValidTree(s.fileSystem)
    ensures ValidTree(e.state.fileSystem) && e.state.homeDirectory == s.homeDirectory
  {
    var tokens := Tokens(input);
    RunEffect(s, tokens[0], SliceFrom(tokens, 1))
  }

  /** `CommandHistoryEntry`; the time stamp is whatever the caller passes in. */
  datatype HistoryEntry<Time> = HistoryEntry(command: string, directory: string, output: string, timestamp: Time)

  /**
   * `executeCommand(input, headerTime, systemState)`: the prompt directory
   * is taken before the command runs; the entry records the raw input.
   */
  method ExecuteCommand<Time>(input: string, headerTime: Time, st: SystemState) returns (entry: HistoryEntry<Time>)
    requires st.Valid()
    modifies st`fileSystem, st`currentDirectory
    ensures st.Valid()
    ensures st.View() == LineEffect(old(st.View()), input).state
    ensures entry == HistoryEntry(input, CurrentDirectoryPath(old(st.View()), true),
                                  LineEffect(old(st.View()), input).output, headerTime)
  {
    var directory := CurrentDirectoryPath(st.View(), true);
    var tokens := Split(Trim(input), ' ');
    var commandName := tokens[0];
    var args := SliceFrom(tokens, 1);
    var output := RunCommand(commandName, args, st);
    entry := HistoryEntry(input, directory, output, headerTime);
  }

  // ---------------------------------------------------------------------
  // Properties of the interpreter
  // ---------------------------------------------------------------------

  /** Every command keeps the shell consistent, and so does every line. */
  lemma RunKeepsConsistent(s: Snapshot, name: string, args: seq<string>)
    requires Consistent(s)
    ensures Consistent(RunEffect(s, name, args).state)
  {
    var c := FindCommand(name);
    if c.Some? {
      match c.value.action
      case CdAction => Cd.CdArrives(s, args);
      case RmAction => Rm.RmKeepsConsistent(s, args);
      case _ =>
    }
  }

  /** A line of the interpreter keeps the shell consistent. */
  lemma LineKeepsConsistent(s: Snapshot, input: string)
    requires Consistent(s)
    ensures Consistent(LineEffect(s, input).state)
  {
    var tokens := Tokens(input);
    RunKeepsConsistent(s, tokens[0], SliceFrom(tokens, 1));
  }

  /** A blank line runs the hidden empty command: it prints nothing and changes nothing. */
  lemma BlankLine(s: Snapshot, input: string)
    requires ValidTree(s.fileSystem)
    requires forall k :: 0 <= k < |input| ==> IsWhitespace(input[k])
    ensures LineEffect(s, input) == Effect("", s)
  {
    BlankTrimsToEmpty(input);
    assert Tokens(input) == [""];
  }

  /** A name that is no key of the registry is reported as not found, and nothing changes. */
  lemma UnknownCommand(s: Snapshot, name: string, args: seq<string>)
    requires ValidTree(s.fileSystem)
    requires forall i :: 0 <= i < |Registry()| ==> Registry()[i].name != name
    ensures RunEffect(s, name, args) == Effect(NotFound(name), s)
  {
  }

  /** `mkdir` and `touch` are implemented but not registered, so the shell does not find them. */
  lemma CreatorsNotRegistered(s: Snapshot, args: seq<string>)
    requires ValidTree(s.fileSystem)
    ensures RunEffect(s, "mkdir", args) == Effect(NotFound("mkdir"), s)
    ensures RunEffect(s, "touch", args) == Effect(NotFound("touch"), s)
  {
    LongNamesNotFound("mkdir");
    LongNamesNotFound("touch");
  }

  /** Trimming text that starts and ends with a character other than white space leaves it as it is. */
  lemma TrimKeeps(t: string)
    requires t != [] && !IsWhitespace(t[0]) && !IsWhitespace(t[|t| - 1])
    ensures Trim(t) == t
  {
    assert LeadingBlanks(t) == 0;
  }

  /**
   * `echo` followed by a space and `rest` prints `rest` exactly, inner runs
   * of spaces included: splitting on every single space and joining with
   * single spaces cancel out.
   */
  lemma EchoLine(s: Snapshot, rest: string)
    requires ValidTree(s.fileSystem)
    requires rest != [] && !IsWhitespace(rest[|rest| - 1])
    ensures LineEffect(s, "echo " + rest) == Effect(rest, s)
  {
    EchoTokens(rest);
    var tokens := Tokens("echo " + rest);
    assert SliceFrom(tokens, 1) == Split(rest, ' ');
    Echo.EchoOfSplit(rest);
    EchoIsRegistered();
    RunEcho(s, Split(rest, ' '));
  }

  /** The `echo` entry prints its arguments and changes nothing. */
  lemma RunEcho(s: Snapshot, args: seq<string>)
    requires ValidTree(s.fileSystem)
    ensures RunEntry(s, EchoEntry, args) == Effect(Echo.Echo(args), s)
  {
  }

  /** The tokens of `echo ` followed by `rest` are `echo` and the pieces of `rest`. */
  lemma EchoTokens(rest: string)
    requires rest != [] && !IsWhitespace(rest[|rest| - 1])
    ensures Tokens("echo " + rest) == ["echo"] + Split(rest, ' ')
  {
    var line := "echo " + rest;
    assert line[0] == 'e' && line[|line| - 1] == rest[|rest| - 1];
    TrimKeeps(line);
    EchoSplit(rest);
  }

  /** Splitting `echo ` followed by `rest` on spaces. */
  lemma EchoSplit(rest: string)
    ensures Split("echo " + rest, ' ') == ["echo"] + Split(rest, ' ')
  {
    assert "echo " == "echo" + [' '];
    assert "echo " + rest == ("echo" + [' ']) + rest;
    SplitCons("echo", ' ', rest);
  }

  // ---------------------------------------------------------------------
  // The lookup as the source writes it
  // ---------------------------------------------------------------------

  /** The properties every plain object inherits from `Object.prototype`. */
  const PrototypeMembers: seq<string> :=
    [ "constructor", "__defineGetter__", "__defineSetter__", "hasOwnProperty", "__lookupGetter__",
      "__lookupSetter__", "isPrototypeOf", "propertyIsEnumerable", "toString", "valueOf", "__proto__",
      "toLocaleString" ]

  /** Every inherited name is longer than any key of the registry. */
  lemma PrototypeMembersLong()
    ensures forall m :: m in PrototypeMembers ==> |m| > 4
  {
  }

  /** What `commands[commandName]` yields: an own entry, an inherited property, or `undefined`. */
  datatype PropertyLookup = Own(command: Command) | Inherited(property: string) | Undefined

  /** `commands[commandName]` as JavaScript evaluates it: own keys first, then `Object.prototype`. */
  function LookupAsWritten(name: string): (r: PropertyLookup)
    ensures r.Inherited? <==> FindCommand(name).None? && name in PrototypeMembers
  {
    PrototypeMembersLong();
    LongNamesNotFound(name);
    match FindCommand(name)
    case Some(c) => Own(c)
    case None => if name in PrototypeMembers then Inherited(name) else Undefined
  }

  /** The outcome of a call: a value, or an exception. */
  datatype Outcome = Returns(effect: Effect) | Throws(message: string)

  /**
   * `runCommand` as written: an inherited property passes the `!command`
   * test, being a function or an object, and then `command.execute` is
   * `undefined`, so the call throws a `TypeError`.
   */
  function RunAsWritten(s: Snapshot, name: string, args: seq<string>): (r: Outcome)
    requires ValidTree(s.fileSystem)
    ensures r.Throws? <==> name in PrototypeMembers
  {
    PrototypeMembersLong();
    LongNamesNotFound(name);
    match LookupAsWritten(name)
    case Undefined => Returns(Effect(NotFound(name), s))
    case Inherited(_) => Throws("TypeError: command.execute is not a function")
    case Own(c) => Returns(RunEntry(s, c, args))
  }

  /**
   * Typed as a line, `toString` (or any other inherited name) makes the
   * interpreter as written throw, where the intended behaviour, which
   * `RunEffect` gives, is the not-found message.
   */
  lemma PrototypeNameThrows(s: Snapshot, args: seq<string>)
    requires ValidTree(s.fileSystem)
    ensures RunAsWritten(s, "toString", args).Throws?
    ensures RunEffect(s, "toString", args) == Effect(NotFound("toString"), s)
  {
    ToStringInherited();
    LongNamesNotFound("toString");
    UnknownCommand(s, "toString", args);
  }

  /** `toString` is one of the inherited names. */
  lemma ToStringInherited()
    ensures "toString" in PrototypeMembers
  {
    assert PrototypeMembers[8] == "toString";
  }

  /** Away from the inherited names the interpreter as written and the corrected one agree. */
  lemma AsWrittenAgrees(s: Snapshot, name: string, args: seq<string>)
    requires ValidTree(s.fileSystem) && name !in PrototypeMembers
    ensures RunAsWritten(s, name, args) == Returns(RunEffect(s, name, args))
  {
    var c := FindCommand(name);
    assert LookupAsWritten(name) == if c.Some? then Own(c.value) else Undefined;
  }

  /** On the inherited names the corrected interpreter reports the name as not found. */
  lemma InheritedNotFound(s: Snapshot, name: string, args: seq<string>)
    requires ValidTree(s.fileSystem) && name in PrototypeMembers
    ensures RunEffect(s, name, args) == Effect(NotFound(name), s)
  {
    PrototypeMembersLong();
    LongNamesNotFound(name);
  }
}
