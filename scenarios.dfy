/**
 * The behaviours the repository's own tests pin down, stated about the model: the quoting
 * rules of the argument tokenizer with a space as command character, the failure boundary,
 * the not-authorized reply of an empty role list, and the binding of optional, default and
 * vararg slots.
 */
module Scenarios {
  import opened Wrappers
  import opened Text
  import opened Arguments
  import opened Commands
  import opened Dsl
  import opened Executor
  import opened Builtins

  const TESTER: Sender := Sender("tester", [])

  /** `reply { args.joinToString() }` over a single vararg slot. */
  function JoinedVararg(f: Frame): HandlerResult {
    if |f| == 1 && f[0].Values? then Replied(Join(f[0].values, ", "), []) else Threw
  }

  /** `command { val args by vararg(); reply { args.joinToString() } }`. */
  const IdCommand: Command :=
    Command(false, NOT_AUTHORIZED, None, None, [Vararg("args")], (s: Sender, f: Frame) => JoinedVararg(f))

  /** The joining command binds every token to its vararg and answers them joined by ", ". */
  lemma IdRun(sender: Sender, args: seq<string>)
    ensures Run(IdCommand, sender, args) == Returned(CommandResponse(false, Join(args, ", "), []))
  {
    var ps := IdCommand.parameters;
    LayoutCounts(ps, 0, 0, true);
    BindOutcome(ps, args);
    assert args[0..] == args;
    var frame := Bind(ps, args).value;
    assert frame == [Values(args)];
  }

  /**
   * Whatever the command character and the name it is registered under, the joining command
   * answers a line of well-written arguments with their texts joined by ", ", and with no
   * response when that join is empty.
   */
  lemma IdAnswersJoinedArguments(commandChar: char, name: string, sender: Sender, ws: seq<Written>)
    requires |name| > 0 && NoSpace(name)
    requires forall i | 0 <= i < |ws| :: WellWritten(ws[i])
    ensures var joined := Join(Texts(ws), ", ");
      Execute(commandChar, map[name := IdCommand], sender, [commandChar] + name + Render(ws)) ==
        if joined == "" then None else Some(CommandResponse(false, joined, []))
  {
    IdRun(sender, Texts(ws));
    DispatchRendered(commandChar, map[name := IdCommand], sender, name, ws);
  }

  /** The written form of `"text" word word` after a prefix, and what the joining command makes of it. */
  lemma QuotedThenTwice(prefix: string, text: string, word: string)
    ensures var ws := [Quoted(" ", text), Bare(" ", word), Bare(" ", word)];
      && prefix + Render(ws) == prefix + " \"" + text + "\" " + word + " " + word
      && Join(Texts(ws), ", ") == text + ", " + word + ", " + word
  {
    var ws := [Quoted(" ", text), Bare(" ", word), Bare(" ", word)];
    assert Render(ws[2..]) == " " + word;
    assert Render(ws[1..]) == " " + word + " " + word;
    assert Texts(ws) == [text, word, word] by {
      assert Texts(ws[2..]) == [word];
      assert Texts(ws[1..]) == [word, word];
    }
    assert Join([word], ", ") == word;
    assert Join([word, word], ", ") == word + ", " + word;
  }

  /**
   * ` id "ban capo ?" yes yes` answers `ban capo ?, yes, yes`: a quoted token keeps its
   * spaces and loses its quotes, and bare words follow it in order, whatever the command
   * character (a space included).
   */
  lemma QuotedArgumentKeepsSpaces(commandChar: char, name: string, sender: Sender, text: string, word: string)
    requires |name| > 0 && NoSpace(name)
    requires '"' !in text
    requires |word| > 0 && NoSpace(word) && word[0] != '"'
    ensures Execute(commandChar, map[name := IdCommand], sender, [commandChar] + name + " \"" + text + "\" " + word + " " + word) ==
      Some(CommandResponse(false, text + ", " + word + ", " + word, []))
  {
    var ws := [Quoted(" ", text), Bare(" ", word), Bare(" ", word)];
    QuotedThenTwice([commandChar] + name, text, word);
    IdAnswersJoinedArguments(commandChar, name, sender, ws);
  }

  /**
   * ` id """` answers `Invalid argument`: a quote glued to a closed quoted token spoils the
   * line, whatever the command character, the name and the commands.
   */
  lemma GluedQuoteIsInvalidArgument(commandChar: char, commands: map<string, Command>, sender: Sender, name: string)
    requires |name| > 0 && NoSpace(name)
    ensures Execute(commandChar, commands, sender, [commandChar] + name + " \"\"\"") == Some(INVALID_ARGUMENT)
  {
    var rest := Piece(Quoted(" ", "")) + "\"";
    assert rest == " \"\"\"";
    assert IsSpace(' ');
    GluedAfterQuoteRejected(" ", "", "\"");
    UntokenizableRejected(commandChar, commands, sender, name, rest);
  }

  /** The handler of `.rip`: it always throws. */
  const RipCommand: Command := Command(false, NOT_AUTHORIZED, None, None, [], (s: Sender, f: Frame) => Threw)

  /** `.rip` answers with the generic error reply. */
  lemma ThrowingHandlerGivesErrorReply()
    ensures Execute('.', map["rip" := RipCommand], TESTER, ".rip") == Some(CommandResponse(false, ERROR_REPLY, []))
  {
    var ws: seq<Written> := [];
    assert Texts(ws) == [];
    LayoutCounts(RipCommand.parameters, 0, 0, false);
    assert Bindable(RipCommand.parameters, []);
    assert Run(RipCommand, TESTER, []) == Thrown;
    DispatchRendered('.', map["rip" := RipCommand], TESTER, "rip", ws);
    assert ['.'] + "rip" + Render(ws) == ".rip";
  }

  /** `,authorized` is declared with an empty role list. */
  const LockedCommand: Command := Command(false, NOT_AUTHORIZED, Some([]), None, [], (s: Sender, f: Frame) => Replied("yes !", []))

  /** `,authorized` answers the not-authorized text, whoever sends it. */
  lemma EmptyRoleListAnswersNotAuthorized(sender: Sender)
    ensures Execute(',', map["authorized" := LockedCommand], sender, ",authorized") == Some(CommandResponse(false, NOT_AUTHORIZED, []))
  {
    var ws: seq<Written> := [];
    assert Texts(ws) == [];
    EmptyRoleListLocksOut(LockedCommand, sender.roles);
    assert Run(LockedCommand, sender, []) == Returned(CommandResponse(false, NOT_AUTHORIZED, []));
    assert |NOT_AUTHORIZED| > 0;
    DispatchRendered(',', map["authorized" := LockedCommand], sender, "authorized", ws);
    assert [','] + "authorized" + Render(ws) == ",authorized";
  }

  /** A line of the command name and one bare word reaches the command with that word alone. */
  lemma DispatchOneWord(commandChar: char, name: string, c: Command, sender: Sender, word: string)
    requires |name| > 0 && NoSpace(name)
    requires |word| > 0 && NoSpace(word) && word[0] != '"'
    ensures Execute(commandChar, map[name := c], sender, [commandChar] + name + " " + word) ==
      Normalise(c, Run(c, sender, [word]))
  {
    var ws := [Bare(" ", word)];
    assert Texts(ws) == [word];
    assert Render(ws) == " " + word;
    assert [commandChar] + name + Render(ws) == [commandChar] + name + " " + word;
    DispatchRendered(commandChar, map[name := c], sender, name, ws);
  }

  /**
   * `,apply fish` answers the request to name a role: a one-word argument reaches the apply
   * command and picks its reply, whatever name the command is registered under.
   */
  lemma ApplyAnswersByRole(commandChar: char, name: string, sender: Sender, role: string)
    requires |name| > 0 && NoSpace(name)
    requires |role| > 0 && NoSpace(role) && role[0] != '"'
    ensures Execute(commandChar, map[name := ApplyCommand], sender, [commandChar] + name + " " + role) ==
      Some(CommandResponse(false, ApplyReply(role), []))
  {
    ApplyRun(sender, role);
    ApplyReplyNonEmpty(role);
    DispatchOneWord(commandChar, name, ApplyCommand, sender, role);
  }

  /** `reply { arg ?: "42" }` over one optional slot. */
  function OptionalOr42(f: Frame): HandlerResult {
    if |f| == 1 && f[0].Value? then Replied(f[0].value, [])
    else if |f| == 1 && f[0].Absent? then Replied("42", [])
    else Threw
  }

  const OptionalCommand: Command :=
    Command(false, NOT_AUTHORIZED, None, None, [Optional("arg")], (s: Sender, f: Frame) => OptionalOr42(f))

  /** An optional slot binds the token when there is one and nothing otherwise. */
  lemma OptionalSlot(sender: Sender, arg: string)
    ensures Run(OptionalCommand, sender, []) == Returned(CommandResponse(false, "42", []))
    ensures Run(OptionalCommand, sender, [arg]) == Returned(CommandResponse(false, arg, []))
  {
    var ps := OptionalCommand.parameters;
    LayoutCounts(ps, 0, 1, false);
    assert BindSlot(ps[0], [], 0) == Some(Absent);
    assert Bindable(ps, []);
    assert Bind(ps, []).value[0] == Absent;
    assert BindSlot(ps[0], [arg], 0) == Some(Value(arg));
    assert Bindable(ps, [arg]);
    assert Bind(ps, [arg]).value[0] == Value(arg);
  }

  /** A default slot falls back to its value when no token is left for it. */
  lemma DefaultSlot(arg: string)
    ensures Bind([Default("arg", "42")], []) == Some([Value("42")])
    ensures Bind([Default("arg", "42")], [arg]) == Some([Value(arg)])
  {
    var ps := [Default("arg", "42")];
    assert BindSlot(ps[0], [], 0) == Some(Value("42"));
    assert Bindable(ps, []);
    assert Bind(ps, []).value[0] == Value("42");
    assert Bind(ps, []).value == [Value("42")];
    assert BindSlot(ps[0], [arg], 0) == Some(Value(arg));
    assert Bindable(ps, [arg]);
    assert Bind(ps, [arg]).value[0] == Value(arg);
    assert Bind(ps, [arg]).value == [Value(arg)];
  }

  /** `,vararg lol 1 2 3` binds `lol` to the required slot and the rest, in order, to the vararg. */
  lemma VarargTakesTheRest()
    ensures Bind([Required("first"), Vararg("rest")], ["lol", "1", "2", "3"]) ==
      Some([Value("lol"), Values(["1", "2", "3"])])
    ensures Bind([Required("first"), Vararg("rest")], ["lol"]) == Some([Value("lol"), Values([])])
  {
    var ps := [Required("first"), Vararg("rest")];
    var long := ["lol", "1", "2", "3"];
    LayoutCounts(ps, 1, 0, true);
    BindOutcome(ps, long);
    BindOutcome(ps, ["lol"]);
    assert long[1..] == ["1", "2", "3"];
    assert Bind(ps, long).value[0] == Value("lol");
    assert Bind(ps, long).value == [Value("lol"), Values(["1", "2", "3"])];
    assert Bind(ps, ["lol"]).value[1] == Values([]);
    assert Bind(ps, ["lol"]).value == [Value("lol"), Values([])];
  }
}
