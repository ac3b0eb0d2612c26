/**
 * The older dispatcher: a list of command objects, a message split on single spaces, the
 * first command whose name and context match, and a count check that either overwrites the
 * chosen command's reply or runs the command on the remaining tokens.
 */
module CommandManager {
  import opened Wrappers
  import opened Text
  import opened LegacyCommands

  /** A row of the static-command table: context name, command name and reply. */
  datatype CommandEntity = CommandEntity(context: string, name: string, reply: string)

  /**
   * What `getAttemptedCommand` ends with: null for a message that is not a command, an
   * exception, or the command that was attempted (its `reply` holds the answer).
   */
  datatype Attempt = Ignored | Crashed | Attempted(command: Command)

  /** `parseCommandName`: the first token without its first character; `substring(1)` throws on an empty token. */
  function ParseCommandName(tokens: seq<string>): (r: Option<string>)
    requires |tokens| >= 1
    ensures r.None? <==> |tokens[0]| == 0
    ensures r.Some? ==> [tokens[0][0]] + r.value == tokens[0]
  {
    if |tokens[0]| == 0 then None else Some(tokens[0][1..])
  }

  /** `dropFirstItem`: nothing for fewer than two tokens, otherwise all tokens after the first. */
  function DropFirst(tokens: seq<string>): (r: seq<string>)
    ensures |tokens| >= 1 ==> [tokens[0]] + r == tokens
    ensures |tokens| == 0 ==> r == []
  {
    if |tokens| < 2 then [] else tokens[1..]
  }

  /** The filter of `getAttemptedCommand`: the same name, and usable everywhere or in this context. */
  predicate Matches(c: Command, name: string, context: CommandContext) {
    c.command == name && (c.context == BOTH || c.context == context)
  }

  /** The position of the first matching command in list order, if any. */
  function Select(cs: seq<Command>, name: string, context: CommandContext): (r: Option<nat>)
    ensures r.Some? ==> r.value < |cs| && Matches(cs[r.value], name, context)
    ensures r.Some? ==> forall k | 0 <= k < r.value :: !Matches(cs[k], name, context)
    ensures r.None? ==> forall k | 0 <= k < |cs| :: !Matches(cs[k], name, context)
  {
    if |cs| == 0 then None
    else if Matches(cs[0], name, context) then Some(0)
    else match Select(cs[1..], name, context)
      case None => None
      case Some(k) => Some(k + 1)
  }

  function InvalidCountMessage(name: string): string {
    "Invalid number of arguments passed to command `" + name + "`"
  }

  /** The first entity whose context name `valueOf` refuses, or the number of entities when there is none. */
  function FirstBadContext(entities: seq<CommandEntity>): (n: nat)
    ensures n <= |entities|
    ensures n < |entities| ==> ContextOf(entities[n].context).Err?
  {
    if |entities| == 0 then 0
    else if ContextOf(entities[0].context).Err? then 0
    else FirstBadContext(entities[1..]) + 1
  }

  /** Every entity before the first refused one has an accepted context name. */
  lemma {:induction false} FirstBadContextIsFirst(entities: seq<CommandEntity>)
    ensures forall k | 0 <= k < FirstBadContext(entities) :: ContextOf(entities[k].context).Ok?
  {
    if |entities| > 0 && ContextOf(entities[0].context).Ok? {
      FirstBadContextIsFirst(entities[1..]);
      forall k | 1 <= k < FirstBadContext(entities) ensures ContextOf(entities[k].context).Ok? {
        assert entities[k] == entities[1..][k - 1];
      }
    }
  }

  /** The constant part of a static command made from an entity: its name and context, doing nothing when run. */
  predicate Shaped(c: Command, e: CommandEntity) {
    && ContextName(c.context) == e.context && c.command == e.name
    && c.behaviour == NoOp && c.requireParameters == 0 && !c.isPrivateMessageResponse
  }

  /** A static command made from an entity: shaped after it, with its reply. */
  predicate Loaded(c: Command, e: CommandEntity)
    reads c
  {
    Shaped(c, e) && c.reply == e.reply
  }

  class Manager {
    const commandChar: char
    var commands: seq<Command>

    constructor(commandChar: char)
      ensures this.commandChar == commandChar && commands == []
    {
      this.commandChar := commandChar;
      commands := [];
    }

    /** `addCommand`: appends the command and returns the manager itself. */
    method AddCommand(command: Command) returns (self: Manager)
      modifies this`commands
      ensures commands == old(commands) + [command]
      ensures self == this
    {
      commands := commands + [command];
      self := this;
    }

    /**
     * `addStaticCommands`: a static command per entity, appended in order. The first entity
     * whose context name is refused throws out of the loop (`failure`), and the commands
     * appended before it stay.
     */
    method AddStaticCommands(entities: seq<CommandEntity>) returns (self: Manager, failure: Option<string>)
      modifies this`commands
      ensures self == this
      ensures var n := FirstBadContext(entities);
        && failure == (if n < |entities| then Some(ContextOf(entities[n].context).error) else None)
        && |commands| == |old(commands)| + n
        && commands[..|old(commands)|] == old(commands)
        && forall k | 0 <= k < n :: fresh(commands[|old(commands)| + k]) && Loaded(commands[|old(commands)| + k], entities[k])
    {
      self := this;
      var n := FirstBadContext(entities);
      ghost var before := commands;
      ghost var added: seq<Command> := [];
      var i := 0;
      while i < |entities|
        invariant 0 <= i <= n
        invariant |added| == i
        invariant commands == before + added
        invariant forall k | 0 <= k < i :: fresh(added[k])
        invariant forall k | 0 <= k < i :: Shaped(added[k], entities[k])
        invariant forall k | 0 <= k < i :: added[k].reply == entities[k].reply
      {
        var made := NewStaticCommand(entities[i].context, entities[i].name, entities[i].reply);
        if made.Err? {
          FirstBadContextIsFirst(entities);
          assert i == n;
          AppendedAt(before, added);
          return this, Some(made.error);
        }
        var c := made.value;
        ShapedAppend(added, c, entities, i);
        AppendAssociates(before, added, c);
        commands := commands + [c];
        added := added + [c];
        i := i + 1;
      }
      AppendedAt(before, added);
      failure := None;
    }

    /**
     * `getAttemptedCommand(context, message)`: null unless the message starts with the command
     * character; otherwise the first command of the list matching the first token's name and
     * the context (a fresh ErrorCommand if none does), whose reply is overwritten with the
     * invalid-count message when fewer tokens follow than it needs, and which is run on the
     * tokens after the first otherwise. No other command changes. The filter is lazy: the
     * name is only parsed, and an empty first token only throws, when there is a command.
     */
    method GetAttemptedCommand(context: CommandContext, message: string) returns (r: Attempt)
      modifies commands
      ensures r.Ignored? <==> |message| == 0 || message[0] != commandChar
      ensures r.Crashed? <==> (!r.Ignored? && |commands| > 0 && (
        var tokens := Split(message, ' ');
        || ParseCommandName(tokens).None?
        || (match Select(commands, ParseCommandName(tokens).value, context)
            case None => false
            case Some(k) =>
              && commands[k].behaviour == Apply
              && |tokens| - 1 >= commands[k].requireParameters
              && |DropFirst(tokens)| == 0)))
      ensures r.Attempted? ==>
        var tokens := Split(message, ' ');
        match if |commands| == 0 then None else Select(commands, ParseCommandName(tokens).value, context)
        case None =>
          && fresh(r.command) && r.command.context == BOTH && r.command.command == ""
          && r.command.reply == INVALID_COMMAND
        case Some(k) =>
          && r.command == commands[k]
          && r.command.reply ==
            if |tokens| - 1 < r.command.requireParameters then InvalidCountMessage(r.command.command)
            else ReplyAfterRun(r.command.behaviour, old(commands[k].reply), DropFirst(tokens))
      ensures forall k | 0 <= k < |commands| && !(r.Attempted? && r.command == commands[k]) ::
        commands[k].reply == old(commands[k].reply)
    {
      if |message| == 0 || message[0] != commandChar {
        return Ignored;
      }
      var tokens := Split(message, ' ');
      SplitStartsWith(message, ' ');
      // The filter compares names lazily, so `parseCommandName` only runs when there is a command.
      var found: Option<nat> := None;
      if |commands| > 0 {
        if |tokens[0]| == 0 {
          return Crashed;
        }
        found := Select(commands, tokens[0][1..], context);
      }
      var executedCommand: Command;
      if found.Some? {
        executedCommand := commands[found.value];
      } else {
        executedCommand := new Command.ErrorCommand();
      }
      if |tokens| - 1 < executedCommand.requireParameters {
        executedCommand.reply := InvalidCountMessage(executedCommand.command);
      } else {
        var threw := executedCommand.RunCommand(DropFirst(tokens));
        if threw {
          return Crashed;
        }
      }
      r := Attempted(executedCommand);
    }
  }

  /** A command shaped after the next entity extends a run of shaped commands. */
  lemma ShapedAppend(added: seq<Command>, c: Command, entities: seq<CommandEntity>, i: nat)
    requires |added| == i < |entities|
    requires forall k | 0 <= k < i :: Shaped(added[k], entities[k])
    requires ContextName(c.context) == entities[i].context && c.command == entities[i].name
    requires c.behaviour == NoOp && c.requireParameters == 0 && !c.isPrivateMessageResponse
    ensures forall k | 0 <= k < i + 1 :: Shaped((added + [c])[k], entities[k])
  {
    forall k | 0 <= k < i + 1 ensures Shaped((added + [c])[k], entities[k]) {
      if k < i {
        assert (added + [c])[k] == added[k];
      }
    }
  }

  lemma AppendAssociates<T>(before: seq<T>, added: seq<T>, x: T)
    ensures before + added + [x] == before + (added + [x])
  {
  }

  /** What was appended sits right after what was there. */
  lemma AppendedAt<T>(before: seq<T>, added: seq<T>)
    ensures (before + added)[..|before|] == before
    ensures forall k | 0 <= k < |added| :: (before + added)[|before| + k] == added[k]
  {
  }

  /** The first part of a split is the text before the first delimiter. */
  lemma SplitStartsWith(s: string, delimiter: char)
    ensures StartsWith(s, Split(s, delimiter)[0])
    ensures |s| > 0 ==> (|Split(s, delimiter)[0]| == 0 <==> s[0] == delimiter)
  {
  }

  /** A join is its first part followed, when there are more, by the separator and the join of the rest. */
  lemma JoinHead(parts: seq<string>, separator: string)
    requires |parts| >= 1
    ensures Join(parts, separator) == parts[0] + (if |parts| > 1 then separator + Join(parts[1..], separator) else "")
  {
  }

  /**
   * The pieces `getAttemptedCommand` works from rebuild the message: the command character,
   * the name, then the tokens after the first separated by single spaces.
   */
  lemma TokensRebuildMessage(message: string)
    requires |message| > 0 && message[0] != ' '
    ensures var tokens := Split(message, ' ');
      && ParseCommandName(tokens).Some?
      && message == [message[0]] + ParseCommandName(tokens).value
                    + (if |tokens| > 1 then " " + Join(DropFirst(tokens), " ") else "")
  {
    var tokens := Split(message, ' ');
    SplitStartsWith(message, ' ');
    JoinSplit(message, ' ');
    assert [' '] == " ";
    JoinHead(tokens, " ");
    assert |tokens| > 1 ==> DropFirst(tokens) == tokens[1..];
  }
}
